/** The `{Type, Payload}` envelope the hub writes to a websocket. */
module Actions {

  /** The discriminator of an envelope. The hub itself only emits the first
      three; anything a client sends is carried as `Other`. The wire spelling
      of the unknown-region sentinel is not part of this model, so it is an
      opaque constructor rather than a string. */
  datatype ActionType =
    | SetNomadRegion        // "SET_NOMAD_REGION"
    | FetchedNomadRegions   // "FETCHED_NOMAD_REGIONS"
    | UnknownNomadRegion    // the unknown-region sentinel
    | Other(name: string)

  /** The payload shapes the hub produces: one region name (possibly empty)
      or a list of region names. */
  datatype Payload = Text(text: string) | Names(names: seq<string>)

  datatype Action = Action(kind: ActionType, payload: Payload)

  /** The single envelope sent when a request names a region the hub does
      not know. */
  const UnknownRegionAction: Action := Action(UnknownNomadRegion, Text(""))
}
