/** `NomadHub.Handler` after the websocket upgrade: pick the region from the
    path, then either run the handshake, reject the region, or bind a new
    connection to the region's client and event channel. */
module Handler {
  import opened Lookups
  import opened Actions
  import opened Routing
  import opened Handshake
  import opened Regions

  /** What `NewConnection` is given: the region's client (nil, here
      `Missing`, when the client map lacks the region) and its event channel.
      `NewConnection` is not passed the region itself; the `region` field
      exists only in the model, to say which key the binding came from. */
  datatype Binding<Cl, Ch> = Binding(region: string, client: Found<Cl>, channel: Ch)

  datatype Route<Cl, Ch> =
    | RunHandshake
    | SendUnknownRegion(action: Action)
    | BindConnection(binding: Binding<Cl, Ch>)

  /** The three-way routing decision on an extracted region. Only a region
      that is a key of the channel map leads to a connection. */
  function RouteRegion<Cl, Ch>(region: string, channels: map<string, Ch>, clients: map<string, Cl>)
    : (r: Route<Cl, Ch>)
    ensures r.RunHandshake? <==> region == ""
    ensures r.SendUnknownRegion? <==> region != "" && region !in channels
    ensures r.BindConnection? <==> region != "" && region in channels
    ensures r.SendUnknownRegion? ==> r.action == UnknownRegionAction
    ensures r.BindConnection? ==>
      && r.binding.region == region
      && r.binding.channel == channels[region]
      && (r.binding.client.Found? <==> region in clients)
      && (region in clients ==> r.binding.client.value == clients[region])
  {
    if region == "" then RunHandshake
    else if region !in channels then SendUnknownRegion(UnknownRegionAction)
    else BindConnection(Binding(region, Lookup(clients, region), channels[region]))
  }

  /** What one request leads to: the envelopes written on the socket by the
      hub itself, and the connection built, if any. */
  datatype Outcome<Cl, Ch> = Outcome(writes: seq<Action>, connection: Found<Binding<Cl, Ch>>)

  /** One request, from its path to its outcome. `inbox` holds the outcomes
      of the reads the handshake would perform. */
  method Handle<Cl, Ch>(path: string, channels: map<string, Ch>, clients: map<string, Cl>,
                        inbox: seq<Read>)
    returns (out: Outcome<Cl, Ch>)
    // a connection is built exactly when the path names a known region
    ensures out.connection.Found? <==> ExtractRegion(path) != "" && ExtractRegion(path) in channels
    ensures out.connection.Found? ==>
      && out.connection.value.region == ExtractRegion(path)
      && out.connection.value.channel == channels[ExtractRegion(path)]
      && out.connection.value.client == Lookup(clients, ExtractRegion(path))
      && out.writes == []
    // no region: the handshake, one prompt plus one per successful read
    ensures ExtractRegion(path) == "" ==>
      && |out.writes| == FirstFailure(inbox) + 1
      && (forall i :: 0 <= i < |out.writes| ==> out.writes[i] == out.writes[0])
      && (out.writes[0].kind == SetNomadRegion <==> |channels| == 1)
      && (|channels| == 1 ==>
            out.writes[0].payload.Text? && channels.Keys == {out.writes[0].payload.text})
      && (|channels| != 1 ==>
            out.writes[0].payload.Names? && IsEnumeration(out.writes[0].payload.names, channels.Keys))
      && (exists regions :: IsEnumeration(regions, channels.Keys) &&
            out.writes == Session(Prompt(regions), inbox))
    // an unknown region: exactly one unknown-region envelope
    ensures ExtractRegion(path) != "" && ExtractRegion(path) !in channels ==>
      out.writes == [UnknownRegionAction]
  {
    var region := ExtractRegion(path);
    match RouteRegion(region, channels, clients)
    case RunHandshake =>
      var regions, writes := RequireNomadRegion(channels, inbox);
      PromptChoice(channels, regions);
      out := Outcome(writes, Missing);
    case SendUnknownRegion(action) =>
      out := Outcome([action], Missing);
    case BindConnection(binding) =>
      out := Outcome([], Found(binding));
  }

  /** A hub with the single region "us-east": a request without a region
      is told to adopt "us-east". */
  lemma ScenarioSingleRegion<Ch>(channels: map<string, Ch>, regions: seq<string>)
    requires channels.Keys == {"us-east"}
    requires IsEnumeration(regions, channels.Keys)
    ensures Prompt(regions) == Action(SetNomadRegion, Text("us-east"))
  {
    PromptChoice(channels, regions);
  }

  /** A hub with regions "us-east" and "eu-west": the prompt lists both, in
      map order, and every message read back draws the same prompt again. */
  lemma ScenarioTwoRegions<Ch>(channels: map<string, Ch>, regions: seq<string>, msg: Action)
    requires channels.Keys == {"us-east", "eu-west"}
    requires IsEnumeration(regions, channels.Keys)
    ensures regions == ["us-east", "eu-west"] || regions == ["eu-west", "us-east"]
    ensures Prompt(regions) == Action(FetchedNomadRegions, Names(regions))
    ensures Session(Prompt(regions), [Received(msg), Failed]) == [Prompt(regions), Prompt(regions)]
  {
    EnumerationSize(regions, channels.Keys);
    assert |channels.Keys| == 2;
    assert regions[0] in channels.Keys && regions[1] in channels.Keys;
    var two := [Received(msg), Failed];
    assert FirstFailure(two) == 1 by {
      assert two[0].Received? && two[1].Failed?;
    }
  }

  /** A request for "/ws/nomad/mars" on a hub that has no "mars" region is
      answered with the unknown-region envelope alone. */
  lemma ScenarioUnknownRegion<Cl, Ch>(channels: map<string, Ch>, clients: map<string, Cl>)
    requires "mars" !in channels
    ensures RouteRegion(ExtractRegion("/ws/nomad/mars"), channels, clients)
         == SendUnknownRegion(UnknownRegionAction)
  {
    assert "/ws/nomad/mars" == Prefix + "mars";
    ExtractRegionOfPrefixed("mars");
  }
}
