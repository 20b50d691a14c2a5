# Nomad hub: connection registry, region routing and region handshake

This project models the decision logic of `NomadHub`, the websocket hub of
hashi-ui's backend. It has no sockets, goroutines or JSON. The hub does three
things:

- **Registry.** `Run` owns the set of live connections. Each iteration of its
  `select` takes one register or unregister command, so the loop is modelled
  as a left fold of a pure `Step` over a command sequence (`Registry.Run`). The
  state is the live set, a log of closed send queues, and the region list taken
  when the hub is built.
- **Routing.** `Handler` reads the region from the request path: the part after
  `/ws/nomad/`, or `""` when the path lacks that prefix. It then makes a
  three-way decision. An empty region runs the handshake. A region that is not
  a key of the channel map gets one unknown-region envelope. A known region is
  bound to a new connection with that region's client and channel.
- **Handshake.** `requireNomadRegion` lists the keys of the channel map as they
  are when it is called. With exactly one key it sends `SET_NOMAD_REGION`
  naming that key; otherwise it sends `FETCHED_NOMAD_REGIONS` with the list.
  It then answers every message it reads with the same envelope, and stops at
  the first failed read.

Go leaves the iteration order of a map unspecified. A key listing is therefore
any sequence that holds every key exactly once (`Regions.IsEnumeration`).
`Regions.EnumerateKeys` builds one with an unconstrained choice of the next key,
and every property about the prompt holds for every listing.

The handshake lists the channel map as it is when the handshake runs
(`backend/nomad_hub.go:97`), so a region added after startup is offered. The
`regions` snapshot that `NewNomadHub` stores (`backend/nomad_hub.go:30-34`) is
never read after construction. `Handler.Handle` therefore takes the channel map
directly. The snapshot in `Registry.Hub` is kept unchanged by `Registry.Run`
but is never used.

Modules: `Lookups` (found-or-missing results, Go's zero-value map lookup),
`Actions` (the envelope), `Regions` (key listings), `Registry` (`NewNomadHub`, `Run`),
`Routing` (path to region), `Handshake` (`requireNomadRegion`) and `Handler`
(`Handler`, plus the concrete scenarios).

## Model

| member | source | states |
|---|---|---|
| Lookups.Lookup | backend/nomad_hub.go:90 | `(*h.clients)[region]` gives the stored client when the region is a key, and Go's nil zero value (`Missing`) when it is not |
| Regions.EnumerateKeys | backend/nomad_hub.go:95-99 | the range-and-append loop yields every map key exactly once, with no other element, in an unspecified order |
| Registry.NewNomadHub | backend/nomad_hub.go:29-45 | a new hub has no live connections and has closed nothing; its region list holds each channel-map key exactly once |
| Registry.Step | backend/nomad_hub.go:53-60 | register makes the handle live, moves no other handle, closes nothing, and is a no-op for a live handle; unregister of a handle that is not live changes nothing; unregister of a live handle removes only that handle and appends exactly that handle to the close log; the region list never changes |
| Registry.UnregisterTwiceClosesOnce | backend/nomad_hub.go:56-60 | a second unregister right after the first has no effect, so the handle's queue is closed at most once more than before |
| Registry.Run | backend/nomad_hub.go:49-63 | the loop over a command sequence never changes the region snapshot, and it never undoes a close: the close log only grows, by at most one entry per command. Its live set is characterised by `Registry.LiveSetIsLastRegistered` and its closes by `Registry.ClosedIffRegisteredThenUnregistered` and `Registry.ClosedAtMostOnce` |
| Registry.LiveSetIsLastRegistered | backend/nomad_hub.go:49-63 | for every command sequence and start state, a handle is live at the end exactly when the last command about it was a register, or no command mentioned it and it was live at the start |
| Registry.ClosedIffRegisteredThenUnregistered | backend/nomad_hub.go:53-60 | from an empty hub, a handle's send queue has been closed exactly when some register of it was later followed by an unregister of it |
| Registry.ClosedAtMostOnce | backend/nomad_hub.go:49-63 | from an empty hub, if no handle is registered again after being unregistered, the close log has no duplicates: no send queue is closed twice |
| Routing.HasPrefix | backend/nomad_hub.go:74 | `strings.HasPrefix(s, p)` holds exactly when `p` is no longer than `s` and matches its start character by character, and then `s` is `p` followed by the rest; `Routing.ExtractRegion` uses it to pick the suffix |
| Routing.FindFirst | backend/nomad_hub.go:75 | the first index at or after `from` where the pattern occurs, with no occurrence before it; `Missing` only when the pattern occurs nowhere at or after `from` |
| Routing.ReplaceFirst | backend/nomad_hub.go:75 | `strings.Replace(s, pat, rep, 1)` leaves the string unchanged when the pattern does not occur anywhere, and replaces an occurrence at the start by `rep` |
| Routing.ReplaceFirstIsFirstOccurrence | backend/nomad_hub.go:75 | wherever the first occurrence of the pattern lies, exactly that occurrence is replaced by `rep`; the text before and after it is kept |
| Routing.ExtractRegion | backend/nomad_hub.go:73-76 | a path that starts with `/ws/nomad/` yields exactly its suffix after that prefix; any other path yields `""` |
| Routing.ExtractRegionOfPrefixed | backend/nomad_hub.go:73-76 | prefixing a region with `/ws/nomad/` and extracting gives that region back |
| Routing.RegionEmptyIff | backend/nomad_hub.go:73-78 | the region is empty, and the handshake runs, exactly when the path lacks the prefix or is the bare prefix |
| Routing.ExtractNestedRegion | backend/nomad_hub.go:73-76 | `/ws/nomad/a/b` gives the region `a/b` |
| Routing.ExtractRepeatedPrefix | backend/nomad_hub.go:75 | only the first occurrence of the prefix is removed: `/ws/nomad//ws/nomad/` gives `/ws/nomad/` |
| Routing.ExtractNoRegion | backend/nomad_hub.go:73-76 | the bare prefix `/ws/nomad/` and the unprefixed `/ws/nomad` both give `""` |
| Handler.RouteRegion | backend/nomad_hub.go:78-91 | each region gets exactly one of three outcomes: handshake iff empty; the unknown-region envelope iff non-empty and not a channel key; a connection iff non-empty and a channel key, bound to that region's channel and client |
| Handler.Handle | backend/nomad_hub.go:73-91 | a connection is built exactly when the region extracted from the path is a known channel key, bound to that region's channel and client, and the hub writes nothing itself then; an unknown region draws exactly one unknown-region envelope; no region draws the handshake trace: for some listing of the channel keys, the prompt for that listing and then one copy per successful read before the first failure. That prompt is `SET_NOMAD_REGION` naming the only key when the map has one key, and otherwise carries a listing of every key |
| Handshake.Prompt | backend/nomad_hub.go:101-113 | the prompt's type is `SET_NOMAD_REGION` exactly for a one-region listing, and then the payload is that single name; otherwise it is `FETCHED_NOMAD_REGIONS` and the payload is the listing itself. `Handshake.PromptChoice` relates the listing to the channel map |
| Handshake.PromptChoice | backend/nomad_hub.go:95-113 | for any listing of the keys, one key gives `SET_NOMAD_REGION` naming that key; zero or several give `FETCHED_NOMAD_REGIONS` with a list holding each key exactly once and nothing else |
| Handshake.FirstFailure | backend/nomad_hub.go:117-122 | the number of successful reads before the first failed read: every earlier read succeeded, and the read at that index failed unless the inbox ran out |
| Handshake.Replies | backend/nomad_hub.go:118-130 | the read loop writes one copy of the prompt per successful read before the first failure, and nothing else |
| Handshake.Session | backend/nomad_hub.go:115-130 | the handshake writes the prompt, then one identical copy per successful read before the first failure |
| Handshake.SessionStopsAtFailure | backend/nomad_hub.go:119-122 | reads after the first failed read have no influence on what is written |
| Handshake.RequireNomadRegion | backend/nomad_hub.go:94-131 | the imperative loop lists each channel key once, and writes `FirstFailure + 1` envelopes, all equal to the prompt for that listing |
| Handler.ScenarioSingleRegion | backend/nomad_hub.go:103-107 | with the single region `us-east`, the prompt is `{SET_NOMAD_REGION, "us-east"}` |
| Handler.ScenarioTwoRegions | backend/nomad_hub.go:108-130 | with regions `us-east` and `eu-west`, the prompt is `FETCHED_NOMAD_REGIONS` with the two names in one of the two orders; a message read back draws the same prompt again |
| Handler.ScenarioUnknownRegion | backend/nomad_hub.go:73-88 | `/ws/nomad/mars` with no `mars` region routes to the unknown-region envelope and to no connection |

## Left out

- The websocket upgrade, its failure path and the accept-all `CheckOrigin` (lines 11-14 and 67-71). These are transport plumbing over the gorilla library. The model starts after a successful upgrade.
- JSON encoding and decoding. A write appends an `Action` to the output trace. A read is an abstract `Received(msg)` or `Failed`. Write errors are only logged (lines 127-129, 133-136), so they do not change the trace.
- Go channels, `select` and goroutine scheduling. `Run` is a fold over the commands in arrival order. How commands from different connections interleave is a concurrency question outside the model.
- `NewConnection` and `Connection.Handle` are not part of this model. Routing stops at the `BindConnection` outcome. The register and unregister commands those pumps send are the inputs of `Registry.Run`.
- `NomadCluster`, `NomadRegionChannels` and `NomadRegionClients` are treated as maps from region name to opaque values.
- The wire string of `unknownNomadRegion` is not shown, so it is the opaque constructor `UnknownNomadRegion`.
- Logging calls.
- Strings are sequences of Unicode characters. Go's `r.URL.Path` and the map keys are byte strings, and a percent-decoded path such as `/ws/nomad/%FF` can hold bytes that are not valid UTF-8; the model cannot represent such a path. The prefix `/ws/nomad/` is ASCII, so a valid UTF-8 path gets the same region in the model as in Go.
- Handshake.Session: `requireNomadRegion` blocks until a read fails. The model covers only a finite sequence of read outcomes. If every read in the sequence succeeds, the trace ends where the sequence ends.
- Registry.ClosedAtMostOnce: a close log without duplicates is proved only when no handle is registered again after being unregistered. A re-registered handle would be closed a second time, and Go would panic. The hub relies on `Connection` never registering twice, and that code is not part of this model.
