/** `requireNomadRegion`: the handshake run on a socket whose request named
    no region. The hub sends one prompt, then answers every message it
    manages to read with the same prompt, until a read fails. */
module Handshake {
  import opened Actions
  import opened Regions

  /** The outcome of one `socket.ReadJSON`: a decoded envelope or an error. */
  datatype Read = Received(msg: Action) | Failed

  /** The prompt for a listing of the regions: adopt the only region, or
      choose from the list. */
  function Prompt(regions: seq<string>): (a: Action)
    // the envelope's type matches its payload shape, and is SET exactly for one region
    ensures a.kind == SetNomadRegion <==> a.payload.Text?
    ensures a.kind == SetNomadRegion <==> |regions| == 1
    ensures a.kind == SetNomadRegion || a.kind == FetchedNomadRegions
    // the payload carries the listing itself, nothing dropped or added
    ensures a.payload.Text? ==> [a.payload.text] == regions
    ensures a.payload.Names? ==> a.payload.names == regions
  {
    if |regions| == 1 then Action(SetNomadRegion, Text(regions[0]))
    else Action(FetchedNomadRegions, Names(regions))
  }

  /** Whatever order the map yields its keys in, a map with exactly one key
      gets a `SET_NOMAD_REGION` prompt naming that key, and any other map
      gets a `FETCHED_NOMAD_REGIONS` prompt listing every key once. */
  lemma PromptChoice<V>(channels: map<string, V>, regions: seq<string>)
    requires IsEnumeration(regions, channels.Keys)
    ensures |channels| == 1 ==>
      && Prompt(regions).kind == SetNomadRegion
      && Prompt(regions).payload.Text?
      && channels.Keys == {Prompt(regions).payload.text}
    ensures |channels| != 1 ==>
      && Prompt(regions).kind == FetchedNomadRegions
      && Prompt(regions).payload == Names(regions)
      && (forall k :: k in regions ==> k in channels)
      && (forall k :: k in channels ==> multiset(regions)[k] == 1)
  {
    EnumerationSize(regions, channels.Keys);
    NoDupOccursOnce(regions);
    if |channels| == 1 {
      assert regions[0] in channels;
      forall k | k in channels ensures k == regions[0] {
        assert k in regions;
      }
    }
  }

  /** How many reads succeed before the first failed one (all of them when
      none fails). */
  function FirstFailure(inbox: seq<Read>): (n: nat)
    ensures n <= |inbox|
    ensures forall i :: 0 <= i < n ==> inbox[i].Received?
    ensures n < |inbox| ==> inbox[n].Failed?
    decreases |inbox|
  {
    if |inbox| == 0 || inbox[0].Failed? then 0 else 1 + FirstFailure(inbox[1..])
  }

  /** The replies of the read loop: one copy of the prompt per read, until a
      read fails. */
  function Replies(prompt: Action, inbox: seq<Read>): (w: seq<Action>)
    ensures |w| == FirstFailure(inbox)
    ensures forall i :: 0 <= i < |w| ==> w[i] == prompt
    decreases |inbox|
  {
    if |inbox| == 0 || inbox[0].Failed? then [] else [prompt] + Replies(prompt, inbox[1..])
  }

  /** Everything the handshake writes: the prompt, then the replies. */
  function Session(prompt: Action, inbox: seq<Read>): (w: seq<Action>)
    ensures |w| == FirstFailure(inbox) + 1
    ensures forall i :: 0 <= i < |w| ==> w[i] == prompt
  {
    [prompt] + Replies(prompt, inbox)
  }

  /** Nothing after the first failed read is looked at. */
  lemma {:induction false} SessionStopsAtFailure(prompt: Action, before: seq<Read>, after: seq<Read>)
    ensures Session(prompt, before + [Failed] + after) == Session(prompt, before + [Failed])
    decreases |before|
  {
    var long := before + [Failed] + after;
    var short := before + [Failed];
    if |before| == 0 {
      assert long[0] == Failed && short[0] == Failed;
    } else {
      assert long[1..] == before[1..] + [Failed] + after;
      assert short[1..] == before[1..] + [Failed];
      SessionStopsAtFailure(prompt, before[1..], after);
      assert long[0] == short[0];
    }
  }

  /** The handshake as the source runs it: list the region keys as they are
      now, build the prompt, send it, and answer each successful read with
      the same prompt until a read fails. Nothing is registered and no
      connection is built. */
  method RequireNomadRegion<V>(channels: map<string, V>, inbox: seq<Read>)
    returns (regions: seq<string>, writes: seq<Action>)
    ensures IsEnumeration(regions, channels.Keys)
    ensures |writes| == FirstFailure(inbox) + 1
    ensures forall i :: 0 <= i < |writes| ==> writes[i] == Prompt(regions)
    ensures writes == Session(Prompt(regions), inbox)
  {
    regions := EnumerateKeys(channels);
    var action := Prompt(regions);
    writes := [action];
    var i := 0;
    while i < |inbox| && inbox[i].Received?
      invariant 0 <= i <= |inbox|
      invariant forall j :: 0 <= j < i ==> inbox[j].Received?
      invariant |writes| == i + 1
      invariant forall j :: 0 <= j < |writes| ==> writes[j] == action
      decreases |inbox| - i
    {
      // the message read is ignored; the prompt is sent again
      writes := writes + [action];
      i := i + 1;
    }
  }
}
