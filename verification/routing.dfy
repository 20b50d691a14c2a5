/** Extracting the region from the request path: `strings.HasPrefix`
    followed by `strings.Replace(path, "/ws/nomad/", "", 1)`. */
module Routing {
  import opened Lookups

  const Prefix: string := "/ws/nomad/"

  /** Go's `strings.HasPrefix`: `p` matches the start of `s` character by
      character, so `s` is `p` followed by the rest of `s`. */
  function HasPrefix(s: string, p: string): (b: bool)
    ensures b <==> |p| <= |s| && forall i :: 0 <= i < |p| ==> s[i] == p[i]
    ensures b ==> s == p + s[|p|..]
  {
    |p| <= |s| && s[..|p|] == p
  }

  predicate OccursAt(s: string, pat: string, i: int)
  {
    0 <= i && i + |pat| <= |s| && s[i..i + |pat|] == pat
  }

  /** The first position at or after `from` where `pat` occurs in `s`
      (`strings.Index` when `from` is 0). */
  function FindFirst(s: string, pat: string, from: nat): (r: Found<nat>)
    ensures r.Found? ==>
      && from <= r.value
      && OccursAt(s, pat, r.value)
      && forall j :: from <= j < r.value ==> !OccursAt(s, pat, j)
    ensures r.Missing? ==> forall j :: from <= j ==> !OccursAt(s, pat, j)
    decreases |s| - from
  {
    if from + |pat| > |s| then Missing
    else if OccursAt(s, pat, from) then Found(from)
    else FindFirst(s, pat, from + 1)
  }

  /** Go's `strings.Replace(s, pat, rep, 1)`: the first occurrence of `pat`,
      if any, is replaced by `rep`. An empty `pat` occurs at position 0, as in
      Go. */
  function ReplaceFirst(s: string, pat: string, rep: string): (r: string)
    ensures (forall j :: !OccursAt(s, pat, j)) ==> r == s
    ensures OccursAt(s, pat, 0) ==> r == rep + s[|pat|..]
  {
    match FindFirst(s, pat, 0)
    case Missing => s
    case Found(i) => s[..i] + rep + s[i + |pat|..]
  }

  /** Wherever the first occurrence of `pat` is, it and only it is replaced. */
  lemma ReplaceFirstIsFirstOccurrence(s: string, pat: string, rep: string, i: int)
    requires OccursAt(s, pat, i)
    requires forall j :: 0 <= j < i ==> !OccursAt(s, pat, j)
    ensures ReplaceFirst(s, pat, rep) == s[..i] + rep + s[i + |pat|..]
  {
    var found := FindFirst(s, pat, 0);
    assert found.Found?;
    assert found.value == i;
  }

  /** The region named by a request path: everything after the prefix when
      the path carries it, and the empty string otherwise. */
  function ExtractRegion(path: string): (region: string)
    ensures HasPrefix(path, Prefix) ==> region == path[|Prefix|..]
    ensures !HasPrefix(path, Prefix) ==> region == ""
  {
    if HasPrefix(path, Prefix) then ReplaceFirst(path, Prefix, "") else ""
  }

  /** The region written after the prefix is the region read back. */
  lemma ExtractRegionOfPrefixed(region: string)
    ensures ExtractRegion(Prefix + region) == region
  {
    assert HasPrefix(Prefix + region, Prefix) by {
      assert (Prefix + region)[..|Prefix|] == Prefix;
    }
    assert (Prefix + region)[|Prefix|..] == region;
  }

  /** A path yields no region exactly when it lacks the prefix or is the
      prefix itself; in that case the handler runs the handshake. */
  lemma RegionEmptyIff(path: string)
    ensures ExtractRegion(path) == "" <==> !HasPrefix(path, Prefix) || path == Prefix
  {
    if HasPrefix(path, Prefix) && ExtractRegion(path) == "" {
      assert path == path[..|Prefix|] + path[|Prefix|..];
    }
  }

  /** A region may itself contain slashes: `/ws/nomad/a/b` names `a/b`. */
  lemma ExtractNestedRegion()
    ensures ExtractRegion("/ws/nomad/a/b") == "a/b"
  {
    assert "/ws/nomad/a/b" == Prefix + "a/b";
    ExtractRegionOfPrefixed("a/b");
  }

  /** Only the first occurrence of the prefix is removed. */
  lemma ExtractRepeatedPrefix()
    ensures ExtractRegion("/ws/nomad//ws/nomad/") == "/ws/nomad/"
  {
    assert "/ws/nomad//ws/nomad/" == Prefix + Prefix;
    ExtractRegionOfPrefixed(Prefix);
  }

  /** The bare prefix, and the path without its trailing slash, name no
      region. */
  lemma ExtractNoRegion()
    ensures ExtractRegion("/ws/nomad/") == ""
    ensures ExtractRegion("/ws/nomad") == ""
  {
    assert "/ws/nomad/" == Prefix + "";
    ExtractRegionOfPrefixed("");
    assert |"/ws/nomad"| < |Prefix|;
  }
}
