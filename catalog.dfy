/** The channel catalog of a recording (datafileChannels) and the searches over it
    (indexForChannel, mcdRaw_contains_channel), as functions of the catalog. The registry the
    extractor fills from these searches lives in class McdRaw. */
module Catalog {

  /** The position of the first entry equal to `channel`, or -1 when there is none. */
  function IndexFor(catalog: seq<int>, channel: int): (r: int)
    ensures -1 <= r < |catalog|
    ensures r >= 0 ==> catalog[r] == channel && forall j :: 0 <= j < r ==> catalog[j] != channel
    ensures r == -1 <==> channel !in catalog
  {
    if catalog == [] then -1
    else if catalog[0] == channel then 0
    else
      var r := IndexFor(catalog[1..], channel);
      if r < 0 then -1 else r + 1
  }

  /** The first-match position of every catalog entry, in catalog order: what registering
      every catalog channel appends to the registry. */
  function AllIndexes(catalog: seq<int>): (r: seq<nat>)
    ensures |r| == |catalog|
    ensures forall i :: 0 <= i < |catalog| ==> r[i] <= i && catalog[r[i]] == catalog[i]
  {
    seq(|catalog|, i requires 0 <= i < |catalog| => IndexFor(catalog, catalog[i]) as nat)
  }

  /** Every registry entry names a catalog position. */
  predicate Indexes(registry: seq<nat>, catalog: seq<int>)
  {
    forall k :: 0 <= k < |registry| ==> registry[k] < |catalog|
  }

  predicate Distinct(catalog: seq<int>)
  {
    forall i, j :: 0 <= i < j < |catalog| ==> catalog[i] != catalog[j]
  }

  /** Equal channels have the same first-match position, so a repeated catalog id makes
      registering every channel append the first position twice. */
  lemma AllIndexesDuplicates(catalog: seq<int>, i: nat, j: nat)
    requires i < |catalog| && j < |catalog| && catalog[i] == catalog[j]
    ensures AllIndexes(catalog)[i] == AllIndexes(catalog)[j]
  {
  }

  /** The first-match positions of all catalog entries are the positions themselves exactly
      when no id repeats. */
  lemma AllIndexesIdentity(catalog: seq<int>)
    ensures Distinct(catalog) <==> forall i :: 0 <= i < |catalog| ==> AllIndexes(catalog)[i] == i
  {
    var r := AllIndexes(catalog);
    if !Distinct(catalog) {
      var i, j :| 0 <= i < j < |catalog| && catalog[i] == catalog[j];
      assert r[j] <= i < j;
    }
  }
}
