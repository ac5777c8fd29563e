/** What the fixed-size registries have in common: slots hold the address of a live object, or 0 when free. */
module Registries {

  predicate Distinct(ids: seq<nat>)
  {
    forall i, j :: 0 <= i < j < |ids| && ids[i] != 0 ==> ids[i] != ids[j]
  }

  /** A registry of n slots holds at most n live objects, and is full exactly when it holds n. */
  lemma {:induction false} FullWhenCounted(ids: seq<nat>, live: set<nat>)
    requires Distinct(ids)
    requires forall id :: id in live <==> id != 0 && id in ids
    ensures |live| <= |ids|
    ensures |live| == |ids| <==> 0 !in ids
  {
    if ids == [] {
      assert live == {};
    } else {
      var n := |ids| - 1;
      var rest, last := ids[..n], ids[n];
      assert ids == rest + [last];
      FullWhenCounted(rest, live - {last});
    }
  }
}
