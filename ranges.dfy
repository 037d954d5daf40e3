/** Inclusive integer ranges `[lo, lo + 1, ..., hi]`, built in the source by counting loops. */
module Ranges {

  /** The integers from `lo` to `hi` inclusive, ascending; empty when `lo > hi`. */
  function Range(lo: int, hi: int): (r: seq<int>)
    ensures |r| == if lo <= hi then hi - lo + 1 else 0
    ensures forall k :: 0 <= k < |r| ==> r[k] == lo + k
    decreases hi - lo
  {
    if hi < lo then [] else Range(lo, hi - 1) + [hi]
  }

  /** No value occurs twice in `s`. */
  predicate NoDup(s: seq<int>) {
    forall j, k :: 0 <= j < k < |s| ==> s[j] != s[k]
  }

  /** A range holds exactly the integers between its bounds, each once. */
  lemma RangeMembers(lo: int, hi: int)
    ensures forall x :: x in Range(lo, hi) <==> lo <= x <= hi
    ensures NoDup(Range(lo, hi))
  {
    var r := Range(lo, hi);
    forall x | lo <= x <= hi
      ensures x in r
    {
      assert r[x - lo] == x;
    }
  }
}
