/**
 * Binary search over a sequence partitioned by a predicate: the shape shared
 * by `std::lower_bound` (predicate "not less than the target") and
 * `std::upper_bound` (predicate "greater than the target"), which the core
 * uses to seek its iterators.
 */
module Search {
  import opened Wrappers

  /** `p` is false on a prefix of `s` and true on the rest. */
  ghost predicate Partitioned<T>(s: seq<T>, p: T -> bool)
  {
    forall j, k :: 0 <= j <= k < |s| && p(s[j]) ==> p(s[k])
  }

  /** Reference definition: the index of the first element satisfying `p`, or |s|. */
  function FirstTrue<T>(s: seq<T>, p: T -> bool): (i: nat)
    ensures i <= |s|
    ensures forall j :: 0 <= j < i ==> !p(s[j])
    ensures i < |s| ==> p(s[i])
  {
    if s == [] then 0
    else if p(s[0]) then 0
    else 1 + FirstTrue(s[1..], p)
  }

  /** On a partitioned sequence every element from `FirstTrue` on satisfies `p`. */
  lemma FirstTrueSplits<T>(s: seq<T>, p: T -> bool)
    requires Partitioned(s, p)
    ensures forall j :: FirstTrue(s, p) <= j < |s| ==> p(s[j])
  {
  }

  /** `std::partition_point`: binary search for the first element satisfying `p`. */
  method PartitionPoint<T>(s: seq<T>, p: T -> bool) returns (i: nat)
    requires Partitioned(s, p)
    ensures i <= |s|
    ensures forall j :: 0 <= j < i ==> !p(s[j])
    ensures forall j :: i <= j < |s| ==> p(s[j])
    ensures i == FirstTrue(s, p)
  {
    var lo, hi := 0, |s|;
    while lo < hi
      invariant 0 <= lo <= hi <= |s|
      invariant forall j :: 0 <= j < lo ==> !p(s[j])
      invariant forall j :: hi <= j < |s| ==> p(s[j])
    {
      var mid := lo + (hi - lo) / 2;
      if p(s[mid]) {
        hi := mid;
      } else {
        lo := mid + 1;
      }
    }
    i := lo;
    FirstTrueUnique(s, p, i);
  }

  /** Any split point of a partitioned sequence is the one `FirstTrue` finds. */
  lemma {:induction false} FirstTrueUnique<T>(s: seq<T>, p: T -> bool, i: nat)
    requires i <= |s|
    requires forall j :: 0 <= j < i ==> !p(s[j])
    requires forall j :: i <= j < |s| ==> p(s[j])
    ensures i == FirstTrue(s, p)
  {
    if s != [] && !p(s[0]) {
      FirstTrueUnique(s[1..], p, i - 1);
    }
  }

  /**
   * A search loop with an early return: the first element satisfying `p`,
   * the one at `FirstTrue`, or None when there is none.
   */
  function FindFirst<T>(s: seq<T>, p: T -> bool): (r: Option<T>)
    ensures r.Some? ==> r.value in s && p(r.value)
    ensures r.Some? <==> FirstTrue(s, p) < |s|
    ensures r.Some? ==> r.value == s[FirstTrue(s, p)]
    ensures r.None? <==> forall x :: x in s ==> !p(x)
  {
    if s == [] then None
    else if p(s[0]) then Some(s[0])
    else FindFirst(s[1..], p)
  }
}
