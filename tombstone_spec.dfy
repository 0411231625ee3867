/**
 * What a fragmented range-tombstone list means.
 *
 * A range tombstone [startKey, endKey)@seq deletes every user key in the range
 * written before `seq`.  Fragmentation turns overlapping tombstones into
 * non-overlapping fragments, each carrying the (descending) sequence numbers of
 * every tombstone that covers it.  The central notion is the set of sequence
 * numbers covering a user key: the fragmented list must report, at every key,
 * the same set as the unfragmented input (for reads), or the newest member of
 * each snapshot stripe of it (for compaction).
 */
module RangeTombstones {
  import opened DbFormat
  import opened Sorting
  import opened Search

  datatype RangeTombstone = RangeTombstone(startKey: Key, endKey: Key, seqNum: SeqNum)

  /** One entry of the fragment vector: [startKey, endKey) and its slice of the seqnum vector. */
  datatype Fragment = Fragment(startKey: Key, endKey: Key, seqStartIdx: nat, seqEndIdx: nat)

  /** An entry of the working set of open tombstones: an end key and a seqnum. */
  datatype EndKey = EndKey(endKey: Key, seqNum: SeqNum)

  predicate Contains(f: Fragment, k: Key)
  {
    f.startKey <= k < f.endKey
  }

  ghost function Elems(s: seq<SeqNum>): set<SeqNum>
  {
    set x | x in s
  }

  // ---------------------------------------------------------------------------
  // Coverage of a user key

  /** The seqnums of the tombstones of `ts` whose range holds `k`. */
  ghost function Covering(ts: seq<RangeTombstone>, k: Key): set<SeqNum>
  {
    set t | t in ts && t.startKey <= k < t.endKey :: t.seqNum
  }

  lemma CoveringAppend(ts: seq<RangeTombstone>, t: RangeTombstone, k: Key)
    ensures Covering(ts + [t], k)
         == Covering(ts, k) + (if t.startKey <= k < t.endKey then {t.seqNum} else {})
  {
  }

  /** Coverage depends on which tombstones are present, not on their order. */
  lemma CoveringSameElements(ts: seq<RangeTombstone>, us: seq<RangeTombstone>, k: Key)
    requires forall t :: t in ts <==> t in us
    ensures Covering(ts, k) == Covering(us, k)
  {
  }

  /** The seqnums of the open tombstones (start already passed) still covering `k`. */
  ghost function OpenCovering(es: seq<EndKey>, k: Key): set<SeqNum>
  {
    set e | e in es && k < e.endKey :: e.seqNum
  }

  function SeqsOf(es: seq<EndKey>): seq<SeqNum>
  {
    seq(|es|, i requires 0 <= i < |es| => es[i].seqNum)
  }

  // ---------------------------------------------------------------------------
  // The ordered working set of open tombstones (a std::set ordered by end key,
  // then by seqnum descending)

  predicate EndKeyLess(a: EndKey, b: EndKey)
  {
    a.endKey < b.endKey || (a.endKey == b.endKey && a.seqNum > b.seqNum)
  }

  ghost predicate EndKeysOrdered(es: seq<EndKey>)
  {
    forall i, j :: 0 <= i < j < |es| ==> EndKeyLess(es[i], es[j])
  }

  /** Insertion into the ordered set; an entry already present is not duplicated. */
  function InsertEndKey(es: seq<EndKey>, e: EndKey): (r: seq<EndKey>)
    ensures forall x :: x in r <==> x in es || x == e
    ensures EndKeysOrdered(es) ==> EndKeysOrdered(r)
  {
    if es == [] then [e]
    else if es[0] == e then es
    else if EndKeyLess(e, es[0]) then [e] + es
    else
      var tail := InsertEndKey(es[1..], e);
      assert EndKeysOrdered(es) ==> forall x :: x in tail ==> EndKeyLess(es[0], x);
      [es[0]] + tail
  }

  // ---------------------------------------------------------------------------
  // Fragment vectors

  ghost predicate SlicesWithin(frags: seq<Fragment>, n: nat)
  {
    forall i :: 0 <= i < |frags| ==> frags[i].seqStartIdx <= frags[i].seqEndIdx <= n
  }

  /** Fragments are ordered and do not overlap. */
  ghost predicate Disjoint(frags: seq<Fragment>)
  {
    forall i, j :: 0 <= i < j < |frags| ==> frags[i].endKey <= frags[j].startKey
  }

  ghost predicate Descending(s: seq<SeqNum>, lo: nat, hi: nat)
  {
    hi <= |s| && forall a, b :: lo <= a < b < hi ==> s[a] >= s[b]
  }

  /**
   * The shape the fragmenter produces: non-empty, ordered, disjoint fragments
   * whose slices are non-empty, contiguous, cover the whole seqnum vector and
   * are sorted newest first.
   */
  ghost predicate WellFormed(frags: seq<Fragment>, seqs: seq<SeqNum>)
  {
    && SlicesWithin(frags, |seqs|)
    && Disjoint(frags)
    && (forall i :: 0 <= i < |frags| ==>
          frags[i].startKey < frags[i].endKey && frags[i].seqStartIdx < frags[i].seqEndIdx)
    && (forall i :: 0 <= i < |frags| ==> Descending(seqs, frags[i].seqStartIdx, frags[i].seqEndIdx))
    && (forall i :: 0 < i < |frags| ==> frags[i - 1].seqEndIdx == frags[i].seqStartIdx)
    && (frags == [] ==> seqs == [])
    && (frags != [] ==> frags[0].seqStartIdx == 0 && frags[|frags| - 1].seqEndIdx == |seqs|)
  }

  ghost function SliceSet(seqs: seq<SeqNum>, f: Fragment): set<SeqNum>
    requires f.seqStartIdx <= f.seqEndIdx <= |seqs|
  {
    Elems(seqs[f.seqStartIdx..f.seqEndIdx])
  }

  /** The seqnums the fragment vector reports for `k`: those of the last fragment holding `k`. */
  ghost function CoverSet(frags: seq<Fragment>, seqs: seq<SeqNum>, k: Key): set<SeqNum>
    requires SlicesWithin(frags, |seqs|)
    decreases |frags|
  {
    if frags == [] then {}
    else
      var f := frags[|frags| - 1];
      if Contains(f, k) then SliceSet(seqs, f)
      else CoverSet(frags[..|frags| - 1], seqs, k)
  }

  /** Growing the seqnum vector does not change what existing fragments report. */
  lemma {:induction false} CoverSetExtend(frags: seq<Fragment>, seqs: seq<SeqNum>, extra: seq<SeqNum>, k: Key)
    requires SlicesWithin(frags, |seqs|)
    ensures SlicesWithin(frags, |seqs + extra|)
    ensures CoverSet(frags, seqs + extra, k) == CoverSet(frags, seqs, k)
    decreases |frags|
  {
    if frags != [] {
      var f := frags[|frags| - 1];
      assert (seqs + extra)[f.seqStartIdx..f.seqEndIdx] == seqs[f.seqStartIdx..f.seqEndIdx];
      CoverSetExtend(frags[..|frags| - 1], seqs, extra, k);
    }
  }

  /** Appending a fragment together with its slice. */
  lemma CoverSetAppend(frags: seq<Fragment>, seqs: seq<SeqNum>, f: Fragment, extra: seq<SeqNum>, k: Key)
    requires SlicesWithin(frags, |seqs|)
    requires f.seqStartIdx == |seqs| && f.seqEndIdx == |seqs| + |extra|
    ensures SlicesWithin(frags + [f], |seqs + extra|)
    ensures CoverSet(frags + [f], seqs + extra, k)
         == if Contains(f, k) then Elems(extra) else CoverSet(frags, seqs, k)
  {
    CoverSetExtend(frags, seqs, extra, k);
    assert (frags + [f])[..|frags|] == frags;
    assert (seqs + extra)[|seqs|..|seqs| + |extra|] == extra;
  }

  /** A key held by no fragment is reported as uncovered. */
  lemma {:induction false} CoverSetNone(frags: seq<Fragment>, seqs: seq<SeqNum>, k: Key)
    requires SlicesWithin(frags, |seqs|)
    requires forall i :: 0 <= i < |frags| ==> !Contains(frags[i], k)
    ensures CoverSet(frags, seqs, k) == {}
    decreases |frags|
  {
    if frags != [] {
      CoverSetNone(frags[..|frags| - 1], seqs, k);
    }
  }

  /** A key held by fragment i is reported with exactly fragment i's seqnums. */
  lemma {:induction false} CoverSetAt(frags: seq<Fragment>, seqs: seq<SeqNum>, i: nat, k: Key)
    requires SlicesWithin(frags, |seqs|) && Disjoint(frags)
    requires i < |frags| && Contains(frags[i], k)
    ensures CoverSet(frags, seqs, k) == SliceSet(seqs, frags[i])
    decreases |frags|
  {
    var n := |frags| - 1;
    if i < n {
      assert frags[i].endKey <= frags[n].startKey;
      CoverSetAt(frags[..n], seqs, i, k);
    }
  }

  /** Keys at or beyond the end of the last fragment are uncovered. */
  lemma CoverSetBeyond(frags: seq<Fragment>, seqs: seq<SeqNum>, k: Key)
    requires WellFormed(frags, seqs)
    requires frags != [] ==> frags[|frags| - 1].endKey <= k
    ensures CoverSet(frags, seqs, k) == {}
  {
    forall i | 0 <= i < |frags| ensures !Contains(frags[i], k) {
      if i < |frags| - 1 {
        assert frags[i].endKey <= frags[|frags| - 1].startKey;
      }
    }
    CoverSetNone(frags, seqs, k);
  }

  // ---------------------------------------------------------------------------
  // Snapshot stripes and compaction-time pruning

  ghost predicate Ascending(s: seq<SeqNum>)
  {
    forall i, j :: 0 <= i < j < |s| ==> s[i] <= s[j]
  }

  function AtLeast(x: nat): SeqNum -> bool
  {
    (y: SeqNum) => y >= x
  }

  /** The stripe of `s`: the index of the earliest snapshot that can see `s` (|snapshots| if none). */
  ghost function Stripe(snapshots: seq<SeqNum>, s: nat): nat
  {
    FirstTrue(snapshots, AtLeast(s))
  }

  /** `x` is the newest seqnum of `s` in its stripe. */
  ghost predicate StripeMax(x: SeqNum, s: set<SeqNum>, snapshots: seq<SeqNum>)
  {
    forall y :: y in s && Stripe(snapshots, y) == Stripe(snapshots, x) ==> y <= x
  }

  /**
   * The seqnums that must survive: all of them for reads, the newest of each
   * stripe for compaction (no snapshot can tell the others apart).
   */
  ghost function Keep(s: set<SeqNum>, forCompaction: bool, snapshots: seq<SeqNum>): set<SeqNum>
  {
    if forCompaction then set x | x in s && StripeMax(x, s, snapshots) else s
  }

  /**
   * The pruning loop run on seqnums sorted newest first: keep a seqnum when it
   * is at most `next` (the snapshot below the last kept one), stop after the
   * seqnum seen by the earliest snapshot.
   */
  function KeepPerStripe(seqs: seq<SeqNum>, snapshots: seq<SeqNum>, next: nat): seq<SeqNum>
    decreases |seqs|
  {
    if seqs == [] then []
    else if seqs[0] <= next then
      var ub := FirstTrue(snapshots, AtLeast(seqs[0]));
      if ub == 0 then [seqs[0]]
      else [seqs[0]] + KeepPerStripe(seqs[1..], snapshots, snapshots[ub - 1])
    else KeepPerStripe(seqs[1..], snapshots, next)
  }

  function SeqGreaterEq(a: SeqNum, b: SeqNum): bool
  {
    a >= b
  }

  /** The slice one fragment receives, given the seqnums of the tombstones open over it. */
  function FragmentSeqs(open: seq<SeqNum>, forCompaction: bool, snapshots: seq<SeqNum>): seq<SeqNum>
  {
    var sorted := SortBy(open, SeqGreaterEq);
    if forCompaction then KeepPerStripe(sorted, snapshots, kMaxSequenceNumber) else sorted
  }

  /** Seqnums at most `next` and seqnums above it never share a stripe. */
  ghost predicate StripeBoundary(snapshots: seq<SeqNum>, next: nat)
  {
    forall a: SeqNum, b: SeqNum :: a <= next < b ==> Stripe(snapshots, a) < Stripe(snapshots, b)
  }

  lemma StripeAtMost(snapshots: seq<SeqNum>, m: nat, a: nat)
    requires m < |snapshots| && a <= snapshots[m]
    ensures Stripe(snapshots, a) <= m
  {
    assert AtLeast(a)(snapshots[m]);
  }

  lemma StripeAbove(snapshots: seq<SeqNum>, m: nat, b: nat)
    requires Ascending(snapshots)
    requires m < |snapshots|
    ensures snapshots[m] < b ==> Stripe(snapshots, b) > m
  {
    var j := Stripe(snapshots, b);
    if snapshots[m] < b && j < |snapshots| {
      assert AtLeast(b)(snapshots[j]);
    }
  }

  lemma StripeMonotone(snapshots: seq<SeqNum>, a: nat, b: nat)
    requires Ascending(snapshots)
    requires a <= b
    ensures Stripe(snapshots, a) <= Stripe(snapshots, b)
  {
    var j := Stripe(snapshots, b);
    if j < |snapshots| {
      assert AtLeast(b)(snapshots[j]);
      StripeAtMost(snapshots, j, a);
    }
  }

  lemma BoundaryAtSnapshot(snapshots: seq<SeqNum>, m: nat)
    requires Ascending(snapshots) && m < |snapshots|
    ensures StripeBoundary(snapshots, snapshots[m])
  {
    forall a: SeqNum, b: SeqNum | a <= snapshots[m] < b
      ensures Stripe(snapshots, a) < Stripe(snapshots, b)
    {
      StripeAtMost(snapshots, m, a);
      StripeAbove(snapshots, m, b);
    }
  }

  /** The newest seqnum of a descending sequence is at least all of them. */
  lemma HeadIsMax(seqs: seq<SeqNum>)
    requires seqs != [] && Descending(seqs, 0, |seqs|)
    ensures forall y :: y in Elems(seqs) ==> y <= seqs[0]
  {
    forall y | y in Elems(seqs) ensures y <= seqs[0] {
      var j :| 0 <= j < |seqs| && seqs[j] == y;
      if j > 0 {
        assert seqs[0] >= seqs[j];
      }
    }
  }

  /** The seqnums of `seqs` at most `next` that are the newest of their stripe in `seqs`. */
  ghost function StripeMaxesBelow(seqs: seq<SeqNum>, snapshots: seq<SeqNum>, next: nat): set<SeqNum>
  {
    set x | x in seqs && x <= next && StripeMax(x, Elems(seqs), snapshots)
  }

  /** The pruning loop keeps exactly the stripe maxima among the seqnums at most `next`. */
  lemma {:induction false} KeepPerStripeSet(seqs: seq<SeqNum>, snapshots: seq<SeqNum>, next: nat)
    requires Ascending(snapshots) && Descending(seqs, 0, |seqs|)
    requires StripeBoundary(snapshots, next)
    ensures Elems(KeepPerStripe(seqs, snapshots, next)) == StripeMaxesBelow(seqs, snapshots, next)
    decreases |seqs|
  {
    if seqs == [] {
      return;
    }
    var x0, rest := seqs[0], seqs[1..];
    assert seqs == [x0] + rest;
    assert Descending(rest, 0, |rest|);
    if x0 > next {
      KeepPerStripeSet(rest, snapshots, next);
      SkipAboveNext(seqs, snapshots, next);
    } else {
      var ub := FirstTrue(snapshots, AtLeast(x0));
      if ub == 0 {
        OnlyHeadInLastStripe(seqs, snapshots, next);
      } else {
        var next' := snapshots[ub - 1];
        BoundaryAtSnapshot(snapshots, ub - 1);
        KeepPerStripeSet(rest, snapshots, next');
        KeepHead(seqs, snapshots, next);
      }
    }
  }

  /** A head above `next` is no stripe maximum below `next` and hides none. */
  lemma SkipAboveNext(seqs: seq<SeqNum>, snapshots: seq<SeqNum>, next: nat)
    requires seqs != [] && seqs[0] > next
    requires StripeBoundary(snapshots, next)
    ensures StripeMaxesBelow(seqs, snapshots, next) == StripeMaxesBelow(seqs[1..], snapshots, next)
  {
    var x0, rest := seqs[0], seqs[1..];
    assert seqs == [x0] + rest;
    assert Elems(seqs) == {x0} + Elems(rest);
    forall x | x in rest && x <= next
      ensures StripeMax(x, Elems(seqs), snapshots) <==> StripeMax(x, Elems(rest), snapshots)
    {
      assert Stripe(snapshots, x) < Stripe(snapshots, x0);
    }
  }

  /** A head seen by the earliest snapshot is the only stripe maximum below it. */
  lemma OnlyHeadInLastStripe(seqs: seq<SeqNum>, snapshots: seq<SeqNum>, next: nat)
    requires Ascending(snapshots) && seqs != [] && Descending(seqs, 0, |seqs|)
    requires seqs[0] <= next && FirstTrue(snapshots, AtLeast(seqs[0])) == 0
    ensures StripeMaxesBelow(seqs, snapshots, next) == {seqs[0]}
  {
    var x0 := seqs[0];
    HeadIsMax(seqs);
    assert StripeMax(x0, Elems(seqs), snapshots);
    forall x | x in StripeMaxesBelow(seqs, snapshots, next) ensures x == x0 {
      StripeMonotone(snapshots, x, x0);
    }
  }

  /**
   * A head at most `next` is kept, and the stripe maxima after it are those
   * at most the snapshot just below its stripe.
   */
  lemma KeepHead(seqs: seq<SeqNum>, snapshots: seq<SeqNum>, next: nat)
    requires Ascending(snapshots) && seqs != [] && Descending(seqs, 0, |seqs|)
    requires seqs[0] <= next
    requires 0 < FirstTrue(snapshots, AtLeast(seqs[0]))
    ensures StripeMaxesBelow(seqs, snapshots, next)
         == {seqs[0]} + StripeMaxesBelow(seqs[1..], snapshots, snapshots[FirstTrue(snapshots, AtLeast(seqs[0])) - 1])
  {
    var x0, rest := seqs[0], seqs[1..];
    var next' := snapshots[FirstTrue(snapshots, AtLeast(x0)) - 1];
    var rhs := StripeMaxesBelow(seqs, snapshots, next);
    var tail := StripeMaxesBelow(rest, snapshots, next');
    HeadIsMax(seqs);
    assert x0 in rhs;
    forall x | x in tail ensures x in rhs {
      KeptAfterHead(seqs, snapshots, next, x);
    }
    forall x | x in rhs && x != x0 ensures x in tail {
      MaxAfterHead(seqs, snapshots, next, x);
    }
  }

  lemma KeptAfterHead(seqs: seq<SeqNum>, snapshots: seq<SeqNum>, next: nat, x: SeqNum)
    requires Ascending(snapshots) && seqs != [] && Descending(seqs, 0, |seqs|)
    requires seqs[0] <= next
    requires 0 < FirstTrue(snapshots, AtLeast(seqs[0]))
    requires x in StripeMaxesBelow(seqs[1..], snapshots, snapshots[FirstTrue(snapshots, AtLeast(seqs[0])) - 1])
    ensures x in StripeMaxesBelow(seqs, snapshots, next)
  {
    var x0, rest := seqs[0], seqs[1..];
    assert seqs == [x0] + rest;
    assert Elems(seqs) == {x0} + Elems(rest);
    var ub := FirstTrue(snapshots, AtLeast(x0));
    assert !AtLeast(x0)(snapshots[ub - 1]);
    BoundaryAtSnapshot(snapshots, ub - 1);
    assert Stripe(snapshots, x) < Stripe(snapshots, x0);
  }

  lemma MaxAfterHead(seqs: seq<SeqNum>, snapshots: seq<SeqNum>, next: nat, x: SeqNum)
    requires Ascending(snapshots) && seqs != [] && Descending(seqs, 0, |seqs|)
    requires seqs[0] <= next
    requires 0 < FirstTrue(snapshots, AtLeast(seqs[0]))
    requires x in StripeMaxesBelow(seqs, snapshots, next) && x != seqs[0]
    ensures x in StripeMaxesBelow(seqs[1..], snapshots, snapshots[FirstTrue(snapshots, AtLeast(seqs[0])) - 1])
  {
    var x0, rest := seqs[0], seqs[1..];
    assert seqs == [x0] + rest;
    assert Elems(seqs) == {x0} + Elems(rest);
    var ub := FirstTrue(snapshots, AtLeast(x0));
    HeadIsMax(seqs);
    StripeAbove(snapshots, ub - 1, x);
    StripeMonotone(snapshots, x, x0);
  }

  /** One step of the pruning loop at position m. */
  lemma KeepPerStripeUnfold(seqs: seq<SeqNum>, m: nat, snapshots: seq<SeqNum>, next: nat)
    requires m < |seqs|
    ensures KeepPerStripe(seqs[m..], snapshots, next)
         == if seqs[m] <= next then
              (if FirstTrue(snapshots, AtLeast(seqs[m])) == 0 then [seqs[m]]
               else [seqs[m]] + KeepPerStripe(seqs[m + 1..], snapshots, snapshots[FirstTrue(snapshots, AtLeast(seqs[m])) - 1]))
            else KeepPerStripe(seqs[m + 1..], snapshots, next)
  {
    assert seqs[m..][1..] == seqs[m + 1..];
  }

  /** Everything the pruning loop keeps is at most `next`, newest first without repeats. */
  lemma {:induction false} KeepPerStripeDescending(seqs: seq<SeqNum>, snapshots: seq<SeqNum>, next: nat)
    ensures forall x :: x in KeepPerStripe(seqs, snapshots, next) ==> x in seqs && x <= next
    ensures forall a, b :: 0 <= a < b < |KeepPerStripe(seqs, snapshots, next)| ==>
              KeepPerStripe(seqs, snapshots, next)[a] > KeepPerStripe(seqs, snapshots, next)[b]
    decreases |seqs|
  {
    if seqs != [] {
      if seqs[0] <= next {
        var ub := FirstTrue(snapshots, AtLeast(seqs[0]));
        if ub != 0 {
          var tail := KeepPerStripe(seqs[1..], snapshots, snapshots[ub - 1]);
          KeepPerStripeDescending(seqs[1..], snapshots, snapshots[ub - 1]);
          assert !AtLeast(seqs[0])(snapshots[ub - 1]);
          assert KeepPerStripe(seqs, snapshots, next) == [seqs[0]] + tail;
          assert forall b :: 0 <= b < |tail| ==> tail[b] in tail;
        }
      } else {
        KeepPerStripeDescending(seqs[1..], snapshots, next);
      }
    }
  }

  /**
   * The slice of a fragment is sorted newest first, is non-empty whenever some
   * tombstone is open, and holds exactly the seqnums `Keep` demands.
   */
  lemma FragmentSeqsCorrect(open: seq<SeqNum>, forCompaction: bool, snapshots: seq<SeqNum>)
    requires Ascending(snapshots)
    ensures Descending(FragmentSeqs(open, forCompaction, snapshots), 0, |FragmentSeqs(open, forCompaction, snapshots)|)
    ensures Elems(FragmentSeqs(open, forCompaction, snapshots)) == Keep(Elems(open), forCompaction, snapshots)
    ensures open != [] ==> FragmentSeqs(open, forCompaction, snapshots) != []
  {
    var sorted := SortBy(open, SeqGreaterEq);
    assert TotalPreorder(SeqGreaterEq);
    SortBySorted(open, SeqGreaterEq);
    SortBySameElements(open, SeqGreaterEq);
    assert Elems(sorted) == Elems(open);
    assert Descending(sorted, 0, |sorted|);
    if forCompaction {
      KeepPerStripeSet(sorted, snapshots, kMaxSequenceNumber);
      KeepPerStripeDescending(sorted, snapshots, kMaxSequenceNumber);
    }
  }

  lemma AtLeastPartitioned(snapshots: seq<SeqNum>, x: nat)
    requires Ascending(snapshots)
    ensures Partitioned(snapshots, AtLeast(x))
  {
  }

  lemma DescendingExtend(s: seq<SeqNum>, extra: seq<SeqNum>, lo: nat, hi: nat)
    requires Descending(s, lo, hi)
    ensures Descending(s + extra, lo, hi)
  {
  }

  /** Appending a non-empty, newest-first slice as a fragment after the last one keeps the shape. */
  lemma WellFormedAppend(frags: seq<Fragment>, seqs: seq<SeqNum>, f: Fragment, extra: seq<SeqNum>)
    requires WellFormed(frags, seqs)
    requires frags != [] ==> frags[|frags| - 1].endKey <= f.startKey
    requires f.startKey < f.endKey && extra != [] && Descending(extra, 0, |extra|)
    requires f.seqStartIdx == |seqs| && f.seqEndIdx == |seqs| + |extra|
    ensures WellFormed(frags + [f], seqs + extra)
  {
    var fs, ss := frags + [f], seqs + extra;
    forall i | 0 <= i < |frags| ensures Descending(ss, fs[i].seqStartIdx, fs[i].seqEndIdx) {
      DescendingExtend(seqs, extra, frags[i].seqStartIdx, frags[i].seqEndIdx);
    }
    assert Descending(ss, f.seqStartIdx, f.seqEndIdx) by {
      forall a, b | f.seqStartIdx <= a < b < f.seqEndIdx ensures ss[a] >= ss[b] {
        assert ss[a] == extra[a - |seqs|] && ss[b] == extra[b - |seqs|];
      }
    }
    forall i, j | 0 <= i < j < |fs| ensures fs[i].endKey <= fs[j].startKey {
      if j == |frags| && i < |frags| - 1 {
        assert frags[i].endKey <= frags[|frags| - 1].startKey;
      }
    }
  }

  /**
   * Between the end keys already passed and the next one, the open tombstones
   * covering `k` are exactly those from position i on.
   */
  lemma OpenSuffix(es: seq<EndKey>, i: nat, k: Key)
    requires EndKeysOrdered(es) && i < |es|
    requires forall m :: 0 <= m < i ==> es[m].endKey <= k
    requires k < es[i].endKey
    ensures OpenCovering(es, k) == Elems(SeqsOf(es[i..]))
  {
    forall x | x in Elems(SeqsOf(es[i..])) ensures x in OpenCovering(es, k) {
      var m :| 0 <= m < |es| - i && SeqsOf(es[i..])[m] == x;
      assert es[i + m] in es;
      if m > 0 {
        assert EndKeyLess(es[i], es[i + m]);
      }
    }
    forall x | x in OpenCovering(es, k) ensures x in Elems(SeqsOf(es[i..])) {
      var e :| e in es && k < e.endKey && e.seqNum == x;
      var m :| 0 <= m < |es| && es[m] == e;
      assert SeqsOf(es[i..])[m - i] == x;
    }
  }

  /** Emitting fragment `f` for the open tombstones extends the proved coverage up to its end. */
  lemma FragmentCovers(frags: seq<Fragment>, seqs: seq<SeqNum>, f: Fragment, extra: seq<SeqNum>,
                       processed: seq<RangeTombstone>, open: set<SeqNum>, forCompaction: bool, snapshots: seq<SeqNum>)
    requires WellFormed(frags, seqs)
    requires frags != [] ==> frags[|frags| - 1].endKey <= f.startKey
    requires f.seqStartIdx == |seqs| && f.seqEndIdx == |seqs| + |extra|
    requires Elems(extra) == Keep(open, forCompaction, snapshots)
    requires forall k :: k < f.startKey ==>
               CoverSet(frags, seqs, k) == Keep(Covering(processed, k), forCompaction, snapshots)
    requires forall k :: f.startKey <= k < f.endKey ==> Covering(processed, k) == open
    ensures SlicesWithin(frags + [f], |seqs + extra|)
    ensures forall k :: k < f.endKey ==>
              CoverSet(frags + [f], seqs + extra, k) == Keep(Covering(processed, k), forCompaction, snapshots)
  {
    CoverSetAppend(frags, seqs, f, extra, 0);
    forall k | k < f.endKey
      ensures CoverSet(frags + [f], seqs + extra, k) == Keep(Covering(processed, k), forCompaction, snapshots)
    {
      CoverSetAppend(frags, seqs, f, extra, k);
    }
  }

  /** Nothing covered, nothing kept. */
  lemma KeepEmpty(forCompaction: bool, snapshots: seq<SeqNum>)
    ensures Keep({}, forCompaction, snapshots) == {}
  {
  }

  /** Pruning never drops the newest covering seqnum. */
  lemma KeepKeepsNewest(s: set<SeqNum>, forCompaction: bool, snapshots: seq<SeqNum>, x: SeqNum)
    requires x in s && forall y :: y in s ==> y <= x
    ensures x in Keep(s, forCompaction, snapshots)
    ensures Keep(s, forCompaction, snapshots) <= s
  {
  }
}
