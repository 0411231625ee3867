/**
 * FragmentedRangeTombstoneIterator: a cursor over a fragment list, holding a
 * fragment position and a seqnum position into the flat seqnum vector, and a
 * visibility window [lowerBound, upperBound] of sequence numbers.
 *
 * Two ways of moving: the plain moves (SeekToFirst, SeekToLast, Next, Prev)
 * visit every (fragment, seqnum) pair; the "top" moves (SeekToTopFirst,
 * SeekToTopLast, TopNext, TopPrev, Seek, SeekForPrev) visit one position per
 * fragment, its newest seqnum at most `upperBound`, and skip fragments where
 * that seqnum is missing or below `lowerBound`.
 *
 * The helpers of the iterator's header (SetMaxVisibleSeqAndTimestamp,
 * Invalidate, ValidPos, seq) are specified here as their uses imply, for keys
 * without timestamps.
 */
module RangeTombstoneIterators {
  import opened DbFormat
  import opened Search
  import opened RangeTombstones
  import opened RangeTombstoneFragmenter

  // ---------------------------------------------------------------------------
  // Positions in a fragment vector

  function AtMost(x: nat): SeqNum -> bool
  {
    (y: SeqNum) => y <= x
  }

  /**
   * The top position of fragment i under `upper`: the first of its seqnums
   * (newest first) that is at most `upper`, or the end of its slice.
   */
  function TopIdx(frags: seq<Fragment>, seqs: seq<SeqNum>, i: nat, upper: nat): (t: nat)
    requires SlicesWithin(frags, |seqs|) && i < |frags|
    ensures frags[i].seqStartIdx <= t <= frags[i].seqEndIdx
  {
    frags[i].seqStartIdx + FirstTrue(seqs[frags[i].seqStartIdx..frags[i].seqEndIdx], AtMost(upper))
  }

  /** Fragment i has a top seqnum, and it is not below `lower`. */
  predicate Visible(frags: seq<Fragment>, seqs: seq<SeqNum>, i: nat, upper: nat, lower: nat)
    requires SlicesWithin(frags, |seqs|) && i < |frags|
  {
    var t := TopIdx(frags, seqs, i, upper);
    t != frags[i].seqEndIdx && seqs[t] >= lower
  }

  /** The first visible fragment from i on, or |frags|. */
  function NextVisible(frags: seq<Fragment>, seqs: seq<SeqNum>, i: nat, upper: nat, lower: nat): (r: nat)
    requires SlicesWithin(frags, |seqs|) && i <= |frags|
    ensures i <= r <= |frags|
    ensures forall j :: i <= j < r ==> !Visible(frags, seqs, j, upper, lower)
    ensures r < |frags| ==> Visible(frags, seqs, r, upper, lower)
    decreases |frags| - i
  {
    if i == |frags| then i
    else if Visible(frags, seqs, i, upper, lower) then i
    else NextVisible(frags, seqs, i + 1, upper, lower)
  }

  /** The last visible fragment at or before i, or |frags| when there is none. */
  function PrevVisible(frags: seq<Fragment>, seqs: seq<SeqNum>, i: nat, upper: nat, lower: nat): (r: nat)
    requires SlicesWithin(frags, |seqs|) && i < |frags|
    ensures r == |frags| || r <= i
    ensures r < |frags| ==> Visible(frags, seqs, r, upper, lower)
    ensures forall j :: (if r == |frags| then 0 else r + 1) <= j <= i ==> !Visible(frags, seqs, j, upper, lower)
    decreases i
  {
    if Visible(frags, seqs, i, upper, lower) then i
    else if i == 0 then |frags|
    else PrevVisible(frags, seqs, i - 1, upper, lower)
  }

  function EndsAfter(k: Key): Fragment -> bool
  {
    (f: Fragment) => k < f.endKey
  }

  function StartsAfter(k: Key): Fragment -> bool
  {
    (f: Fragment) => k < f.startKey
  }

  /** The first fragment ending after `k`: the only one that can hold `k` going forward. */
  function CoverIdx(frags: seq<Fragment>, k: Key): (p: nat)
    ensures p <= |frags|
  {
    FirstTrue(frags, EndsAfter(k))
  }

  /** The number of fragments starting at or before `k`. */
  function StartsUpTo(frags: seq<Fragment>, k: Key): (p: nat)
    ensures p <= |frags|
  {
    FirstTrue(frags, StartsAfter(k))
  }

  lemma EndsPartitioned(frags: seq<Fragment>, seqs: seq<SeqNum>, k: Key)
    requires WellFormed(frags, seqs)
    ensures Partitioned(frags, EndsAfter(k))
  {
    forall j, m | 0 <= j <= m < |frags| && EndsAfter(k)(frags[j]) ensures EndsAfter(k)(frags[m]) {
      if j < m {
        assert frags[j].endKey <= frags[m].startKey < frags[m].endKey;
      }
    }
  }

  lemma StartsPartitioned(frags: seq<Fragment>, seqs: seq<SeqNum>, k: Key)
    requires WellFormed(frags, seqs)
    ensures Partitioned(frags, StartsAfter(k))
  {
    forall j, m | 0 <= j <= m < |frags| && StartsAfter(k)(frags[j]) ensures StartsAfter(k)(frags[m]) {
      if j < m {
        assert frags[j].startKey < frags[j].endKey <= frags[m].startKey;
      }
    }
  }

  lemma SliceAtMostPartitioned(frags: seq<Fragment>, seqs: seq<SeqNum>, i: nat, upper: nat)
    requires WellFormed(frags, seqs) && i < |frags|
    ensures Partitioned(seqs[frags[i].seqStartIdx..frags[i].seqEndIdx], AtMost(upper))
  {
    var lo, hi := frags[i].seqStartIdx, frags[i].seqEndIdx;
    var s := seqs[lo..hi];
    assert Descending(seqs, lo, hi);
    forall j, m | 0 <= j <= m < |s| && AtMost(upper)(s[j]) ensures AtMost(upper)(s[m]) {
      assert s[j] == seqs[lo + j] && s[m] == seqs[lo + m];
    }
  }

  // ---------------------------------------------------------------------------
  // The covering seqnum of a key

  /** `r` is the largest member of `s` at most `upper`, or 0 when there is none. */
  ghost predicate IsMaxAtMost(r: nat, s: set<SeqNum>, upper: nat)
  {
    if exists x :: x in s && x <= upper then
      r in s && r <= upper && forall x :: x in s && x <= upper ==> x <= r
    else
      r == 0
  }

  /**
   * What MaxCoveringTombstoneSeqnum reports: the top seqnum of the first
   * fragment ending after `k`, when that fragment starts at or before `k`
   * and has a top; 0 otherwise.
   */
  function MaxCovering(frags: seq<Fragment>, seqs: seq<SeqNum>, k: Key, upper: nat): nat
    requires WellFormed(frags, seqs)
  {
    var p := CoverIdx(frags, k);
    if p < |frags| && TopIdx(frags, seqs, p, upper) != frags[p].seqEndIdx && frags[p].startKey <= k
    then seqs[TopIdx(frags, seqs, p, upper)]
    else 0
  }

  /** The top of a fragment is the newest of its seqnums at most `upper`. */
  lemma TopIsMax(frags: seq<Fragment>, seqs: seq<SeqNum>, i: nat, upper: nat)
    requires WellFormed(frags, seqs) && i < |frags|
    ensures IsMaxAtMost(if TopIdx(frags, seqs, i, upper) == frags[i].seqEndIdx then 0
                        else seqs[TopIdx(frags, seqs, i, upper)],
                        SliceSet(seqs, frags[i]), upper)
  {
    var lo, hi := frags[i].seqStartIdx, frags[i].seqEndIdx;
    var s := seqs[lo..hi];
    var t := TopIdx(frags, seqs, i, upper);
    SliceAtMostPartitioned(frags, seqs, i, upper);
    FirstTrueSplits(s, AtMost(upper));
    assert Descending(seqs, lo, hi);
    if t == hi {
      forall x | x in SliceSet(seqs, frags[i]) ensures x > upper {
        var j :| 0 <= j < |s| && s[j] == x;
        assert !AtMost(upper)(s[j]);
      }
    } else {
      assert s[t - lo] == seqs[t];
      assert seqs[t] in SliceSet(seqs, frags[i]);
      forall x | x in SliceSet(seqs, frags[i]) && x <= upper ensures x <= seqs[t] {
        var j :| 0 <= j < |s| && s[j] == x;
        assert AtMost(upper)(s[j]);
        assert s[j] == seqs[lo + j];
      }
    }
  }

  /**
   * Coverage equivalence on the fragments: the seqnum MaxCoveringTombstoneSeqnum
   * reports for `k` is the largest seqnum at most `upper` the fragment vector
   * holds for `k`.
   */
  lemma MaxCoveringIsMax(frags: seq<Fragment>, seqs: seq<SeqNum>, k: Key, upper: nat)
    requires WellFormed(frags, seqs)
    ensures IsMaxAtMost(MaxCovering(frags, seqs, k, upper), CoverSet(frags, seqs, k), upper)
  {
    var p := CoverIdx(frags, k);
    EndsPartitioned(frags, seqs, k);
    FirstTrueSplits(frags, EndsAfter(k));
    if p < |frags| && frags[p].startKey <= k {
      CoverSetAt(frags, seqs, p, k);
      TopIsMax(frags, seqs, p, upper);
    } else {
      forall j | 0 <= j < |frags| ensures !Contains(frags[j], k) {
        if j < p {
          assert !EndsAfter(k)(frags[j]);
        } else if p < j {
          assert frags[p].startKey < frags[p].endKey <= frags[j].startKey;
        }
      }
      CoverSetNone(frags, seqs, k);
    }
  }

  /**
   * The headline property: on a list built from `input`, the seqnum reported
   * for `k` is the largest seqnum at most `upper` that `Keep` leaves of the
   * input tombstones covering `k`; in read mode, of all of them.
   */
  lemma MaxCoveringMatchesInput(list: FragmentedRangeTombstoneList, k: Key, upper: nat)
    requires list.Valid()
    ensures IsMaxAtMost(MaxCovering(list.tombstones, list.tombstoneSeqs, k, upper),
                        Keep(Covering(list.unfragmented, k), list.forCompaction, list.snapshots), upper)
    ensures !list.forCompaction ==>
              IsMaxAtMost(MaxCovering(list.tombstones, list.tombstoneSeqs, k, upper),
                          Covering(list.unfragmented, k), upper)
  {
    MaxCoveringIsMax(list.tombstones, list.tombstoneSeqs, k, upper);
  }

  // ---------------------------------------------------------------------------
  // Snapshot stripes of SplitBySnapshot

  function StripeUpper(snapshots: seq<SeqNum>, i: nat): SeqNum
  {
    if i >= |snapshots| then kMaxSequenceNumber else snapshots[i]
  }

  function StripeLower(snapshots: seq<SeqNum>, i: nat): nat
  {
    if i == 0 then 0 else StripeUpper(snapshots, i - 1) + 1
  }

  predicate InStripe(snapshots: seq<SeqNum>, i: nat, s: nat)
  {
    StripeLower(snapshots, i) <= s <= StripeUpper(snapshots, i)
  }

  /**
   * The stripes [0, s1], [s1 + 1, s2], ..., [sn + 1, kMax] partition the
   * sequence numbers: each lies in exactly one, the stripe `Keep` uses.
   */
  lemma StripesPartition(snapshots: seq<SeqNum>, s: SeqNum)
    requires Ascending(snapshots)
    ensures Stripe(snapshots, s) <= |snapshots| && InStripe(snapshots, Stripe(snapshots, s), s)
    ensures forall i :: 0 <= i <= |snapshots| && i != Stripe(snapshots, s) ==> !InStripe(snapshots, i, s)
  {
    var st := Stripe(snapshots, s);
    AtLeastPartitioned(snapshots, s);
    FirstTrueSplits(snapshots, AtLeast(s));
    if 0 < st {
      assert !AtLeast(s)(snapshots[st - 1]);
    }
    forall i | 0 <= i <= |snapshots| && i != st ensures !InStripe(snapshots, i, s) {
      if i < st {
        assert !AtLeast(s)(snapshots[i]);
      } else {
        assert AtLeast(s)(snapshots[st]);
        assert snapshots[st] <= snapshots[i - 1];
      }
    }
  }

  /** Some seqnum of `seqs` lies in [lower, upper]: what ContainsRange answers. */
  ghost predicate HasSeqIn(seqs: seq<SeqNum>, lower: nat, upper: nat)
  {
    exists s :: s in seqs && lower <= s <= upper
  }

  /** Stripe m holds a seqnum of `seqs`. */
  ghost predicate StripeHasSeq(seqs: seq<SeqNum>, snapshots: seq<SeqNum>, m: nat)
  {
    HasSeqIn(seqs, StripeLower(snapshots, m), StripeUpper(snapshots, m))
  }

  /** Stripe i is the first stripe with upper bound `u` that holds a seqnum. */
  ghost predicate FirstSplit(seqs: seq<SeqNum>, snapshots: seq<SeqNum>, i: nat, u: nat)
  {
    && i <= |snapshots|
    && StripeUpper(snapshots, i) == u
    && StripeHasSeq(seqs, snapshots, i)
    && forall m {:trigger StripeHasSeq(seqs, snapshots, m)} ::
         0 <= m < i && StripeUpper(snapshots, m) == u ==> !StripeHasSeq(seqs, snapshots, m)
  }

  // ---------------------------------------------------------------------------
  // The iterator

  class FragmentedRangeTombstoneIterator {
    const list: FragmentedRangeTombstoneList
    const upperBound: nat
    const lowerBound: nat
    /** Index of the current fragment; |tombstones| is the end. */
    var pos: nat
    /** Index into the seqnum vector. */
    var seqPos: nat

    ghost predicate Inv()
      reads this, list
    {
      && WellFormed(list.tombstones, list.tombstoneSeqs)
      && pos <= |list.tombstones|
      && seqPos <= |list.tombstoneSeqs|
    }

    /** Top mode: at a fragment, the seqnum position is its top. */
    ghost predicate AtTop()
      reads this, list
    {
      && Inv()
      && (pos < |list.tombstones| ==> seqPos == TopIdx(list.tombstones, list.tombstoneSeqs, pos, upperBound))
    }

    /** Plain mode: the seqnum position lies in the current fragment's slice, or at the end. */
    ghost predicate Aligned()
      reads this, list
    {
      && Inv()
      && (pos < |list.tombstones| ==>
            list.tombstones[pos].seqStartIdx <= seqPos < list.tombstones[pos].seqEndIdx)
      && (pos == |list.tombstones| ==> seqPos == |list.tombstoneSeqs|)
    }

    constructor (list: FragmentedRangeTombstoneList, upperBound: nat, lowerBound: nat)
      requires WellFormed(list.tombstones, list.tombstoneSeqs)
      ensures this.list == list && this.upperBound == upperBound && this.lowerBound == lowerBound
      ensures Aligned() && AtTop() && !Valid()
    {
      this.list := list;
      this.upperBound := upperBound;
      this.lowerBound := lowerBound;
      pos := |list.tombstones|;
      seqPos := |list.tombstoneSeqs|;
    }

    /** Past the last fragment and the last seqnum. */
    method Invalidate()
      requires Inv()
      modifies this
      ensures pos == |list.tombstones| && seqPos == |list.tombstoneSeqs|
      ensures Aligned() && AtTop()
    {
      pos := |list.tombstones|;
      seqPos := |list.tombstoneSeqs|;
    }

    /** Moves the seqnum position to the top of the current fragment (binary search). */
    method SetMaxVisibleSeq()
      requires Inv() && pos < |list.tombstones|
      modifies this
      ensures pos == old(pos) && AtTop()
    {
      var f := list.tombstones[pos];
      SliceAtMostPartitioned(list.tombstones, list.tombstoneSeqs, pos, upperBound);
      var offset := PartitionPoint(list.tombstoneSeqs[f.seqStartIdx..f.seqEndIdx], AtMost(upperBound));
      seqPos := f.seqStartIdx + offset;
    }

    function Valid(): (v: bool)
      reads this, list
      requires Inv()
      ensures v <==> pos < |list.tombstones|
    {
      pos != |list.tombstones|
    }

    method SeekToFirst()
      requires Inv()
      modifies this
      ensures Aligned() && pos == 0 && seqPos == 0
    {
      pos := 0;
      seqPos := 0;
    }

    /** The list must not be empty (the last element of an empty vector does not exist). */
    method SeekToLast()
      requires Inv() && list.tombstones != []
      modifies this
      ensures Aligned()
      ensures pos == |list.tombstones| - 1 && seqPos == |list.tombstoneSeqs| - 1
    {
      pos := |list.tombstones| - 1;
      seqPos := |list.tombstoneSeqs| - 1;
    }

    method ScanForwardToVisibleTombstone()
      requires AtTop()
      modifies this
      ensures AtTop()
      ensures pos == NextVisible(list.tombstones, list.tombstoneSeqs, old(pos), upperBound, lowerBound)
    {
      while pos != |list.tombstones| &&
            (seqPos == list.tombstones[pos].seqEndIdx || list.tombstoneSeqs[seqPos] < lowerBound)
        invariant AtTop()
        invariant NextVisible(list.tombstones, list.tombstoneSeqs, old(pos), upperBound, lowerBound)
               == NextVisible(list.tombstones, list.tombstoneSeqs, pos, upperBound, lowerBound)
        decreases |list.tombstones| - pos
      {
        pos := pos + 1;
        if pos == |list.tombstones| {
          Invalidate();
          return;
        }
        SetMaxVisibleSeq();
      }
    }

    method ScanBackwardToVisibleTombstone()
      requires AtTop()
      modifies this
      ensures AtTop()
      ensures pos == if old(pos) == |list.tombstones| then old(pos)
                     else PrevVisible(list.tombstones, list.tombstoneSeqs, old(pos), upperBound, lowerBound)
    {
      while pos != |list.tombstones| &&
            (seqPos == list.tombstones[pos].seqEndIdx || list.tombstoneSeqs[seqPos] < lowerBound)
        invariant AtTop()
        invariant old(pos) == |list.tombstones| ==> pos == old(pos)
        invariant old(pos) < |list.tombstones| ==>
                    pos < |list.tombstones| &&
                    PrevVisible(list.tombstones, list.tombstoneSeqs, old(pos), upperBound, lowerBound)
                    == PrevVisible(list.tombstones, list.tombstoneSeqs, pos, upperBound, lowerBound)
        decreases pos
      {
        if pos == 0 {
          Invalidate();
          return;
        }
        pos := pos - 1;
        SetMaxVisibleSeq();
      }
    }

    method SeekToTopFirst()
      requires Inv()
      modifies this
      ensures AtTop()
      ensures pos == NextVisible(list.tombstones, list.tombstoneSeqs, 0, upperBound, lowerBound)
    {
      if |list.tombstones| == 0 {
        Invalidate();
        return;
      }
      pos := 0;
      SetMaxVisibleSeq();
      ScanForwardToVisibleTombstone();
    }

    method SeekToTopLast()
      requires Inv()
      modifies this
      ensures AtTop()
      ensures pos == if list.tombstones == [] then 0
                     else PrevVisible(list.tombstones, list.tombstoneSeqs, |list.tombstones| - 1,
                                      upperBound, lowerBound)
    {
      if |list.tombstones| == 0 {
        Invalidate();
        return;
      }
      pos := |list.tombstones| - 1;
      SetMaxVisibleSeq();
      ScanBackwardToVisibleTombstone();
    }

    /** Positions at the first fragment ending after `target` (upper bound on end keys). */
    method SeekToCoveringTombstone(target: Key)
      requires Inv()
      modifies this
      ensures AtTop()
      ensures pos == CoverIdx(list.tombstones, target)
      ensures !Valid() ==> seqPos == |list.tombstoneSeqs|
    {
      EndsPartitioned(list.tombstones, list.tombstoneSeqs, target);
      pos := PartitionPoint(list.tombstones, EndsAfter(target));
      if pos == |list.tombstones| {
        // Every fragment ends at or before the target.
        seqPos := |list.tombstoneSeqs|;
        return;
      }
      SetMaxVisibleSeq();
    }

    /** Positions at the last fragment starting at or before `target`; invalid when there is none. */
    method SeekForPrevToCoveringTombstone(target: Key)
      requires Inv()
      modifies this
      ensures AtTop()
      ensures pos == if StartsUpTo(list.tombstones, target) == 0 then |list.tombstones|
                     else StartsUpTo(list.tombstones, target) - 1
    {
      if |list.tombstones| == 0 {
        Invalidate();
        return;
      }
      StartsPartitioned(list.tombstones, list.tombstoneSeqs, target);
      pos := PartitionPoint(list.tombstones, StartsAfter(target));
      if pos == 0 {
        // Every fragment starts after the target.
        Invalidate();
        return;
      }
      pos := pos - 1;
      SetMaxVisibleSeq();
    }

    /** The first visible fragment among those ending after `target`. */
    method Seek(target: Key)
      requires Inv()
      modifies this
      ensures AtTop()
      ensures pos == NextVisible(list.tombstones, list.tombstoneSeqs, CoverIdx(list.tombstones, target),
                                 upperBound, lowerBound)
    {
      if |list.tombstones| == 0 {
        Invalidate();
        return;
      }
      SeekToCoveringTombstone(target);
      ScanForwardToVisibleTombstone();
    }

    /** The last visible fragment among those starting at or before `target`. */
    method SeekForPrev(target: Key)
      requires Inv()
      modifies this
      ensures AtTop()
      ensures pos == if StartsUpTo(list.tombstones, target) == 0 then |list.tombstones|
                     else PrevVisible(list.tombstones, list.tombstoneSeqs, StartsUpTo(list.tombstones, target) - 1,
                                      upperBound, lowerBound)
    {
      if |list.tombstones| == 0 {
        Invalidate();
        return;
      }
      SeekForPrevToCoveringTombstone(target);
      ScanBackwardToVisibleTombstone();
    }

    /** The next (fragment, seqnum) pair. */
    method Next()
      requires Aligned() && Valid()
      modifies this
      ensures Aligned()
      ensures seqPos == old(seqPos) + 1
      ensures pos == if seqPos == list.tombstones[old(pos)].seqEndIdx then old(pos) + 1 else old(pos)
    {
      seqPos := seqPos + 1;
      if seqPos == list.tombstones[pos].seqEndIdx {
        pos := pos + 1;
      }
    }

    /** The next visible fragment. */
    method TopNext()
      requires AtTop() && Valid()
      modifies this
      ensures AtTop()
      ensures pos == NextVisible(list.tombstones, list.tombstoneSeqs, old(pos) + 1, upperBound, lowerBound)
    {
      pos := pos + 1;
      if pos == |list.tombstones| {
        return;
      }
      SetMaxVisibleSeq();
      ScanForwardToVisibleTombstone();
    }

    /** The previous (fragment, seqnum) pair; before the first one the iterator is invalid. */
    method Prev()
      requires Aligned()
      modifies this
      ensures Aligned()
      ensures old(seqPos) == 0 ==> !Valid()
      ensures old(seqPos) != 0 ==> seqPos == old(seqPos) - 1 && old(pos) - 1 <= pos <= old(pos)
    {
      if seqPos == 0 {
        Invalidate();
        return;
      }
      seqPos := seqPos - 1;
      if pos == |list.tombstones| || seqPos + 1 == list.tombstones[pos].seqStartIdx {
        pos := pos - 1;
      }
    }

    /** The previous visible fragment; before the first one the iterator is invalid. */
    method TopPrev()
      requires AtTop()
      modifies this
      ensures AtTop()
      ensures pos == if old(pos) == 0 then |list.tombstones|
                     else PrevVisible(list.tombstones, list.tombstoneSeqs, old(pos) - 1, upperBound, lowerBound)
    {
      if pos == 0 {
        Invalidate();
        return;
      }
      pos := pos - 1;
      SetMaxVisibleSeq();
      ScanBackwardToVisibleTombstone();
    }

    /**
     * The newest seqnum at most `upperBound` of a tombstone covering
     * `targetUserKey`, or 0.
     */
    method MaxCoveringTombstoneSeqnum(targetUserKey: Key) returns (r: nat)
      requires Inv()
      modifies this
      ensures AtTop()
      ensures r == MaxCovering(list.tombstones, list.tombstoneSeqs, targetUserKey, upperBound)
      ensures IsMaxAtMost(r, CoverSet(list.tombstones, list.tombstoneSeqs, targetUserKey), upperBound)
    {
      SeekToCoveringTombstone(targetUserKey);
      var validPos := pos != |list.tombstones| && seqPos != list.tombstones[pos].seqEndIdx;
      r := if validPos && list.tombstones[pos].startKey <= targetUserKey then list.tombstoneSeqs[seqPos] else 0;
      MaxCoveringIsMax(list.tombstones, list.tombstoneSeqs, targetUserKey, upperBound);
    }

    /**
     * One iterator per snapshot stripe that holds a seqnum, keyed by the
     * stripe's upper bound; a key already present keeps its first iterator.
     */
    method SplitBySnapshot(snapshots: seq<SeqNum>) returns (splits: map<nat, FragmentedRangeTombstoneIterator>)
      requires Inv() && list.Valid()
      modifies list`seqSet, list`seqSetInitialized
      ensures list.Valid()
      ensures forall u :: u in splits ==> fresh(splits[u])
      ensures SplitsOf(splits, list)
      ensures SplitsCover(list.tombstoneSeqs, snapshots, |snapshots| + 1, LowerBounds(splits))
    {
      splits := SplitStripes(list, snapshots);
    }
  }

  /** The loop of SplitBySnapshot over the |snapshots| + 1 stripes. */
  method SplitStripes(list: FragmentedRangeTombstoneList, snapshots: seq<SeqNum>)
    returns (splits: map<nat, FragmentedRangeTombstoneIterator>)
    requires WellFormed(list.tombstones, list.tombstoneSeqs) && list.SeqSetValid()
    modifies list`seqSet, list`seqSetInitialized
    ensures list.SeqSetValid()
    ensures forall u :: u in splits ==> fresh(splits[u])
    ensures SplitsOf(splits, list)
    ensures SplitsCover(list.tombstoneSeqs, snapshots, |snapshots| + 1, LowerBounds(splits))
  {
    splits := map[];
    var lower: nat := 0;
    var upper: nat;
    for i := 0 to |snapshots| + 1
      invariant list.SeqSetValid()
      invariant lower == StripeLower(snapshots, i)
      invariant forall u :: u in splits ==> fresh(splits[u])
      invariant SplitsOf(splits, list)
      invariant SplitsCover(list.tombstoneSeqs, snapshots, i, LowerBounds(splits))
    {
      splits, upper := SplitStripe(list, snapshots, i, lower, splits);
      lower := upper + 1;
    }
  }

  /** One stripe of SplitBySnapshot: an iterator for it when it holds a seqnum. */
  method SplitStripe(list: FragmentedRangeTombstoneList, snapshots: seq<SeqNum>, i: nat, lower: nat,
                     splits: map<nat, FragmentedRangeTombstoneIterator>)
    returns (r: map<nat, FragmentedRangeTombstoneIterator>, upper: nat)
    requires i <= |snapshots| && lower == StripeLower(snapshots, i)
    requires WellFormed(list.tombstones, list.tombstoneSeqs) && list.SeqSetValid() && SplitsOf(splits, list)
    requires SplitsCover(list.tombstoneSeqs, snapshots, i, LowerBounds(splits))
    modifies list`seqSet, list`seqSetInitialized
    ensures list.SeqSetValid() && upper == StripeUpper(snapshots, i)
    ensures SplitsOf(r, list) && SplitsCover(list.tombstoneSeqs, snapshots, i + 1, LowerBounds(r))
    ensures forall u :: u in r ==> (u in splits && r[u] == splits[u]) || fresh(r[u])
  {
    if i >= |snapshots| {
      upper := kMaxSequenceNumber;
    } else {
      upper := snapshots[i];
    }
    var contains := list.ContainsRange(lower, upper);
    SplitStep(list.tombstoneSeqs, snapshots, i, LowerBounds(splits), contains);
    r := splits;
    if contains {
      r := Emplace(splits, list, upper, lower);
    }
  }

  /** `std::map::emplace`: adds an iterator for [lower, upper] unless `upper` is already a key. */
  method Emplace(splits: map<nat, FragmentedRangeTombstoneIterator>, list: FragmentedRangeTombstoneList,
                 upper: nat, lower: nat)
    returns (r: map<nat, FragmentedRangeTombstoneIterator>)
    requires WellFormed(list.tombstones, list.tombstoneSeqs) && SplitsOf(splits, list)
    ensures SplitsOf(r, list)
    ensures forall u :: u in r ==> (u in splits && r[u] == splits[u]) || fresh(r[u])
    ensures LowerBounds(r) == if upper in splits then LowerBounds(splits) else LowerBounds(splits)[upper := lower]
  {
    r := splits;
    if upper !in splits {
      var split := new FragmentedRangeTombstoneIterator(list, upper, lower);
      r := splits[upper := split];
      assert LowerBounds(r) == LowerBounds(splits)[upper := lower];
    }
  }

  /** Every split iterates `list` with its key as upper bound. */
  ghost predicate SplitsOf(splits: map<nat, FragmentedRangeTombstoneIterator>, list: FragmentedRangeTombstoneList)
  {
    forall u :: u in splits ==> splits[u].list == list && splits[u].upperBound == u
  }

  /** The lower bound of every split, by upper bound. */
  function LowerBounds(splits: map<nat, FragmentedRangeTombstoneIterator>): (lows: map<nat, nat>)
    ensures lows.Keys == splits.Keys
    ensures forall u :: u in splits ==> lows[u] == splits[u].lowerBound
  {
    map u | u in splits :: splits[u].lowerBound
  }

  /**
   * After the stripes before `n`: every stripe holding a seqnum has its upper
   * bound in `lows`, and each entry of `lows` is the lower bound of the first
   * such stripe with that upper bound.
   */
  ghost predicate SplitsCover(seqs: seq<SeqNum>, snapshots: seq<SeqNum>, n: nat, lows: map<nat, nat>)
  {
    && (forall m {:trigger StripeHasSeq(seqs, snapshots, m)} ::
          0 <= m < n && StripeHasSeq(seqs, snapshots, m) ==> StripeUpper(snapshots, m) in lows)
    && (forall u :: u in lows ==> exists m: nat :: m < n && FirstSplit(seqs, snapshots, m, u) &&
                                                  lows[u] == StripeLower(snapshots, m))
  }

  /** One stripe of SplitBySnapshot: emplace its bounds when it holds a seqnum. */
  lemma SplitStep(seqs: seq<SeqNum>, snapshots: seq<SeqNum>, i: nat, lows: map<nat, nat>, contains: bool)
    requires i <= |snapshots| && SplitsCover(seqs, snapshots, i, lows)
    requires contains == StripeHasSeq(seqs, snapshots, i)
    ensures SplitsCover(seqs, snapshots, i + 1,
                        if contains && StripeUpper(snapshots, i) !in lows
                        then lows[StripeUpper(snapshots, i) := StripeLower(snapshots, i)] else lows)
  {
    var u := StripeUpper(snapshots, i);
    if contains && u !in lows {
      assert FirstSplit(seqs, snapshots, i, u);
    }
  }
}
