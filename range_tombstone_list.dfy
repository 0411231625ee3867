/**
 * FragmentedRangeTombstoneList: builds the fragment vector from a stream of
 * range tombstones by a sweep over their start keys.  The open tombstones are
 * kept ordered by end key; each time the sweep moves past an end key or
 * reaches the next start key, the open tombstones form one fragment.
 *
 * The list's invariant `Valid` states the fragmenter's purpose: at every user
 * key, the fragments report exactly the seqnums `Keep` asks of the input's
 * covering tombstones.
 */
module RangeTombstoneFragmenter {
  import opened DbFormat
  import opened Wrappers
  import opened Search
  import opened Sorting
  import opened RangeTombstones
  import opened VectorIterators
  import PinnedIterators

  // ---------------------------------------------------------------------------
  // Input order

  function StartKeyOf(t: RangeTombstone): InternalKey
  {
    InternalKey(t.startKey, t.seqNum)
  }

  /** Every tombstone is in internal-key order with respect to its predecessor. */
  ghost predicate InInternalKeyOrder(ts: seq<RangeTombstone>)
  {
    forall i :: 0 < i < |ts| ==> !InternalKeyLess(StartKeyOf(ts[i]), StartKeyOf(ts[i - 1]))
  }

  ghost predicate SortedByStart(ts: seq<RangeTombstone>)
  {
    forall i, j :: 0 <= i < j < |ts| ==> ts[i].startKey <= ts[j].startKey
  }

  /** No tombstone ends before it starts (an empty range is allowed). */
  ghost predicate ProperRanges(ts: seq<RangeTombstone>)
  {
    forall t :: t in ts ==> t.startKey <= t.endKey
  }

  /** The length of the longest prefix of `ts` in internal-key order. */
  function SortedPrefixLength(ts: seq<RangeTombstone>): (n: nat)
    ensures n <= |ts|
    ensures forall i :: 0 < i < n ==> !InternalKeyLess(StartKeyOf(ts[i]), StartKeyOf(ts[i - 1]))
    ensures n < |ts| ==> 0 < n && InternalKeyLess(StartKeyOf(ts[n]), StartKeyOf(ts[n - 1]))
  {
    if |ts| <= 1 then |ts|
    else if InternalKeyLess(StartKeyOf(ts[1]), StartKeyOf(ts[0])) then 1
    else 1 + SortedPrefixLength(ts[1..])
  }

  lemma {:induction false} StartsChain(ts: seq<RangeTombstone>, i: nat, j: nat)
    requires InInternalKeyOrder(ts) && i <= j < |ts|
    ensures ts[i].startKey <= ts[j].startKey
    decreases j - i
  {
    if i < j {
      StartsChain(ts, i, j - 1);
      assert !InternalKeyLess(StartKeyOf(ts[j]), StartKeyOf(ts[j - 1]));
    }
  }

  /** Checking neighbours suffices: an input in internal-key order is sorted by start key. */
  lemma InOrderSortedByStart(ts: seq<RangeTombstone>)
    requires InInternalKeyOrder(ts)
    ensures SortedByStart(ts)
  {
    forall i, j | 0 <= i < j < |ts| ensures ts[i].startKey <= ts[j].startKey {
      StartsChain(ts, i, j);
    }
  }

  /**
   * The sortedness scan of the constructor.  The count is advanced only when
   * the loop continues, so an out-of-order input stops it at the first
   * offending tombstone.
   */
  method CheckSorted(ts: seq<RangeTombstone>) returns (isSorted: bool, count: nat)
    ensures isSorted <==> InInternalKeyOrder(ts)
    ensures count == SortedPrefixLength(ts)
    ensures isSorted ==> count == |ts|
  {
    isSorted := true;
    count := 0;
    var lastStartKey := InternalKey(0, 0);
    while count < |ts|
      invariant count <= |ts|
      invariant forall i :: 0 < i < count ==> !InternalKeyLess(StartKeyOf(ts[i]), StartKeyOf(ts[i - 1]))
      invariant 0 < count ==> lastStartKey == StartKeyOf(ts[count - 1])
    {
      if count > 0 && InternalKeyLess(StartKeyOf(ts[count]), lastStartKey) {
        isSorted := false;
        break;
      }
      lastStartKey := StartKeyOf(ts[count]);
      count := count + 1;
    }
  }

  /** The example that shows the count stopping short: two tombstones, the second out of order. */
  lemma SortCheckUndercounts()
    ensures SortedPrefixLength([RangeTombstone(2, 3, 1), RangeTombstone(1, 3, 1)]) == 1
  {
  }

  /** Reordering the input changes no tombstone and no coverage. */
  lemma SameCoverage(sorted: seq<RangeTombstone>, input: seq<RangeTombstone>)
    requires forall t :: t in sorted <==> t in input
    requires ProperRanges(input)
    ensures ProperRanges(sorted)
    ensures forall k :: Covering(sorted, k) == Covering(input, k)
  {
    forall k ensures Covering(sorted, k) == Covering(input, k) {
      CoveringSameElements(sorted, input, k);
    }
  }

  // ---------------------------------------------------------------------------
  // The sweep invariant

  /**
   * The state of the sweep after the tombstones `processed`: fragments are
   * final below `curStart`, and from `curStart` on the processed tombstones
   * cover a key exactly when they are still open there.
   */
  ghost predicate SweepInv(frags: seq<Fragment>, seqs: seq<SeqNum>, curStart: Key, curEnds: seq<EndKey>,
                           processed: seq<RangeTombstone>, forCompaction: bool, snapshots: seq<SeqNum>)
  {
    && WellFormed(frags, seqs)
    && (frags != [] ==> frags[|frags| - 1].endKey <= curStart)
    && (forall k :: k < curStart ==>
          CoverSet(frags, seqs, k) == Keep(Covering(processed, k), forCompaction, snapshots))
    && (forall k :: curStart <= k ==> Covering(processed, k) == OpenCovering(curEnds, k))
    && EndKeysOrdered(curEnds)
    && (forall e :: e in curEnds ==> curStart <= e.endKey)
  }

  /** The facts the sweep needs about the next tombstone of sorted, proper input. */
  lemma NextTombstone(input: seq<RangeTombstone>, j: nat)
    requires SortedByStart(input) && ProperRanges(input) && j < |input|
    ensures input[..j + 1] == input[..j] + [input[j]]
    ensures input[j].startKey <= input[j].endKey
    ensures 0 < j ==> input[j - 1].startKey <= input[j].startKey
  {
    assert input[j] in input;
  }

  /** Opening tombstone `t` at the current start key. */
  lemma InsertStep(frags: seq<Fragment>, seqs: seq<SeqNum>, curEnds: seq<EndKey>, processed: seq<RangeTombstone>,
                   t: RangeTombstone, forCompaction: bool, snapshots: seq<SeqNum>)
    requires SweepInv(frags, seqs, t.startKey, curEnds, processed, forCompaction, snapshots)
    requires t.startKey <= t.endKey
    ensures SweepInv(frags, seqs, t.startKey, InsertEndKey(curEnds, EndKey(t.endKey, t.seqNum)),
                     processed + [t], forCompaction, snapshots)
  {
    forall k ensures Covering(processed + [t], k)
                  == Covering(processed, k) + (if t.startKey <= k < t.endKey then {t.seqNum} else {}) {
      CoveringAppend(processed, t, k);
    }
  }

  /** Before the first tombstone nothing is covered. */
  lemma SweepStart(startKey: Key, forCompaction: bool, snapshots: seq<SeqNum>)
    ensures SweepInv([], [], startKey, [], [], forCompaction, snapshots)
  {
    KeepEmpty(forCompaction, snapshots);
  }

  /** At the end of the sweep no tombstone is open beyond the current start key. */
  lemma SweepFinish(frags: seq<Fragment>, seqs: seq<SeqNum>, curStart: Key, curEnds: seq<EndKey>,
                    processed: seq<RangeTombstone>, forCompaction: bool, snapshots: seq<SeqNum>)
    requires SweepInv(frags, seqs, curStart, curEnds, processed, forCompaction, snapshots)
    requires forall e :: e in curEnds ==> e.endKey <= curStart
    requires Ascending(snapshots)
    ensures FragmentsOf(frags, seqs, processed, forCompaction, snapshots)
  {
    forall k | curStart <= k
      ensures CoverSet(frags, seqs, k) == Keep(Covering(processed, k), forCompaction, snapshots)
    {
      CoverSetBeyond(frags, seqs, k);
      assert OpenCovering(curEnds, k) == {};
      KeepEmpty(forCompaction, snapshots);
    }
  }

  /** Fragments of one input are fragments of any input with the same coverage. */
  lemma FragmentsOfSameCoverage(frags: seq<Fragment>, seqs: seq<SeqNum>, a: seq<RangeTombstone>,
                                b: seq<RangeTombstone>, forCompaction: bool, snapshots: seq<SeqNum>)
    requires FragmentsOf(frags, seqs, a, forCompaction, snapshots)
    requires forall k :: Covering(a, k) == Covering(b, k)
    ensures FragmentsOf(frags, seqs, b, forCompaction, snapshots)
  {
  }

  lemma EndKeysOrderedSuffix(es: seq<EndKey>, i: nat)
    requires EndKeysOrdered(es) && i <= |es|
    ensures EndKeysOrdered(es[i..])
  {
  }

  /** The last entry of the ordered working set has the largest end key. */
  lemma LastEndIsMax(es: seq<EndKey>)
    requires EndKeysOrdered(es) && es != []
    ensures forall e :: e in es ==> e.endKey <= es[|es| - 1].endKey
  {
    forall e | e in es ensures e.endKey <= es[|es| - 1].endKey {
      var m :| 0 <= m < |es| && es[m] == e;
      if m < |es| - 1 {
        assert EndKeyLess(es[m], es[|es| - 1]);
      }
    }
  }

  /**
   * The state of a flush after passing the first `i` entries of the working
   * set `ends`: fragments are final below `curStart`, the entries passed end
   * by `curStart`, the others after it.
   */
  ghost predicate FlushInv(frags: seq<Fragment>, seqs: seq<SeqNum>, curStart: Key, i: nat, nextStartKey: Key,
                           curStartIn: Key, ends: seq<EndKey>, processed: seq<RangeTombstone>,
                           forCompaction: bool, snapshots: seq<SeqNum>)
  {
    && i <= |ends|
    && curStartIn <= curStart <= nextStartKey
    && (curStart < nextStartKey || forall e :: e in ends ==> e.endKey <= nextStartKey)
    && (forall m :: 0 <= m < i ==> ends[m].endKey <= curStart)
    && (forall m :: i <= m < |ends| ==> curStart <= ends[m].endKey)
    && EndKeysOrdered(ends)
    && WellFormed(frags, seqs)
    && (frags != [] ==> frags[|frags| - 1].endKey <= curStart)
    && (forall k :: k < curStart ==>
          CoverSet(frags, seqs, k) == Keep(Covering(processed, k), forCompaction, snapshots))
    && (forall k :: curStartIn <= k ==> Covering(processed, k) == OpenCovering(ends, k))
  }

  lemma FlushBegin(frags: seq<Fragment>, seqs: seq<SeqNum>, nextStartKey: Key, curStart: Key, ends: seq<EndKey>,
                   processed: seq<RangeTombstone>, forCompaction: bool, snapshots: seq<SeqNum>)
    requires SweepInv(frags, seqs, curStart, ends, processed, forCompaction, snapshots)
    requires curStart <= nextStartKey
    requires curStart < nextStartKey || forall e :: e in ends ==> e.endKey <= nextStartKey
    ensures FlushInv(frags, seqs, curStart, 0, nextStartKey, curStart, ends, processed, forCompaction, snapshots)
  {
  }

  lemma FlushSkip(frags: seq<Fragment>, seqs: seq<SeqNum>, curStart: Key, i: nat, nextStartKey: Key,
                  curStartIn: Key, ends: seq<EndKey>, processed: seq<RangeTombstone>,
                  forCompaction: bool, snapshots: seq<SeqNum>)
    requires FlushInv(frags, seqs, curStart, i, nextStartKey, curStartIn, ends, processed, forCompaction, snapshots)
    requires i < |ends| && ends[i].endKey == curStart
    ensures FlushInv(frags, seqs, curStart, i + 1, nextStartKey, curStartIn, ends, processed, forCompaction, snapshots)
  {
  }

  /** The end of the fragment entry i closes: its own end key, or the next start key if that comes first. */
  function FragmentEnd(ends: seq<EndKey>, i: nat, nextStartKey: Key): Key
    requires i < |ends|
  {
    if nextStartKey <= ends[i].endKey then nextStartKey else ends[i].endKey
  }

  /** A non-empty entry closes a non-empty fragment right after the last one. */
  lemma FlushReady(frags: seq<Fragment>, seqs: seq<SeqNum>, curStart: Key, i: nat, nextStartKey: Key,
                   curStartIn: Key, ends: seq<EndKey>, processed: seq<RangeTombstone>,
                   forCompaction: bool, snapshots: seq<SeqNum>)
    requires FlushInv(frags, seqs, curStart, i, nextStartKey, curStartIn, ends, processed, forCompaction, snapshots)
    requires i < |ends| && ends[i].endKey != curStart
    ensures curStart < FragmentEnd(ends, i, nextStartKey)
  {
    assert ends[i] in ends;
  }

  /** The fragment entry i closes reports, up to its end, what `Keep` asks of the input. */
  lemma FlushCovers(frags: seq<Fragment>, seqs: seq<SeqNum>, frags': seq<Fragment>, seqs': seq<SeqNum>,
                    curStart: Key, i: nat, nextStartKey: Key, curStartIn: Key, ends: seq<EndKey>,
                    processed: seq<RangeTombstone>, forCompaction: bool, snapshots: seq<SeqNum>)
    requires FlushInv(frags, seqs, curStart, i, nextStartKey, curStartIn, ends, processed, forCompaction, snapshots)
    requires i < |ends| && ends[i].endKey != curStart && Ascending(snapshots)
    requires seqs' == seqs + FragmentSeqs(SeqsOf(ends[i..]), forCompaction, snapshots)
    requires frags' == frags + [Fragment(curStart, FragmentEnd(ends, i, nextStartKey), |seqs|, |seqs'|)]
    ensures SlicesWithin(frags', |seqs'|)
    ensures forall k :: k < FragmentEnd(ends, i, nextStartKey) ==>
              CoverSet(frags', seqs', k) == Keep(Covering(processed, k), forCompaction, snapshots)
  {
    var end := FragmentEnd(ends, i, nextStartKey);
    var open := Elems(SeqsOf(ends[i..]));
    forall k | curStart <= k < end ensures Covering(processed, k) == open {
      OpenSuffix(ends, i, k);
    }
    var extra := FragmentSeqs(SeqsOf(ends[i..]), forCompaction, snapshots);
    FragmentSeqsCorrect(SeqsOf(ends[i..]), forCompaction, snapshots);
    FragmentCovers(frags, seqs, frags'[|frags|], extra, processed, open, forCompaction, snapshots);
    assert frags + [frags'[|frags|]] == frags';
  }

  /**
   * After emitting the fragment entry i closes, when that entry ends before
   * the next start key, the flush goes on at entry i + 1.
   */
  lemma FlushContinue(frags: seq<Fragment>, seqs: seq<SeqNum>, frags': seq<Fragment>, seqs': seq<SeqNum>,
                      curStart: Key, i: nat, nextStartKey: Key, curStartIn: Key, ends: seq<EndKey>,
                      processed: seq<RangeTombstone>, forCompaction: bool, snapshots: seq<SeqNum>)
    requires FlushInv(frags, seqs, curStart, i, nextStartKey, curStartIn, ends, processed, forCompaction, snapshots)
    requires i < |ends| && curStart < ends[i].endKey < nextStartKey
    requires frags' == frags + [Fragment(curStart, ends[i].endKey, |seqs|, |seqs'|)]
    requires WellFormed(frags', seqs')
    requires forall k :: k < ends[i].endKey ==>
               CoverSet(frags', seqs', k) == Keep(Covering(processed, k), forCompaction, snapshots)
    ensures FlushInv(frags', seqs', ends[i].endKey, i + 1, nextStartKey, curStartIn, ends, processed,
                     forCompaction, snapshots)
  {
    forall m | 0 <= m < i + 1 ensures ends[m].endKey <= ends[i].endKey {
      if m < i {
        assert ends[m].endKey <= curStart;
      }
    }
    forall m | i + 1 <= m < |ends| ensures ends[i].endKey <= ends[m].endKey {
      assert EndKeyLess(ends[i], ends[m]);
    }
  }

  /**
   * After emitting the fragment entry i closes, when that entry reaches the
   * next start key, the sweep resumes there with the entries from i on open.
   */
  lemma FlushReach(frags: seq<Fragment>, seqs: seq<SeqNum>, frags': seq<Fragment>, seqs': seq<SeqNum>,
                   curStart: Key, i: nat, nextStartKey: Key, curStartIn: Key, ends: seq<EndKey>,
                   processed: seq<RangeTombstone>, forCompaction: bool, snapshots: seq<SeqNum>)
    requires FlushInv(frags, seqs, curStart, i, nextStartKey, curStartIn, ends, processed, forCompaction, snapshots)
    requires i < |ends| && curStart < nextStartKey <= ends[i].endKey
    requires frags' == frags + [Fragment(curStart, nextStartKey, |seqs|, |seqs'|)]
    requires WellFormed(frags', seqs')
    requires forall k :: k < nextStartKey ==>
               CoverSet(frags', seqs', k) == Keep(Covering(processed, k), forCompaction, snapshots)
    ensures SweepInv(frags', seqs', nextStartKey, ends[i..], processed, forCompaction, snapshots)
  {
    var rest := ends[i..];
    forall k | nextStartKey <= k ensures OpenCovering(ends, k) == OpenCovering(rest, k) {
      forall e | e in ends && k < e.endKey ensures e in rest {
        var m :| 0 <= m < |ends| && ends[m] == e;
        assert rest[m - i] == e;
      }
    }
    forall e | e in rest ensures nextStartKey <= e.endKey {
      var m :| 0 <= m < |rest| && rest[m] == e;
      assert ends[i + m] == e;
    }
    EndKeysOrderedSuffix(ends, i);
  }

  /** The fragments report, at every key, what `Keep` asks of the unfragmented input. */
  ghost predicate FragmentsOf(frags: seq<Fragment>, seqs: seq<SeqNum>, input: seq<RangeTombstone>,
                              forCompaction: bool, snapshots: seq<SeqNum>)
  {
    && WellFormed(frags, seqs)
    && Ascending(snapshots)
    && (forall k :: CoverSet(frags, seqs, k) == Keep(Covering(input, k), forCompaction, snapshots))
  }

  /** A flush that never reached the next start key leaves nothing open. */
  lemma FlushGap(frags: seq<Fragment>, seqs: seq<SeqNum>, curStart: Key, nextStartKey: Key,
                 curStartIn: Key, ends: seq<EndKey>, processed: seq<RangeTombstone>,
                 forCompaction: bool, snapshots: seq<SeqNum>)
    requires FlushInv(frags, seqs, curStart, |ends|, nextStartKey, curStartIn, ends, processed, forCompaction, snapshots)
    ensures SweepInv(frags, seqs, nextStartKey, [], processed, forCompaction, snapshots)
  {
    forall k | curStart <= k
      ensures Covering(processed, k) == {}
      ensures k < nextStartKey ==> CoverSet(frags, seqs, k) == Keep(Covering(processed, k), forCompaction, snapshots)
    {
      assert OpenCovering(ends, k) == {} by {
        forall e | e in ends ensures e.endKey <= k {
          var m :| 0 <= m < |ends| && ends[m] == e;
        }
      }
      CoverSetBeyond(frags, seqs, k);
      KeepEmpty(forCompaction, snapshots);
    }
  }

  class FragmentedRangeTombstoneList {
    var tombstones: seq<Fragment>
    var tombstoneSeqs: seq<SeqNum>
    var numUnfragmentedTombstones: nat
    /** The distinct seqnums, computed on the first `ContainsRange`. */
    var seqSet: set<SeqNum>
    var seqSetInitialized: bool
    /** Owns the input iterator once the fragments, which point into it, are built. */
    const pinnedItersMgr: PinnedIterators.PinnedIteratorsManager
    /** What the list was built from and for. */
    ghost var unfragmented: seq<RangeTombstone>
    ghost var forCompaction: bool
    ghost var snapshots: seq<SeqNum>

    ghost predicate Valid()
      reads this
    {
      Fragmented() && SeqSetValid()
    }

    ghost predicate Fragmented()
      reads this`tombstones, this`tombstoneSeqs, this`unfragmented, this`forCompaction, this`snapshots
    {
      FragmentsOf(tombstones, tombstoneSeqs, unfragmented, forCompaction, snapshots)
    }

    /** Once computed, the seqnum set holds exactly the stored seqnums. */
    ghost predicate SeqSetValid()
      reads this
    {
      seqSetInitialized ==> seqSet == Elems(tombstoneSeqs)
    }

    /**
     * Fragments the tombstones the input iterator yields (`None` for a null
     * iterator).  Input out of internal-key order is first sorted through a
     * VectorIterator.  `inputIter` and `sortedIter` are the addresses of the
     * input iterator and of that VectorIterator; whichever one the sweep
     * reads is handed to the list's pinned-iterators manager.
     */
    constructor (unfragmentedTombstones: Option<seq<RangeTombstone>>, forCompaction: bool, snapshots: seq<SeqNum>,
                 inputIter: PinnedIterators.Ptr, sortedIter: PinnedIterators.Ptr)
      requires Ascending(snapshots)
      requires unfragmentedTombstones.Some? ==>
                 ProperRanges(unfragmentedTombstones.value) && |unfragmentedTombstones.value| < SIZE_MAX
      requires unfragmentedTombstones.Some? ==> inputIter != PinnedIterators.NULL && sortedIter != PinnedIterators.NULL
      ensures Valid()
      ensures fresh(pinnedItersMgr) && pinnedItersMgr.released == []
      ensures pinnedItersMgr.pinningEnabled <==> unfragmentedTombstones.Some?
      ensures pinnedItersMgr.pinnedPtrs ==
                if unfragmentedTombstones.None? || unfragmentedTombstones.value == [] then []
                else [PinnedIterators.Pin(if InInternalKeyOrder(unfragmentedTombstones.value) then inputIter else sortedIter,
                                          PinnedIterators.ReleaseInternalIterator)]
      ensures unfragmented == if unfragmentedTombstones.Some? then unfragmentedTombstones.value else []
      ensures this.forCompaction == forCompaction && this.snapshots == snapshots
      ensures numUnfragmentedTombstones == |unfragmented|
      ensures !seqSetInitialized
    {
      tombstones := [];
      tombstoneSeqs := [];
      numUnfragmentedTombstones := 0;
      seqSet := {};
      seqSetInitialized := false;
      unfragmented := if unfragmentedTombstones.Some? then unfragmentedTombstones.value else [];
      this.forCompaction := forCompaction;
      this.snapshots := snapshots;
      pinnedItersMgr := new PinnedIterators.PinnedIteratorsManager();
      new;
      if unfragmentedTombstones.None? {
        KeepEmpty(forCompaction, snapshots);
        return;
      }
      var sorted, fromInput;
      sorted, fromInput, numUnfragmentedTombstones := InputInOrder(unfragmentedTombstones.value);
      FragmentTombstones(sorted, forCompaction, snapshots, if fromInput then inputIter else sortedIter);
      FragmentsOfSameCoverage(tombstones, tombstoneSeqs, sorted, unfragmented, forCompaction, snapshots);
    }

    /**
     * Pinning starts, the tombstones are swept into fragments, and a
     * non-empty input iterator `iter` is handed to the pinned-iterators
     * manager, since the fragments point into it.
     */
    method FragmentTombstones(input: seq<RangeTombstone>, forCompaction: bool, snapshots: seq<SeqNum>,
                              iter: PinnedIterators.Ptr)
      requires tombstones == [] && tombstoneSeqs == []
      requires SortedByStart(input) && ProperRanges(input) && Ascending(snapshots)
      requires !pinnedItersMgr.pinningEnabled
      modifies this`tombstones, this`tombstoneSeqs, pinnedItersMgr
      ensures FragmentsOf(tombstones, tombstoneSeqs, input, forCompaction, snapshots)
      ensures pinnedItersMgr.pinningEnabled && pinnedItersMgr.released == old(pinnedItersMgr.released)
      ensures pinnedItersMgr.pinnedPtrs == old(pinnedItersMgr.pinnedPtrs) +
                (if input == [] || iter == PinnedIterators.NULL then []
                 else [PinnedIterators.Pin(iter, PinnedIterators.ReleaseInternalIterator)])
    {
      pinnedItersMgr.StartPinning();
      Sweep(input, forCompaction, snapshots);
      if input != [] {
        pinnedItersMgr.PinIterator(iter, false);
      }
    }

    /**
     * The sweep: for every tombstone, flush the fragments that end before its
     * start key when the start key changes, then open it; finally flush up to
     * the largest end key.
     */
    method Sweep(input: seq<RangeTombstone>, forCompaction: bool, snapshots: seq<SeqNum>)
      requires tombstones == [] && tombstoneSeqs == []
      requires SortedByStart(input) && ProperRanges(input) && Ascending(snapshots)
      modifies this`tombstones, this`tombstoneSeqs
      ensures FragmentsOf(tombstones, tombstoneSeqs, input, forCompaction, snapshots)
    {
      var curStart: Key := 0;
      var curEnds: seq<EndKey> := [];
      var j := 0;
      SweepStart(curStart, forCompaction, snapshots);
      while j < |input|
        invariant j <= |input|
        invariant SweepInv(tombstones, tombstoneSeqs, curStart, curEnds, input[..j], forCompaction, snapshots)
        invariant j == 0 ==> tombstones == [] && tombstoneSeqs == [] && curEnds == []
        invariant 0 < j ==> curEnds != [] && curStart == input[j - 1].startKey
      {
        NextTombstone(input, j);
        curStart, curEnds := AddTombstone(input[j], curStart, curEnds, forCompaction, snapshots, input[..j]);
        j := j + 1;
      }
      assert input[..j] == input;
      FlushLast(curStart, curEnds, forCompaction, snapshots, input);
    }

    /** After the last tombstone, everything still open is flushed up to the largest end key. */
    method FlushLast(curStartIn: Key, curEndsIn: seq<EndKey>, forCompaction: bool, snapshots: seq<SeqNum>,
                     ghost input: seq<RangeTombstone>)
      requires SweepInv(tombstones, tombstoneSeqs, curStartIn, curEndsIn, input, forCompaction, snapshots)
      requires Ascending(snapshots)
      modifies this`tombstones, this`tombstoneSeqs
      ensures FragmentsOf(tombstones, tombstoneSeqs, input, forCompaction, snapshots)
    {
      var curStart, curEnds := curStartIn, curEndsIn;
      if curEnds != [] {
        var lastEnd := curEnds[|curEnds| - 1].endKey;
        LastEndIsMax(curEnds);
        curStart, curEnds := FlushCurrentTombstones(lastEnd, curStart, curEnds, forCompaction, snapshots, input);
      }
      SweepFinish(tombstones, tombstoneSeqs, curStart, curEnds, input, forCompaction, snapshots);
    }

    /**
     * One step of the sweep: when the start key changes, flush everything
     * that starts before it; then open tombstone `t`.
     */
    method AddTombstone(t: RangeTombstone, curStartIn: Key, curEndsIn: seq<EndKey>,
                        forCompaction: bool, snapshots: seq<SeqNum>, ghost processed: seq<RangeTombstone>)
      returns (curStart: Key, curEnds: seq<EndKey>)
      requires SweepInv(tombstones, tombstoneSeqs, curStartIn, curEndsIn, processed, forCompaction, snapshots)
      requires Ascending(snapshots) && t.startKey <= t.endKey
      requires curEndsIn == [] ==> tombstones == [] && tombstoneSeqs == [] && processed == []
      requires curEndsIn != [] ==> curStartIn <= t.startKey
      modifies this`tombstones, this`tombstoneSeqs
      ensures SweepInv(tombstones, tombstoneSeqs, curStart, curEnds, processed + [t], forCompaction, snapshots)
      ensures curEnds != [] && curStart == t.startKey
    {
      curStart, curEnds := curStartIn, curEndsIn;
      if curEnds != [] && curStart != t.startKey {
        curStart, curEnds := FlushCurrentTombstones(t.startKey, curStart, curEnds, forCompaction, snapshots, processed);
      } else if curEnds == [] {
        SweepStart(t.startKey, forCompaction, snapshots);
      }
      curStart := t.startKey;
      InsertStep(tombstones, tombstoneSeqs, curEnds, processed, t, forCompaction, snapshots);
      curEnds := InsertEndKey(curEnds, EndKey(t.endKey, t.seqNum));
      assert EndKey(t.endKey, t.seqNum) in curEnds;
    }

    /**
     * Writes every fragment that starts at or after the current start key and
     * ends by `nextStartKey`, drops the tombstones that end by then, and moves
     * the current start key to `nextStartKey`.
     */
    method FlushCurrentTombstones(nextStartKey: Key, curStartIn: Key, curEndsIn: seq<EndKey>,
                                  forCompaction: bool, snapshots: seq<SeqNum>, ghost processed: seq<RangeTombstone>)
      returns (curStart: Key, curEnds: seq<EndKey>)
      requires SweepInv(tombstones, tombstoneSeqs, curStartIn, curEndsIn, processed, forCompaction, snapshots)
      requires Ascending(snapshots)
      requires curStartIn <= nextStartKey
      requires curStartIn < nextStartKey || forall e :: e in curEndsIn ==> e.endKey <= nextStartKey
      modifies this`tombstones, this`tombstoneSeqs
      ensures SweepInv(tombstones, tombstoneSeqs, nextStartKey, curEnds, processed, forCompaction, snapshots)
      ensures curStart == nextStartKey
      ensures forall e :: e in curEnds ==> e in curEndsIn
    {
      curStart := curStartIn;
      curEnds := curEndsIn;
      var reached := false;
      var i := 0;
      while i < |curEnds| && !reached
        invariant !reached && curEnds == curEndsIn
        invariant FlushInv(tombstones, tombstoneSeqs, curStart, i, nextStartKey, curStartIn, curEndsIn,
                           processed, forCompaction, snapshots)
      {
        var curEndKey := curEnds[i].endKey;
        if curStart == curEndKey {
          // Empty tombstone.
          FlushSkip(tombstones, tombstoneSeqs, curStart, i, nextStartKey, curStartIn, curEndsIn,
                    processed, forCompaction, snapshots);
          i := i + 1;
          continue;
        }
        ghost var at := i;
        if nextStartKey <= curEndKey {
          // The end keys from here on reach the next start key: keep them,
          // drop the ones passed, and flush one last fragment.
          reached := true;
          curEnds := curEnds[i..];
          i := 0;
          curEndKey := nextStartKey;
        }
        var open := curEnds[i..];
        assert open == curEndsIn[at..];
        FlushReady(tombstones, tombstoneSeqs, curStart, at, nextStartKey, curStartIn, curEndsIn,
                   processed, forCompaction, snapshots);
        assert tombstones == [] || tombstones[|tombstones| - 1].endKey <= curStart;
        ghost var frags, seqs := tombstones, tombstoneSeqs;
        AppendFragment(curStart, curEndKey, open, forCompaction, snapshots);
        FlushCovers(frags, seqs, tombstones, tombstoneSeqs, curStart, at, nextStartKey, curStartIn, curEndsIn,
                    processed, forCompaction, snapshots);
        if reached {
          FlushReach(frags, seqs, tombstones, tombstoneSeqs, curStart, at, nextStartKey, curStartIn, curEndsIn,
                     processed, forCompaction, snapshots);
          curStart := curEndKey;
          break;
        }
        FlushContinue(frags, seqs, tombstones, tombstoneSeqs, curStart, at, nextStartKey, curStartIn, curEndsIn,
                      processed, forCompaction, snapshots);
        curStart := curEndKey;
        i := i + 1;
      }
      if !reached {
        // A gap before the next start key: every open tombstone is fully fragmented.
        FlushGap(tombstones, tombstoneSeqs, curStart, nextStartKey, curStartIn, curEndsIn,
                 processed, forCompaction, snapshots);
        curEnds := [];
      }
      curStart := nextStartKey;
    }

    /**
     * Appends the fragment [startKey, endKey) covered by the tombstones `open`:
     * their seqnums newest first, for compaction only the newest of each
     * snapshot stripe.
     */
    method AppendFragment(startKey: Key, endKey: Key, open: seq<EndKey>, forCompaction: bool, snapshots: seq<SeqNum>)
      requires WellFormed(tombstones, tombstoneSeqs)
      requires tombstones != [] ==> tombstones[|tombstones| - 1].endKey <= startKey
      requires startKey < endKey && open != [] && Ascending(snapshots)
      modifies this`tombstones, this`tombstoneSeqs
      ensures tombstoneSeqs == old(tombstoneSeqs) + FragmentSeqs(SeqsOf(open), forCompaction, snapshots)
      ensures tombstones == old(tombstones) + [Fragment(startKey, endKey, |old(tombstoneSeqs)|, |tombstoneSeqs|)]
      ensures WellFormed(tombstones, tombstoneSeqs)
    {
      ghost var frags, seqs := tombstones, tombstoneSeqs;
      var seqnumsToFlush: seq<SeqNum> := [];
      for m := 0 to |open|
        invariant seqnumsToFlush == SeqsOf(open[..m])
        invariant tombstones == frags && tombstoneSeqs == seqs
      {
        seqnumsToFlush := seqnumsToFlush + [open[m].seqNum];
      }
      assert open[..|open|] == open;
      seqnumsToFlush := SortBy(seqnumsToFlush, SeqGreaterEq);
      var startIdx := |tombstoneSeqs|;
      if forCompaction {
        PushNewestPerStripe(seqnumsToFlush, snapshots);
      } else {
        tombstoneSeqs := tombstoneSeqs + seqnumsToFlush;
      }
      assert tombstoneSeqs == seqs + FragmentSeqs(SeqsOf(open), forCompaction, snapshots);
      var endIdx := |tombstoneSeqs|;
      FragmentSeqsCorrect(SeqsOf(open), forCompaction, snapshots);
      WellFormedAppend(frags, seqs, Fragment(startKey, endKey, startIdx, endIdx),
                       FragmentSeqs(SeqsOf(open), forCompaction, snapshots));
      tombstones := tombstones + [Fragment(startKey, endKey, startIdx, endIdx)];
    }

    /**
     * The compaction pruning of a fragment's seqnums, newest first: push a
     * seqnum only when no newer one was pushed for its snapshot stripe, and
     * stop after the stripe of the earliest snapshot.
     */
    method PushNewestPerStripe(sorted: seq<SeqNum>, snapshots: seq<SeqNum>)
      requires Ascending(snapshots)
      modifies this`tombstoneSeqs
      ensures tombstoneSeqs == old(tombstoneSeqs) + KeepPerStripe(sorted, snapshots, kMaxSequenceNumber)
    {
      var nextSnapshot: nat := kMaxSequenceNumber;
      ghost var kept: seq<SeqNum> := [];
      var m := 0;
      while m < |sorted|
        invariant m <= |sorted|
        invariant tombstoneSeqs == old(tombstoneSeqs) + kept
        invariant kept + KeepPerStripe(sorted[m..], snapshots, nextSnapshot)
               == KeepPerStripe(sorted, snapshots, kMaxSequenceNumber)
      {
        var s := sorted[m];
        KeepPerStripeUnfold(sorted, m, snapshots, nextSnapshot);
        if s <= nextSnapshot {
          tombstoneSeqs := tombstoneSeqs + [s];
          kept := kept + [s];
          AtLeastPartitioned(snapshots, s);
          var upperBound := PartitionPoint(snapshots, AtLeast(s));
          if upperBound == 0 {
            // The newest seqnum the earliest snapshot sees: nothing older is visible.
            assert kept == KeepPerStripe(sorted, snapshots, kMaxSequenceNumber);
            break;
          }
          nextSnapshot := snapshots[upperBound - 1];
        }
        m := m + 1;
      }
    }

    /** Whether some seqnum in [lower, upper] survives in the list. */
    method ContainsRange(lower: nat, upper: nat) returns (r: bool)
      requires SeqSetValid()
      modifies this`seqSet, this`seqSetInitialized
      ensures SeqSetValid() && seqSetInitialized
      ensures old(Valid()) ==> Valid()
      ensures r <==> exists s :: s in tombstoneSeqs && lower <= s <= upper
    {
      if !seqSetInitialized {
        var seqs: set<SeqNum> := {};
        for i := 0 to |tombstoneSeqs|
          invariant seqs == Elems(tombstoneSeqs[..i])
        {
          assert tombstoneSeqs[..i + 1] == tombstoneSeqs[..i] + [tombstoneSeqs[i]];
          seqs := seqs + {tombstoneSeqs[i]};
        }
        assert tombstoneSeqs[..|tombstoneSeqs|] == tombstoneSeqs;
        seqSet := seqs;
        seqSetInitialized := true;
      }
      var found, least := SetLowerBound(seqSet, lower);
      r := found && least <= upper;
      forall x | x in tombstoneSeqs && lower <= x ensures found && least <= x {
        assert x in seqSet;
      }
      if r {
        assert least in Elems(tombstoneSeqs);
      }
    }
  }

  /** `std::set::lower_bound`: the least element not below `lower`, if any. */
  method SetLowerBound(s: set<SeqNum>, lower: nat) returns (found: bool, v: SeqNum)
    ensures found <==> exists x :: x in s && x >= lower
    ensures found ==> v in s && v >= lower && forall x :: x in s && x >= lower ==> v <= x
  {
    found, v := false, 0;
    var rest := s;
    ghost var seen: set<SeqNum> := {};
    while rest != {}
      invariant seen + rest == s && seen !! rest
      invariant found <==> exists x :: x in seen && x >= lower
      invariant found ==> v in seen && v >= lower && forall x :: x in seen && x >= lower ==> v <= x
      decreases |rest|
    {
      var x :| x in rest;
      if x >= lower && (!found || x < v) {
        found, v := true, x;
      }
      rest := rest - {x};
      seen := seen + {x};
    }
  }

  /**
   * The constructor's first pass and, for input out of internal-key order,
   * its sort: the tombstones in an order the sweep accepts, and their count.
   */
  method InputInOrder(input: seq<RangeTombstone>) returns (sorted: seq<RangeTombstone>, fromInput: bool, count: nat)
    requires ProperRanges(input) && |input| < SIZE_MAX
    ensures fromInput <==> InInternalKeyOrder(input)
    ensures fromInput ==> sorted == input
    ensures |sorted| == |input|
    ensures SortedByStart(sorted) && ProperRanges(sorted)
    ensures forall k :: Covering(sorted, k) == Covering(input, k)
    ensures count == |input|
  {
    fromInput, count := CheckSorted(input);
    sorted := input;
    if fromInput {
      InOrderSortedByStart(input);
    } else {
      // Sort the tombstones before fragmenting them.  The second pass also
      // counts the tombstones, so the count covers the whole input.
      sorted, count := SortThroughVector(input);
    }
    SameCoverage(sorted, input);
  }

  /**
   * The unsorted path of the constructor: copy the start keys and end keys
   * into two vectors, counting the tombstones, and read them back in
   * internal-key order through a VectorIterator.
   */
  method SortThroughVector(input: seq<RangeTombstone>) returns (sorted: seq<RangeTombstone>, count: nat)
    requires |input| < SIZE_MAX
    ensures count == |input| && |sorted| == |input|
    ensures forall t :: t in sorted <==> t in input
    ensures SortedByStart(sorted)
  {
    var keys: seq<InternalKey> := [];
    var values: seq<Key> := [];
    count := 0;
    for i := 0 to |input|
      invariant |keys| == |values| == i == count
      invariant forall m :: 0 <= m < i ==> keys[m] == StartKeyOf(input[m]) && values[m] == input[m].endKey
    {
      keys := keys + [StartKeyOf(input[i])];
      values := values + [input[i].endKey];
      count := count + 1;
    }
    // The string order is not consulted when a comparator is given.
    var iter := new VectorIterator(keys, values, Some(InternalKeyLess), InternalKeyLess);
    sorted := ReadAll(iter);
    forall t ensures t in sorted <==> t in input {
      if t in input {
        var m :| 0 <= m < |input| && input[m] == t;
        assert keys[m] == StartKeyOf(t) && values[m] == t.endKey;
      }
    }
  }

  /** Reads a VectorIterator from first to last, as the sweep consumes its input. */
  method ReadAll(iter: VectorIterator<InternalKey, Key>) returns (ts: seq<RangeTombstone>)
    requires iter.Inv() && iter.OrderSorted() && iter.less == InternalKeyLess
    modifies iter
    ensures |ts| == |iter.keys|
    ensures forall m :: 0 <= m < |ts| ==>
              StartKeyOf(ts[m]) == iter.View()[m] && ts[m].endKey == iter.values[iter.indices[m]]
    ensures forall t :: t in ts <==>
              (exists m :: 0 <= m < |iter.keys| && StartKeyOf(t) == iter.keys[m] && t.endKey == iter.values[m])
    ensures SortedByStart(ts)
  {
    ts := [];
    iter.SeekToFirst();
    while iter.Valid()
      invariant iter.Inv() && iter.OrderSorted()
      invariant iter.current == |ts| <= |iter.keys|
      invariant forall m :: 0 <= m < |ts| ==>
                  StartKeyOf(ts[m]) == iter.View()[m] && ts[m].endKey == iter.values[iter.indices[m]]
      decreases |iter.keys| - iter.current
    {
      var key := iter.Key();
      ts := ts + [RangeTombstone(key.userKey, iter.Value(), key.sequence)];
      iter.Next();
    }
    assert forall m :: 0 <= m < |ts| ==> iter.View()[m] == iter.keys[iter.indices[m]];
    SelectedTombstones(iter.keys, iter.values, iter.indices, ts);
  }

  /** The tombstones read through a sorted index vector are the input's, in start-key order. */
  lemma SelectedTombstones(keys: seq<InternalKey>, values: seq<Key>, indices: seq<nat>, ts: seq<RangeTombstone>)
    requires |values| == |keys| == |indices| == |ts|
    requires multiset(indices) == multiset(Range(|keys|))
    requires SelectsSorted(keys, InternalKeyLess, indices)
    requires forall m :: 0 <= m < |ts| ==>
               StartKeyOf(ts[m]) == keys[indices[m]] && ts[m].endKey == values[indices[m]]
    ensures forall t :: t in ts <==>
              (exists m :: 0 <= m < |keys| && StartKeyOf(t) == keys[m] && t.endKey == values[m])
    ensures SortedByStart(ts)
  {
    forall t ensures t in ts <==> (exists m :: 0 <= m < |keys| && StartKeyOf(t) == keys[m] && t.endKey == values[m])
    {
      if t in ts {
        var j :| 0 <= j < |ts| && ts[j] == t;
        assert StartKeyOf(t) == keys[indices[j]];
      }
      if exists m :: 0 <= m < |keys| && StartKeyOf(t) == keys[m] && t.endKey == values[m] {
        var m :| 0 <= m < |keys| && StartKeyOf(t) == keys[m] && t.endKey == values[m];
        assert Range(|keys|)[m] == m;
        assert m in multiset(indices);
        var j :| 0 <= j < |indices| && indices[j] == m;
        assert ts[j] == t;
      }
    }
    forall a, b | 0 <= a < b < |ts| ensures ts[a].startKey <= ts[b].startKey {
      assert !InternalKeyLess(keys[indices[b]], keys[indices[a]]);
    }
  }
}
