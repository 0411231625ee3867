/**
 * PinnedIteratorsManager: while pinning is enabled, iterators and other
 * pointers are registered together with the function that releases them;
 * releasing sorts the registrations, drops duplicates and calls each release
 * function once.  Pointers are addresses (0 is null) and the release calls,
 * which are foreign code, are recorded in the order they are made.
 */
module PinnedIterators {
  import opened Sorting

  type Ptr = nat

  const NULL: Ptr := 0

  /** The two release functions of the class, or any other function given to PinPtr. */
  datatype ReleaseFunction =
    | ReleaseInternalIterator
    | ReleaseArenaInternalIterator
    | Custom(address: nat)

  datatype Pin = Pin(ptr: Ptr, release: ReleaseFunction)

  /** Function pointers compare by address; distinct functions have distinct addresses. */
  function Address(f: ReleaseFunction): nat
  {
    match f
    case ReleaseInternalIterator => 0
    case ReleaseArenaInternalIterator => 1
    case Custom(a) => a + 2
  }

  /** The `std::pair` order: by pointer, then by release function. */
  predicate PinLessEq(a: Pin, b: Pin)
  {
    a.ptr < b.ptr || (a.ptr == b.ptr && Address(a.release) <= Address(b.release))
  }

  lemma PinOrder()
    ensures TotalPreorder(PinLessEq)
    ensures forall a, b :: PinLessEq(a, b) && PinLessEq(b, a) ==> a == b
  {
  }

  /** `std::unique`: of every run of equal adjacent entries only one is kept. */
  function Unique(s: seq<Pin>): (r: seq<Pin>)
    ensures forall x :: x in r <==> x in s
  {
    if |s| <= 1 then s
    else if s[0] == s[1] then Unique(s[1..])
    else [s[0]] + Unique(s[1..])
  }

  predicate Distinct(s: seq<Pin>)
  {
    forall i, j :: 0 <= i < j < |s| ==> s[i] != s[j]
  }

  /** On a sorted sequence `std::unique` leaves every entry exactly once. */
  lemma {:induction false} UniqueOfSortedIsDistinct(s: seq<Pin>)
    requires SortedBy(s, PinLessEq)
    ensures Distinct(Unique(s))
  {
    if |s| > 1 {
      var rest := s[1..];
      assert SortedBy(rest, PinLessEq) by {
        forall i, j | 0 <= i < j < |rest| ensures PinLessEq(rest[i], rest[j]) {
          assert rest[i] == s[i + 1] && rest[j] == s[j + 1];
        }
      }
      UniqueOfSortedIsDistinct(rest);
      if s[0] != s[1] {
        var r := [s[0]] + Unique(rest);
        forall j | 1 <= j < |r| ensures r[j] != s[0] {
          assert r[j] in rest;
          var k :| 0 <= k < |rest| && rest[k] == r[j];
          assert PinLessEq(s[0], s[1]) && PinLessEq(s[1], s[k + 1]);
        }
        forall i, j | 0 <= i < j < |r| ensures r[i] != r[j] {
          if 0 < i {
            assert r[i] == Unique(rest)[i - 1] && r[j] == Unique(rest)[j - 1];
          }
        }
      }
    }
  }

  /** The release calls ReleasePinnedData makes, in order. */
  function ReleaseBatch(pinned: seq<Pin>): seq<Pin>
  {
    Unique(SortBy(pinned, PinLessEq))
  }

  /** Every distinct registration is released exactly once, and nothing else is. */
  lemma ReleasedExactlyOnce(pinned: seq<Pin>)
    ensures forall x :: x in ReleaseBatch(pinned) <==> x in pinned
    ensures forall x :: x in pinned ==> multiset(ReleaseBatch(pinned))[x] == 1
  {
    PinOrder();
    SortBySorted(pinned, PinLessEq);
    SortBySameElements(pinned, PinLessEq);
    var batch := ReleaseBatch(pinned);
    UniqueOfSortedIsDistinct(SortBy(pinned, PinLessEq));
    forall x | x in pinned ensures multiset(batch)[x] == 1 {
      DistinctCountsOnce(batch, x);
    }
  }

  lemma {:induction false} DistinctCountsOnce(s: seq<Pin>, x: Pin)
    requires Distinct(s) && x in s
    ensures multiset(s)[x] == 1
  {
    assert s == [s[0]] + s[1..];
    if s[0] == x {
      assert x !in s[1..] by {
        forall k | 0 <= k < |s[1..]| ensures s[1..][k] != x {
          assert s[1..][k] == s[k + 1];
        }
      }
    } else {
      assert Distinct(s[1..]) by {
        forall i, j | 0 <= i < j < |s[1..]| ensures s[1..][i] != s[1..][j] {
          assert s[1..][i] == s[i + 1] && s[1..][j] == s[j + 1];
        }
      }
      DistinctCountsOnce(s[1..], x);
    }
  }

  /**
   * De-duplication is by pair: one pointer registered with two different
   * release functions is released twice.
   */
  lemma SamePointerTwoFunctions(p: Ptr)
    requires p != NULL
    ensures multiset(ReleaseBatch([Pin(p, ReleaseInternalIterator), Pin(p, ReleaseArenaInternalIterator)]))
              == multiset{Pin(p, ReleaseInternalIterator), Pin(p, ReleaseArenaInternalIterator)}
  {
    var pinned := [Pin(p, ReleaseInternalIterator), Pin(p, ReleaseArenaInternalIterator)];
    var batch := ReleaseBatch(pinned);
    ReleasedExactlyOnce(pinned);
    var m := multiset{Pin(p, ReleaseInternalIterator), Pin(p, ReleaseArenaInternalIterator)};
    forall x ensures multiset(batch)[x] == m[x] {
      if x !in pinned {
        assert x !in batch;
      }
    }
    assert multiset(batch) == m;
  }

  class PinnedIteratorsManager {
    var pinningEnabled: bool
    var pinnedPtrs: seq<Pin>
    /** The release calls made so far, oldest first. */
    var released: seq<Pin>

    constructor ()
      ensures !pinningEnabled && pinnedPtrs == [] && released == []
    {
      pinningEnabled := false;
      pinnedPtrs := [];
      released := [];
    }

    /** Pinning must be off; it is turned on. */
    method StartPinning()
      requires !pinningEnabled
      modifies this
      ensures pinningEnabled
      ensures pinnedPtrs == old(pinnedPtrs) && released == old(released)
    {
      pinningEnabled := true;
    }

    /** Whether pins are accepted: set by StartPinning, cleared by ReleasePinnedData. */
    function PinningEnabled(): (enabled: bool)
      reads this
      ensures enabled <==> pinningEnabled
    {
      pinningEnabled
    }

    /** Takes ownership of `iter`, to be destroyed in the arena or deleted on release. */
    method PinIterator(iter: Ptr, arena: bool)
      requires pinningEnabled
      modifies this
      ensures pinningEnabled && released == old(released)
      ensures pinnedPtrs == old(pinnedPtrs) +
                (if iter == NULL then []
                 else [Pin(iter, if arena then ReleaseArenaInternalIterator else ReleaseInternalIterator)])
    {
      if arena {
        PinPtr(iter, ReleaseArenaInternalIterator);
      } else {
        PinPtr(iter, ReleaseInternalIterator);
      }
    }

    /** Registers one (pointer, release function) pair; a null pointer is ignored. */
    method PinPtr(ptr: Ptr, releaseFunc: ReleaseFunction)
      requires pinningEnabled
      modifies this
      ensures pinningEnabled && released == old(released)
      ensures pinnedPtrs == old(pinnedPtrs) + (if ptr == NULL then [] else [Pin(ptr, releaseFunc)])
    {
      if ptr == NULL {
        return;
      }
      pinnedPtrs := pinnedPtrs + [Pin(ptr, releaseFunc)];
    }

    /**
     * Turns pinning off and releases every distinct registration once, in
     * pair order, leaving nothing pinned.
     */
    method ReleasePinnedData()
      requires pinningEnabled
      modifies this
      ensures !pinningEnabled && pinnedPtrs == []
      ensures released == old(released) + ReleaseBatch(old(pinnedPtrs))
    {
      pinningEnabled := false;
      pinnedPtrs := SortBy(pinnedPtrs, PinLessEq);
      var uniqueEnd := Unique(pinnedPtrs);
      ghost var before := released;
      for i := 0 to |uniqueEnd|
        modifies this`released
        invariant released == before + uniqueEnd[..i]
      {
        released := released + [uniqueEnd[i]];
      }
      assert uniqueEnd[..|uniqueEnd|] == uniqueEnd;
      pinnedPtrs := [];
    }

    /** The destructor releases what is pinned only when pinning is still on. */
    method Destroy()
      modifies this
      ensures !pinningEnabled
      ensures old(pinningEnabled) ==> pinnedPtrs == [] && released == old(released) + ReleaseBatch(old(pinnedPtrs))
      ensures !old(pinningEnabled) ==> pinnedPtrs == old(pinnedPtrs) && released == old(released)
    {
      if pinningEnabled {
        ReleasePinnedData();
      }
    }
  }
}
