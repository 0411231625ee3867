/**
 * An iterator over two parallel vectors of keys and values.  When a comparator
 * is supplied it iterates in comparator order through a sorted vector of
 * indices; otherwise in the order given, with seeks comparing keys as plain
 * strings.  The position is a `size_t`, so stepping before the first entry
 * wraps around to an invalid position.
 */
module VectorIterators {
  import opened Sorting
  import opened Search
  import opened Wrappers

  const SIZE_MAX: nat := 0xFFFF_FFFF_FFFF_FFFF

  type SizeT = x: nat | x <= SIZE_MAX

  /** `less` is a strict weak order: its complement "not greater" is a total preorder. */
  ghost predicate StrictWeakOrder<K(!new)>(less: (K, K) -> bool)
  {
    && (forall a, b :: !less(a, b) || !less(b, a))
    && (forall a, b, c :: !less(b, a) && !less(c, b) ==> !less(c, a))
  }

  function Range(n: nat): (r: seq<nat>)
    ensures |r| == n
    ensures forall i :: 0 <= i < n ==> r[i] == i
  {
    if n == 0 then [] else Range(n - 1) + [n - 1]
  }

  /** The comparator on indices: index `a` sorts no later than `b` when key b is not less than key a. */
  function IndexOrder<K>(keys: seq<K>, less: (K, K) -> bool): (nat, nat) -> bool
    requires keys != []
  {
    (a: nat, b: nat) => !less(keys[if b < |keys| then b else 0], keys[if a < |keys| then a else 0])
  }

  lemma IndexOrderTotal<K(!new)>(keys: seq<K>, less: (K, K) -> bool)
    requires keys != [] && StrictWeakOrder(less)
    ensures TotalPreorder(IndexOrder(keys, less))
  {
  }

  /** Every index of `r` selects a key, and the selected keys are in `less` order. */
  ghost predicate SelectsSorted<K>(keys: seq<K>, less: (K, K) -> bool, r: seq<nat>)
  {
    && (forall j :: 0 <= j < |r| ==> r[j] < |keys|)
    && (forall i, j :: 0 <= i < j < |r| ==> !less(keys[r[j]], keys[r[i]]))
  }

  /** Sorting the indices with `IndexOrder` sorts the keys they select. */
  lemma SortIndices<K(!new)>(keys: seq<K>, less: (K, K) -> bool, idx: seq<nat>)
    requires keys != [] && StrictWeakOrder(less)
    requires idx == Range(|keys|)
    ensures multiset(SortBy(idx, IndexOrder(keys, less))) == multiset(idx)
    ensures SelectsSorted(keys, less, SortBy(idx, IndexOrder(keys, less)))
  {
    IndexOrderTotal(keys, less);
    SortBySorted(idx, IndexOrder(keys, less));
    PermutationInRange(SortBy(idx, IndexOrder(keys, less)), |keys|);
    SortedSelects(keys, less, SortBy(idx, IndexOrder(keys, less)));
  }

  lemma PermutationInRange(r: seq<nat>, n: nat)
    requires multiset(r) == multiset(Range(n))
    ensures forall j :: 0 <= j < |r| ==> r[j] < n
  {
    forall j | 0 <= j < |r| ensures r[j] < n {
      assert r[j] in multiset(Range(n));
    }
  }

  lemma SortedSelects<K>(keys: seq<K>, less: (K, K) -> bool, r: seq<nat>)
    requires keys != []
    requires forall j :: 0 <= j < |r| ==> r[j] < |keys|
    requires SortedBy(r, IndexOrder(keys, less))
    ensures SelectsSorted(keys, less, r)
  {
    forall i, j | 0 <= i < j < |r| ensures !less(keys[r[j]], keys[r[i]]) {
      assert IndexOrder(keys, less)(r[i], r[j]);
    }
  }

  function NotBelow<K>(less: (K, K) -> bool, target: K): K -> bool
  {
    k => !less(k, target)
  }

  function Above<K>(less: (K, K) -> bool, target: K): K -> bool
  {
    k => less(target, k)
  }

  class VectorIterator<K(==, !new), V> {
    const keys: seq<K>
    const values: seq<V>
    /** The key order: the comparator when one is given, else the string order of the keys. */
    const less: (K, K) -> bool
    const hasComparator: bool
    const indices: seq<nat>
    var current: SizeT

    ghost predicate Inv()
    {
      && |values| == |keys| && |keys| < SIZE_MAX
      && |indices| == |keys|
      && multiset(indices) == multiset(Range(|keys|))
      && (forall j :: 0 <= j < |indices| ==> indices[j] < |keys|)
      && (!hasComparator ==> indices == Range(|keys|))
      && StrictWeakOrder(less)
      && (hasComparator ==> OrderSorted())
    }

    /** The keys in iteration order. */
    function View(): (ks: seq<K>)
      requires forall j :: 0 <= j < |indices| ==> indices[j] < |keys|
      ensures |ks| == |indices|
    {
      seq(|indices|, j requires 0 <= j < |indices| => keys[indices[j]])
    }

    /** Iteration order is sorted by the key order. */
    ghost predicate OrderSorted()
    {
      SelectsSorted(keys, less, indices)
    }

    constructor (keys: seq<K>, values: seq<V>, icmp: Option<(K, K) -> bool>, stringLess: (K, K) -> bool)
      requires |keys| == |values| && |keys| < SIZE_MAX
      requires StrictWeakOrder(if icmp.Some? then icmp.value else stringLess)
      ensures Inv()
      ensures this.keys == keys && this.values == values
      ensures hasComparator == icmp.Some?
      ensures less == if icmp.Some? then icmp.value else stringLess
      ensures current == |keys|
    {
      this.keys := keys;
      this.values := values;
      var order: (K, K) -> bool := if icmp.Some? then icmp.value else stringLess;
      this.less := order;
      this.hasComparator := icmp.Some?;
      current := |keys|;
      var idx: seq<nat> := [];
      for i := 0 to |keys|
        invariant idx == Range(i)
      {
        idx := idx + [i];
      }
      if icmp.Some? && keys != [] {
        SortIndices(keys, icmp.value, idx);
        idx := SortBy(idx, IndexOrder(keys, icmp.value));
      }
      indices := idx;
    }

    function Valid(): bool
      reads this
    {
      |indices| > 0 && current < |indices|
    }

    method SeekToFirst()
      requires Inv()
      modifies this
      ensures current == 0
      ensures Valid() <==> keys != []
    {
      current := 0;
    }

    /** An empty vector leaves the position wrapped around to SIZE_MAX. */
    method SeekToLast()
      requires Inv()
      modifies this
      ensures current == if keys == [] then SIZE_MAX else |keys| - 1
      ensures Valid() <==> keys != []
    {
      current := if |indices| == 0 then SIZE_MAX else |indices| - 1;
    }

    /** Positions at the first entry whose key is not less than `target` (`std::lower_bound`). */
    method Seek(target: K)
      requires Inv() && OrderSorted()
      modifies this
      ensures Inv()
      ensures current <= |keys|
      ensures forall j :: 0 <= j < current ==> less(View()[j], target)
      ensures forall j :: current <= j < |keys| ==> !less(View()[j], target)
    {
      NotBelowPartitioned(target);
      if hasComparator {
        current := PartitionPoint(View(), NotBelow(less, target));
      } else {
        assert View() == keys;
        current := PartitionPoint(keys, NotBelow(less, target));
      }
    }

    /**
     * Positions at the last entry whose key is not greater than `target`;
     * invalid (wrapped to SIZE_MAX) when every key is greater.
     */
    method SeekForPrev(target: K)
      requires Inv() && OrderSorted()
      modifies this
      ensures Inv()
      ensures Valid() ==> !less(target, View()[current])
      ensures forall j :: Valid() && current < j < |keys| ==> less(target, View()[j])
      ensures !Valid() ==> current == SIZE_MAX && forall j :: 0 <= j < |keys| ==> less(target, View()[j])
    {
      AbovePartitioned(target);
      if hasComparator {
        current := PartitionPoint(View(), Above(less, target));
      } else {
        assert View() == keys;
        current := PartitionPoint(keys, Above(less, target));
      }
      if !Valid() {
        SeekToLast();
      } else {
        Prev();
      }
    }

    /** `size_t` increment. */
    method Next()
      modifies this
      ensures current == (old(current) + 1) % (SIZE_MAX + 1)
    {
      current := if current == SIZE_MAX then 0 else current + 1;
    }

    /** `size_t` decrement: stepping back from the first entry wraps to SIZE_MAX. */
    method Prev()
      modifies this
      ensures current == if old(current) == 0 then SIZE_MAX else old(current) - 1
    {
      current := if current == 0 then SIZE_MAX else current - 1;
    }

    function Key(): (k: K)
      reads this
      requires Inv() && Valid()
      ensures k == View()[current]
    {
      keys[indices[current]]
    }

    function Value(): (v: V)
      reads this
      requires Inv() && Valid()
      ensures exists i :: 0 <= i < |keys| && keys[i] == Key() && values[i] == v
    {
      values[indices[current]]
    }

    /** The vectors outlive the iterator, so keys stay valid after moving on. */
    function IsKeyPinned(): (pinned: bool)
      ensures pinned
    {
      true
    }

    function IsValuePinned(): (pinned: bool)
      ensures pinned
    {
      true
    }

    lemma NotBelowPartitioned(target: K)
      requires Inv() && OrderSorted()
      ensures Partitioned(View(), NotBelow(less, target))
    {
      var v := View();
      forall j, k | 0 <= j <= k < |v| && NotBelow(less, target)(v[j])
        ensures NotBelow(less, target)(v[k])
      {
        if j < k {
          assert !less(keys[indices[k]], keys[indices[j]]);
        }
      }
    }

    lemma AbovePartitioned(target: K)
      requires Inv() && OrderSorted()
      ensures Partitioned(View(), Above(less, target))
    {
      var v := View();
      forall j, k | 0 <= j <= k < |v| && Above(less, target)(v[j])
        ensures Above(less, target)(v[k])
      {
        if j < k {
          assert !less(keys[indices[k]], keys[indices[j]]);
        }
      }
    }
  }
}
