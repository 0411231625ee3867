/**
 * Byte strings and `Slice::compare`: a byte-wise comparison of the common
 * prefix, after which the shorter string is the smaller one.  Only the sign of
 * the comparison is modelled.
 */
module ByteStrings {

  type Byte = x: int | 0 <= x < 256
  type Bytes = seq<Byte>

  function Compare(a: Bytes, b: Bytes): (r: int)
    ensures -1 <= r <= 1
  {
    if a == [] then (if b == [] then 0 else -1)
    else if b == [] then 1
    else if a[0] < b[0] then -1
    else if a[0] > b[0] then 1
    else Compare(a[1..], b[1..])
  }

  predicate Less(a: Bytes, b: Bytes)
  {
    Compare(a, b) < 0
  }

  predicate LessEq(a: Bytes, b: Bytes)
  {
    Compare(a, b) <= 0
  }

  /** Only equal strings compare equal. */
  lemma {:induction false} CompareZero(a: Bytes, b: Bytes)
    ensures Compare(a, b) == 0 <==> a == b
  {
    if a != [] && b != [] && a[0] == b[0] {
      CompareZero(a[1..], b[1..]);
      assert a == [a[0]] + a[1..];
      assert b == [b[0]] + b[1..];
    }
  }

  /** Swapping the arguments flips the sign. */
  lemma {:induction false} CompareAntisymmetric(a: Bytes, b: Bytes)
    ensures Compare(a, b) == -Compare(b, a)
  {
    if a != [] && b != [] && a[0] == b[0] {
      CompareAntisymmetric(a[1..], b[1..]);
    }
  }

  lemma {:induction false} CompareTransitive(a: Bytes, b: Bytes, c: Bytes)
    requires Compare(a, b) <= 0 && Compare(b, c) <= 0
    ensures Compare(a, c) <= 0
  {
    if a != [] && b != [] && c != [] && a[0] == b[0] == c[0] {
      CompareTransitive(a[1..], b[1..], c[1..]);
    }
  }

  lemma {:induction false} LessTransitive(a: Bytes, b: Bytes, c: Bytes)
    requires Less(a, b) && LessEq(b, c)
    ensures Less(a, c)
  {
    CompareTransitive(a, b, c);
    CompareZero(a, c);
    if a == c {
      CompareAntisymmetric(a, b);
      CompareZero(b, c);
    }
  }

  /** The empty string is the least byte string. */
  lemma EmptyIsLeast(a: Bytes)
    ensures LessEq([], a)
    ensures Less([], a) <==> a != []
  {
  }

  /** `LessEq` is a total preorder (indeed a total order). */
  lemma LessEqTotalPreorder()
    ensures forall a, b :: LessEq(a, b) || LessEq(b, a)
    ensures forall a, b, c :: LessEq(a, b) && LessEq(b, c) ==> LessEq(a, c)
  {
    forall a, b ensures LessEq(a, b) || LessEq(b, a) {
      CompareAntisymmetric(a, b);
    }
    forall a, b, c | LessEq(a, b) && LessEq(b, c) ensures LessEq(a, c) {
      CompareTransitive(a, b, c);
    }
  }
}
