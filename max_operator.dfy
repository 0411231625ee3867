/**
 * The "max" merge operator: every merge keeps the byte-wise largest of the
 * values it sees, comparing with `Slice::compare`.  A slice whose data pointer
 * is null is modelled as `None`.
 */
module MaxOperator {
  import opened ByteStrings
  import opened Wrappers

  /**
   * The running maximum of the merge loops: an operand replaces the current
   * maximum only when it compares strictly greater, so among equal maxima the
   * earliest is kept.
   */
  function MaxFold(start: Bytes, ops: seq<Bytes>): (r: Bytes)
    ensures r == start || r in ops
    decreases |ops|
  {
    if ops == [] then start
    else MaxFold(if Less(start, ops[0]) then ops[0] else start, ops[1..])
  }

  /** The fold is an upper bound of the start value and of every operand. */
  lemma {:induction false} MaxFoldIsUpperBound(start: Bytes, ops: seq<Bytes>)
    ensures LessEq(start, MaxFold(start, ops))
    ensures forall i :: 0 <= i < |ops| ==> LessEq(ops[i], MaxFold(start, ops))
    decreases |ops|
  {
    CompareZero(start, start);
    if ops != [] {
      var m := if Less(start, ops[0]) then ops[0] else start;
      var r := MaxFold(m, ops[1..]);
      MaxFoldIsUpperBound(m, ops[1..]);
      CompareZero(m, m);
      CompareAntisymmetric(start, ops[0]);
      CompareTransitive(start, m, r);
      CompareTransitive(ops[0], m, r);
      forall i | 1 <= i < |ops| ensures LessEq(ops[i], r) {
        assert ops[i] == ops[1..][i - 1];
      }
    }
  }

  /**
   * The fold is the maximum: any value drawn from the inputs that bounds all
   * of them is the fold's result.
   */
  lemma MaxFoldIsMaximum(start: Bytes, ops: seq<Bytes>, m: Bytes)
    requires m == start || m in ops
    requires LessEq(start, m) && forall i :: 0 <= i < |ops| ==> LessEq(ops[i], m)
    ensures MaxFold(start, ops) == m
  {
    var r := MaxFold(start, ops);
    MaxFoldIsUpperBound(start, ops);
    if r != start {
      var i :| 0 <= i < |ops| && ops[i] == r;
    }
    CompareAntisymmetric(r, m);
    CompareZero(r, m);
  }

  lemma MaxFoldStep(start: Bytes, ops: seq<Bytes>, i: nat)
    requires i < |ops|
    ensures MaxFold(start, ops[i..]) == MaxFold(if Less(start, ops[i]) then ops[i] else start, ops[i + 1..])
  {
    assert ops[i..][1..] == ops[i + 1..];
  }

  /** The starting point of FullMergeV2: the existing value, else the preset operand, else the empty slice. */
  function MergeStart(existingValue: Option<Bytes>, existingOperand: Option<Bytes>): Bytes
  {
    if existingValue.Some? then existingValue.value
    else if existingOperand.None? then []
    else existingOperand.value
  }

  /**
   * FullMergeV2: the result goes to the output's existing operand; the merge
   * always succeeds.
   */
  method FullMergeV2(existingValue: Option<Bytes>, operandList: seq<Bytes>, existingOperand: Option<Bytes>)
    returns (ok: bool, max: Bytes)
    ensures ok
    ensures max == MaxFold(MergeStart(existingValue, existingOperand), operandList)
  {
    if existingValue.Some? {
      max := existingValue.value;
    } else if existingOperand.None? {
      max := [];
    } else {
      max := existingOperand.value;
    }
    for i := 0 to |operandList|
      invariant MaxFold(max, operandList[i..]) == MaxFold(MergeStart(existingValue, existingOperand), operandList)
    {
      MaxFoldStep(max, operandList, i);
      if Less(max, operandList[i]) {
        max := operandList[i];
      }
    }
    assert operandList[|operandList|..] == [];
    ok := true;
  }

  /** PartialMerge: the left operand unless the right one is strictly greater; always succeeds. */
  method PartialMerge(leftOperand: Bytes, rightOperand: Bytes) returns (ok: bool, newValue: Bytes)
    ensures ok
    ensures newValue == (if LessEq(rightOperand, leftOperand) then leftOperand else rightOperand)
    ensures LessEq(leftOperand, newValue) && LessEq(rightOperand, newValue)
  {
    CompareAntisymmetric(leftOperand, rightOperand);
    CompareZero(leftOperand, leftOperand);
    CompareZero(rightOperand, rightOperand);
    if Compare(leftOperand, rightOperand) >= 0 {
      newValue := leftOperand;
    } else {
      newValue := rightOperand;
    }
    ok := true;
  }

  /** PartialMergeMulti: the largest operand, or the empty string for no operands. */
  method PartialMergeMulti(operandList: seq<Bytes>) returns (ok: bool, newValue: Bytes)
    ensures ok
    ensures newValue == MaxFold([], operandList)
    ensures operandList == [] ==> newValue == []
    ensures forall i :: 0 <= i < |operandList| ==> LessEq(operandList[i], newValue)
  {
    var max: Bytes := [];
    for i := 0 to |operandList|
      invariant MaxFold(max, operandList[i..]) == MaxFold([], operandList)
    {
      MaxFoldStep(max, operandList, i);
      if Less(max, operandList[i]) {
        max := operandList[i];
      }
    }
    assert operandList[|operandList|..] == [];
    newValue := max;
    MaxFoldIsUpperBound([], operandList);
    ok := true;
  }

  /** Merging two operands pairwise or as a list of two gives the same bytes. */
  lemma PartialMergeAgreesWithMulti(left: Bytes, right: Bytes)
    ensures MaxFold([], [left, right]) == (if LessEq(right, left) then left else right)
  {
    EmptyIsLeast(left);
    CompareAntisymmetric(left, right);
    CompareZero(left, right);
    if left == [] {
      assert MaxFold([], [left, right]) == MaxFold([], [right]);
    } else {
      assert MaxFold([], [left, right]) == MaxFold(left, [right]);
    }
  }
}
