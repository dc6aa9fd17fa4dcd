/**
 * Resolution of comparison flags through an SSA table (src/ir/register_ssa.cpp) and the conditions read
 * from them (src/compiler/straight_line_compiler.cpp).
 */
module CompareFlags {
  import opened Words
  import opened Outcome
  import opened RegisterSsa
  import opened ConstantPropagation
  import D = InstructionDecoder

  datatype Flags = Flags(zero: bool, sign: bool, carry: bool, overflow: bool)

  const NO_FLAGS := Flags(false, false, false, false)

  /** A table whose values refer to earlier ones only, so that the resolvers terminate. */
  predicate PriorTable(values: seq<SsaValue>) {
    forall i :: 0 <= i < |values| ==> PriorInputs(values[i], i)
  }

  // ---------- resolving constants ----------

  /** Follows first inputs to a constant or to an operation on two constants. */
  function ResolveConstant(values: seq<SsaValue>, id: nat): Option<u16>
    requires PriorTable(values) && id < |values|
    decreases id
  {
    var v := values[id];
    if v.constant.Some? then v.constant
    else if v.operation.Some? && |v.inputs| == 2 && values[v.inputs[0]].constant.Some? && values[v.inputs[1]].constant.Some? then
      if IsArithmetic(v.operation.value) then
        Some(Apply(v.operation.value, values[v.inputs[0]].constant.value, values[v.inputs[1]].constant.value))
      else None
    else if v.inputs == [] then None
    else ResolveConstant(values, v.inputs[0])
  }

  /** An operation on two constants of the table resolves to what it computes of them. */
  predicate IsConstantOperation(values: seq<SsaValue>, id: nat)
    requires id < |values|
  {
    var v := values[id];
    && v.constant.None? && v.operation.Some? && IsArithmetic(v.operation.value) && |v.inputs| == 2
    && v.inputs[0] < |values| && v.inputs[1] < |values|
    && values[v.inputs[0]].constant.Some? && values[v.inputs[1]].constant.Some?
  }

  lemma ResolvesOperation(values: seq<SsaValue>, id: nat)
    requires PriorTable(values) && id < |values| && IsConstantOperation(values, id)
    ensures var v, r := values[id], ResolveConstant(values, id);
      r.Some? && Computes(v.operation.value, values[v.inputs[0]].constant.value, values[v.inputs[1]].constant.value, r.value)
  {
    hide Apply, Computes;
    var v := values[id];
    ApplyComputes(v.operation.value, values[v.inputs[0]].constant.value, values[v.inputs[1]].constant.value);
  }

  method FindConstant(values: seq<SsaValue>, id: nat) returns (r: Option<u16>)
    requires PriorTable(values) && id < |values|
    ensures r == ResolveConstant(values, id)
    ensures values[id].constant.Some? ==> r == values[id].constant
    ensures IsConstantOperation(values, id) ==>
        var v := values[id];
        r.Some? && Computes(v.operation.value, values[v.inputs[0]].constant.value, values[v.inputs[1]].constant.value, r.value)
  {
    if IsConstantOperation(values, id) {
      ResolvesOperation(values, id);
    }
    hide IsConstantOperation, Computes, Apply;
    var current: nat := id;
    while true
      invariant current < |values| && ResolveConstant(values, current) == ResolveConstant(values, id)
      decreases current
    {
      var value := values[current];
      assert PriorInputs(value, current);
      if value.constant.Some? {
        return value.constant;
      }
      if value.operation.Some? && |value.inputs| == 2 {
        var first, second := values[value.inputs[0]], values[value.inputs[1]];
        if first.constant.Some? && second.constant.Some? {
          if !IsArithmetic(value.operation.value) {
            return None;
          }
          return Some(Apply(value.operation.value, first.constant.value, second.constant.value));
        }
      }
      if value.inputs == [] {
        return None;
      }
      current := value.inputs[0];
    }
  }

  /** A chain of copies that ends in a constant or in an arithmetic operation on two constants. */
  predicate Direct(values: seq<SsaValue>, id: nat)
    requires PriorTable(values) && id < |values|
    decreases id
  {
    var v := values[id];
    assert PriorInputs(v, id);
    || v.constant.Some?
    || (v.kind == Operation && v.operation.Some? && IsArithmetic(v.operation.value) && |v.inputs| == 2
        && values[v.inputs[0]].constant.Some? && values[v.inputs[1]].constant.Some?)
    || (v.kind == Definition && v.operation.None? && |v.inputs| == 1 && Direct(values, v.inputs[0]))
  }

  /** On such a chain resolution finds what the value stands for in every execution. */
  lemma {:induction false} DirectResolves(values: seq<SsaValue>, e: Execution, id: nat)
    requires PriorTable(values) && id < |values| && Direct(values, id)
    ensures ResolveConstant(values, id) == Some(Eval(values, e, id))
    decreases id
  {
    var v := values[id];
    assert PriorInputs(v, id);
    if v.constant.None? && v.kind == Definition {
      DirectResolves(values, e, v.inputs[0]);
    }
  }

  /** Where the walk over first inputs stops. */
  function Leaf(values: seq<SsaValue>, id: nat): (leaf: nat)
    requires PriorTable(values) && id < |values|
    ensures leaf <= id
    decreases id
  {
    var v := values[id];
    assert PriorInputs(v, id);
    if v.constant.Some? || v.inputs == [] then id
    else if v.operation.Some? && |v.inputs| == 2 && values[v.inputs[0]].constant.Some? && values[v.inputs[1]].constant.Some? then id
    else Leaf(values, v.inputs[0])
  }

  /** Over every builder's table: what resolves is what the leaf of the walk stands for, in every execution. */
  lemma {:induction false} ResolvesToLeaf(values: seq<SsaValue>, e: Execution, id: nat)
    requires BuilderTable(values) && PriorTable(values) && id < |values|
    ensures ResolveConstant(values, id).Some? ==> ResolveConstant(values, id) == Some(Eval(values, e, Leaf(values, id)))
    decreases id
  {
    var v := values[id];
    assert Shaped(v, id);
    if v.constant.None? && Leaf(values, id) != id {
      ResolvesToLeaf(values, e, v.inputs[0]);
    }
  }

  /** Resolution is right in every execution. */
  ghost predicate ResolvesRightly(values: seq<SsaValue>, id: nat)
    requires PriorTable(values) && id < |values|
  {
    forall e :: ResolveConstant(values, id) == Some(Eval(values, e, id))
  }

  /** What resolves is what the table determines at the leaf. */
  lemma {:induction false} ResolvedIsLeaf(values: seq<SsaValue>, id: nat)
    requires BuilderTable(values) && PriorTable(values) && id < |values|
    ensures ResolveConstant(values, id) == Determined(values, Leaf(values, id), true)
    decreases id
  {
    hide Apply;
    var v := values[id];
    assert Shaped(v, id);
    if v.constant.None? && Leaf(values, id) != id {
      ResolvedIsLeaf(values, v.inputs[0]);
    }
  }

  /**
   * Where a builder's table determines a value, through whatever nesting, copies and phis, the resolver is
   * right exactly when the leaf of its walk is determined to be the same.
   */
  lemma ResolvedIffDetermined(values: seq<SsaValue>, id: nat)
    requires BuilderTable(values) && PriorTable(values) && id < |values| && Determined(values, id, true).Some?
    ensures ResolvesRightly(values, id) <==> Determined(values, Leaf(values, id), true) == Determined(values, id, true)
  {
    hide Eval, ResolveConstant, Determined, Leaf;
    var some := Execution(_ => 0, _ => 0);
    DeterminedIsValue(values, some, id, true);
    ResolvedIsLeaf(values, id);
    assert ResolvesRightly(values, id) ==> ResolveConstant(values, id) == Some(Eval(values, some, id));
    forall e: Execution
      ensures Eval(values, e, id) == Determined(values, id, true).value
    {
      DeterminedIsValue(values, e, id, true);
    }
  }

  /** The same for what constant propagation records. */
  lemma ResolvedIffPropagated(values: seq<SsaValue>, id: nat)
    requires BuilderTable(values) && PriorTable(values) && id < |values| && Propagated(values, |values|).Ok?
    requires Propagated(values, |values|).value[id].Some?
    ensures ResolvesRightly(values, id) <==> Determined(values, Leaf(values, id), true) == Propagated(values, |values|).value[id]
  {
    hide ResolvesRightly, Determined, Leaf, Propagated;
    PropagationExact(values, |values|, id);
    CopiesDetermineMore(values, id);
    ResolvedIffDetermined(values, id);
  }

  /**
   * An operation on two determined values that are not both constants of the table gets what the leaf of its
   * first operand is: right exactly when the operation has that for its result.
   */
  lemma NestedOperation(values: seq<SsaValue>, id: nat)
    requires BuilderTable(values) && PriorTable(values) && id < |values|
    requires var v := values[id];
      && v.kind == Operation && v.operation.Some? && IsArithmetic(v.operation.value)
      && |v.inputs| == 2 && v.inputs[0] < id && v.inputs[1] < id
      && Determined(values, v.inputs[0], true).Some? && Determined(values, v.inputs[1], true).Some?
      && !(values[v.inputs[0]].constant.Some? && values[v.inputs[1]].constant.Some?)
    ensures var v := values[id];
      var left, right := Determined(values, v.inputs[0], true).value, Determined(values, v.inputs[1], true).value;
      ResolvesRightly(values, id) <==>
        Determined(values, Leaf(values, v.inputs[0]), true) == Some(Apply(v.operation.value, left, right))
  {
    hide Apply, ResolvesRightly;
    assert Shaped(values[id], id);
    ResolvedIffDetermined(values, id);
  }

  /**
   * A phi of two determined values gets what the leaf of its first input is: right in every execution exactly
   * when both values are that.
   */
  lemma FirstPhiInput(values: seq<SsaValue>, id: nat)
    requires BuilderTable(values) && PriorTable(values) && id < |values|
    requires var v := values[id];
      && v.kind == Phi && |v.inputs| == 2 && v.inputs[0] < id && v.inputs[1] < id
      && Determined(values, v.inputs[0], true).Some? && Determined(values, v.inputs[1], true).Some?
    ensures var v := values[id];
      ResolvesRightly(values, id) <==>
        Determined(values, v.inputs[0], true) == Determined(values, v.inputs[1], true)
          == Determined(values, Leaf(values, v.inputs[0]), true)
  {
    hide ResolveConstant, Determined, Eval;
    var v := values[id];
    PhiStep(values, id);
    ResolvedIsLeaf(values, v.inputs[0]);
    var first, second := Execution(_ => 0, _ => 0), Execution(_ => 0, _ => 1);
    DeterminedIsValue(values, first, v.inputs[0], true);
    DeterminedIsValue(values, second, v.inputs[1], true);
    PhiTaken(values, first, id);
    PhiTaken(values, second, id);
    assert ResolvesRightly(values, id) ==>
        ResolveConstant(values, id) == Some(Eval(values, first, id)) == Some(Eval(values, second, id));
    forall e: Execution
      ensures Eval(values, e, id) in {Determined(values, v.inputs[0], true).value, Determined(values, v.inputs[1], true).value}
    {
      PhiIsEither(values, e, id);
      DeterminedIsValue(values, e, v.inputs[0], true);
      DeterminedIsValue(values, e, v.inputs[1], true);
    }
  }

  lemma PhiStep(values: seq<SsaValue>, id: nat)
    requires BuilderTable(values) && PriorTable(values) && id < |values| && values[id].kind == Phi
    ensures |values[id].inputs| == 2 && values[id].inputs[0] < |values|
    ensures ResolveConstant(values, id) == ResolveConstant(values, values[id].inputs[0])
  {
    assert Shaped(values[id], id);
  }

  lemma PhiTaken(values: seq<SsaValue>, e: Execution, id: nat)
    requires BuilderTable(values) && id < |values| && values[id].kind == Phi
    ensures |values[id].inputs| == 2 && values[id].inputs[e.choice(id) % 2] < id
    ensures Eval(values, e, id) == Eval(values, e, values[id].inputs[e.choice(id) % 2])
  {
    assert Shaped(values[id], id);
  }

  // ---------- values nothing determines ----------

  /** Sums, differences and exclusive ors of a value lose none of its freedom. */
  predicate Invertible(op: OperationKind) {
    op == Add || op == Subtract || op == BitXor
  }

  /**
   * A value that takes every word over the executions: an entry value, a comparison, or what copies, phis
   * and invertible operations with a determined operand make of one.
   */
  predicate Varies(values: seq<SsaValue>, id: nat)
    requires id < |values|
    decreases id
  {
    var v := values[id];
    v.constant.None? && PriorInputs(v, id) &&
    match v.kind
    case Entry => true
    case Phi => |v.inputs| == 2 && (Varies(values, v.inputs[0]) || Varies(values, v.inputs[1]))
    case Definition => |v.inputs| != 1 || Varies(values, v.inputs[0])
    case Operation =>
      if v.operation.None? || !IsArithmetic(v.operation.value) || |v.inputs| != 2 then true
      else
        Invertible(v.operation.value) &&
        ((Varies(values, v.inputs[0]) && Determined(values, v.inputs[1], true).Some?)
         || (Varies(values, v.inputs[1]) && Determined(values, v.inputs[0], true).Some?))
  }

  lemma {:induction false} XorUndone(a: nat, b: nat, width: nat)
    requires a < Pow2(width)
    ensures Bitwise(Xor, Bitwise(Xor, a, b, width), b, width) == a
    ensures Bitwise(Xor, b, Bitwise(Xor, a, b, width), width) == a
    decreases width
  {
    if width != 0 {
      var rest := Bitwise(Xor, a / 2, b / 2, width - 1);
      XorUndone(a / 2, b / 2, width - 1);
      assert Bitwise(Xor, a, b, width) / 2 == rest;
    }
  }

  lemma SumsUndone(known: u16, result: u16)
    ensures Wrap16(Wrap16(0x1_0000 + result - known) + known) == result
    ensures Wrap16(known + Wrap16(0x1_0000 + result - known)) == result
    ensures Wrap16(Wrap16(result + known) - known) == result
    ensures Wrap16(known - Wrap16(0x1_0000 + known - result)) == result
  {
    assert Wrap16(0x1_0000 + result - known) == if result >= known then result - known else 0x1_0000 + result - known;
    assert Wrap16(0x1_0000 + known - result) == if known >= result then known - result else 0x1_0000 + known - result;
    assert Wrap16(result + known) == if result + known < 0x1_0000 then result + known else result + known - 0x1_0000;
  }

  /** The operand that gives a result. */
  lemma Solve(op: OperationKind, known: u16, result: u16) returns (left: u16, right: u16)
    requires Invertible(op)
    ensures IsArithmetic(op) && Apply(op, left, known) == result && Apply(op, known, right) == result
  {
    hide Bitwise, Wrap16, Pow2;
    SumsUndone(known, result);
    if op == Add {
      left := Wrap16(0x1_0000 + result - known);
      right := left;
    } else if op == Subtract {
      left := Wrap16(result + known);
      right := Wrap16(0x1_0000 + known - result);
    } else {
      Pow2Of16();
      left := Bitwise16(Xor, result, known);
      right := left;
      XorUndone(result, known, 16);
    }
  }

  /** A value depends only on what the execution says of values up to it. */
  lemma {:induction false} EvalUpTo(values: seq<SsaValue>, e: Execution, f: Execution, id: nat)
    requires id < |values| && forall j: nat :: j <= id ==> e.free(j) == f.free(j) && e.choice(j) == f.choice(j)
    ensures Eval(values, e, id) == Eval(values, f, id)
    decreases id
  {
    hide Apply;
    var v := values[id];
    if PriorInputs(v, id) {
      forall k | 0 <= k < |v.inputs|
        ensures Eval(values, e, v.inputs[k]) == Eval(values, f, v.inputs[k])
      {
        EvalUpTo(values, e, f, v.inputs[k]);
      }
    }
  }

  /** Such a value takes every word. */
  lemma {:induction false} VariesTakesAll(values: seq<SsaValue>, id: nat, word: u16) returns (e: Execution)
    requires id < |values| && Varies(values, id)
    ensures Eval(values, e, id) == word
    decreases id
  {
    hide Apply;
    var v := values[id];
    e := Execution(_ => word, _ => 0);
    if v.kind == Definition && |v.inputs| == 1 {
      e := VariesTakesAll(values, v.inputs[0], word);
    } else if v.kind == Phi {
      var taken: nat := if Varies(values, v.inputs[0]) then 0 else 1;
      var f := VariesTakesAll(values, v.inputs[taken], word);
      e := Execution(f.free, j => if j == id then taken else f.choice(j));
      EvalUpTo(values, e, f, v.inputs[taken]);
    } else if v.kind == Operation && v.operation.Some? && IsArithmetic(v.operation.value) && |v.inputs| == 2 {
      if Varies(values, v.inputs[0]) && Determined(values, v.inputs[1], true).Some? {
        var left, right := Solve(v.operation.value, Determined(values, v.inputs[1], true).value, word);
        e := VariesTakesAll(values, v.inputs[0], left);
        DeterminedIsValue(values, e, v.inputs[1], true);
      } else {
        var left, right := Solve(v.operation.value, Determined(values, v.inputs[0], true).value, word);
        e := VariesTakesAll(values, v.inputs[1], right);
        DeterminedIsValue(values, e, v.inputs[0], true);
      }
    }
  }

  /** So no constant is right for it: whatever resolves, some execution has another word. */
  lemma VaryingNeverRight(values: seq<SsaValue>, id: nat)
    requires PriorTable(values) && id < |values| && Varies(values, id)
    ensures !ResolvesRightly(values, id)
  {
    hide ResolveConstant, Eval, Varies;
    var zero := VariesTakesAll(values, id, 0);
    var one := VariesTakesAll(values, id, 1);
    assert Eval(values, zero, id) != Eval(values, one, id);
  }

  // ---------- tables on which resolution is wrong ----------

  lemma PriorBuilder(values: seq<SsaValue>)
    requires BuilderTable(values)
    ensures PriorTable(values)
  {
    forall i | 0 <= i < |values|
      ensures PriorInputs(values[i], i)
    {
      assert Shaped(values[i], i);
    }
  }

  lemma OfConstant(values: seq<SsaValue>, e: Execution, id: nat)
    requires PriorTable(values) && id < |values| && values[id].constant.Some?
    ensures ResolveConstant(values, id) == Some(Eval(values, e, id)) == values[id].constant
  {
  }

  lemma OfOperation(values: seq<SsaValue>, e: Execution, id: nat)
    requires PriorTable(values) && id < |values| && values[id].constant.None? && values[id].kind == Operation
    requires var v := values[id];
      v.operation.Some? && IsArithmetic(v.operation.value) && |v.inputs| == 2 && v.inputs[0] < |values| && v.inputs[1] < |values|
    ensures var v := values[id]; var first, second := values[v.inputs[0]].constant, values[v.inputs[1]].constant;
      && Eval(values, e, id) == Apply(v.operation.value, Eval(values, e, v.inputs[0]), Eval(values, e, v.inputs[1]))
      && ResolveConstant(values, id) == if first.Some? && second.Some? then Some(Apply(v.operation.value, first.value, second.value))
                                        else ResolveConstant(values, v.inputs[0])
  {
    hide Apply;
    assert PriorInputs(values[id], id);
  }

  lemma OfCopy(values: seq<SsaValue>, e: Execution, id: nat)
    requires PriorTable(values) && id < |values| && values[id].constant.None? && values[id].kind == Definition
    requires values[id].operation.None? && |values[id].inputs| == 1 && values[id].inputs[0] < |values|
    ensures Eval(values, e, id) == Eval(values, e, values[id].inputs[0])
    ensures ResolveConstant(values, id) == ResolveConstant(values, values[id].inputs[0])
  {
    assert PriorInputs(values[id], id);
  }

  /** The entry values and five more: 5, 3, their sum, 1, and the difference of the two. */
  function SumMinusOne(): seq<SsaValue> {
    BehindEntries([
      SsaValue(17, 8, Definition, [], Some(5), None), SsaValue(18, 9, Definition, [], Some(3), None),
      SsaValue(19, 8, Operation, [17, 18], None, Some(Add)), SsaValue(20, 8, Definition, [], Some(1), None),
      SsaValue(21, 8, Operation, [19, 20], None, Some(Subtract))])
  }

  /** (5 + 3) - 1 resolves to 8. */
  lemma NestedCounterexample(e: Execution)
    ensures BuilderTable(SumMinusOne()) && PriorTable(SumMinusOne())
    ensures ResolveConstant(SumMinusOne(), 21) == Some(8) && Eval(SumMinusOne(), e, 21) == 7
  {
    var t := SumMinusOne();
    BehindEntriesShaped(t[REGISTERS..]);
    PriorBuilder(t);
    hide ResolveConstant, Eval, BuilderTable, PriorTable;
    OfConstant(t, e, 17);
    OfConstant(t, e, 18);
    OfConstant(t, e, 20);
    OfOperation(t, e, 19);
    OfOperation(t, e, 21);
  }

  function FivePlusSum(): seq<SsaValue> {
    BehindEntries([
      SsaValue(17, 8, Definition, [], Some(5), None), SsaValue(18, 9, Definition, [], Some(3), None),
      SsaValue(19, 9, Definition, [], Some(1), None), SsaValue(20, 9, Operation, [18, 19], None, Some(Add)),
      SsaValue(21, 8, Operation, [17, 20], None, Some(Add))])
  }

  /** 5 + (3 + 1) resolves to 5. */
  lemma NestedSecondCounterexample(e: Execution)
    ensures BuilderTable(FivePlusSum()) && PriorTable(FivePlusSum())
    ensures ResolveConstant(FivePlusSum(), 21) == Some(5) && Eval(FivePlusSum(), e, 21) == 9
  {
    var t := FivePlusSum();
    BehindEntriesShaped(t[REGISTERS..]);
    PriorBuilder(t);
    hide ResolveConstant, Eval, BuilderTable, PriorTable;
    OfConstant(t, e, 17);
    OfConstant(t, e, 18);
    OfConstant(t, e, 19);
    OfOperation(t, e, 20);
    OfOperation(t, e, 21);
  }

  function CopyPlusThree(): seq<SsaValue> {
    BehindEntries([
      SsaValue(17, 8, Definition, [], Some(5), None), SsaValue(18, 9, Definition, [17], None, None),
      SsaValue(19, 9, Definition, [], Some(3), None), SsaValue(20, 9, Operation, [18, 19], None, Some(Add))])
  }

  /** MOV AX,5; MOV BX,AX; ADD BX,3: a sum with a copy resolves to what was copied. */
  lemma CopyCounterexample(e: Execution)
    ensures BuilderTable(CopyPlusThree()) && PriorTable(CopyPlusThree())
    ensures ResolveConstant(CopyPlusThree(), 20) == Some(5) && Eval(CopyPlusThree(), e, 20) == 8
  {
    var t := CopyPlusThree();
    BehindEntriesShaped(t[REGISTERS..]);
    PriorBuilder(t);
    hide ResolveConstant, Eval, BuilderTable, PriorTable;
    OfConstant(t, e, 17);
    OfCopy(t, e, 18);
    OfConstant(t, e, 19);
    OfOperation(t, e, 20);
  }

  function PhiOfOneAndTwo(): seq<SsaValue> {
    BehindEntries([
      SsaValue(17, 8, Definition, [], Some(1), None), SsaValue(18, 8, Definition, [], Some(2), None),
      SsaValue(19, 8, Phi, [17, 18], None, None)])
  }

  /** A phi of 1 and 2 resolves to 1, even where 2 is taken. */
  lemma PhiCounterexample(e: Execution)
    ensures BuilderTable(PhiOfOneAndTwo()) && PriorTable(PhiOfOneAndTwo())
    ensures ResolveConstant(PhiOfOneAndTwo(), 19) == Some(1)
    ensures e.choice(19) % 2 == 1 ==> Eval(PhiOfOneAndTwo(), e, 19) == 2
  {
    var t := PhiOfOneAndTwo();
    BehindEntriesShaped(t[REGISTERS..]);
    PriorBuilder(t);
    hide ResolveConstant, Eval, BuilderTable, PriorTable;
    OfConstant(t, e, 17);
    OfConstant(t, e, 18);
    PhiStep(t, 19);
    PhiTaken(t, e, 19);
  }

  function FivePlusEntry(): seq<SsaValue> {
    BehindEntries([
      SsaValue(17, 9, Definition, [], Some(5), None), SsaValue(18, 9, Operation, [17, 8], None, Some(Add))])
  }

  /** MOV BX,5; ADD BX,AX: 5 + AX resolves to 5, whatever AX is. */
  lemma EntryCounterexample(e: Execution)
    ensures BuilderTable(FivePlusEntry()) && PriorTable(FivePlusEntry())
    ensures ResolveConstant(FivePlusEntry(), 18) == Some(5)
    ensures Eval(FivePlusEntry(), e, 18) == Wrap16(5 + e.free(8))
  {
    var t := FivePlusEntry();
    BehindEntriesShaped(t[REGISTERS..]);
    PriorBuilder(t);
    assert Eval(t, e, 8) == e.free(8);
    hide ResolveConstant, Eval, BuilderTable, PriorTable;
    OfConstant(t, e, 17);
    OfOperation(t, e, 18);
  }

  // ---------- flags ----------

  function CompareFlagsOf(a: u16, b: u16): Flags {
    var r := Wrap16(a - b);
    var signChange := (Signed16(a) < 0) != (Signed16(b) < 0);
    Flags(r == 0, r >= 0x8000, a < b, signChange && (Signed16(r) < 0) != (Signed16(a) < 0))
  }

  function TestFlagsOf(a: u16, b: u16): Flags {
    var masked := Bitwise16(And, a, b);
    Flags(masked == 0, masked >= 0x8000, false, false)
  }

  /** The flags of the first comparison on the chain of first inputs whose operands resolve. */
  function ResolveFlags(values: seq<SsaValue>, id: nat): Flags
    requires PriorTable(values) && id < |values|
    decreases id
  {
    var v := values[id];
    assert PriorInputs(v, id);
    if v.operation == Some(Compare) && |v.inputs| == 2
       && ResolveConstant(values, v.inputs[0]).Some? && ResolveConstant(values, v.inputs[1]).Some? then
      CompareFlagsOf(ResolveConstant(values, v.inputs[0]).value, ResolveConstant(values, v.inputs[1]).value)
    else if v.operation == Some(Test) && |v.inputs| == 2
            && ResolveConstant(values, v.inputs[0]).Some? && ResolveConstant(values, v.inputs[1]).Some? then
      TestFlagsOf(ResolveConstant(values, v.inputs[0]).value, ResolveConstant(values, v.inputs[1]).value)
    else if v.inputs == [] then NO_FLAGS
    else ResolveFlags(values, v.inputs[0])
  }

  method FindFlags(values: seq<SsaValue>, id: nat) returns (r: Flags)
    requires PriorTable(values) && id < |values|
    ensures r == ResolveFlags(values, id)
  {
    var current: nat := id;
    while true
      invariant current < |values| && ResolveFlags(values, current) == ResolveFlags(values, id)
      decreases current
    {
      var value := values[current];
      assert PriorInputs(values[current], current);
      if value.operation == Some(Compare) && |value.inputs| == 2 {
        var left := FindConstant(values, value.inputs[0]);
        var right := FindConstant(values, value.inputs[1]);
        if left.Some? && right.Some? {
          return CompareFlagsOf(left.value, right.value);
        }
      }
      if value.operation == Some(Test) && |value.inputs| == 2 {
        var left := FindConstant(values, value.inputs[0]);
        var right := FindConstant(values, value.inputs[1]);
        if left.Some? && right.Some? {
          return TestFlagsOf(left.value, right.value);
        }
      }
      if value.inputs == [] {
        return NO_FLAGS;
      }
      current := value.inputs[0];
    }
  }

  function EvaluateCondition(c: D.BranchCondition, f: Flags): bool {
    match c
    case Equal => f.zero
    case NotEqual => !f.zero
    case Below => f.carry
    case AboveOrEqual => !f.carry
    case BelowOrEqual => f.carry || f.zero
    case Above => !f.carry && !f.zero
    case Sign => f.sign
    case NotSign => !f.sign
    case Overflow => f.overflow
    case NotOverflow => !f.overflow
    case Less => f.sign != f.overflow
    case GreaterOrEqual => f.sign == f.overflow
    case LessOrEqual => f.zero || f.sign != f.overflow
    case Greater => !f.zero && f.sign == f.overflow
    case _ => false
  }

  // ---------- what the conditions mean ----------

  /** The true difference of two words lies outside the signed range. */
  predicate DifferenceOverflows(a: u16, b: u16) {
    var d := Signed16(a) - Signed16(b);
    d < -0x8000 || 0x8000 <= d
  }

  /** The relation a condition names, between two words; parity and loop conditions name none here. */
  predicate Relation(c: D.BranchCondition, a: u16, b: u16) {
    match c
    case Equal => a == b
    case NotEqual => a != b
    case Below => a < b
    case AboveOrEqual => a >= b
    case BelowOrEqual => a <= b
    case Above => a > b
    case Sign => Signed16(Wrap16(a - b)) < 0
    case NotSign => Signed16(Wrap16(a - b)) >= 0
    case Overflow => DifferenceOverflows(a, b)
    case NotOverflow => !DifferenceOverflows(a, b)
    case Less => Signed16(a) < Signed16(b)
    case GreaterOrEqual => Signed16(a) >= Signed16(b)
    case LessOrEqual => Signed16(a) <= Signed16(b)
    case Greater => Signed16(a) > Signed16(b)
    case _ => false
  }

  /** The flags of a comparison decide every one of the fourteen relations. */
  lemma CompareConditions(c: D.BranchCondition, a: u16, b: u16)
    ensures EvaluateCondition(c, CompareFlagsOf(a, b)) == Relation(c, a, b)
  {
    var r := Wrap16(a - b);
    assert r == if a < b then a - b + 0x1_0000 else a - b;
  }

  /** Each flag of a comparison on its own. */
  lemma CompareFlagsAre(a: u16, b: u16)
    ensures var f := CompareFlagsOf(a, b);
      && (f.zero <==> a == b) && (f.carry <==> a < b) && (f.overflow <==> DifferenceOverflows(a, b))
      && (f.sign <==> (Signed16(a) < Signed16(b)) != DifferenceOverflows(a, b))
  {
    var r := Wrap16(a - b);
    assert r == if a < b then a - b + 0x1_0000 else a - b;
  }

  /** The flags of a test are those of comparing the AND of the operands with zero. */
  lemma TestConditions(c: D.BranchCondition, a: u16, b: u16)
    ensures EvaluateCondition(c, TestFlagsOf(a, b)) == Relation(c, Bitwise16(And, a, b), 0)
  {
    hide EvaluateCondition, Relation;
    CompareConditions(c, Bitwise16(And, a, b), 0);
    TestIsCompare(a, b);
  }

  lemma TestIsCompare(a: u16, b: u16)
    ensures TestFlagsOf(a, b) == CompareFlagsOf(Bitwise16(And, a, b), 0)
  {
  }

  lemma {:induction false} SomeBit(x: nat, width: nat) returns (i: nat)
    requires 0 < x < Pow2(width)
    ensures i < width && Bit(x, i)
    decreases width
  {
    if x % 2 == 1 {
      i := 0;
    } else {
      var j := SomeBit(x / 2, width - 1);
      i := j + 1;
    }
  }

  lemma {:induction false} TopBit(x: nat, width: nat)
    requires x < Pow2(width + 1)
    ensures Bit(x, width) <==> x >= Pow2(width)
    decreases width
  {
    if width != 0 {
      TopBit(x / 2, width - 1);
    }
  }

  predicate ShareBit(a: u16, b: u16, i: nat) {
    Bit(a, i) && Bit(b, i)
  }

  /** TEST sets zero when the operands share none of their 16 bits, and sign when they share the top one. */
  lemma TestFlagsAreBits(a: u16, b: u16)
    ensures TestFlagsOf(a, b).zero <==> forall i: nat :: i < 16 ==> !ShareBit(a, b, i)
    ensures TestFlagsOf(a, b).sign <==> ShareBit(a, b, 15)
  {
    var m := Bitwise16(And, a, b);
    Pow2Of16();
    forall i: nat | i < 16
      ensures Bit(m, i) == ShareBit(a, b, i)
    {
      BitwiseBit(And, a, b, 16, i);
    }
    if m == 0 {
      forall i: nat | i < 16
        ensures !ShareBit(a, b, i)
      {
        ZeroHasNoBit(i);
        assert Bit(m, i) == ShareBit(a, b, i);
      }
    } else {
      var i := SomeBit(m, 16);
      assert ShareBit(a, b, i);
    }
    assert Pow2(16) == 2 * Pow2(15);
    TopBit(m, 15);
    assert Bit(m, 15) == ShareBit(a, b, 15);
  }

  // ---------- through the table ----------

  /** The comparison a chain of copies leads to. */
  function FlagSource(values: seq<SsaValue>, id: nat): Option<nat>
    requires PriorTable(values) && id < |values|
    decreases id
  {
    var v := values[id];
    assert PriorInputs(v, id);
    if v.operation.Some? && !IsArithmetic(v.operation.value) && |v.inputs| == 2 then Some(id)
    else if v.operation.None? && v.kind == Definition && |v.inputs| == 1 then FlagSource(values, v.inputs[0])
    else None
  }

  /** The first comparison on the walk over first inputs whose operands both have a determined leaf. */
  function FirstResolved(values: seq<SsaValue>, id: nat): Option<nat>
    requires PriorTable(values) && id < |values|
    decreases id
  {
    var v := values[id];
    assert PriorInputs(v, id);
    if v.operation.Some? && !IsArithmetic(v.operation.value) && |v.inputs| == 2
       && Determined(values, Leaf(values, v.inputs[0]), true).Some? && Determined(values, Leaf(values, v.inputs[1]), true).Some? then
      Some(id)
    else if v.inputs == [] then None
    else FirstResolved(values, v.inputs[0])
  }

  /** Without such a comparison every flag is clear. */
  lemma {:induction false} NothingResolved(values: seq<SsaValue>, id: nat)
    requires BuilderTable(values) && PriorTable(values) && id < |values| && FirstResolved(values, id) == None
    ensures ResolveFlags(values, id) == NO_FLAGS
    decreases id
  {
    hide Determined, Leaf, ResolveConstant, CompareFlagsOf, TestFlagsOf;
    var v := values[id];
    assert PriorInputs(v, id);
    if |v.inputs| == 2 {
      ResolvedIsLeaf(values, v.inputs[0]);
      ResolvedIsLeaf(values, v.inputs[1]);
    }
    if v.inputs != [] {
      NothingResolved(values, v.inputs[0]);
    }
  }

  /** The conditions that hold when every flag is clear: those of a larger first operand. */
  predicate HoldsWithoutFlags(c: D.BranchCondition) {
    c in {D.NotEqual, D.AboveOrEqual, D.Above, D.NotSign, D.NotOverflow, D.GreaterOrEqual, D.Greater}
  }

  /**
   * When nothing resolves, the same seven conditions hold whatever is compared: a condition is then right
   * exactly when the operands happen to stand in that relation.
   */
  lemma UnresolvedConditions(values: seq<SsaValue>, id: nat, c: D.BranchCondition)
    requires BuilderTable(values) && PriorTable(values) && id < |values| && FirstResolved(values, id) == None
    ensures EvaluateCondition(c, ResolveFlags(values, id)) <==> HoldsWithoutFlags(c)
  {
    NothingResolved(values, id);
  }

  function CompareEntry(): seq<SsaValue> {
    BehindEntries([
      SsaValue(17, 8, Definition, [], Some(5), None), SsaValue(18, FLAGS, Operation, [8, 17], None, Some(Compare))])
  }

  /** CMP AX,5: not-equal holds even where AX is 5. */
  lemma UnresolvedCounterexample()
    ensures BuilderTable(CompareEntry()) && PriorTable(CompareEntry())
    ensures EvaluateCondition(D.NotEqual, ResolveFlags(CompareEntry(), 18))
    ensures exists e :: Eval(CompareEntry(), e, 8) == Eval(CompareEntry(), e, 17)
  {
    var t, e := CompareEntry(), Execution(_ => 5, _ => 0);
    BehindEntriesShaped(t[REGISTERS..]);
    PriorBuilder(t);
    hide ResolveFlags, EvaluateCondition, BuilderTable, PriorTable, Eval, Determined, Leaf, FirstResolved;
    OfEntry(t, e, 8);
    OfConstant(t, e, 17);
    UnresolvedFirst(t, 18);
    UnresolvedConditions(t, 18, D.NotEqual);
  }

  lemma OfEntry(values: seq<SsaValue>, e: Execution, id: nat)
    requires PriorTable(values) && id < |values| && id < REGISTERS && values[id] == SsaValue(id, id, Entry, [], None, None)
    ensures Leaf(values, id) == id && Determined(values, id, true) == None && Eval(values, e, id) == e.free(id)
    ensures FirstResolved(values, id) == None
  {
  }

  lemma UnresolvedFirst(values: seq<SsaValue>, id: nat)
    requires PriorTable(values) && id < |values| && |values[id].inputs| == 2 && values[id].inputs[0] < id
    requires Determined(values, Leaf(values, values[id].inputs[0]), true) == None && FirstResolved(values, values[id].inputs[0]) == None
    ensures FirstResolved(values, id) == None
  {
    hide Determined, Leaf;
  }

  lemma {:induction false} FlagsFromSource(values: seq<SsaValue>, id: nat)
    requires PriorTable(values) && id < |values| && FlagSource(values, id).Some?
    ensures FlagSource(values, id).value < |values|
    ensures ResolveFlags(values, id) == ResolveFlags(values, FlagSource(values, id).value)
    ensures var v := values[FlagSource(values, id).value]; v.operation.Some? && !IsArithmetic(v.operation.value) && |v.inputs| == 2
    decreases id
  {
    assert PriorInputs(values[id], id);
    if values[id].operation.None? {
      FlagsFromSource(values, values[id].inputs[0]);
    }
  }

  /**
   * A condition read from flags that a CMP or TEST on resolvable operands left is the relation it names
   * between what the operands stand for: the operands themselves, or their AND and zero.
   */
  lemma ConditionsHold(values: seq<SsaValue>, e: Execution, id: nat, c: D.BranchCondition)
    requires PriorTable(values) && id < |values| && FlagSource(values, id).Some?
    requires FlagSource(values, id).value < |values|
    requires var v := values[FlagSource(values, id).value];
      |v.inputs| == 2 && v.inputs[0] < |values| && v.inputs[1] < |values| && Direct(values, v.inputs[0]) && Direct(values, v.inputs[1])
    ensures var v := values[FlagSource(values, id).value];
      var a, b := Eval(values, e, v.inputs[0]), Eval(values, e, v.inputs[1]);
      EvaluateCondition(c, ResolveFlags(values, id))
        == if v.operation == Some(Compare) then Relation(c, a, b) else Relation(c, Bitwise16(And, a, b), 0)
  {
    hide Relation, EvaluateCondition, CompareFlagsOf, TestFlagsOf;
    FlagsFromSource(values, id);
    var v := values[FlagSource(values, id).value];
    DirectResolves(values, e, v.inputs[0]);
    DirectResolves(values, e, v.inputs[1]);
    CompareConditions(c, Eval(values, e, v.inputs[0]), Eval(values, e, v.inputs[1]));
    TestConditions(c, Eval(values, e, v.inputs[0]), Eval(values, e, v.inputs[1]));
  }

  /**
   * On every builder's table, whatever its operands are computed from: a condition read from the flags of a
   * CMP or TEST whose operands resolve is its relation between what the leaves of the operands stand for.
   */
  lemma ConditionsOfLeaves(values: seq<SsaValue>, e: Execution, id: nat, c: D.BranchCondition)
    requires BuilderTable(values) && PriorTable(values) && id < |values| && FlagSource(values, id).Some?
    requires FlagSource(values, id).value < |values|
    requires var v := values[FlagSource(values, id).value];
      && |v.inputs| == 2 && v.inputs[0] < |values| && v.inputs[1] < |values|
      && ResolveConstant(values, v.inputs[0]).Some? && ResolveConstant(values, v.inputs[1]).Some?
    ensures var v := values[FlagSource(values, id).value];
      var a, b := Eval(values, e, Leaf(values, v.inputs[0])), Eval(values, e, Leaf(values, v.inputs[1]));
      EvaluateCondition(c, ResolveFlags(values, id))
        == if v.operation == Some(Compare) then Relation(c, a, b) else Relation(c, Bitwise16(And, a, b), 0)
  {
    hide Relation, EvaluateCondition, CompareFlagsOf, TestFlagsOf;
    FlagsFromSource(values, id);
    var v := values[FlagSource(values, id).value];
    ResolvesToLeaf(values, e, v.inputs[0]);
    ResolvesToLeaf(values, e, v.inputs[1]);
    CompareConditions(c, Eval(values, e, Leaf(values, v.inputs[0])), Eval(values, e, Leaf(values, v.inputs[1])));
    TestConditions(c, Eval(values, e, Leaf(values, v.inputs[0])), Eval(values, e, Leaf(values, v.inputs[1])));
  }
}
