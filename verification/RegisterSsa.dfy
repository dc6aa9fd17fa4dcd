/**
 * The table of SSA values and its builder (src/ir/register_ssa.cpp), and what the values of a table stand
 * for. Register states are arrays indexed by register.
 */
module RegisterSsa {
  import opened Words
  import opened Outcome

  const REGISTERS: nat := 17
  const FLAGS: nat := 16

  /** register_id; its last enumerator, count, names no register. */
  type RegisterId = r: nat | r <= 17

  datatype ValueKind = Entry | Definition | Operation | Phi

  datatype OperationKind = Add | Subtract | BitAnd | BitOr | BitXor | Compare | Test

  datatype SsaValue = SsaValue(id: nat, reg: RegisterId, kind: ValueKind, inputs: seq<nat>,
                               constant: Option<u16>, operation: Option<OperationKind>)

  // ---------- what values stand for ----------

  predicate IsArithmetic(op: OperationKind) {
    op != Compare && op != Test
  }

  function Apply(op: OperationKind, a: u16, b: u16): u16
    requires IsArithmetic(op)
  {
    match op
    case Add => Wrap16(a + b)
    case Subtract => Wrap16(a - b)
    case BitAnd => Bitwise16(And, a, b)
    case BitOr => Bitwise16(Or, a, b)
    case _ => Bitwise16(Xor, a, b)
  }

  /** What an operation should give: sums and differences modulo 2^16, and the bits combined one by one. */
  ghost predicate Computes(op: OperationKind, a: u16, b: u16, r: u16) {
    match op
    case Add => r == (a + b) % 0x1_0000
    case Subtract => r == (a - b) % 0x1_0000
    case BitAnd => forall i: nat :: i < 16 ==> (Bit(r, i) <==> Bit(a, i) && Bit(b, i))
    case BitOr => forall i: nat :: i < 16 ==> (Bit(r, i) <==> Bit(a, i) || Bit(b, i))
    case BitXor => forall i: nat :: i < 16 ==> (Bit(r, i) <==> Bit(a, i) != Bit(b, i))
    case _ => false
  }

  lemma ApplyComputes(op: OperationKind, a: u16, b: u16)
    requires IsArithmetic(op)
    ensures Computes(op, a, b, Apply(op, a, b))
  {
    hide Bit, Bitwise;
    forall i: nat, bits | i < 16
      ensures Bit(Bitwise16(bits, a, b), i) == BitOf(bits, Bit(a, i), Bit(b, i))
    {
      BitwiseBit(bits, a, b, 16, i);
    }
  }

  /** That is one word only. */
  lemma ComputesOne(op: OperationKind, a: u16, b: u16, r: u16)
    requires IsArithmetic(op) && Computes(op, a, b, r)
    ensures r == Apply(op, a, b)
  {
    var s := Apply(op, a, b);
    ApplyComputes(op, a, b);
    Pow2Of16();
    if op != Add && op != Subtract {
      forall i: nat | i < 16
        ensures Bit(r, i) == Bit(s, i)
      {
      }
      hide Bit, Pow2, Apply;
      SameBits(r, s, 16);
    }
  }

  /** One execution: a value for every value the table does not determine, and the input each phi takes. */
  datatype Execution = Execution(free: nat -> u16, choice: nat -> nat)

  predicate Prior(inputs: seq<nat>, id: nat) {
    forall k :: 0 <= k < |inputs| ==> inputs[k] < id
  }

  predicate PriorInputs(v: SsaValue, id: nat) {
    Prior(v.inputs, id)
  }

  /** The value of an entry of the table: constants, copies, arithmetic and chosen phi inputs; the rest is free. */
  function Eval(values: seq<SsaValue>, e: Execution, id: nat): u16
    requires id < |values|
    decreases id
  {
    var v := values[id];
    if v.constant.Some? then v.constant.value
    else if !PriorInputs(v, id) then e.free(id)
    else if v.kind == Operation && v.operation.Some? && IsArithmetic(v.operation.value) && |v.inputs| == 2 then
      Apply(v.operation.value, Eval(values, e, v.inputs[0]), Eval(values, e, v.inputs[1]))
    else if v.kind == Phi && v.inputs != [] then Eval(values, e, v.inputs[e.choice(id) % |v.inputs|])
    else if v.kind == Definition && |v.inputs| == 1 then Eval(values, e, v.inputs[0])
    else e.free(id)
  }

  // ---------- tables the builder makes ----------

  /** The shapes of the values the builder appends. */
  predicate Shaped(v: SsaValue, id: nat) {
    && v.id == id && PriorInputs(v, id)
    && match v.kind
       case Entry => v.inputs == [] && v.constant.None? && v.operation.None?
       case Definition => v.operation.None? && (v.constant.Some? ==> v.inputs == [])
       case Operation => v.operation.Some? && v.constant.None?
       case Phi => |v.inputs| == 2 && v.constant.None? && v.operation.None?
  }

  predicate BuilderTable(values: seq<SsaValue>) {
    forall i :: 0 <= i < |values| ==> Shaped(values[i], i)
  }

  /** The copies, phis and operations a builder makes never change the value of what was there before. */
  lemma {:induction false} EvalStable(values: seq<SsaValue>, more: seq<SsaValue>, e: Execution, id: nat)
    requires id < |values| && values <= more
    ensures Eval(more, e, id) == Eval(values, e, id)
    decreases id
  {
    var v := values[id];
    assert more[id] == v;
    if PriorInputs(v, id) {
      forall k | 0 <= k < |v.inputs|
        ensures Eval(more, e, v.inputs[k]) == Eval(values, e, v.inputs[k])
      {
        EvalStable(values, more, e, v.inputs[k]);
      }
    }
  }

  /** Values appended behind the entry values. */
  function BehindEntries(tail: seq<SsaValue>): (values: seq<SsaValue>)
    ensures |values| == REGISTERS + |tail|
    ensures forall i :: 0 <= i < |tail| ==> values[REGISTERS + i] == tail[i]
    ensures forall i :: 0 <= i < REGISTERS ==> values[i] == SsaValue(i, i, Entry, [], None, None)
  {
    EntryValues(REGISTERS) + tail
  }

  lemma BehindEntriesShaped(tail: seq<SsaValue>)
    requires forall i :: 0 <= i < |tail| ==> Shaped(tail[i], REGISTERS + i)
    ensures BuilderTable(BehindEntries(tail))
  {
    var t := BehindEntries(tail);
    forall i | 0 <= i < |t|
      ensures Shaped(t[i], i)
    {
      if i >= REGISTERS {
        assert t[REGISTERS + (i - REGISTERS)] == tail[i - REGISTERS];
      }
    }
  }

  /** An operation of a table stands for what it computes of its inputs. */
  lemma EvalComputes(values: seq<SsaValue>, e: Execution, id: nat)
    requires id < |values| && BuilderTable(values) && |values[id].inputs| == 2
    requires values[id].kind == Operation && values[id].operation.Some? && IsArithmetic(values[id].operation.value)
    ensures values[id].inputs[0] < id && values[id].inputs[1] < id
    ensures Computes(values[id].operation.value, Eval(values, e, values[id].inputs[0]), Eval(values, e, values[id].inputs[1]),
                     Eval(values, e, id))
  {
    hide Apply, Computes;
    var v := values[id];
    assert Shaped(v, id);
    ApplyComputes(v.operation.value, Eval(values, e, v.inputs[0]), Eval(values, e, v.inputs[1]));
  }

  // ---------- the builder ----------

  /** The entry values of the first n registers, each under the identity of its register. */
  function EntryValues(n: nat): (r: seq<SsaValue>)
    requires n <= REGISTERS
    ensures |r| == n && forall i :: 0 <= i < n ==> r[i] == SsaValue(i, i, Entry, [], None, None)
  {
    if n == 0 then [] else EntryValues(n - 1) + [SsaValue(n - 1, n - 1, Entry, [], None, None)]
  }

  /** The values merge appends for the registers from index on, where the two states differ. */
  function MergePhis(first: seq<nat>, second: seq<nat>, size: nat, index: nat): seq<SsaValue>
    requires |first| == |second| == REGISTERS && index <= REGISTERS
    decreases REGISTERS - index
  {
    if index == REGISTERS then []
    else if first[index] == second[index] then MergePhis(first, second, size, index + 1)
    else [SsaValue(size, index, Phi, [first[index], second[index]], None, None)] + MergePhis(first, second, size + 1, index + 1)
  }

  /** The values the merged state has for the registers from index on. */
  function MergeIds(first: seq<nat>, second: seq<nat>, size: nat, index: nat): seq<nat>
    requires |first| == |second| == REGISTERS && index <= REGISTERS
    decreases REGISTERS - index
  {
    if index == REGISTERS then []
    else if first[index] == second[index] then [first[index]] + MergeIds(first, second, size, index + 1)
    else [size] + MergeIds(first, second, size + 1, index + 1)
  }

  ghost predicate Known(state: seq<nat>, size: nat) {
    |state| == REGISTERS && forall r :: 0 <= r < REGISTERS ==> state[r] < size
  }

  lemma TableSnoc(values: seq<SsaValue>, v: SsaValue)
    requires BuilderTable(values) && Shaped(v, |values|)
    ensures BuilderTable(values + [v])
  {
  }

  /** The phi merge appends for a register. */
  function PhiFor(size: nat, r: RegisterId, first: seq<nat>, second: seq<nat>): SsaValue
    requires |first| == |second| == REGISTERS && r < REGISTERS
  {
    SsaValue(size, r, Phi, [first[r], second[r]], None, None)
  }

  lemma Reassociate<T>(a: seq<T>, x: T, b: seq<T>)
    ensures a + ([x] + b) == (a + [x]) + b
  {
  }

  /** Merging keeps a builder's table one. */
  lemma {:induction false} MergeShaped(values: seq<SsaValue>, first: seq<nat>, second: seq<nat>, index: nat)
    requires BuilderTable(values) && Known(first, |values|) && Known(second, |values|) && index <= REGISTERS
    ensures BuilderTable(values + MergePhis(first, second, |values|, index))
    decreases REGISTERS - index
  {
    if index == REGISTERS {
      assert values + [] == values;
    } else if first[index] == second[index] {
      MergeShaped(values, first, second, index + 1);
    } else {
      hide BuilderTable;
      var v := PhiFor(|values|, index, first, second);
      TableSnoc(values, v);
      MergeShaped(values + [v], first, second, index + 1);
      Reassociate(values, v, MergePhis(first, second, |values| + 1, index + 1));
    }
  }

  /** Where the states agree the merged state does too; elsewhere it has a phi of both. */
  lemma {:induction false} MergedRegister(values: seq<SsaValue>, first: seq<nat>, second: seq<nat>, index: nat, r: nat)
    requires Known(first, |values|) && Known(second, |values|) && index <= r < REGISTERS
    ensures |MergeIds(first, second, |values|, index)| == REGISTERS - index
    ensures var id, all := MergeIds(first, second, |values|, index)[r - index], values + MergePhis(first, second, |values|, index);
      && id < |all|
      && (first[r] == second[r] ==> id == first[r])
      && (first[r] != second[r] ==> |values| <= id && all[id] == SsaValue(id, r, Phi, [first[r], second[r]], None, None))
    decreases REGISTERS - index
  {
    hide MergeIds, MergePhis;
    var size := |values|;
    MergeIdsSize(first, second, size, index);
    MergeStep(first, second, size, index);
    if first[index] == second[index] {
      if r != index {
        MergedRegister(values, first, second, index + 1, r);
      }
    } else {
      var v := PhiFor(size, index, first, second);
      Reassociate(values, v, MergePhis(first, second, size + 1, index + 1));
      if r == index {
        assert (values + [v])[size] == v;
      } else {
        MergedRegister(values + [v], first, second, index + 1, r);
      }
    }
  }

  lemma MergeDone(first: seq<nat>, second: seq<nat>)
    requires |first| == |second| == REGISTERS
    ensures forall size: nat :: MergePhis(first, second, size, REGISTERS) == [] && MergeIds(first, second, size, REGISTERS) == []
  {
  }

  lemma MergeStep(first: seq<nat>, second: seq<nat>, size: nat, index: nat)
    requires |first| == |second| == REGISTERS && index < REGISTERS
    ensures first[index] == second[index] ==>
      && MergeIds(first, second, size, index) == [first[index]] + MergeIds(first, second, size, index + 1)
      && MergePhis(first, second, size, index) == MergePhis(first, second, size, index + 1)
    ensures first[index] != second[index] ==>
      && MergeIds(first, second, size, index) == [size] + MergeIds(first, second, size + 1, index + 1)
      && MergePhis(first, second, size, index) == [PhiFor(size, index, first, second)] + MergePhis(first, second, size + 1, index + 1)
  {
  }

  lemma {:induction false} MergeIdsSize(first: seq<nat>, second: seq<nat>, size: nat, index: nat)
    requires |first| == |second| == REGISTERS && index <= REGISTERS
    ensures |MergeIds(first, second, size, index)| == REGISTERS - index
    decreases REGISTERS - index
  {
    if index < REGISTERS {
      MergeIdsSize(first, second, if first[index] == second[index] then size else size + 1, index + 1);
    }
  }

  class Builder {
    var values: seq<SsaValue>

    /** The entry values are there. What callers appended may refer to anything. */
    ghost predicate Valid()
      reads this
    {
      REGISTERS <= |values|
    }

    constructor ()
      ensures Valid() && BuilderTable(values) && |values| == REGISTERS
      ensures values == EntryValues(REGISTERS)
    {
      values := [];
      new;
      for index := 0 to REGISTERS
        invariant values == EntryValues(index)
      {
        values := values + [SsaValue(index, index, Entry, [], None, None)];
      }
    }

    method EntryState() returns (state: array<nat>)
      requires Valid()
      ensures fresh(state) && state.Length == REGISTERS
      ensures forall r :: 0 <= r < REGISTERS ==> state[r] == r < |values|
    {
      state := new nat[REGISTERS](r => r);
    }

    /**
     * Appends a value, which a state takes as the current value of its register. For count the source writes
     * behind its array; what the state is then is left open.
     */
    method Append(state: array<nat>, reg: RegisterId, v: SsaValue) returns (id: nat)
      requires Valid() && state.Length == REGISTERS
      modifies this, state
      ensures Valid() && id == |old(values)|
      ensures BuilderTable(old(values)) && Shaped(v, id) ==> BuilderTable(values)
      ensures values == old(values) + [v]
      ensures reg < REGISTERS ==> state[..] == old(state[..])[reg := id]
    {
      id := |values|;
      values := values + [v];
      if reg < REGISTERS {
        state[reg] := id;
      }
    }

    method Define(state: array<nat>, reg: RegisterId, inputs: seq<nat>) returns (id: nat)
      requires Valid() && state.Length == REGISTERS
      modifies this, state
      ensures Valid() && id == |old(values)|
      ensures BuilderTable(old(values)) && Prior(inputs, id) ==> BuilderTable(values)
      ensures values == old(values) + [SsaValue(id, reg, Definition, inputs, None, None)]
      ensures reg < REGISTERS ==> state[..] == old(state[..])[reg := id]
    {
      id := Append(state, reg, SsaValue(|values|, reg, Definition, inputs, None, None));
    }

    method DefineConstant(state: array<nat>, reg: RegisterId, value: u16) returns (id: nat)
      requires Valid() && state.Length == REGISTERS
      modifies this, state
      ensures Valid() && id == |old(values)|
      ensures BuilderTable(old(values)) ==> BuilderTable(values)
      ensures values == old(values) + [SsaValue(id, reg, Definition, [], Some(value), None)]
      ensures reg < REGISTERS ==> state[..] == old(state[..])[reg := id]
    {
      id := Append(state, reg, SsaValue(|values|, reg, Definition, [], Some(value), None));
    }

    /** A constant no register takes. */
    method Constant(reg: RegisterId, value: u16) returns (id: nat)
      requires Valid()
      modifies this
      ensures Valid() && id == |old(values)|
      ensures BuilderTable(old(values)) ==> BuilderTable(values)
      ensures values == old(values) + [SsaValue(id, reg, Definition, [], Some(value), None)]
    {
      id := |values|;
      values := values + [SsaValue(id, reg, Definition, [], Some(value), None)];
    }

    method DefineOperation(state: array<nat>, reg: RegisterId, operation: OperationKind, inputs: seq<nat>) returns (id: nat)
      requires Valid() && state.Length == REGISTERS
      modifies this, state
      ensures Valid() && id == |old(values)|
      ensures BuilderTable(old(values)) && Prior(inputs, id) ==> BuilderTable(values)
      ensures values == old(values) + [SsaValue(id, reg, Operation, inputs, None, Some(operation))]
      ensures reg < REGISTERS ==> state[..] == old(state[..])[reg := id]
    {
      id := Append(state, reg, SsaValue(|values|, reg, Operation, inputs, None, Some(operation)));
    }

    /** Appends a phi for every register on which two states differ. */
    method Merge(first: array<nat>, second: array<nat>) returns (merged: array<nat>)
      requires Valid() && first.Length == second.Length == REGISTERS
      modifies this
      ensures Valid() && fresh(merged)
      ensures BuilderTable(old(values)) && Known(first[..], |old(values)|) && Known(second[..], |old(values)|) ==> BuilderTable(values)
      ensures values == old(values) + MergePhis(first[..], second[..], |old(values)|, 0)
      ensures merged[..] == MergeIds(first[..], second[..], |old(values)|, 0)
    {
      hide BuilderTable, MergePhis, MergeIds;
      MergeDone(first[..], second[..]);
      ghost var a, b := first[..], second[..];
      if BuilderTable(values) && Known(a, |values|) && Known(b, |values|) {
        MergeShaped(values, a, b, 0);
      }
      MergeIdsSize(a, b, |values|, 0);
      merged := new nat[REGISTERS](r requires 0 <= r < first.Length reads first => first[r]);
      for index := 0 to REGISTERS
        invariant first[..] == a && second[..] == b && fresh(merged)
        invariant values + MergePhis(a, b, |values|, index) == old(values) + MergePhis(a, b, |old(values)|, 0)
        invariant merged[..index] + MergeIds(a, b, |values|, index) == MergeIds(a, b, |old(values)|, 0)
        invariant forall r :: index <= r < REGISTERS ==> merged[r] == a[r]
      {
        assert a[index] == first[index] && b[index] == second[index];
        MergeStep(a, b, |values|, index);
        ghost var before := merged[..index];
        if first[index] != second[index] {
          ghost var v, size := PhiFor(|values|, index, a, b), |values|;
          Reassociate(values, v, MergePhis(a, b, size + 1, index + 1));
          Reassociate(before, size, MergeIds(a, b, size + 1, index + 1));
          merged[index] := |values|;
          values := values + [SsaValue(|values|, index, Phi, [first[index], second[index]], None, None)];
        } else {
          Reassociate(before, a[index], MergeIds(a, b, |values|, index + 1));
        }
        assert merged[..index + 1] == before + [merged[index]];
      }
      assert values + [] == values;
      assert merged[..] == merged[..REGISTERS] + [];
    }
  }

  /** A phi of two values stands for the one or the other. */
  lemma PhiIsEither(values: seq<SsaValue>, e: Execution, id: nat)
    requires BuilderTable(values) && id < |values| && values[id].kind == Phi
    ensures |values[id].inputs| == 2 && values[id].inputs[0] < id && values[id].inputs[1] < id
    ensures Eval(values, e, id) == Eval(values, e, values[id].inputs[0]) || Eval(values, e, id) == Eval(values, e, values[id].inputs[1])
  {
    assert Shaped(values[id], id);
    var k := e.choice(id) % 2;
    assert k == 0 || k == 1;
  }
}
