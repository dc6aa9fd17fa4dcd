/** Constant propagation over an SSA table (src/optimizer/constant_propagation.cpp). */
module ConstantPropagation {
  import opened Words
  import opened Outcome
  import opened RegisterSsa

  datatype PropagationError = IdOutside | InvalidOperation | InvalidPhi

  type Constants = seq<Option<u16>>

  function Unknown(n: nat): (r: Constants)
    ensures |r| == n && forall k :: 0 <= k < n ==> r[k] == None
  {
    seq(n, _ => None)
  }

  // ---------- one pass over the values, as a function ----------

  /** The walk over the inputs of a phi whose first input is known. */
  function MeetInputs(result: Constants, id: nat, inputs: seq<nat>, first: Option<u16>, k: nat): Result<Option<u16>, PropagationError>
    requires k <= |inputs| && id < |result|
    decreases |inputs| - k
  {
    if k == |inputs| then Ok(first)
    else if inputs[k] >= id then Err(InvalidPhi)
    else if result[inputs[k]].None? || result[inputs[k]] != first then Ok(None)
    else MeetInputs(result, id, inputs, first, k + 1)
  }

  /** What is recorded for one value, given the results so far. */
  function ConstantOf(result: Constants, v: SsaValue): Result<Option<u16>, PropagationError>
    requires v.id < |result|
  {
    if v.kind == Operation then
      if v.operation.None? || |v.inputs| != 2 || v.inputs[0] >= v.id || v.inputs[1] >= v.id then Err(InvalidOperation)
      else
        var left, right := result[v.inputs[0]], result[v.inputs[1]];
        if left.None? || right.None? || !IsArithmetic(v.operation.value) then Ok(v.constant)
        else Ok(Some(Apply(v.operation.value, left.value, right.value)))
    else if v.kind != Phi || v.inputs == [] then Ok(v.constant)
    else if v.inputs[0] >= v.id then Err(InvalidPhi)
    else if result[v.inputs[0]].None? then Ok(v.constant)
    else MeetInputs(result, v.id, v.inputs, result[v.inputs[0]], 0)
  }

  /** The results after the first k values. */
  function Propagated(values: seq<SsaValue>, k: nat): (r: Result<Constants, PropagationError>)
    requires k <= |values|
    ensures r.Ok? ==> |r.value| == |values|
  {
    if k == 0 then Ok(Unknown(|values|))
    else
      var before := Propagated(values, k - 1);
      if before.Err? then before
      else
        var v := values[k - 1];
        if v.id >= |values| then Err(IdOutside)
        else
          var c := ConstantOf(before.value[v.id := v.constant], v);
          if c.Err? then Err(c.error) else Ok(before.value[v.id := c.value])
  }

  lemma {:induction false} PropagatedFails(values: seq<SsaValue>, k: nat, n: nat)
    requires k <= n <= |values| && Propagated(values, k).Err?
    ensures Propagated(values, n) == Propagated(values, k)
    decreases n
  {
    if k < n {
      PropagatedFails(values, k, n - 1);
    }
  }

  // ---------- the analysis ----------

  /** The loop over the inputs of a phi. */
  method MeetPhi(result: array<Option<u16>>, id: nat, inputs: seq<nat>) returns (error: Option<PropagationError>)
    requires id < result.Length && inputs != [] && inputs[0] < id && result[inputs[0]].Some?
    modifies result
    ensures match MeetInputs(old(result[..]), id, inputs, old(result[inputs[0]]), 0)
      case Ok(c) => error.None? && result[..] == old(result[..])[id := c]
      case Err(e) => error == Some(e)
  {
    var first := inputs[0];
    ghost var before := result[..];
    for k := 0 to |inputs|
      invariant forall i :: 0 <= i < result.Length && i != id ==> result[i] == before[i]
      invariant k > 0 ==> result[id] == before[first]
      invariant MeetInputs(before, id, inputs, before[first], k) == MeetInputs(before, id, inputs, before[first], 0)
    {
      var input := inputs[k];
      if input >= id {
        return Some(InvalidPhi);
      }
      if result[input].None? || result[input] != result[first] {
        result[id] := None;
        return None;
      }
      result[id] := result[first];
    }
    return None;
  }

  /** The body of the loop over the values. */
  method Record(result: array<Option<u16>>, v: SsaValue) returns (error: Option<PropagationError>)
    requires v.id < result.Length
    modifies result
    ensures match ConstantOf(old(result[..])[v.id := v.constant], v)
      case Ok(c) => error.None? && result[..] == old(result[..])[v.id := c]
      case Err(e) => error == Some(e)
  {
    result[v.id] := v.constant;
    assert result[..] == old(result[..])[v.id := v.constant];
    if v.kind == Operation {
      if v.operation.None? || |v.inputs| != 2 || v.inputs[0] >= v.id || v.inputs[1] >= v.id {
        return Some(InvalidOperation);
      }
      var left, right := result[v.inputs[0]], result[v.inputs[1]];
      if left.None? || right.None? {
        return None;
      }
      if IsArithmetic(v.operation.value) {
        result[v.id] := Some(Apply(v.operation.value, left.value, right.value));
      }
      return None;
    }
    if v.kind != Phi || v.inputs == [] {
      return None;
    }
    if v.inputs[0] >= v.id {
      return Some(InvalidPhi);
    }
    if result[v.inputs[0]].None? {
      return None;
    }
    error := MeetPhi(result, v.id, v.inputs);
  }

  /** Where an operation of two recorded words is recorded, it is what the operation computes of them. */
  ghost predicate RecordsOperations(values: seq<SsaValue>, result: Constants)
    requires |result| == |values|
  {
    forall id {:trigger values[id].operation} :: 0 <= id < |values| && IsKnownOperation(values, result, id) ==>
      && result[id].Some?
      && Computes(values[id].operation.value, result[values[id].inputs[0]].value, result[values[id].inputs[1]].value, result[id].value)
  }

  predicate IsKnownOperation(values: seq<SsaValue>, result: Constants, id: nat)
    requires id < |values| == |result|
  {
    var v := values[id];
    && v.kind == Operation && v.operation.Some? && IsArithmetic(v.operation.value) && |v.inputs| == 2
    && v.inputs[0] < |result| && v.inputs[1] < |result| && result[v.inputs[0]].Some? && result[v.inputs[1]].Some?
  }

  lemma PropagationRecords(values: seq<SsaValue>)
    requires BuilderTable(values) && Propagated(values, |values|).Ok?
    ensures RecordsOperations(values, Propagated(values, |values|).value)
  {
    hide Apply, Computes, Propagated;
    var result := Propagated(values, |values|).value;
    forall id: nat | id < |values| && IsKnownOperation(values, result, id)
      ensures result[id].Some?
      ensures Computes(values[id].operation.value, result[values[id].inputs[0]].value, result[values[id].inputs[1]].value, result[id].value)
    {
      var v := values[id];
      assert Shaped(v, id);
      PropagationExact(values, |values|, id);
      PropagationExact(values, |values|, v.inputs[0]);
      PropagationExact(values, |values|, v.inputs[1]);
      ApplyComputes(v.operation.value, result[v.inputs[0]].value, result[v.inputs[1]].value);
    }
  }

  method Analyze(values: seq<SsaValue>) returns (r: Result<Constants, PropagationError>)
    ensures r == Propagated(values, |values|)
    ensures r.Ok? && BuilderTable(values) ==> RecordsOperations(values, r.value)
  {
    if Propagated(values, |values|).Ok? && BuilderTable(values) {
      PropagationRecords(values);
    }
    hide RecordsOperations, BuilderTable, ConstantOf, MeetInputs;
    var result := new Option<u16>[|values|](_ => None);
    assert result[..] == Unknown(|values|);
    for k := 0 to |values|
      invariant Propagated(values, k) == Ok(result[..])
    {
      var v := values[k];
      if v.id >= |values| {
        PropagatedFails(values, k + 1, |values|);
        return Err(IdOutside);
      }
      var error := Record(result, v);
      if error.Some? {
        PropagatedFails(values, k + 1, |values|);
        return Err(error.value);
      }
    }
    return Ok(result[..]);
  }

  // ---------- on builder tables ----------

  predicate IsBinary(v: SsaValue) {
    v.kind == Operation ==> |v.inputs| == 2
  }

  predicate BinaryOperations(values: seq<SsaValue>) {
    forall i :: 0 <= i < |values| ==> IsBinary(values[i])
  }

  /** A recorded constant is what the value stands for in every execution. */
  ghost predicate SoundTo(values: seq<SsaValue>, result: Constants, k: nat)
    requires k <= |values| == |result|
  {
    && (forall i, e :: 0 <= i < k && result[i].Some? ==> Eval(values, e, i) == result[i].value)
    && (forall i :: k <= i < |values| ==> result[i].None?)
  }

  lemma {:induction false} MeetSound(values: seq<SsaValue>, result: Constants, id: nat, k: nat)
    requires |result| == |values| && id < |values| && Shaped(values[id], id) && values[id].kind == Phi
    requires k <= 2 && forall j :: 0 <= j < k ==> result[values[id].inputs[j]] == result[values[id].inputs[0]]
    requires result[values[id].inputs[0]].Some?
    ensures var inputs := values[id].inputs;
      var c := MeetInputs(result, id, inputs, result[inputs[0]], k);
      && c.Ok? && (c.value.Some? ==> result[inputs[0]] == result[inputs[1]] == c.value)
      && (result[inputs[0]] == result[inputs[1]] ==> c.value == result[inputs[0]])
    decreases 2 - k
  {
    var inputs := values[id].inputs;
    if k < 2 && result[inputs[k]] == result[inputs[0]] {
      MeetSound(values, result, id, k + 1);
    }
  }

  lemma ConstantOfSound(values: seq<SsaValue>, result: Constants, id: nat)
    requires |result| == |values| && id < |values| && BuilderTable(values) && SoundTo(values, result, id)
    ensures var c := ConstantOf(result[id := values[id].constant], values[id]);
      if IsBinary(values[id]) then c.Ok? && forall e :: c.value.Some? ==> Eval(values, e, id) == c.value.value
      else c == Err(InvalidOperation)
  {
    var v := values[id];
    assert Shaped(v, id);
    var noted := result[id := v.constant];
    if v.kind == Phi && noted[v.inputs[0]].Some? {
      MeetSound(values, noted, id, 0);
      forall e: Execution
        ensures v.inputs[e.choice(id) % 2] < id && Eval(values, e, id) == Eval(values, e, v.inputs[e.choice(id) % 2])
      {
      }
    }
  }

  /**
   * On a builder's table the analysis fails exactly when some operation has not two inputs. Otherwise
   * whatever it reports as a constant is the value in every execution, whatever the free values and the
   * phi choices are.
   */
  lemma {:induction false} PropagationSound(values: seq<SsaValue>, k: nat)
    requires k <= |values| && BuilderTable(values)
    ensures Propagated(values, k).Ok? <==> BinaryOperations(values[..k])
    ensures Propagated(values, k).Err? ==> Propagated(values, k).error == InvalidOperation
    ensures Propagated(values, k).Ok? ==> SoundTo(values, Propagated(values, k).value, k)
  {
    hide IsBinary;
    if k != 0 {
      PropagationSound(values, k - 1);
      assert values[..k] == values[..k - 1] + [values[k - 1]];
      assert BinaryOperations(values[..k]) <==> BinaryOperations(values[..k - 1]) && IsBinary(values[k - 1]);
      assert Shaped(values[k - 1], k - 1);
      hide Shaped, BinaryOperations, BuilderTable, ConstantOf;
      if Propagated(values, k - 1).Ok? {
        ConstantOfSound(values, Propagated(values, k - 1).value, k - 1);
      }
    }
  }

  /** The two directions over the whole table. */
  lemma PropagationFailsIff(values: seq<SsaValue>)
    requires BuilderTable(values)
    ensures Propagated(values, |values|) == Err(InvalidOperation) <==> !BinaryOperations(values)
    ensures Propagated(values, |values|).Ok? <==> BinaryOperations(values)
  {
    assert values[..|values|] == values;
    PropagationSound(values, |values|);
  }

  /** The entry values, 5, and an operation on it alone: as the builder appends them when asked to. */
  function UnaryTable(): seq<SsaValue> {
    BehindEntries([SsaValue(17, 8, Definition, [], Some(5), None), SsaValue(18, 8, Operation, [17], None, Some(Add))])
  }

  /** An operation on one value is refused. */
  lemma UnaryOperationFails()
    ensures BuilderTable(UnaryTable()) && Propagated(UnaryTable(), |UnaryTable()|) == Err(InvalidOperation)
  {
    hide Propagated;
    var t := UnaryTable();
    BehindEntriesShaped([SsaValue(17, 8, Definition, [], Some(5), None), SsaValue(18, 8, Operation, [17], None, Some(Add))]);
    assert !IsBinary(t[18]);
    PropagationFailsIff(t);
  }

  /** Values with only known inputs are known: constants, arithmetic on known inputs, phis of one known value. */
  lemma {:induction false} PropagationComplete(values: seq<SsaValue>, k: nat, id: nat)
    requires id < k <= |values| && BuilderTable(values) && Propagated(values, k).Ok?
    ensures var r, v := Propagated(values, k).value, values[id];
      && (v.constant.Some? ==> r[id] == v.constant)
      && (v.kind == Operation ==> |v.inputs| == 2 && v.inputs[0] < id && v.inputs[1] < id)
      && (v.kind == Operation && IsArithmetic(v.operation.value) && r[v.inputs[0]].Some? && r[v.inputs[1]].Some? ==> r[id].Some?)
      && (v.kind == Phi ==> v.inputs[0] < id && v.inputs[1] < id)
      && (v.kind == Phi && r[v.inputs[0]].Some? && r[v.inputs[0]] == r[v.inputs[1]] ==> r[id].Some?)
    decreases k
  {
    PropagationSound(values, k);
    PropagationSound(values, k - 1);
    assert IsBinary(values[..k][id]);
    assert Shaped(values[k - 1], k - 1);
    assert Shaped(values[id], id);
    var v, before := values[id], Propagated(values, k - 1).value;
    if id < k - 1 {
      PropagationComplete(values, k - 1, id);
    } else if v.kind == Phi && before[v.inputs[0]].Some? {
      MeetSound(values, before[id := v.constant], id, 0);
    }
  }

  // ---------- what a table determines ----------

  /**
   * The value a table determines by constants, arithmetic on determined inputs, phis of two equal ones and,
   * if asked to, copies.
   */
  function Determined(values: seq<SsaValue>, id: nat, copies: bool): Option<u16>
    requires id < |values|
    decreases id
  {
    var v := values[id];
    if v.constant.Some? then v.constant
    else if !PriorInputs(v, id) then None
    else if v.kind == Operation && v.operation.Some? && IsArithmetic(v.operation.value) && |v.inputs| == 2 then
      var left, right := Determined(values, v.inputs[0], copies), Determined(values, v.inputs[1], copies);
      if left.Some? && right.Some? then Some(Apply(v.operation.value, left.value, right.value)) else None
    else if v.kind == Phi && |v.inputs| == 2 then
      var first, second := Determined(values, v.inputs[0], copies), Determined(values, v.inputs[1], copies);
      if first == second then first else None
    else if v.kind == Definition && |v.inputs| == 1 && copies then Determined(values, v.inputs[0], copies)
    else None
  }

  /** What is determined is so in every execution. */
  lemma {:induction false} DeterminedIsValue(values: seq<SsaValue>, e: Execution, id: nat, copies: bool)
    requires id < |values| && Determined(values, id, copies).Some?
    ensures Eval(values, e, id) == Determined(values, id, copies).value
    decreases id
  {
    hide Apply;
    var v := values[id];
    if v.constant.None? {
      if v.kind == Operation {
        DeterminedIsValue(values, e, v.inputs[0], copies);
        DeterminedIsValue(values, e, v.inputs[1], copies);
      } else if v.kind == Phi {
        DeterminedIsValue(values, e, v.inputs[e.choice(id) % 2], copies);
      } else {
        DeterminedIsValue(values, e, v.inputs[0], copies);
      }
    }
  }

  /** Copies only add to what is determined. */
  lemma {:induction false} CopiesDetermineMore(values: seq<SsaValue>, id: nat)
    requires id < |values| && Determined(values, id, false).Some?
    ensures Determined(values, id, true) == Determined(values, id, false)
    decreases id
  {
    hide Apply;
    var v := values[id];
    if v.constant.None? {
      CopiesDetermineMore(values, v.inputs[0]);
      CopiesDetermineMore(values, v.inputs[1]);
    }
  }

  /** The analysis records exactly what a builder's table determines without copies: it follows none. */
  lemma {:induction false} PropagationExact(values: seq<SsaValue>, k: nat, id: nat)
    requires id < k <= |values| && BuilderTable(values) && Propagated(values, k).Ok?
    ensures Propagated(values, k).value[id] == Determined(values, id, false)
    decreases k
  {
    hide Apply;
    PropagationSound(values, k);
    assert IsBinary(values[..k][id]);
    assert Shaped(values[k - 1], k - 1);
    var v, before := values[k - 1], Propagated(values, k - 1).value;
    if id < k - 1 {
      PropagationExact(values, k - 1, id);
    } else {
      forall input: nat | input < id
        ensures before[input] == Determined(values, input, false)
      {
        PropagationExact(values, k - 1, input);
      }
      if v.kind == Phi && before[v.inputs[0]].Some? {
        MeetSound(values, before[id := v.constant], id, 0);
        if before[v.inputs[0]] != before[v.inputs[1]] {
          MeetKnown(values, before[id := v.constant], id, 0);
        }
      }
    }
  }

  /** The walk over the inputs of a phi ends with nothing unless both inputs are the same known value. */
  lemma MeetKnown(values: seq<SsaValue>, result: Constants, id: nat, k: nat)
    requires |result| == |values| && id < |values| && Shaped(values[id], id) && values[id].kind == Phi && k <= 2
    requires result[values[id].inputs[0]].Some? && result[values[id].inputs[0]] != result[values[id].inputs[1]]
    ensures k <= 1 ==> MeetInputs(result, id, values[id].inputs, result[values[id].inputs[0]], k) == Ok(None)
    decreases 2 - k
  {
    if k == 0 {
      MeetKnown(values, result, id, 1);
    }
  }
}
