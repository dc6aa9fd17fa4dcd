/** Liveness over an SSA table (src/optimizer/dead_value_elimination.cpp). */
module DeadValues {
  import opened Words
  import opened Outcome
  import opened RegisterSsa

  datatype LivenessError = RootOutside | IdsNotDense | InputOutside

  // ---------- what the roots need ----------

  /** A chain of input edges from a root. */
  ghost predicate NeedPath(values: seq<SsaValue>, roots: seq<nat>, path: seq<nat>)
    decreases |path|
  {
    && path != []
    && var last := path[|path| - 1];
       if |path| == 1 then last in roots
       else
         var front := path[..|path| - 1];
         NeedPath(values, roots, front) && front[|front| - 1] < |values| && last in values[front[|front| - 1]].inputs
  }

  /** The value is reachable from the roots by input edges. */
  ghost predicate Needed(values: seq<SsaValue>, roots: seq<nat>, id: nat) {
    exists path :: NeedPath(values, roots, path) && path[|path| - 1] == id
  }

  lemma RootNeeded(values: seq<SsaValue>, roots: seq<nat>, id: nat)
    requires id in roots
    ensures Needed(values, roots, id)
  {
    assert NeedPath(values, roots, [id]);
  }

  lemma InputNeeded(values: seq<SsaValue>, roots: seq<nat>, id: nat, input: nat)
    requires Needed(values, roots, id) && id < |values| && input in values[id].inputs
    ensures Needed(values, roots, input)
  {
    var path :| NeedPath(values, roots, path) && path[|path| - 1] == id;
    var more := path + [input];
    assert more[..|more| - 1] == path;
    assert NeedPath(values, roots, more);
  }

  /** Every needed value lies in the table under its own identity. */
  ghost predicate WellNeeded(values: seq<SsaValue>, roots: seq<nat>) {
    forall id: nat :: Needed(values, roots, id) ==> id < |values| && values[id].id == id
  }

  /** What an error says of the needed values. */
  ghost predicate Explains(values: seq<SsaValue>, roots: seq<nat>, error: LivenessError) {
    match error
    case RootOutside => exists id: nat :: id in roots && id >= |values|
    case IdsNotDense => exists id: nat :: Needed(values, roots, id) && id < |values| && values[id].id != id
    case InputOutside =>
      exists id: nat, x: nat :: Needed(values, roots, id) && id < |values| && values[id].id == id && x in values[id].inputs && x >= |values|
  }

  ghost predicate Marked(live: seq<bool>, id: nat) {
    id < |live| && live[id]
  }

  ghost predicate Exact(values: seq<SsaValue>, roots: seq<nat>, live: seq<bool>) {
    |live| == |values| && forall id: nat :: Marked(live, id) <==> Needed(values, roots, id)
  }

  // ---------- the worklist ----------

  /** Marked and pending values are needed; roots and inputs of marked values are marked or pending. */
  ghost predicate Working(values: seq<SsaValue>, roots: seq<nat>, live: seq<bool>, pending: seq<nat>) {
    && |live| == |values|
    && (forall id: nat :: id in pending ==> Needed(values, roots, id))
    && (forall id: nat :: Marked(live, id) ==> Needed(values, roots, id) && values[id].id == id)
    && (forall id: nat :: id in roots ==> Marked(live, id) || id in pending)
    && (forall id: nat, x: nat :: Marked(live, id) && x in values[id].inputs ==> Marked(live, x) || x in pending)
  }

  lemma {:induction false} DoneMarks(values: seq<SsaValue>, roots: seq<nat>, live: seq<bool>, path: seq<nat>)
    requires Working(values, roots, live, []) && NeedPath(values, roots, path)
    ensures Marked(live, path[|path| - 1])
    decreases |path|
  {
    if |path| > 1 {
      DoneMarks(values, roots, live, path[..|path| - 1]);
    }
  }

  lemma Done(values: seq<SsaValue>, roots: seq<nat>, live: seq<bool>)
    requires Working(values, roots, live, [])
    ensures Exact(values, roots, live) && WellNeeded(values, roots)
  {
    forall id: nat | Needed(values, roots, id)
      ensures Marked(live, id)
    {
      var path :| NeedPath(values, roots, path) && path[|path| - 1] == id;
      DoneMarks(values, roots, live, path);
    }
  }

  lemma PopMarked(values: seq<SsaValue>, roots: seq<nat>, live: seq<bool>, pending: seq<nat>, id: nat)
    requires Working(values, roots, live, pending + [id]) && Marked(live, id)
    ensures Working(values, roots, live, pending)
  {
    assert forall x: nat :: x in pending + [id] <==> x in pending || x == id;
  }

  lemma PopUnmarked(values: seq<SsaValue>, roots: seq<nat>, live: seq<bool>, pending: seq<nat>, id: nat)
    requires Working(values, roots, live, pending + [id]) && id < |values| && values[id].id == id
    ensures Working(values, roots, live[id := true], pending + values[id].inputs)
  {
    var inputs, after := values[id].inputs, live[id := true];
    assert id in pending + [id];
    assert forall x: nat :: x in pending + [id] <==> x in pending || x == id;
    assert forall x: nat :: x in pending + inputs <==> x in pending || x in inputs;
    assert forall x: nat :: Marked(after, x) <==> Marked(live, x) || x == id;
    forall x: nat | x in inputs
      ensures Needed(values, roots, x)
    {
      InputNeeded(values, roots, id, x);
    }
  }

  ghost function MarkedSet(live: seq<bool>): set<nat> {
    set i | 0 <= i < |live| && live[i]
  }

  lemma MarkOne(live: seq<bool>, id: nat)
    requires id < |live| && !live[id]
    ensures |MarkedSet(live[id := true])| == |MarkedSet(live)| + 1
  {
    assert MarkedSet(live[id := true]) == MarkedSet(live) + {id};
  }

  lemma {:induction false} MarkedBound(live: seq<bool>)
    ensures |MarkedSet(live)| <= |live|
    decreases |live|
  {
    if live == [] {
      assert MarkedSet(live) == {};
    } else {
      var front := live[..|live| - 1];
      MarkedBound(front);
      assert MarkedSet(live) == MarkedSet(front) + if live[|live| - 1] then {|live| - 1} else {};
    }
  }

  /** Pushing the inputs of a value, each checked against the table. */
  method PushInputs(values: seq<SsaValue>, inputs: seq<nat>, pending: seq<nat>) returns (ok: bool, pushed: seq<nat>)
    ensures ok <==> forall x: nat :: x in inputs ==> x < |values|
    ensures ok ==> pushed == pending + inputs
  {
    pushed := pending;
    for k := 0 to |inputs|
      invariant pushed == pending + inputs[..k]
      invariant forall x: nat :: x in inputs[..k] ==> x < |values|
    {
      if inputs[k] >= |values| {
        assert inputs[k] in inputs;
        return false, pushed;
      }
      assert inputs[..k + 1] == inputs[..k] + [inputs[k]];
      pushed := pushed + [inputs[k]];
    }
    assert inputs[..|inputs|] == inputs;
    ok := true;
  }

  lemma BadInput(values: seq<SsaValue>, roots: seq<nat>, id: nat)
    requires Needed(values, roots, id) && id < |values| && exists x: nat :: x in values[id].inputs && x >= |values|
    ensures !WellNeeded(values, roots)
  {
    var x: nat :| x in values[id].inputs && x >= |values|;
    InputNeeded(values, roots, id, x);
  }

  /** Succeeds exactly when every needed value is in the table under its identity, and marks exactly those. */
  method Analyze(values: seq<SsaValue>, roots: seq<nat>) returns (r: Result<seq<bool>, LivenessError>)
    ensures r.Ok? <==> WellNeeded(values, roots)
    ensures r.Ok? ==> Exact(values, roots, r.value)
    ensures r.Err? ==> Explains(values, roots, r.error)
  {
    hide Working, Needed, MarkedSet;
    var live: array<bool> := new bool[|values|](_ => false);
    var pending: seq<nat> := roots;
    Starting(values, roots, live[..]);
    while pending != []
      invariant Working(values, roots, live[..], pending)
      invariant forall x: nat :: x in pending && x >= |values| ==> x in roots
      decreases |values| - |MarkedSet(live[..])|, |pending|
    {
      var valueId: nat := pending[|pending| - 1];
      assert valueId >= |values| ==> valueId in roots;
      assert pending == pending[..|pending| - 1] + [valueId];
      pending := pending[..|pending| - 1];
      assert forall x: nat :: x in pending + [valueId] <==> x in pending || x == valueId;
      PendingNeeded(values, roots, live[..], pending, valueId);
      if valueId >= |values| {
        assert valueId in roots;
        return Err(RootOutside);
      }
      if live[valueId] {
        PopMarked(values, roots, live[..], pending, valueId);
        continue;
      }
      var value := values[valueId];
      if value.id != valueId {
        assert Explains(values, roots, IdsNotDense);
        return Err(IdsNotDense);
      }
      ghost var marked := live[..][valueId := true];
      PopUnmarked(values, roots, live[..], pending, valueId);
      MarkOne(live[..], valueId);
      MarkedBound(marked);
      live[valueId] := true;
      assert live[..] == marked;
      var ok, pushed := PushInputs(values, value.inputs, pending);
      if !ok {
        BadInput(values, roots, valueId);
        assert Explains(values, roots, InputOutside);
        return Err(InputOutside);
      }
      assert forall x: nat :: x in pushed <==> x in pending || x in value.inputs;
      pending := pushed;
    }
    Done(values, roots, live[..]);
    return Ok(live[..]);
  }

  lemma Starting(values: seq<SsaValue>, roots: seq<nat>, live: seq<bool>)
    requires |live| == |values| && forall i :: 0 <= i < |live| ==> !live[i]
    ensures Working(values, roots, live, roots)
  {
    forall id: nat | id in roots
      ensures Needed(values, roots, id)
    {
      RootNeeded(values, roots, id);
    }
  }

  lemma PendingNeeded(values: seq<SsaValue>, roots: seq<nat>, live: seq<bool>, pending: seq<nat>, id: nat)
    requires Working(values, roots, live, pending + [id])
    ensures Needed(values, roots, id) && |live| == |values|
  {
    assert id in pending + [id];
  }

  // ---------- dead values do not matter ----------

  /** Two tables that agree on the live values. */
  ghost predicate AgreeOnLive(values: seq<SsaValue>, other: seq<SsaValue>, live: seq<bool>) {
    |other| == |values| && forall id: nat :: Marked(live, id) && id < |values| ==> other[id] == values[id]
  }

  /**
   * However the dead values of a table are redefined, every root, and everything a root needs, keeps its
   * value in every execution.
   */
  lemma {:induction false} DeadDoesNotMatter(values: seq<SsaValue>, roots: seq<nat>, live: seq<bool>, other: seq<SsaValue>, e: Execution, id: nat)
    requires Exact(values, roots, live) && AgreeOnLive(values, other, live) && Needed(values, roots, id) && id < |values|
    ensures Eval(other, e, id) == Eval(values, e, id)
    decreases id
  {
    var v := values[id];
    assert Marked(live, id) && other[id] == v;
    if PriorInputs(v, id) {
      forall k | 0 <= k < |v.inputs|
        ensures Eval(other, e, v.inputs[k]) == Eval(values, e, v.inputs[k])
      {
        InputNeeded(values, roots, id, v.inputs[k]);
        DeadDoesNotMatter(values, roots, live, other, e, v.inputs[k]);
      }
    }
  }
}
