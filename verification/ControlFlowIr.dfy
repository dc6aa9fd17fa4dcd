/**
 * Lowering of a graph to blocks with dense identities (src/ir/control_flow_ir.cpp), and the agreement of
 * instruction paths, block paths and paths of the lowered program.
 */
module ControlFlowIr {
  import opened Outcome
  import opened InstructionDecoder
  import opened ControlFlow
  import opened CfgBuilder

  datatype Terminator = Stop | Goto | Branch

  datatype IrBlock = IrBlock(id: nat, sourceStart: nat, terminator: Terminator, successors: seq<nat>, condition: BranchCondition)

  datatype IrError = DuplicateStart | UnknownSuccessor | TooManySuccessors

  ghost predicate DistinctStarts(blocks: seq<BasicBlock>) {
    forall i, j :: 0 <= i < j < |blocks| ==> blocks[i].start != blocks[j].start
  }

  /** The identities of ids name the blocks the successors start. */
  ghost predicate Names(blocks: seq<BasicBlock>, ids: seq<nat>, successors: seq<nat>) {
    |ids| == |successors| && forall k :: 0 <= k < |ids| ==> ids[k] < |blocks| && blocks[ids[k]].start == successors[k]
  }

  ghost predicate LoweredBlock(blocks: seq<BasicBlock>, i: nat, ir: IrBlock)
    requires i < |blocks|
  {
    var b := blocks[i];
    && ir.id == i && ir.sourceStart == b.start && ir.condition == b.condition
    && |b.successors| <= 2
    && (ir.terminator == Stop <==> b.successors == [])
    && (ir.terminator == Goto <==> |b.successors| == 1)
    && (ir.terminator == Branch <==> |b.successors| == 2)
    && Names(blocks, ir.successors, b.successors)
  }

  ghost predicate Lowering(blocks: seq<BasicBlock>, program: seq<IrBlock>) {
    |program| == |blocks| && forall i :: 0 <= i < |blocks| ==> LoweredBlock(blocks, i, program[i])
  }

  /** What a graph needs in order to be lowered. */
  ghost predicate Lowerable(blocks: seq<BasicBlock>) {
    && DistinctStarts(blocks)
    && forall b :: b in blocks ==> |b.successors| <= 2 && forall t :: t in b.successors ==> t in StartsOf(blocks)
  }

  ghost predicate Known(blocks: seq<BasicBlock>, i: nat)
    requires i < |blocks|
  {
    forall t :: t in blocks[i].successors ==> t in StartsOf(blocks)
  }

  /** The first block that cannot be lowered, and why: unknown successors are found before too many. */
  ghost predicate FirstFault(blocks: seq<BasicBlock>, i: nat, error: IrError) {
    && i < |blocks|
    && (forall j :: 0 <= j < i ==> Known(blocks, j) && |blocks[j].successors| <= 2)
    && error == (if Known(blocks, i) then TooManySuccessors else UnknownSuccessor)
    && (Known(blocks, i) ==> |blocks[i].successors| > 2)
  }

  ghost predicate IdMap(blocks: seq<BasicBlock>, count: nat, ids: map<nat, nat>)
    requires count <= |blocks|
  {
    && (forall i :: 0 <= i < count ==> blocks[i].start in ids && ids[blocks[i].start] == i)
    && (forall s :: s in ids ==> ids[s] < count && blocks[ids[s]].start == s)
  }

  method LowerIds(blocks: seq<BasicBlock>) returns (ok: bool, ids: map<nat, nat>)
    ensures ok <==> DistinctStarts(blocks)
    ensures ok ==> IdMap(blocks, |blocks|, ids)
  {
    ids := map[];
    for index := 0 to |blocks|
      invariant IdMap(blocks, index, ids)
      invariant forall i, j :: 0 <= i < j < index ==> blocks[i].start != blocks[j].start
    {
      if blocks[index].start in ids {
        assert blocks[ids[blocks[index].start]].start == blocks[index].start;
        return false, ids;
      }
      ids := ids[blocks[index].start := index];
    }
    ok := true;
  }

  method LowerSuccessors(blocks: seq<BasicBlock>, ids: map<nat, nat>, successors: seq<nat>)
    returns (r: Result<seq<nat>, IrError>)
    requires IdMap(blocks, |blocks|, ids)
    ensures r.Ok? <==> forall t :: t in successors ==> t in StartsOf(blocks)
    ensures r.Ok? ==> Names(blocks, r.value, successors)
    ensures r.Err? ==> r.error == UnknownSuccessor
  {
    var found: seq<nat> := [];
    for k := 0 to |successors|
      invariant Names(blocks, found, successors[..k])
      invariant forall t :: t in successors[..k] ==> t in StartsOf(blocks)
    {
      var target := successors[k];
      if target !in ids {
        assert target in successors && target !in StartsOf(blocks);
        return Err(UnknownSuccessor);
      }
      assert blocks[ids[target]] in blocks;
      found := found + [ids[target]];
      assert successors[..k + 1] == successors[..k] + [target];
    }
    assert successors[..|successors|] == successors;
    return Ok(found);
  }

  /** Lowers exactly the graphs with distinct starts whose blocks go to at most two starts. */
  method Lower(blocks: seq<BasicBlock>) returns (r: Result<seq<IrBlock>, IrError>)
    ensures r.Ok? <==> Lowerable(blocks)
    ensures r.Ok? ==> Lowering(blocks, r.value)
    ensures r == Err(DuplicateStart) <==> !DistinctStarts(blocks)
    ensures r.Err? && DistinctStarts(blocks) ==> exists i :: FirstFault(blocks, i, r.error)
  {
    var ok, ids := LowerIds(blocks);
    if !ok {
      return Err(DuplicateStart);
    }
    var program: seq<IrBlock> := [];
    for index := 0 to |blocks|
      invariant |program| == index
      invariant forall i :: 0 <= i < index ==> LoweredBlock(blocks, i, program[i])
      invariant forall b, t :: b in blocks[..index] && t in b.successors ==> t in StartsOf(blocks)
      invariant forall j :: 0 <= j < index ==> Known(blocks, j) && |blocks[j].successors| <= 2
      invariant forall b :: b in blocks[..index] ==> |b.successors| <= 2
    {
      var source := blocks[index];
      var successors := LowerSuccessors(blocks, ids, source.successors);
      assert source in blocks;
      if successors.Err? {
        assert FirstFault(blocks, index, UnknownSuccessor);
        return Err(successors.error);
      }
      var terminator := Stop;
      if |successors.value| == 1 {
        terminator := Goto;
      }
      if |successors.value| == 2 {
        terminator := Branch;
      }
      if |successors.value| > 2 {
        assert FirstFault(blocks, index, TooManySuccessors);
        return Err(TooManySuccessors);
      }
      program := program + [IrBlock(index, source.start, terminator, successors.value, source.condition)];
      assert blocks[..index + 1] == blocks[..index] + [source];
    }
    assert blocks[..|blocks|] == blocks;
    return Ok(program);
  }

  /** A built graph can always be lowered. */
  lemma BuiltIsLowerable(decode: nat -> Decoded, n: nat, entry: nat, blocks: seq<BasicBlock>)
    requires Window(decode, n) && Built(decode, n, entry, blocks)
    ensures Lowerable(blocks)
  {
    forall b | b in blocks
      ensures |b.successors| <= 2
    {
      ScanIsBlock(decode, n, StartsOf(blocks), b.start);
    }
  }

  // ---------- paths ----------

  /** A walk over blocks, given by their positions, from the block of the entry. */
  ghost predicate BlockPath(blocks: seq<BasicBlock>, entry: nat, ids: seq<nat>)
    decreases |ids|
  {
    && ids != [] && Last(ids) < |blocks|
    && if |ids| == 1 then blocks[ids[0]].start == entry
       else BlockPath(blocks, entry, Front(ids)) && blocks[Last(ids)].start in blocks[Last(Front(ids))].successors
  }

  /** A walk over the lowered program from the block lowered from the entry. */
  ghost predicate IrPath(program: seq<IrBlock>, entry: nat, ids: seq<nat>)
    decreases |ids|
  {
    && ids != [] && Last(ids) < |program|
    && if |ids| == 1 then program[ids[0]].sourceStart == entry
       else IrPath(program, entry, Front(ids)) && Last(ids) in program[Last(Front(ids))].successors
  }

  /** The lowered program has exactly the paths of the graph. */
  lemma {:induction false} IrPathIff(blocks: seq<BasicBlock>, program: seq<IrBlock>, entry: nat, ids: seq<nat>)
    requires Lowering(blocks, program) && DistinctStarts(blocks)
    ensures IrPath(program, entry, ids) <==> BlockPath(blocks, entry, ids)
    decreases |ids|
  {
    if |ids| > 1 {
      IrPathIff(blocks, program, entry, Front(ids));
      if Last(Front(ids)) < |blocks| && Last(ids) < |blocks| {
        EdgeIff(blocks, program, Last(Front(ids)), Last(ids));
      }
    } else if |ids| == 1 && ids[0] < |blocks| {
      assert LoweredBlock(blocks, ids[0], program[ids[0]]);
    }
  }

  lemma EdgeIff(blocks: seq<BasicBlock>, program: seq<IrBlock>, i: nat, j: nat)
    requires Lowering(blocks, program) && DistinctStarts(blocks) && i < |blocks| && j < |blocks|
    ensures j in program[i].successors <==> blocks[j].start in blocks[i].successors
  {
    assert LoweredBlock(blocks, i, program[i]);
    var ids, successors := program[i].successors, blocks[i].successors;
    if j in ids {
      var k :| 0 <= k < |ids| && ids[k] == j;
      assert successors[k] == blocks[j].start;
    }
    if blocks[j].start in successors {
      var k :| 0 <= k < |successors| && successors[k] == blocks[j].start;
      assert blocks[ids[k]].start == blocks[j].start;
    }
  }

  /** The instruction addresses a walk over blocks passes. */
  function Expand(decode: nat -> Decoded, blocks: seq<BasicBlock>, ids: seq<nat>): seq<nat>
    decreases |ids|
  {
    if ids == [] then []
    else Expand(decode, blocks, Front(ids)) + if Last(ids) < |blocks| then AddressesOf(decode, blocks[Last(ids)]) else []
  }

  /** The position of the block with a start. */
  function IdOf(blocks: seq<BasicBlock>, start: nat): (i: nat)
    ensures i <= |blocks|
    ensures i < |blocks| ==> blocks[i].start == start
    ensures start in StartsOf(blocks) ==> i < |blocks|
  {
    if blocks == [] then 0
    else if blocks[0].start == start then 0
    else
      assert blocks == [blocks[0]] + blocks[1..];
      assert start in StartsOf(blocks) ==> start in StartsOf(blocks[1..]);
      1 + IdOf(blocks[1..], start)
  }

  /** The blocks whose starts an instruction path meets, in order. */
  function Visits(blocks: seq<BasicBlock>, path: seq<nat>): seq<nat>
    decreases |path|
  {
    if path == [] then []
    else Visits(blocks, Front(path)) + if Last(path) in StartsOf(blocks) then [IdOf(blocks, Last(path))] else []
  }

  lemma VisitsSnoc(blocks: seq<BasicBlock>, path: seq<nat>, q: nat)
    ensures Visits(blocks, path + [q]) == Visits(blocks, path) + if q in StartsOf(blocks) then [IdOf(blocks, q)] else []
  {
    assert Front(path + [q]) == path && Last(path + [q]) == q;
  }

  lemma {:induction false} VisitsConcat(blocks: seq<BasicBlock>, a: seq<nat>, b: seq<nat>)
    ensures Visits(blocks, a + b) == Visits(blocks, a) + Visits(blocks, b)
    decreases |b|
  {
    if b == [] {
      assert a + b == a;
    } else {
      assert Front(a + b) == a + Front(b) && Last(a + b) == Last(b);
      VisitsConcat(blocks, a, Front(b));
    }
  }

  lemma {:induction false} VisitsNone(blocks: seq<BasicBlock>, a: seq<nat>)
    requires forall k :: 0 <= k < |a| ==> a[k] !in StartsOf(blocks)
    ensures Visits(blocks, a) == []
    decreases |a|
  {
    if a != [] {
      VisitsNone(blocks, Front(a));
    }
  }

  /** A prefix of the addresses of one block meets that block only. */
  lemma VisitsBlock(decode: nat -> Decoded, n: nat, blocks: seq<BasicBlock>, b: BasicBlock, k: nat)
    requires IsBlock(decode, n, StartsOf(blocks), b) && b.start in StartsOf(blocks) && 1 <= k <= |AddressesOf(decode, b)|
    ensures Visits(blocks, AddressesOf(decode, b)[..k]) == [IdOf(blocks, b.start)]
  {
    var a := AddressesOf(decode, b);
    assert a[..k] == [b.start] + a[1..k];
    forall j | 0 <= j < |a[1..k]|
      ensures a[1..k][j] !in StartsOf(blocks)
    {
      StraightFine(decode, n, StartsOf(blocks), a, j + 1);
    }
    VisitsNone(blocks, a[1..k]);
    VisitsConcat(blocks, [b.start], a[1..k]);
    assert Visits(blocks, Front([b.start])) == [];
  }

  /** Walking on along the addresses of a block is instruction flow. */
  lemma {:induction false} FlowAlong(decode: nat -> Decoded, n: nat, entry: nat, blocks: seq<BasicBlock>, path: seq<nat>, b: BasicBlock, k: nat)
    requires IsBlock(decode, n, StartsOf(blocks), b) && 1 <= k <= |AddressesOf(decode, b)|
    requires if path == [] then b.start == entry else FlowPath(decode, n, entry, path) && b.start in Flow(decode, n, Last(path))
    ensures FlowPath(decode, n, entry, path + AddressesOf(decode, b)[..k])
    decreases k
  {
    hide StartsOf, Flow, Addresses, Straight, Fine, Ends;
    var a := AddressesOf(decode, b);
    hide AddressesOf;
    var walked := path + a[..k];
    assert Last(walked) == a[k - 1] && Front(walked) == path + a[..k - 1];
    if k == 1 {
      assert Front(walked) == path;
    } else {
      FlowAlong(decode, n, entry, blocks, path, b, k - 1);
      StraightFine(decode, n, StartsOf(blocks), a, k - 2);
      assert Last(path + a[..k - 1]) == a[k - 2];
    }
  }

  /** What walking over a graph needs: described blocks, one per start, that go to starts. */
  ghost predicate Walkable(decode: nat -> Decoded, n: nat, entry: nat, blocks: seq<BasicBlock>) {
    && DistinctStarts(blocks) && entry in StartsOf(blocks)
    && (forall i :: 0 <= i < |blocks| ==> IsBlock(decode, n, StartsOf(blocks), blocks[i]))
    && (forall i, t :: 0 <= i < |blocks| && t in blocks[i].successors ==> t in StartsOf(blocks))
  }

  lemma BuiltIsWalkable(decode: nat -> Decoded, n: nat, entry: nat, blocks: seq<BasicBlock>)
    requires Window(decode, n) && Built(decode, n, entry, blocks)
    ensures Walkable(decode, n, entry, blocks)
  {
    assert Leader(decode, n, entry, entry);
    forall i | 0 <= i < |blocks|
      ensures IsBlock(decode, n, StartsOf(blocks), blocks[i])
      ensures forall t :: t in blocks[i].successors ==> t in StartsOf(blocks)
    {
      assert blocks[i] in blocks;
      ScanIsBlock(decode, n, StartsOf(blocks), blocks[i].start);
    }
  }

  lemma IdOfBlock(blocks: seq<BasicBlock>, i: nat)
    requires DistinctStarts(blocks) && i < |blocks|
    ensures blocks[i].start in StartsOf(blocks) && IdOf(blocks, blocks[i].start) == i
  {
    assert blocks[i] in blocks;
    var k := IdOf(blocks, blocks[i].start);
    assert blocks[k].start == blocks[i].start;
  }

  /** The walk one block further. */
  lemma BlockStep(decode: nat -> Decoded, n: nat, entry: nat, blocks: seq<BasicBlock>, before: seq<nat>, i: nat, k: nat)
    requires Walkable(decode, n, entry, blocks) && i < |blocks| && 1 <= k <= |AddressesOf(decode, blocks[i])|
    requires if before == [] then blocks[i].start == entry
             else FlowPath(decode, n, entry, before) && blocks[i].start in Flow(decode, n, Last(before))
    ensures FlowPath(decode, n, entry, before + AddressesOf(decode, blocks[i])[..k])
    ensures Visits(blocks, before + AddressesOf(decode, blocks[i])[..k]) == Visits(blocks, before) + [i]
  {
    var a := AddressesOf(decode, blocks[i]);
    IdOfBlock(blocks, i);
    FlowAlong(decode, n, entry, blocks, before, blocks[i], k);
    VisitsBlock(decode, n, blocks, blocks[i], k);
    VisitsConcat(blocks, before, a[..k]);
  }

  lemma ExpandLast(decode: nat -> Decoded, n: nat, entry: nat, blocks: seq<BasicBlock>, ids: seq<nat>)
    requires Walkable(decode, n, entry, blocks) && ids != [] && Last(ids) < |blocks|
    ensures var e := Expand(decode, blocks, ids); var a := AddressesOf(decode, blocks[Last(ids)]);
      && a != [] && e == Expand(decode, blocks, Front(ids)) + a[..|a|] && Last(e) == Last(a)
      && decode(Last(e)).Ok? && Flow(decode, n, Last(e)) == blocks[Last(ids)].successors
  {
    var a := AddressesOf(decode, blocks[Last(ids)]);
    assert IsBlock(decode, n, StartsOf(blocks), blocks[Last(ids)]);
    assert a[..|a|] == a;
  }

  /** Every block walk is an instruction path, and the instruction path meets exactly its blocks. */
  lemma {:induction false} BlockPathFlows(decode: nat -> Decoded, n: nat, entry: nat, blocks: seq<BasicBlock>, ids: seq<nat>)
    requires Walkable(decode, n, entry, blocks) && BlockPath(blocks, entry, ids)
    ensures FlowPath(decode, n, entry, Expand(decode, blocks, ids))
    ensures Visits(blocks, Expand(decode, blocks, ids)) == ids
    decreases |ids|
  {
    hide Walkable, FlowPath, Visits, AddressesOf;
    var before, size := Expand(decode, blocks, Front(ids)), |AddressesOf(decode, blocks[Last(ids)])|;
    ExpandLast(decode, n, entry, blocks, ids);
    assert ids == Front(ids) + [Last(ids)];
    if |ids| == 1 {
      assert before == [];
      assert Visits(blocks, before) == [] by { VisitsNone(blocks, before); }
      BlockStep(decode, n, entry, blocks, before, Last(ids), size);
    } else {
      BlockPathFlows(decode, n, entry, blocks, Front(ids));
      ExpandLast(decode, n, entry, blocks, Front(ids));
      BlockStep(decode, n, entry, blocks, before, Last(ids), size);
    }
  }

  /** An instruction path stands k addresses into the last of the blocks it has met. */
  ghost predicate Stands(decode: nat -> Decoded, blocks: seq<BasicBlock>, entry: nat, path: seq<nat>, ids: seq<nat>, k: nat) {
    && BlockPath(blocks, entry, ids)
    && var a := AddressesOf(decode, blocks[Last(ids)]);
       1 <= k <= |a| && path == Expand(decode, blocks, Front(ids)) + a[..k]
  }

  /** Every instruction path is a walk over the blocks it meets, cut off inside the last one. */
  lemma {:induction false} FlowPathVisits(decode: nat -> Decoded, n: nat, entry: nat, blocks: seq<BasicBlock>, path: seq<nat>)
    requires Walkable(decode, n, entry, blocks) && FlowPath(decode, n, entry, path)
    ensures exists k :: Stands(decode, blocks, entry, path, Visits(blocks, path), k)
    decreases |path|
  {
    hide Stands, Visits, Walkable, Flow;
    if |path| == 1 {
      FirstStands(decode, n, entry, blocks, path);
    } else {
      FlowPathVisits(decode, n, entry, blocks, Front(path));
      var k :| Stands(decode, blocks, entry, Front(path), Visits(blocks, Front(path)), k);
      assert path == Front(path) + [Last(path)];
      StandsStep(decode, n, entry, blocks, Front(path), k, Last(path));
    }
  }

  lemma FirstStands(decode: nat -> Decoded, n: nat, entry: nat, blocks: seq<BasicBlock>, path: seq<nat>)
    requires Walkable(decode, n, entry, blocks) && path == [entry]
    ensures Stands(decode, blocks, entry, path, Visits(blocks, path), 1)
  {
    var i := IdOf(blocks, entry);
    var a := AddressesOf(decode, blocks[i]);
    assert IsBlock(decode, n, StartsOf(blocks), blocks[i]);
    BlockHead(decode, n, StartsOf(blocks), blocks[i]);
    VisitsOne(blocks, entry);
    assert Expand(decode, blocks, []) == [];
    hide IsBlock, AddressesOf, IdOf, Visits, StartsOf, Walkable, Expand;
    assert Front([i]) == [];
    assert [] + a[..1] == path;
  }

  lemma VisitsOne(blocks: seq<BasicBlock>, q: nat)
    requires q in StartsOf(blocks)
    ensures Visits(blocks, [q]) == [IdOf(blocks, q)]
  {
    hide StartsOf, IdOf;
    assert Front([q]) == [];
  }

  lemma StandsStep(decode: nat -> Decoded, n: nat, entry: nat, blocks: seq<BasicBlock>, path: seq<nat>, k: nat, q: nat)
    requires Walkable(decode, n, entry, blocks) && path != []
    requires Stands(decode, blocks, entry, path, Visits(blocks, path), k) && q in Flow(decode, n, Last(path))
    ensures exists j :: Stands(decode, blocks, entry, path + [q], Visits(blocks, path + [q]), j)
  {
    hide StartsOf, Flow, Visits, Expand, IsBlock, Stands, BlockPath, Walkable, AddressesOf;
    var ids := Visits(blocks, path);
    StandsPlace(decode, n, entry, blocks, path, ids, k);
    var b := blocks[Last(ids)];
    FlowInBlock(decode, n, StartsOf(blocks), b, k - 1, q);
    if k < |AddressesOf(decode, b)| {
      BlockStraight(decode, n, StartsOf(blocks), b);
      InsideStands(decode, n, entry, blocks, path, k, q);
    } else {
      NextStands(decode, n, entry, blocks, path, q);
    }
  }

  lemma StandsPlace(decode: nat -> Decoded, n: nat, entry: nat, blocks: seq<BasicBlock>, path: seq<nat>, ids: seq<nat>, k: nat)
    requires Walkable(decode, n, entry, blocks) && path != [] && Stands(decode, blocks, entry, path, ids, k)
    ensures BlockPath(blocks, entry, ids) && ids != [] && Last(ids) < |blocks|
    ensures var b := blocks[Last(ids)]; var a := AddressesOf(decode, b);
      && IsBlock(decode, n, StartsOf(blocks), b) && 1 <= k <= |a| && Last(path) == a[k - 1]
      && (k == |a| ==> path == Expand(decode, blocks, ids))
  {
    hide StartsOf, AddressesOf, IsBlock;
    var a := AddressesOf(decode, blocks[Last(ids)]);
    assert a[..|a|] == a;
  }

  lemma BlockStraight(decode: nat -> Decoded, n: nat, starts: set<nat>, b: BasicBlock)
    requires IsBlock(decode, n, starts, b)
    ensures Straight(decode, n, starts, AddressesOf(decode, b))
  {
  }

  /** The step stays inside the block. */
  lemma InsideStands(decode: nat -> Decoded, n: nat, entry: nat, blocks: seq<BasicBlock>, path: seq<nat>, k: nat, q: nat)
    requires path != [] && Stands(decode, blocks, entry, path, Visits(blocks, path), k)
    requires var a := AddressesOf(decode, blocks[Last(Visits(blocks, path))]);
      k < |a| && q == a[k] && Straight(decode, n, StartsOf(blocks), a)
    ensures Stands(decode, blocks, entry, path + [q], Visits(blocks, path + [q]), k + 1)
  {
    hide StartsOf, Straight;
    var ids := Visits(blocks, path);
    var a := AddressesOf(decode, blocks[Last(ids)]);
    StraightFine(decode, n, StartsOf(blocks), a, k);
    VisitsSnoc(blocks, path, q);
    assert Visits(blocks, path + [q]) == ids;
    assert a[..k + 1] == a[..k] + [q];
    assert path + [q] == Expand(decode, blocks, Front(ids)) + a[..k + 1];
  }

  /** The step enters another block. */
  lemma NextStands(decode: nat -> Decoded, n: nat, entry: nat, blocks: seq<BasicBlock>, path: seq<nat>, q: nat)
    requires Walkable(decode, n, entry, blocks) && BlockPath(blocks, entry, Visits(blocks, path))
    requires path == Expand(decode, blocks, Visits(blocks, path)) && q in blocks[Last(Visits(blocks, path))].successors
    ensures Stands(decode, blocks, entry, path + [q], Visits(blocks, path + [q]), 1)
  {
    var ids := Visits(blocks, path);
    var i := IdOf(blocks, q);
    assert q in StartsOf(blocks) && IsBlock(decode, n, StartsOf(blocks), blocks[i]);
    hide StartsOf, Walkable, IsBlock, IdOf, AddressesOf, Expand;
    BlockHead(decode, n, StartsOf(blocks), blocks[i]);
    VisitsSnoc(blocks, path, q);
    assert Front(ids + [i]) == ids && Last(ids + [i]) == i;
    assert BlockPath(blocks, entry, ids + [i]);
  }

  lemma BlockHead(decode: nat -> Decoded, n: nat, starts: set<nat>, b: BasicBlock)
    requires IsBlock(decode, n, starts, b)
    ensures var a := AddressesOf(decode, b); a != [] && a[..1] == [b.start]
  {
  }

  // ---------- the lowered program and the code ----------

  /** Lowering preserves paths: every instruction path is a path of the program, cut off inside its last block. */
  lemma LoweringPreservesPaths(decode: nat -> Decoded, n: nat, entry: nat, blocks: seq<BasicBlock>, program: seq<IrBlock>, path: seq<nat>)
    requires Window(decode, n) && Built(decode, n, entry, blocks) && Lowering(blocks, program)
    requires FlowPath(decode, n, entry, path)
    ensures IrPath(program, entry, Visits(blocks, path))
    ensures path <= Expand(decode, blocks, Visits(blocks, path))
    ensures |Expand(decode, blocks, Front(Visits(blocks, path)))| < |path|
  {
    hide FlowPath, Visits, IsBlock, Built;
    BuiltIsWalkable(decode, n, entry, blocks);
    FlowPathVisits(decode, n, entry, blocks, path);
    IrPathIff(blocks, program, entry, Visits(blocks, path));
    ExpandLast(decode, n, entry, blocks, Visits(blocks, path));
  }

  /** Lowering reflects paths: every path of the program is an instruction path that meets exactly its blocks. */
  lemma LoweringReflectsPaths(decode: nat -> Decoded, n: nat, entry: nat, blocks: seq<BasicBlock>, program: seq<IrBlock>, ids: seq<nat>)
    requires Window(decode, n) && Built(decode, n, entry, blocks) && Lowering(blocks, program)
    requires IrPath(program, entry, ids)
    ensures FlowPath(decode, n, entry, Expand(decode, blocks, ids))
    ensures Visits(blocks, Expand(decode, blocks, ids)) == ids
  {
    hide FlowPath, Visits, IsBlock, Built;
    BuiltIsWalkable(decode, n, entry, blocks);
    IrPathIff(blocks, program, entry, ids);
    BlockPathFlows(decode, n, entry, blocks, ids);
  }
}
