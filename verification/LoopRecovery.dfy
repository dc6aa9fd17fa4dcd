/**
 * Recovery of back edges (src/analysis/loop_recovery.cpp): the branches of a block that go to its own
 * start or before it.
 */
module LoopRecovery {
  import opened Outcome
  import opened InstructionDecoder
  import opened ControlFlow
  import opened CfgBuilder

  datatype RecoveredLoop = RecoveredLoop(header: nat, latch: nat)

  datatype LoopError = InvalidBoundaries

  /** The instruction before end when the instructions from p to it meet that boundary; None for an empty range. */
  function LastInstruction(decode: nat -> Decoded, p: nat, end: nat, last: Option<Instruction>): Result<Option<Instruction>, LoopError>
    decreases end - p
  {
    if p >= end then Ok(last)
    else if decode(p).Err? || Next(decode, p) > end || decode(p).value.size == 0 then Err(InvalidBoundaries)
    else LastInstruction(decode, Next(decode, p), end, Some(decode(p).value))
  }

  predicate IsBranch(last: Option<Instruction>) {
    last.Some? && (last.value.kind == Jump || last.value.kind == ConditionalJump || last.value.kind == Loop)
  }

  /** The recorded edges among the successors of a block. */
  function BackEdges(start: nat, successors: seq<nat>): (edges: seq<RecoveredLoop>)
    ensures forall l :: l in edges <==> l.latch == start && l.header in successors && l.header <= start
  {
    if successors == [] then []
    else
      var rest := BackEdges(start, Front(successors));
      assert successors == Front(successors) + [Last(successors)];
      if Last(successors) <= start then rest + [RecoveredLoop(Last(successors), start)] else rest
  }

  function LoopsOf(decode: nat -> Decoded, blocks: seq<BasicBlock>): Result<seq<RecoveredLoop>, LoopError> {
    if blocks == [] then Ok([])
    else
      var before := LoopsOf(decode, blocks[..|blocks| - 1]);
      var b := blocks[|blocks| - 1];
      var last := LastInstruction(decode, b.start, b.end, None);
      if before.Err? then before
      else if last.Err? then Err(last.error)
      else Ok(before.value + if IsBranch(last.value) then BackEdges(b.start, b.successors) else [])
  }

  /** The inner loop over the instructions of a block. */
  method FindLast(decode: nat -> Decoded, n: nat, b: BasicBlock) returns (r: Result<Option<Instruction>, LoopError>)
    requires Window(decode, n)
    ensures r == LastInstruction(decode, b.start, b.end, None)
  {
    var position, last := b.start, None;
    while position < b.end
      invariant LastInstruction(decode, position, b.end, last) == LastInstruction(decode, b.start, b.end, None)
      decreases b.end - position
    {
      var decoded := decode(position);
      if decoded.Err? || position + decoded.value.size > b.end {
        return Err(InvalidBoundaries);
      }
      last := Some(decoded.value);
      position := position + decoded.value.size;
    }
    return Ok(last);
  }

  method Recover(decode: nat -> Decoded, n: nat, blocks: seq<BasicBlock>) returns (r: Result<seq<RecoveredLoop>, LoopError>)
    requires Window(decode, n)
    ensures r == LoopsOf(decode, blocks)
  {
    var loops: seq<RecoveredLoop> := [];
    for k := 0 to |blocks|
      invariant LoopsOf(decode, blocks[..k]) == Ok(loops)
      invariant forall j :: 0 <= j < k ==> LastInstruction(decode, blocks[j].start, blocks[j].end, None).Ok?
    {
      var b := blocks[k];
      assert blocks[..k + 1][..k] == blocks[..k];
      var last := FindLast(decode, n, b);
      if last.Err? {
        LoopsFail(decode, blocks, k);
        return Err(InvalidBoundaries);
      }
      var found: seq<RecoveredLoop> := [];
      if IsBranch(last.value) {
        for t := 0 to |b.successors|
          invariant found == BackEdges(b.start, b.successors[..t])
        {
          assert b.successors[..t + 1][..t] == b.successors[..t];
          if b.successors[t] <= b.start {
            found := found + [RecoveredLoop(b.successors[t], b.start)];
          }
        }
        assert b.successors[..|b.successors|] == b.successors;
      }
      loops := loops + found;
    }
    assert blocks[..|blocks|] == blocks;
    return Ok(loops);
  }

  lemma {:induction false} LoopsFail(decode: nat -> Decoded, blocks: seq<BasicBlock>, k: nat)
    requires k < |blocks| && LastInstruction(decode, blocks[k].start, blocks[k].end, None).Err?
    ensures LoopsOf(decode, blocks) == Err(InvalidBoundaries)
    decreases |blocks|
  {
    if k < |blocks| - 1 {
      assert blocks[..|blocks| - 1][k] == blocks[k];
      LoopsFail(decode, blocks[..|blocks| - 1], k);
    }
    assert LoopsOf(decode, blocks).Err?;
    match LoopsOf(decode, blocks).error
    case InvalidBoundaries =>
  }

  // ---------- on built graphs ----------

  lemma {:induction false} LastOfAddresses(decode: nat -> Decoded, n: nat, starts: set<nat>, p: nat, end: nat, last: Option<Instruction>)
    requires Window(decode, n) && Straight(decode, n, starts, Addresses(decode, p, end)) && p < end
    requires Addresses(decode, p, end) != [] && decode(Last(Addresses(decode, p, end))).Ok?
    requires Next(decode, Last(Addresses(decode, p, end))) == end
    ensures LastInstruction(decode, p, end, last) == Ok(Some(decode(Last(Addresses(decode, p, end))).value))
    decreases end - p
  {
    var rest := Addresses(decode, Next(decode, p), end);
    assert Addresses(decode, p, end) == [p] + rest;
    if rest != [] {
      assert ([p] + rest)[1..] == rest;
      assert rest[0] == Next(decode, p) < end;
      LastOfAddresses(decode, n, starts, Next(decode, p), end, Some(decode(p).value));
    }
  }

  /** The instruction a block of a built graph ends in. */
  function Terminator(decode: nat -> Decoded, b: BasicBlock): Instruction
    requires AddressesOf(decode, b) != [] && decode(Last(AddressesOf(decode, b))).Ok?
  {
    decode(Last(AddressesOf(decode, b))).value
  }

  lemma BuiltLast(decode: nat -> Decoded, n: nat, entry: nat, blocks: seq<BasicBlock>, b: BasicBlock)
    requires Window(decode, n) && Built(decode, n, entry, blocks) && b in blocks
    ensures IsBlock(decode, n, StartsOf(blocks), b) && b.start < b.end
    ensures LastInstruction(decode, b.start, b.end, None) == Ok(Some(Terminator(decode, b)))
  {
    ScanIsBlock(decode, n, StartsOf(blocks), b.start);
    LastOfAddresses(decode, n, StartsOf(blocks), b.start, b.end, None);
  }

  /** Recovery never fails on built graphs, and records exactly the branches that go back. */
  lemma {:induction false} LoopsExact(decode: nat -> Decoded, n: nat, entry: nat, all: seq<BasicBlock>, blocks: seq<BasicBlock>)
    requires Window(decode, n) && Built(decode, n, entry, all) && blocks <= all
    ensures LoopsOf(decode, blocks).Ok?
    ensures forall l :: l in LoopsOf(decode, blocks).value <==> exists b :: b in blocks && BackEdge(decode, b, l)
    decreases |blocks|
  {
    if blocks != [] {
      var b, front := blocks[|blocks| - 1], blocks[..|blocks| - 1];
      assert b == all[|blocks| - 1] && b in all;
      LoopsExact(decode, n, entry, all, front);
      BuiltLast(decode, n, entry, all, b);
      assert blocks == front + [b];
      assert forall l :: BackEdge(decode, b, l) <==> IsBranch(Some(Terminator(decode, b))) && l in BackEdges(b.start, b.successors);
      assert forall c :: c in blocks <==> c in front || c == b;
    }
  }

  ghost predicate BackEdge(decode: nat -> Decoded, b: BasicBlock, l: RecoveredLoop) {
    && AddressesOf(decode, b) != [] && decode(Last(AddressesOf(decode, b))).Ok?
    && IsBranch(Some(Terminator(decode, b)))
    && l.latch == b.start && l.header in b.successors && l.header <= b.start
  }

  // ---------- cycles ----------

  /** An edge that is not the one from a call to its target. */
  ghost predicate CallFreeEdge(decode: nat -> Decoded, b: BasicBlock, c: BasicBlock) {
    && c.start in b.successors
    && AddressesOf(decode, b) != [] && decode(Last(AddressesOf(decode, b))).Ok?
    && (Terminator(decode, b).kind == Call ==> c.start == b.end)
  }

  ghost predicate CallFreeWalk(decode: nat -> Decoded, blocks: seq<BasicBlock>, walk: seq<BasicBlock>)
    decreases |walk|
  {
    walk != [] ==>
      && walk[0] in blocks
      && (|walk| > 1 ==> CallFreeEdge(decode, walk[0], walk[1]) && CallFreeWalk(decode, blocks, walk[1..]))
  }

  lemma {:induction false} WalkEdge(decode: nat -> Decoded, blocks: seq<BasicBlock>, walk: seq<BasicBlock>, k: nat)
    requires CallFreeWalk(decode, blocks, walk) && k < |walk|
    ensures walk[k] in blocks && (k + 1 < |walk| ==> CallFreeEdge(decode, walk[k], walk[k + 1]))
    decreases |walk|
  {
    if k != 0 {
      WalkEdge(decode, blocks, walk[1..], k - 1);
    }
  }

  /** An edge that does not go up is a recorded one. */
  lemma DownEdge(decode: nat -> Decoded, n: nat, entry: nat, blocks: seq<BasicBlock>, b: BasicBlock, c: BasicBlock)
    requires Window(decode, n) && Built(decode, n, entry, blocks) && b in blocks
    requires CallFreeEdge(decode, b, c) && c.start <= b.start
    ensures LoopsOf(decode, blocks).Ok? && RecoveredLoop(c.start, b.start) in LoopsOf(decode, blocks).value
  {
    BuiltLast(decode, n, entry, blocks, b);
    LoopsExact(decode, n, entry, blocks, blocks);
    assert c.start in Flow(decode, n, Last(AddressesOf(decode, b)));
    assert BackEdge(decode, b, RecoveredLoop(c.start, b.start));
  }

  /** A walk that does not end above where it began has an edge that does not go up. */
  lemma {:induction false} NotAllUp(walk: seq<BasicBlock>) returns (k: nat)
    requires |walk| >= 2 && walk[|walk| - 1].start <= walk[0].start
    ensures k + 1 < |walk| && walk[k + 1].start <= walk[k].start
    decreases |walk|
  {
    if walk[1].start <= walk[0].start {
      k := 0;
    } else {
      var j := NotAllUp(walk[1..]);
      k := j + 1;
    }
  }

  /** Every cycle without a call-to-target edge passes through a recorded latch and header. */
  lemma CycleHasLoop(decode: nat -> Decoded, n: nat, entry: nat, blocks: seq<BasicBlock>, walk: seq<BasicBlock>)
    requires Window(decode, n) && Built(decode, n, entry, blocks) && CallFreeWalk(decode, blocks, walk)
    requires |walk| >= 2 && walk[0] == walk[|walk| - 1]
    ensures LoopsOf(decode, blocks).Ok?
    ensures exists k :: 0 <= k < |walk| - 1 && RecoveredLoop(walk[k + 1].start, walk[k].start) in LoopsOf(decode, blocks).value
  {
    var k := NotAllUp(walk);
    WalkEdge(decode, blocks, walk, k);
    DownEdge(decode, n, entry, blocks, walk[k], walk[k + 1]);
  }

  /** Without recorded loops every call-free walk goes up, so it visits each block at most once. */
  lemma NoLoopsNoRepeats(decode: nat -> Decoded, n: nat, entry: nat, blocks: seq<BasicBlock>, walk: seq<BasicBlock>, i: nat, j: nat)
    requires Window(decode, n) && Built(decode, n, entry, blocks) && CallFreeWalk(decode, blocks, walk)
    requires LoopsOf(decode, blocks) == Ok([]) && i < j < |walk|
    ensures walk[i].start < walk[j].start
  {
    hide Built, CallFreeEdge;
    if walk[j].start <= walk[i].start {
      var k := NotAllUp(walk[i..j + 1]);
      WalkEdge(decode, blocks, walk, i + k);
      DownEdge(decode, n, entry, blocks, walk[i + k], walk[i + k + 1]);
    }
  }
}
