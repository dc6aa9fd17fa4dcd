/**
 * Recovery of the basic blocks reachable from an entry (src/cfg/cfg_builder.cpp): passes over an ordered
 * set of block starts that grows while it is iterated, until a pass adds nothing.
 */
module CfgBuilder {
  import opened Outcome
  import opened InstructionDecoder
  import opened ControlFlow

  datatype BasicBlock = BasicBlock(start: nat, end: nat, successors: seq<nat>, condition: BranchCondition)

  function BlockCondition(i: Instruction): BranchCondition {
    if i.kind == ConditionalJump || i.kind == Loop then i.condition else Always
  }

  /** The block of a start: instructions up to one that ends a block, another start or the end of the code. */
  function Scan(decode: nat -> Decoded, n: nat, starts: set<nat>, start: nat, p: nat): Result<BasicBlock, CfgError>
    requires Window(decode, n)
    decreases n - p
  {
    if p != start && p in starts then Ok(BasicBlock(start, p, [p], Always))
    else if !Fine(decode, n, p) then Err(Fault(decode, p))
    else if Ends(decode, p) then
      Ok(BasicBlock(start, Next(decode, p), Branches(decode, n, p), BlockCondition(decode(p).value)))
    else if Next(decode, p) == n then Ok(BasicBlock(start, n, [], Always))
    else Scan(decode, n, starts, start, Next(decode, p))
  }

  /** The instruction addresses from p to an end. */
  function Addresses(decode: nat -> Decoded, p: nat, end: nat): seq<nat>
    decreases end - p
  {
    if p < end && decode(p).Ok? && 0 < decode(p).value.size then [p] + Addresses(decode, Next(decode, p), end) else []
  }

  function AddressesOf(decode: nat -> Decoded, b: BasicBlock): seq<nat> {
    Addresses(decode, b.start, b.end)
  }

  /** Addresses that follow one another without a choice and, after the first, without meeting a start. */
  ghost predicate Straight(decode: nat -> Decoded, n: nat, starts: set<nat>, a: seq<nat>)
    decreases |a|
  {
    && a != [] && Fine(decode, n, a[0])
    && (|a| > 1 ==> !Ends(decode, a[0]) && Flow(decode, n, a[0]) == [a[1]] && a[1] !in starts && Straight(decode, n, starts, a[1..]))
  }

  /** A block as a reader would describe it. */
  ghost predicate IsBlock(decode: nat -> Decoded, n: nat, starts: set<nat>, b: BasicBlock) {
    var a := AddressesOf(decode, b);
    && Straight(decode, n, starts, a) && a[0] == b.start
    && decode(Last(a)).Ok? && Next(decode, Last(a)) == b.end <= n
    && b.successors == Flow(decode, n, Last(a))
    && (!Ends(decode, Last(a)) ==> b.end == n || b.end in starts)
    && b.condition == BlockCondition(decode(Last(a)).value)
  }

  lemma {:induction false} StraightFine(decode: nat -> Decoded, n: nat, starts: set<nat>, a: seq<nat>, k: nat)
    requires Straight(decode, n, starts, a) && k < |a|
    ensures Fine(decode, n, a[k])
    ensures 0 < k ==> a[k] !in starts
    ensures k + 1 < |a| ==> !Ends(decode, a[k]) && Flow(decode, n, a[k]) == [a[k + 1]]
    decreases |a|
  {
    if k != 0 {
      StraightFine(decode, n, starts, a[1..], k - 1);
    }
  }

  /** What Scan finds from p on, by induction on the distance to the end of the code. */
  lemma {:induction false} ScanStraight(decode: nat -> Decoded, n: nat, starts: set<nat>, start: nat, p: nat)
    requires Window(decode, n) && Scan(decode, n, starts, start, p).Ok?
    requires p == start || (start < p && p !in starts)
    ensures var b := Scan(decode, n, starts, start, p).value;
      var a := Addresses(decode, p, b.end);
      && b.start == start && Straight(decode, n, starts, a) && a[0] == p
      && decode(Last(a)).Ok? && Next(decode, Last(a)) == b.end <= n
      && b.successors == Flow(decode, n, Last(a))
      && (!Ends(decode, Last(a)) ==> b.end == n || b.end in starts)
      && b.condition == BlockCondition(decode(Last(a)).value)
    decreases n - p
  {
    var b := Scan(decode, n, starts, start, p).value;
    var next := Next(decode, p);
    if !Ends(decode, p) && next != n && next !in starts {
      ScanStraight(decode, n, starts, start, next);
      var rest := Addresses(decode, next, b.end);
      assert ([p] + rest)[1..] == rest;
    } else {
      assert b.end == next;
      assert Addresses(decode, next, next) == [];
    }
  }

  lemma ScanIsBlock(decode: nat -> Decoded, n: nat, starts: set<nat>, start: nat)
    requires Window(decode, n) && Scan(decode, n, starts, start, start).Ok?
    ensures IsBlock(decode, n, starts, Scan(decode, n, starts, start, start).value)
    ensures Scan(decode, n, starts, start, start).value.start == start
  {
    ScanStraight(decode, n, starts, start, start);
  }

  /** A scan fails at a reachable instruction that does not decode or whose target is outside. */
  ghost predicate Explains(decode: nat -> Decoded, n: nat, entry: nat, e: CfgError, q: nat) {
    Reachable(decode, n, entry, q) && !Fine(decode, n, q) && e == Fault(decode, q)
  }

  lemma {:induction false} ScanFails(decode: nat -> Decoded, n: nat, starts: set<nat>, start: nat, p: nat, entry: nat)
    requires Window(decode, n) && Reachable(decode, n, entry, p) && Scan(decode, n, starts, start, p).Err?
    ensures exists q :: Explains(decode, n, entry, Scan(decode, n, starts, start, p).error, q)
    decreases n - p
  {
    if !Fine(decode, n, p) {
      assert Explains(decode, n, entry, Scan(decode, n, starts, start, p).error, p);
    } else {
      FlowReachable(decode, n, entry, p, Next(decode, p));
      ScanFails(decode, n, starts, start, Next(decode, p), entry);
    }
  }

  lemma {:induction false} StraightReachable(decode: nat -> Decoded, n: nat, starts: set<nat>, a: seq<nat>, k: nat, entry: nat)
    requires Straight(decode, n, starts, a) && k < |a| && Reachable(decode, n, entry, a[0])
    ensures Reachable(decode, n, entry, a[k])
    decreases |a|
  {
    if k != 0 {
      FlowReachable(decode, n, entry, a[0], a[1]);
      StraightReachable(decode, n, starts, a[1..], k - 1, entry);
    }
  }

  // ---------- graphs ----------

  function StartsOf(blocks: seq<BasicBlock>): set<nat> {
    set b | b in blocks :: b.start
  }

  ghost predicate Ascending(blocks: seq<BasicBlock>) {
    forall i, j :: 0 <= i < j < |blocks| ==> blocks[i].start < blocks[j].start
  }

  ghost predicate Scanned(decode: nat -> Decoded, n: nat, starts: set<nat>, blocks: seq<BasicBlock>)
    requires Window(decode, n)
  {
    forall b :: b in blocks ==> Scan(decode, n, starts, b.start, b.start) == Ok(b)
  }

  /** Every block is the scan of its start, and goes only to starts. */
  ghost predicate Closed(decode: nat -> Decoded, n: nat, starts: set<nat>, blocks: seq<BasicBlock>)
    requires Window(decode, n)
  {
    && Scanned(decode, n, starts, blocks)
    && (forall b, t :: b in blocks && t in b.successors ==> t in starts)
  }

  /** The graph of an entry: one block per leader, in ascending order. */
  ghost predicate Built(decode: nat -> Decoded, n: nat, entry: nat, blocks: seq<BasicBlock>)
    requires Window(decode, n)
  {
    && entry < n && Ascending(blocks)
    && (forall p :: p in StartsOf(blocks) <==> Leader(decode, n, entry, p))
    && Closed(decode, n, StartsOf(blocks), blocks)
  }

  ghost predicate Covers(decode: nat -> Decoded, blocks: seq<BasicBlock>, p: nat) {
    exists b :: b in blocks && p in AddressesOf(decode, b)
  }

  lemma BlockIn(starts: set<nat>, blocks: seq<BasicBlock>, s: nat) returns (b: BasicBlock)
    requires starts == StartsOf(blocks) && s in starts
    ensures b in blocks && b.start == s
  {
    b :| b in blocks && b.start == s;
  }

  /** A closed set of blocks covers every instruction on a path from the entry. */
  lemma {:induction false} PathCovered(decode: nat -> Decoded, n: nat, entry: nat, blocks: seq<BasicBlock>, path: seq<nat>)
    requires Window(decode, n) && Closed(decode, n, StartsOf(blocks), blocks) && entry in StartsOf(blocks)
    requires FlowPath(decode, n, entry, path)
    ensures Covers(decode, blocks, Last(path))
    decreases |path|
  {
    if |path| == 1 {
      StartCovered(decode, n, blocks, entry);
    } else {
      PathCovered(decode, n, entry, blocks, Front(path));
      FlowCovered(decode, n, blocks, Last(Front(path)), Last(path));
    }
  }

  lemma StartCovered(decode: nat -> Decoded, n: nat, blocks: seq<BasicBlock>, s: nat)
    requires Window(decode, n) && Closed(decode, n, StartsOf(blocks), blocks) && s in StartsOf(blocks)
    ensures Covers(decode, blocks, s)
  {
    var b := BlockIn(StartsOf(blocks), blocks, s);
    ScanIsBlock(decode, n, StartsOf(blocks), b.start);
    assert AddressesOf(decode, b)[0] == s;
  }

  lemma FlowCovered(decode: nat -> Decoded, n: nat, blocks: seq<BasicBlock>, p: nat, q: nat)
    requires Window(decode, n) && Closed(decode, n, StartsOf(blocks), blocks)
    requires Covers(decode, blocks, p) && q in Flow(decode, n, p)
    ensures Covers(decode, blocks, q)
  {
    var b :| b in blocks && p in AddressesOf(decode, b);
    var a := AddressesOf(decode, b);
    var k :| 0 <= k < |a| && a[k] == p;
    ScanIsBlock(decode, n, StartsOf(blocks), b.start);
    hide IsBlock, Flow, AddressesOf;
    FlowInBlock(decode, n, StartsOf(blocks), b, k, q);
    if k + 1 == |a| {
      StartCovered(decode, n, blocks, q);
    }
  }

  /** Flow from an instruction of a block goes to the next one, and from the last one to the successors. */
  lemma FlowInBlock(decode: nat -> Decoded, n: nat, starts: set<nat>, b: BasicBlock, k: nat, q: nat)
    requires IsBlock(decode, n, starts, b) && k < |AddressesOf(decode, b)|
    requires q in Flow(decode, n, AddressesOf(decode, b)[k])
    ensures var a := AddressesOf(decode, b); if k + 1 < |a| then q == a[k + 1] else q in b.successors
  {
    hide Flow, Fine, Ends, AddressesOf;
    StraightFine(decode, n, starts, AddressesOf(decode, b), k);
  }

  lemma CoveredFine(decode: nat -> Decoded, n: nat, blocks: seq<BasicBlock>, p: nat)
    requires Window(decode, n) && Closed(decode, n, StartsOf(blocks), blocks) && Covers(decode, blocks, p)
    ensures Fine(decode, n, p)
    ensures Ends(decode, p) ==> forall q :: q in Branches(decode, n, p) ==> q in StartsOf(blocks)
  {
    var b :| b in blocks && p in AddressesOf(decode, b);
    var a := AddressesOf(decode, b);
    var k :| 0 <= k < |a| && a[k] == p;
    ScanIsBlock(decode, n, StartsOf(blocks), b.start);
    StraightFine(decode, n, StartsOf(blocks), a, k);
    assert Ends(decode, p) ==> k + 1 == |a| && b.successors == Branches(decode, n, p);
  }

  /** Blocks over reachable leaders that go only to their own starts are the graph. */
  lemma ClosedIsBuilt(decode: nat -> Decoded, n: nat, entry: nat, blocks: seq<BasicBlock>)
    requires Window(decode, n) && entry < n && Ascending(blocks) && Closed(decode, n, StartsOf(blocks), blocks)
    requires entry in StartsOf(blocks) && forall s :: s in StartsOf(blocks) ==> Leader(decode, n, entry, s)
    ensures Built(decode, n, entry, blocks)
  {
    forall p | Leader(decode, n, entry, p)
      ensures p in StartsOf(blocks)
    {
      if p != entry {
        var q :| BranchesTo(decode, n, entry, q, p);
        var path :| FlowPath(decode, n, entry, path) && Last(path) == q;
        PathCovered(decode, n, entry, blocks, path);
        CoveredFine(decode, n, blocks, q);
      }
    }
  }

  /** The blocks of a built graph cover exactly the reachable instructions, all of which are fine. */
  lemma BuiltCovers(decode: nat -> Decoded, n: nat, entry: nat, blocks: seq<BasicBlock>, p: nat)
    requires Window(decode, n) && Built(decode, n, entry, blocks)
    ensures Covers(decode, blocks, p) <==> Reachable(decode, n, entry, p)
    ensures Reachable(decode, n, entry, p) ==> Fine(decode, n, p)
  {
    if Reachable(decode, n, entry, p) {
      var path :| FlowPath(decode, n, entry, path) && Last(path) == p;
      PathCovered(decode, n, entry, blocks, path);
      CoveredFine(decode, n, blocks, p);
    }
    if Covers(decode, blocks, p) {
      var b :| b in blocks && p in AddressesOf(decode, b);
      var k :| 0 <= k < |AddressesOf(decode, b)| && AddressesOf(decode, b)[k] == p;
      ScanIsBlock(decode, n, StartsOf(blocks), b.start);
      LeaderReachable(decode, n, entry, b.start);
      StraightReachable(decode, n, StartsOf(blocks), AddressesOf(decode, b), k, entry);
    }
  }

  /** The code and the entry determine the graph. */
  lemma BuiltUnique(decode: nat -> Decoded, n: nat, entry: nat, some: seq<BasicBlock>, other: seq<BasicBlock>)
    requires Window(decode, n) && Built(decode, n, entry, some) && Built(decode, n, entry, other)
    ensures some == other
  {
    assert StartsOf(some) == StartsOf(other);
    SameBlocks(decode, n, StartsOf(some), some, other);
  }

  lemma {:induction false} SameBlocks(decode: nat -> Decoded, n: nat, starts: set<nat>, some: seq<BasicBlock>, other: seq<BasicBlock>)
    requires Window(decode, n) && Scanned(decode, n, starts, some) && Scanned(decode, n, starts, other)
    requires Ascending(some) && Ascending(other) && StartsOf(some) == StartsOf(other)
    ensures some == other
    decreases |some|
  {
    assert some != [] ==> some[0].start in StartsOf(some);
    assert other != [] ==> other[0].start in StartsOf(other);
    if some != [] && other != [] {
      SameFirst(some, other);
      assert some[0] in some && other[0] in other;
      RestStarts(some);
      RestStarts(other);
      RestScanned(decode, n, starts, some);
      RestScanned(decode, n, starts, other);
      SameBlocks(decode, n, starts, some[1..], other[1..]);
      assert some == [some[0]] + some[1..] && other == [other[0]] + other[1..];
    }
  }

  lemma RestScanned(decode: nat -> Decoded, n: nat, starts: set<nat>, blocks: seq<BasicBlock>)
    requires Window(decode, n) && Scanned(decode, n, starts, blocks) && Ascending(blocks) && blocks != []
    ensures Scanned(decode, n, starts, blocks[1..]) && Ascending(blocks[1..])
  {
    assert forall b :: b in blocks[1..] ==> b in blocks;
  }

  lemma SameFirst(some: seq<BasicBlock>, other: seq<BasicBlock>)
    requires Ascending(some) && Ascending(other) && StartsOf(some) == StartsOf(other) && some != [] && other != []
    ensures some[0].start == other[0].start
  {
    assert some[0].start in StartsOf(other) && other[0].start in StartsOf(some);
    assert forall b :: b in some ==> some[0].start <= b.start;
    assert forall b :: b in other ==> other[0].start <= b.start;
  }

  lemma RestStarts(blocks: seq<BasicBlock>)
    requires Ascending(blocks) && blocks != []
    ensures StartsOf(blocks[1..]) == StartsOf(blocks) - {blocks[0].start}
  {
    assert blocks == [blocks[0]] + blocks[1..];
    forall b | b in blocks[1..]
      ensures b.start != blocks[0].start
    {
      var k :| 0 <= k < |blocks[1..]| && blocks[1..][k] == b;
      assert blocks[k + 1] == b;
    }
  }

  // ---------- the builder ----------

  /** Every start found so far is a leader. */
  ghost predicate Leaders(decode: nat -> Decoded, n: nat, entry: nat, starts: set<nat>) {
    entry in starts && forall s :: s in starts ==> s < n && Leader(decode, n, entry, s)
  }

  lemma {:induction false} BoundedSet(s: set<nat>, n: nat)
    requires forall x :: x in s ==> x < n
    ensures |s| <= n
    decreases n
  {
    if n == 0 {
      assert s == {};
    } else {
      BoundedSet(s - {n - 1}, n - 1);
    }
  }

  function SeqSet(s: seq<nat>): set<nat> {
    set x | x in s
  }

  /** The successors of a scanned block are leaders. */
  lemma SuccessorsLead(decode: nat -> Decoded, n: nat, entry: nat, starts: set<nat>, start: nat)
    requires Window(decode, n) && Leaders(decode, n, entry, starts) && start in starts
    requires Scan(decode, n, starts, start, start).Ok?
    ensures Leaders(decode, n, entry, starts + SeqSet(Scan(decode, n, starts, start, start).value.successors))
  {
    var b := Scan(decode, n, starts, start, start).value;
    var a := AddressesOf(decode, b);
    ScanIsBlock(decode, n, starts, start);
    LeaderReachable(decode, n, entry, start);
    StraightReachable(decode, n, starts, a, |a| - 1, entry);
    StraightFine(decode, n, starts, a, |a| - 1);
    forall t | t in b.successors
      ensures t < n && Leader(decode, n, entry, t)
    {
      FlowInCode(decode, n, Last(a), t);
      if Ends(decode, Last(a)) {
        assert BranchesTo(decode, n, entry, Last(a), t);
      }
    }
  }

  /** The next element of the ordered set, from a bound on. */
  method NextStart(starts: set<nat>, bound: nat, n: nat) returns (next: nat)
    requires bound <= n
    ensures bound <= next <= n
    ensures next < n ==> next in starts
    ensures forall s :: s in starts && bound <= s < n ==> next <= s
  {
    next := bound;
    while next < n && next !in starts
      invariant bound <= next <= n
      invariant forall s :: s in starts && bound <= s < n ==> next <= s
    {
      next := next + 1;
    }
  }

  /** The loop over the positions of one block; its last instruction adds to the starts. */
  method BuildBlock(decode: nat -> Decoded, n: nat, starts: set<nat>, start: nat)
    returns (r: Result<BasicBlock, CfgError>, grown: set<nat>)
    requires Window(decode, n)
    ensures r == Scan(decode, n, starts, start, start)
    ensures r.Ok? ==> grown == starts + SeqSet(r.value.successors)
  {
    grown := starts;
    var position := start;
    while true
      invariant grown == starts && start <= position
      invariant Scan(decode, n, starts, start, position) == Scan(decode, n, starts, start, start)
      decreases n - position
    {
      if position != start && position in starts {
        assert SeqSet([position]) <= starts;
        return Ok(BasicBlock(start, position, [position], Always)), grown;
      }
      var decoded := decode(position);
      if decoded.Err? {
        return Err(Undecodable(decoded.error)), grown;
      }
      var instruction := decoded.value;
      var next := position + instruction.size;
      if !EndsBlock(instruction.kind) {
        if next == n {
          return Ok(BasicBlock(start, next, [], Always)), grown;
        }
        position := next;
        continue;
      }
      var successors := [];
      if instruction.kind != Return && instruction.kind != Interrupt {
        var target := next + instruction.relativeTarget;
        if target < 0 || target >= n {
          return Err(TargetOutside), grown;
        }
        successors := [target];
        grown := grown + {target};
      }
      var condition := Always;
      if instruction.kind == ConditionalJump || instruction.kind == Loop {
        condition := instruction.condition;
      }
      if FallsThrough(instruction.kind) && next < n {
        successors := successors + [next];
        grown := grown + {next};
      }
      assert successors == Branches(decode, n, position);
      assert grown == starts + SeqSet(successors);
      return Ok(BasicBlock(start, next, successors, condition)), grown;
    }
  }

  /** The blocks of all starts below a bound, in order, closed under the starts. */
  ghost predicate Listed(decode: nat -> Decoded, n: nat, starts: set<nat>, blocks: seq<BasicBlock>, bound: nat)
    requires Window(decode, n)
  {
    && Ascending(blocks) && Closed(decode, n, starts, blocks)
    && forall s :: s in StartsOf(blocks) <==> s in starts && s < bound
  }

  lemma ListedStep(decode: nat -> Decoded, n: nat, starts: set<nat>, blocks: seq<BasicBlock>, start: nat, block: BasicBlock, next: nat)
    requires Window(decode, n) && Listed(decode, n, starts, blocks, start) && start in starts && start < next
    requires Scan(decode, n, starts, start, start) == Ok(block) && block.start == start
    requires SeqSet(block.successors) <= starts
    requires forall s :: s in starts && start < s ==> next <= s
    ensures Listed(decode, n, starts, blocks + [block], next)
  {
    hide Scan, StartsOf;
    StartsSnoc(blocks, block);
    assert forall b :: b in blocks + [block] <==> b in blocks || b == block;
    assert forall t :: t in block.successors ==> t in SeqSet(block.successors);
  }

  lemma StartsSnoc(blocks: seq<BasicBlock>, block: BasicBlock)
    ensures StartsOf(blocks + [block]) == StartsOf(blocks) + {block.start}
    ensures forall b :: b in blocks ==> b.start in StartsOf(blocks)
  {
    assert forall b :: b in blocks + [block] <==> b in blocks || b == block;
  }

  /** One pass over the starts in ascending order, which may add starts as it goes. */
  method BuildPass(decode: nat -> Decoded, n: nat, ghost entry: nat, starts: set<nat>)
    returns (r: Result<seq<BasicBlock>, CfgError>, grown: set<nat>, changed: bool)
    requires Window(decode, n) && Leaders(decode, n, entry, starts)
    ensures r.Err? ==> exists q :: Explains(decode, n, entry, r.error, q)
    ensures r.Ok? ==> Leaders(decode, n, entry, grown) && starts <= grown && (changed <==> grown != starts)
    ensures r.Ok? && !changed ==> Listed(decode, n, starts, r.value, n)
  {
    var blocks: seq<BasicBlock> := [];
    grown, changed := starts, false;
    var start := NextStart(grown, 0, n);
    while start < n
      invariant start <= n && (start < n ==> start in grown)
      invariant Leaders(decode, n, entry, grown) && starts <= grown && (changed <==> grown != starts)
      invariant !changed ==> Listed(decode, n, starts, blocks, start)
      decreases n - start
    {
      var block, more := BuildBlock(decode, n, grown, start);
      if block.Err? {
        LeaderReachable(decode, n, entry, start);
        ScanFails(decode, n, grown, start, start, entry);
        return Err(block.error), grown, changed;
      }
      SuccessorsLead(decode, n, entry, grown, start);
      ScanIsBlock(decode, n, grown, start);
      var next := NextStart(more, start + 1, n);
      changed := changed || more != grown;
      if !changed {
        ListedStep(decode, n, starts, blocks, start, block.value, next);
      }
      grown := more;
      blocks := blocks + [block.value];
      start := next;
    }
    return Ok(blocks), grown, changed;
  }

  /**
   * Passes until one adds no start: each of the others adds at least one, and starts lie in the code. It
   * succeeds exactly when the entry is in the code and everything reachable decodes and stays inside.
   */
  method Build(decode: nat -> Decoded, n: nat, entry: nat) returns (r: Result<seq<BasicBlock>, CfgError>)
    requires Window(decode, n)
    ensures r.Ok? <==> entry < n && forall p :: Reachable(decode, n, entry, p) ==> Fine(decode, n, p)
    ensures r.Ok? ==> Built(decode, n, entry, r.value)
    ensures r.Err? ==> if entry >= n then r.error == EntryOutside else exists q :: Explains(decode, n, entry, r.error, q)
  {
    if entry >= n {
      return Err(EntryOutside);
    }
    var starts := {entry};
    while true
      invariant Leaders(decode, n, entry, starts)
      decreases n - |starts|
    {
      var graph, grown, changed := BuildPass(decode, n, entry, starts);
      if graph.Err? {
        return graph;
      }
      if !changed {
        assert StartsOf(graph.value) == starts;
        ClosedIsBuilt(decode, n, entry, graph.value);
        forall p | Reachable(decode, n, entry, p)
          ensures Fine(decode, n, p)
        {
          BuiltCovers(decode, n, entry, graph.value, p);
        }
        return graph;
      }
      BoundedSet(grown, n);
      Larger(starts, grown);
      starts := grown;
    }
  }

  lemma Larger(a: set<nat>, b: set<nat>)
    requires a < b
    ensures |a| < |b|
  {
    var x :| x in b && x !in a;
    assert |(b - a) - {x}| + 1 == |b - a|;
    assert b == a + (b - a);
  }
}
