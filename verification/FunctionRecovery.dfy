/**
 * Recovery of function entries (src/analysis/function_recovery.cpp): the program entry and the targets of
 * the calls that end blocks, each with its call sites.
 */
module FunctionRecovery {
  import opened Outcome
  import opened InstructionDecoder
  import opened ControlFlow
  import opened CfgBuilder
  import opened LoopRecovery

  datatype RecoveredFunction = RecoveredFunction(entry: nat, callSites: seq<nat>)

  datatype RecoveryError = BadBoundaries | EndNotBoundary | CallOutside

  function LastOf(decode: nat -> Decoded, b: BasicBlock): Result<Option<Instruction>, LoopError> {
    LastInstruction(decode, b.start, b.end, None)
  }

  predicate EndsInCall(decode: nat -> Decoded, b: BasicBlock) {
    var last := LastOf(decode, b);
    last.Ok? && last.value.Some? && last.value.value.kind == Call
  }

  function CallTarget(decode: nat -> Decoded, b: BasicBlock): int
    requires EndsInCall(decode, b)
  {
    b.end + LastOf(decode, b).value.value.relativeTarget
  }

  predicate CallsTo(decode: nat -> Decoded, b: BasicBlock, t: nat) {
    EndsInCall(decode, b) && CallTarget(decode, b) == t
  }

  /** What recovery needs of a block. */
  predicate Acceptable(decode: nat -> Decoded, n: nat, b: BasicBlock) {
    b.start <= b.end && LastOf(decode, b).Ok? && (EndsInCall(decode, b) ==> 0 <= CallTarget(decode, b) < n)
  }

  /** The first block recovery refuses, and why. */
  ghost predicate Refuses(decode: nat -> Decoded, n: nat, blocks: seq<BasicBlock>, k: nat, error: RecoveryError) {
    && k < |blocks| && (forall j :: 0 <= j < k ==> Acceptable(decode, n, blocks[j]))
    && match error
      case BadBoundaries => LastOf(decode, blocks[k]).Err?
      case EndNotBoundary => blocks[k].end < blocks[k].start
      case CallOutside => EndsInCall(decode, blocks[k]) && !(0 <= CallTarget(decode, blocks[k]) < n)
  }

  /** The offsets of the calls to t that end blocks, in block order. */
  function SitesOf(decode: nat -> Decoded, blocks: seq<BasicBlock>, t: nat): seq<nat> {
    if blocks == [] then []
    else
      var b := blocks[|blocks| - 1];
      SitesOf(decode, blocks[..|blocks| - 1], t) + if CallsTo(decode, b, t) then [LastOf(decode, b).value.value.offset] else []
  }

  ghost predicate IsEntry(decode: nat -> Decoded, entry: nat, blocks: seq<BasicBlock>, t: nat) {
    t == entry || exists b :: b in blocks && CallsTo(decode, b, t)
  }

  /** The table of functions: its keys are the entries, its values their call sites. */
  ghost predicate Table(decode: nat -> Decoded, entry: nat, blocks: seq<BasicBlock>, functions: map<nat, seq<nat>>) {
    && (forall t :: t in functions <==> IsEntry(decode, entry, blocks, t))
    && (forall t :: t in functions ==> functions[t] == SitesOf(decode, blocks, t))
  }

  ghost predicate Sorted(functions: seq<RecoveredFunction>) {
    forall i, j :: 0 <= i < j < |functions| ==> functions[i].entry < functions[j].entry
  }

  function EntriesOf(functions: seq<RecoveredFunction>): set<nat> {
    set f | f in functions :: f.entry
  }

  /** One function per entry, in ascending order. */
  ghost predicate Recovered(decode: nat -> Decoded, entry: nat, blocks: seq<BasicBlock>, functions: seq<RecoveredFunction>) {
    && Sorted(functions)
    && (forall t :: t in EntriesOf(functions) <==> IsEntry(decode, entry, blocks, t))
    && (forall f :: f in functions ==> f.callSites == SitesOf(decode, blocks, f.entry))
  }

  lemma TableStep(decode: nat -> Decoded, entry: nat, blocks: seq<BasicBlock>, b: BasicBlock, before: map<nat, seq<nat>>, after: map<nat, seq<nat>>)
    requires Table(decode, entry, blocks, before)
    requires EndsInCall(decode, b) ==> CallTarget(decode, b) >= 0
    requires var last := LastOf(decode, b);
      after == if EndsInCall(decode, b) then
          var t: nat := CallTarget(decode, b);
          before[t := (if t in before then before[t] else []) + [last.value.value.offset]]
        else before
    ensures Table(decode, entry, blocks + [b], after)
  {
    var more := blocks + [b];
    assert more[..|more| - 1] == blocks;
    assert forall c :: c in more <==> c in blocks || c == b;
    forall t
      ensures IsEntry(decode, entry, more, t) <==> IsEntry(decode, entry, blocks, t) || CallsTo(decode, b, t)
    {
    }
    if EndsInCall(decode, b) && CallTarget(decode, b) !in before {
      NoSites(decode, blocks, CallTarget(decode, b));
    }
  }

  lemma {:induction false} NoSites(decode: nat -> Decoded, blocks: seq<BasicBlock>, t: nat)
    requires forall b :: b in blocks ==> !CallsTo(decode, b, t)
    ensures SitesOf(decode, blocks, t) == []
    decreases |blocks|
  {
    if blocks != [] {
      NoSites(decode, blocks[..|blocks| - 1], t);
    }
  }

  lemma {:induction false} LeastExists(s: set<nat>) returns (least: nat)
    requires s != {}
    ensures least in s && forall u :: u in s ==> least <= u
    decreases |s|
  {
    least :| least in s;
    var rest := s - {least};
    assert forall u :: u in s ==> u == least || u in rest;
    if rest != {} {
      var other := LeastExists(rest);
      if other < least {
        least := other;
      }
    }
  }

  /** The functions of the keys taken out so far: all of them lie below the rest. */
  ghost predicate Extracted(functions: map<nat, seq<nat>>, result: seq<RecoveredFunction>, rest: set<nat>) {
    && rest <= functions.Keys && Sorted(result) && EntriesOf(result) == functions.Keys - rest
    && (forall f :: f in result ==> f.entry in functions && f.callSites == functions[f.entry])
    && (forall t, u :: t in EntriesOf(result) && u in rest ==> t < u)
  }

  lemma ExtractedStep(functions: map<nat, seq<nat>>, result: seq<RecoveredFunction>, rest: set<nat>, t: nat)
    requires Extracted(functions, result, rest) && t in rest && forall u :: u in rest ==> t <= u
    ensures Extracted(functions, result + [RecoveredFunction(t, functions[t])], rest - {t})
  {
    EntriesSnoc(result, RecoveredFunction(t, functions[t]));
    assert forall k :: 0 <= k < |result| ==> result[k].entry in EntriesOf(result);
  }

  /** The entries of the table in key order. */
  method SortedFunctions(functions: map<nat, seq<nat>>) returns (result: seq<RecoveredFunction>)
    ensures Extracted(functions, result, {})
  {
    result := [];
    var rest := functions.Keys;
    while rest != {}
      invariant Extracted(functions, result, rest)
      decreases |rest|
    {
      ghost var least := LeastExists(rest);
      var t :| t in rest && forall u :: u in rest ==> t <= u;
      ExtractedStep(functions, result, rest, t);
      result := result + [RecoveredFunction(t, functions[t])];
      rest := rest - {t};
    }
  }

  lemma EntriesSnoc(functions: seq<RecoveredFunction>, f: RecoveredFunction)
    ensures EntriesOf(functions + [f]) == EntriesOf(functions) + {f.entry}
  {
    assert forall g :: g in functions + [f] <==> g in functions || g == f;
  }

  method Recover(decode: nat -> Decoded, n: nat, blocks: seq<BasicBlock>, entry: nat)
    returns (r: Result<seq<RecoveredFunction>, RecoveryError>)
    requires Window(decode, n)
    ensures r.Ok? <==> forall b :: b in blocks ==> Acceptable(decode, n, b)
    ensures r.Ok? ==> Recovered(decode, entry, blocks, r.value)
    ensures r.Err? ==> exists k :: Refuses(decode, n, blocks, k, r.error)
  {
    hide Table, Extracted, Recovered;
    TableStart(decode, entry);
    var functions: map<nat, seq<nat>> := map[entry := []];
    for k := 0 to |blocks|
      invariant Table(decode, entry, blocks[..k], functions)
      invariant forall b :: b in blocks[..k] ==> Acceptable(decode, n, b)
      invariant forall j :: 0 <= j < k ==> Acceptable(decode, n, blocks[j])
    {
      var block := blocks[k];
      ghost var before := functions;
      assert block in blocks;
      assert blocks[..k + 1] == blocks[..k] + [block];
      var last := FindLast(decode, n, block);
      if last.Err? {
        assert Refuses(decode, n, blocks, k, BadBoundaries);
        return Err(BadBoundaries);
      }
      if block.start > block.end {
        assert Refuses(decode, n, blocks, k, EndNotBoundary);
        return Err(EndNotBoundary);
      }
      if last.value.Some? && last.value.value.kind == Call {
        var target := block.end + last.value.value.relativeTarget;
        if target < 0 || target >= n {
          assert Refuses(decode, n, blocks, k, CallOutside);
          return Err(CallOutside);
        }
        functions := functions[target := (if target in functions then functions[target] else []) + [last.value.value.offset]];
      }
      TableStep(decode, entry, blocks[..k], block, before, functions);
    }
    assert blocks[..|blocks|] == blocks;
    var result := SortedFunctions(functions);
    TableGives(decode, entry, blocks, functions, result);
    return Ok(result);
  }

  lemma TableStart(decode: nat -> Decoded, entry: nat)
    ensures Table(decode, entry, [], map[entry := []])
  {
  }

  lemma TableGives(decode: nat -> Decoded, entry: nat, blocks: seq<BasicBlock>, functions: map<nat, seq<nat>>,
                   result: seq<RecoveredFunction>)
    requires Table(decode, entry, blocks, functions) && Extracted(functions, result, {})
    ensures Recovered(decode, entry, blocks, result)
  {
  }

  // ---------- on built graphs ----------

  /** The number of call sites of some entries. */
  function TotalSites(functions: seq<RecoveredFunction>): nat {
    if functions == [] then 0
    else TotalSites(functions[..|functions| - 1]) + |functions[|functions| - 1].callSites|
  }

  /** The number of blocks that end in a call. */
  function CallBlocks(decode: nat -> Decoded, blocks: seq<BasicBlock>): nat {
    if blocks == [] then 0
    else CallBlocks(decode, blocks[..|blocks| - 1]) + if EndsInCall(decode, blocks[|blocks| - 1]) then 1 else 0
  }

  /** Recovery never fails on a built graph, and a call that ends a block goes to a start. */
  lemma BuiltAcceptable(decode: nat -> Decoded, n: nat, entry: nat, blocks: seq<BasicBlock>, b: BasicBlock)
    requires Window(decode, n) && Built(decode, n, entry, blocks) && b in blocks
    ensures Acceptable(decode, n, b)
    ensures EndsInCall(decode, b) ==> CallTarget(decode, b) in b.successors && CallTarget(decode, b) in StartsOf(blocks)
  {
    BuiltLast(decode, n, entry, blocks, b);
    var a := AddressesOf(decode, b);
    StraightFine(decode, n, StartsOf(blocks), a, |a| - 1);
  }

  /** Every recovered entry is a block start. */
  lemma EntriesAreStarts(decode: nat -> Decoded, n: nat, entry: nat, blocks: seq<BasicBlock>, functions: seq<RecoveredFunction>)
    requires Window(decode, n) && Built(decode, n, entry, blocks) && Recovered(decode, entry, blocks, functions)
    ensures EntriesOf(functions) <= StartsOf(blocks)
  {
    assert Leader(decode, n, entry, entry);
    forall t | IsEntry(decode, entry, blocks, t)
      ensures t in StartsOf(blocks)
    {
      if t != entry {
        var b :| b in blocks && CallsTo(decode, b, t);
        BuiltAcceptable(decode, n, entry, blocks, b);
      }
    }
  }

  /** The call sites of the blocks, counted function by function. */
  function SitesTotal(decode: nat -> Decoded, blocks: seq<BasicBlock>, functions: seq<RecoveredFunction>): nat {
    if functions == [] then 0
    else SitesTotal(decode, blocks, functions[..|functions| - 1]) + |SitesOf(decode, blocks, functions[|functions| - 1].entry)|
  }

  function Matches(functions: seq<RecoveredFunction>, t: nat): nat {
    if functions == [] then 0
    else Matches(functions[..|functions| - 1], t) + if functions[|functions| - 1].entry == t then 1 else 0
  }

  lemma {:induction false} MatchesOne(functions: seq<RecoveredFunction>, t: nat)
    requires Sorted(functions)
    ensures Matches(functions, t) == if t in EntriesOf(functions) then 1 else 0
    decreases |functions|
  {
    if functions != [] {
      var front, f := functions[..|functions| - 1], functions[|functions| - 1];
      assert functions == front + [f];
      EntriesSnoc(front, f);
      SortedFront(functions);
      hide Sorted, EntriesOf;
      MatchesOne(front, t);
    }
  }

  /** The last entry is none of those before it. */
  lemma SortedFront(functions: seq<RecoveredFunction>)
    requires Sorted(functions) && functions != []
    ensures var front := functions[..|functions| - 1];
      Sorted(front) && functions[|functions| - 1].entry !in EntriesOf(front)
  {
    var front := functions[..|functions| - 1];
    forall g | g in front
      ensures g.entry < functions[|functions| - 1].entry
    {
      var i :| 0 <= i < |front| && front[i] == g;
      assert functions[i] == g;
    }
  }

  lemma {:induction false} SitesTotalStep(decode: nat -> Decoded, blocks: seq<BasicBlock>, b: BasicBlock, functions: seq<RecoveredFunction>)
    requires EndsInCall(decode, b) ==> CallTarget(decode, b) >= 0
    ensures SitesTotal(decode, blocks + [b], functions)
      == SitesTotal(decode, blocks, functions) + if EndsInCall(decode, b) then Matches(functions, CallTarget(decode, b)) else 0
    decreases |functions|
  {
    if functions != [] {
      SitesTotalStep(decode, blocks, b, functions[..|functions| - 1]);
      assert (blocks + [b])[..|blocks + [b]| - 1] == blocks;
    }
  }

  lemma {:induction false} SitesTotalIsCalls(decode: nat -> Decoded, blocks: seq<BasicBlock>, functions: seq<RecoveredFunction>)
    requires Sorted(functions)
    requires forall b :: b in blocks && EndsInCall(decode, b) ==> CallTarget(decode, b) in EntriesOf(functions)
    ensures SitesTotal(decode, blocks, functions) == CallBlocks(decode, blocks)
    decreases |blocks|
  {
    if blocks == [] {
      NothingCalled(decode, functions);
    } else {
      var front, b := blocks[..|blocks| - 1], blocks[|blocks| - 1];
      assert blocks == front + [b];
      assert b in blocks;
      SitesTotalIsCalls(decode, front, functions);
      SitesTotalStep(decode, front, b, functions);
      if EndsInCall(decode, b) {
        MatchesOne(functions, CallTarget(decode, b));
      }
    }
  }

  lemma {:induction false} NothingCalled(decode: nat -> Decoded, functions: seq<RecoveredFunction>)
    ensures SitesTotal(decode, [], functions) == 0
    decreases |functions|
  {
    if functions != [] {
      NothingCalled(decode, functions[..|functions| - 1]);
    }
  }

  /** Every block that ends in a call is exactly one recovered call site. */
  lemma TotalIsCallBlocks(decode: nat -> Decoded, n: nat, entry: nat, blocks: seq<BasicBlock>, functions: seq<RecoveredFunction>)
    requires Window(decode, n) && Built(decode, n, entry, blocks) && Recovered(decode, entry, blocks, functions)
    ensures TotalSites(functions) == CallBlocks(decode, blocks)
  {
    forall b | b in blocks && EndsInCall(decode, b)
      ensures CallTarget(decode, b) in EntriesOf(functions)
    {
      BuiltAcceptable(decode, n, entry, blocks, b);
      assert CallsTo(decode, b, CallTarget(decode, b));
    }
    SitesTotalIsCalls(decode, blocks, functions);
    SitesAreSites(decode, blocks, functions);
  }

  lemma {:induction false} SitesAreSites(decode: nat -> Decoded, blocks: seq<BasicBlock>, functions: seq<RecoveredFunction>)
    requires forall f :: f in functions ==> f.callSites == SitesOf(decode, blocks, f.entry)
    ensures TotalSites(functions) == SitesTotal(decode, blocks, functions)
    decreases |functions|
  {
    if functions != [] {
      SitesAreSites(decode, blocks, functions[..|functions| - 1]);
    }
  }
}
