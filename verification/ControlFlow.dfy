/**
 * Control flow between instruction addresses, as the graph builder reads it from decoded fields: the
 * direct target and the fall-through of a transfer, the next address otherwise, nothing after a return or
 * an interrupt. All facts are stated over any decoder that keeps inside the code.
 */
module ControlFlow {
  import opened Outcome
  import opened InstructionDecoder

  datatype CfgError = EntryOutside | TargetOutside | Undecodable(error: DecodeError)

  /** The decoder's contract: an instruction lies at its own address, has a size and ends in the code. */
  ghost predicate Window(decode: nat -> Decoded, n: nat) {
    forall p: nat {:trigger decode(p)} :: decode(p).Ok? ==>
      decode(p).value.offset == p && 1 <= decode(p).value.size && p + decode(p).value.size <= n
  }

  predicate EndsBlock(kind: InstructionKind) {
    kind == Call || kind == Jump || kind == ConditionalJump || kind == Loop || kind == Return || kind == Interrupt
  }

  predicate HasTarget(kind: InstructionKind) {
    EndsBlock(kind) && kind != Return && kind != Interrupt
  }

  predicate FallsThrough(kind: InstructionKind) {
    kind == Call || kind == ConditionalJump || kind == Loop
  }

  function Target(i: Instruction, p: nat): int {
    p + i.size + i.relativeTarget
  }

  /** The instruction at p decodes and its direct target, if it has one, lies in the code. */
  predicate Fine(decode: nat -> Decoded, n: nat, p: nat) {
    decode(p).Ok? && (HasTarget(decode(p).value.kind) ==> 0 <= Target(decode(p).value, p) < n)
  }

  function Fault(decode: nat -> Decoded, p: nat): CfgError {
    if decode(p).Err? then Undecodable(decode(p).error) else TargetOutside
  }

  function Next(decode: nat -> Decoded, p: nat): nat
    requires decode(p).Ok?
  {
    p + decode(p).value.size
  }

  predicate Ends(decode: nat -> Decoded, p: nat)
    requires decode(p).Ok?
  {
    EndsBlock(decode(p).value.kind)
  }

  /** Where a block-ending instruction may go: its target, then what follows it. */
  function Branches(decode: nat -> Decoded, n: nat, p: nat): seq<nat>
    requires Fine(decode, n, p)
  {
    var i := decode(p).value;
    (if HasTarget(i.kind) then [Target(i, p)] else []) +
    (if FallsThrough(i.kind) && Next(decode, p) < n then [Next(decode, p)] else [])
  }

  function Flow(decode: nat -> Decoded, n: nat, p: nat): seq<nat> {
    if !Fine(decode, n, p) then []
    else if Ends(decode, p) then Branches(decode, n, p)
    else if Next(decode, p) < n then [Next(decode, p)]
    else []
  }

  function Last(path: seq<nat>): nat
    requires path != []
  {
    path[|path| - 1]
  }

  function Front(path: seq<nat>): seq<nat>
    requires path != []
  {
    path[..|path| - 1]
  }

  /** A run of instruction addresses from the entry. */
  ghost predicate FlowPath(decode: nat -> Decoded, n: nat, entry: nat, path: seq<nat>)
    decreases |path|
  {
    && path != []
    && if |path| == 1 then path[0] == entry
       else FlowPath(decode, n, entry, Front(path)) && Last(path) in Flow(decode, n, Last(Front(path)))
  }

  ghost predicate Reachable(decode: nat -> Decoded, n: nat, entry: nat, p: nat) {
    exists path :: FlowPath(decode, n, entry, path) && Last(path) == p
  }

  /** The entry, and wherever a reachable block-ending instruction may go. */
  ghost predicate Leader(decode: nat -> Decoded, n: nat, entry: nat, p: nat) {
    p == entry || exists q :: BranchesTo(decode, n, entry, q, p)
  }

  ghost predicate BranchesTo(decode: nat -> Decoded, n: nat, entry: nat, q: nat, p: nat) {
    Reachable(decode, n, entry, q) && Fine(decode, n, q) && Ends(decode, q) && p in Branches(decode, n, q)
  }

  lemma EntryReachable(decode: nat -> Decoded, n: nat, entry: nat)
    ensures Reachable(decode, n, entry, entry)
  {
    assert FlowPath(decode, n, entry, [entry]) && Last([entry]) == entry;
  }

  lemma FlowReachable(decode: nat -> Decoded, n: nat, entry: nat, p: nat, q: nat)
    requires Reachable(decode, n, entry, p) && q in Flow(decode, n, p)
    ensures Reachable(decode, n, entry, q)
  {
    var path :| FlowPath(decode, n, entry, path) && Last(path) == p;
    assert Front(path + [q]) == path;
    assert FlowPath(decode, n, entry, path + [q]) && Last(path + [q]) == q;
  }

  lemma LeaderReachable(decode: nat -> Decoded, n: nat, entry: nat, p: nat)
    requires Leader(decode, n, entry, p)
    ensures Reachable(decode, n, entry, p)
  {
    if p == entry {
      EntryReachable(decode, n, entry);
    } else {
      var q :| BranchesTo(decode, n, entry, q, p);
      FlowReachable(decode, n, entry, q, p);
    }
  }

  lemma FlowInCode(decode: nat -> Decoded, n: nat, p: nat, q: nat)
    requires Window(decode, n) && q in Flow(decode, n, p)
    ensures q < n
  {
  }
}
