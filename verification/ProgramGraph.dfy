/**
 * The recovered graphs in terms of the program text: where each instruction goes, which addresses start a
 * block, what a block ends in, and what loops and functions are (src/cfg/cfg_builder.cpp,
 * src/analysis/loop_recovery.cpp, src/analysis/function_recovery.cpp).
 */
module ProgramGraph {
  import opened Outcome
  import opened Words
  import D = InstructionDecoder
  import opened Assembler8086
  import opened Listing
  import opened ControlFlow
  import opened CfgBuilder
  import opened ImageAnalysis
  import LoopRecovery
  import FunctionRecovery

  /** Where an instruction may go: on, nowhere the graph knows, or a distance from what follows it. */
  datatype Course = GoesOn | Stops | Goes(distance: int, comesBack: bool)

  /** An indirect transfer is taken to go to what follows it: its distance is decoded as 0. */
  function CourseOf(a: Asm): Course {
    match a
    case JumpIf(_, d) => Goes(d, true)
    case LoopIf(_, d) => Goes(d, true)
    case CallNear(d) => Goes(d, true)
    case JumpShort(d) => Goes(d, false)
    case JumpNear(d) => Goes(d, false)
    case Indirect(call, _) => Goes(0, call)
    case Ret => Stops
    case Int(_) => Stops
    case Single(s) => if s in {Int3, Into, RetFar, Iret} then Stops else GoesOn
    case WithData16(f, _) => if f in {RetPop, RetFarPop} then Stops else GoesOn
    case _ => GoesOn
  }

  function ConditionOf(a: Asm): D.BranchCondition {
    match a
    case JumpIf(c, _) => c
    case LoopIf(c, _) => c
    case _ => D.Always
  }

  /** The address behind a line. */
  function Behind(l: Line, o: nat): nat
    requires Valid(l.asm)
  {
    o + |LineBytes(l)|
  }

  predicate TargetInside(l: Line, o: nat, n: nat)
    requires Valid(l.asm)
  {
    CourseOf(l.asm).Goes? ==> 0 <= Behind(l, o) + CourseOf(l.asm).distance < n
  }

  /** The addresses a line goes to, the target first. */
  function Nexts(l: Line, o: nat, n: nat): seq<nat>
    requires Valid(l.asm) && TargetInside(l, o, n)
  {
    var next := if Behind(l, o) < n then [Behind(l, o)] else [];
    match CourseOf(l.asm)
    case GoesOn => next
    case Stops => []
    case Goes(d, comesBack) => [Behind(l, o) + d] + if comesBack then next else []
  }

  // ---------- one instruction ----------

  /** What the decoded fields say of the course. */
  lemma MeantCourse(a: Asm)
    requires Valid(a)
    ensures match CourseOf(a)
      case GoesOn => Meant(a).kind !in {D.Call, D.Jump, D.ConditionalJump, D.Loop, D.Return, D.Interrupt}
      case Stops => Meant(a).kind in {D.Return, D.Interrupt}
      case Goes(d, comesBack) =>
        && Meant(a).relativeTarget == d
        && Meant(a).kind in (if comesBack then {D.Call, D.ConditionalJump, D.Loop} else {D.Jump})
  {
    hide PlaceOperand, InRegisterOperand, Value, ModRm, OffsetBytes, ValidPlace, AluOf, AluCode, CodeOf, WidthOfRegister;
    hide SingleMeant;
    if a.Single? {
      SingleCourse(a.single);
    }
  }

  lemma SingleCourse(s: Single)
    ensures SingleMeant(s).kind !in {D.Call, D.Jump, D.ConditionalJump, D.Loop}
    ensures SingleMeant(s).kind in {D.Return, D.Interrupt} <==> s in {Int3, Into, RetFar, Iret}
  {
  }

  lemma MeantKinds(a: Asm)
    requires Valid(a)
    ensures Meant(a).kind == D.ConditionalJump <==> a.JumpIf?
    ensures Meant(a).kind == D.Loop <==> a.LoopIf?
    ensures Meant(a).kind == D.Call <==> a.CallNear? || (a.Indirect? && a.call)
    ensures Meant(a).kind == D.Jump <==> a.JumpShort? || a.JumpNear? || (a.Indirect? && !a.call)
    ensures a.JumpIf? || a.LoopIf? ==> Meant(a).condition == ConditionOf(a)
  {
    hide PlaceOperand, InRegisterOperand, Value, ModRm, OffsetBytes, ValidPlace, AluOf, AluCode, CodeOf, WidthOfRegister;
    hide SingleMeant;
    if a.Single? {
      SingleCourse(a.single);
    }
  }

  /** The decoded fields of a line that the graph uses. */
  lemma LineFields(code: seq<u8>, o: nat, l: Line)
    requires LineAt(code, o, l)
    ensures var r := D.DecodeAt(code, o);
      && r.Ok? && r.value.offset == o && r.value.size == |LineBytes(l)|
      && r.value.kind == Meant(l.asm).kind && r.value.relativeTarget == Meant(l.asm).relativeTarget
      && r.value.condition == Meant(l.asm).condition
  {
    hide D.DecodeAt, Valid, Assemble, Meant, IsLate, PrefixBytes;
    LineDecodes(code, o, l);
  }

  /** Where a line stands, the graph's flow is the course of the line. */
  lemma LineFlow(code: seq<u8>, o: nat, l: Line)
    requires LineAt(code, o, l)
    ensures var decode, n := Decoder(code), |code|;
      && decode(o).Ok? && Next(decode, o) == Behind(l, o) <= n
      && (Fine(decode, n, o) <==> TargetInside(l, o, n))
      && (Ends(decode, o) <==> !CourseOf(l.asm).GoesOn?)
      && (TargetInside(l, o, n) ==> Flow(decode, n, o) == Nexts(l, o, n))
      && BlockCondition(decode(o).value) == ConditionOf(l.asm)
  {
    hide D.DecodeAt, Assemble, Meant, CourseOf;
    LineFields(code, o, l);
    MeantCourse(l.asm);
    MeantKinds(l.asm);
    NoCondition(l.asm);
    hide Valid, PrefixBytes;
  }

  lemma NoCondition(a: Asm)
    ensures !a.JumpIf? && !a.LoopIf? ==> ConditionOf(a) == D.Always
  {
  }

  // ---------- the program ----------

  /** A line stands at p and its target, if it has one, lies inside. */
  ghost predicate SoundAt(code: seq<u8>, p: nat, l: Line) {
    LineAt(code, p, l) && TargetInside(l, p, |code|)
  }

  /** The line at p goes to q. */
  ghost predicate LeadsBy(code: seq<u8>, p: nat, l: Line, q: nat) {
    SoundAt(code, p, l) && q in Nexts(l, p, |code|)
  }

  ghost predicate Leads(code: seq<u8>, p: nat, q: nat) {
    exists l :: LeadsBy(code, p, l, q)
  }

  ghost predicate ProgramPath(code: seq<u8>, entry: nat, path: seq<nat>)
    decreases |path|
  {
    && path != []
    && if |path| == 1 then path[0] == entry
       else ProgramPath(code, entry, Front(path)) && Leads(code, Last(Front(path)), Last(path))
  }

  ghost predicate Runs(code: seq<u8>, entry: nat, p: nat) {
    exists path :: ProgramPath(code, entry, path) && Last(path) == p
  }

  ghost predicate Sound(code: seq<u8>, p: nat) {
    exists l :: SoundAt(code, p, l)
  }

  /** A line at p that does not simply go on goes to q. */
  ghost predicate BranchLeads(code: seq<u8>, p: nat, q: nat) {
    exists l :: LeadsBy(code, p, l, q) && !CourseOf(l.asm).GoesOn?
  }

  /** What the graph has of a sound line. */
  lemma SoundFlow(code: seq<u8>, p: nat, l: Line)
    requires SoundAt(code, p, l)
    ensures var decode, n := Decoder(code), |code|;
      && Fine(decode, n, p) && (Ends(decode, p) <==> !CourseOf(l.asm).GoesOn?)
      && (forall q :: LeadsBy(code, p, l, q) <==> q in Flow(decode, n, p))
  {
    LineFlow(code, p, l);
    hide LineAt, TargetInside, Nexts, CourseOf, D.DecodeAt, Flow, Fine, Ends;
  }

  /** Where the graph has a fine instruction, a sound line stands. */
  lemma FineIsSound(code: seq<u8>, p: nat) returns (l: Line)
    requires Fine(Decoder(code), |code|, p)
    ensures SoundAt(code, p, l)
  {
    l := DecodedIsLine(code, p);
    LineFlow(code, p, l);
    hide LineAt, TargetInside, D.DecodeAt, Fine;
  }

  lemma LeadsIffFlow(code: seq<u8>, p: nat, q: nat)
    ensures Leads(code, p, q) <==> q in Flow(Decoder(code), |code|, p)
  {
    hide LeadsBy, SoundAt, D.DecodeAt, Fine, Ends, Branches;
    if q in Flow(Decoder(code), |code|, p) {
      var l := FineIsSound(code, p);
      SoundFlow(code, p, l);
    }
    forall l | LeadsBy(code, p, l, q)
      ensures q in Flow(Decoder(code), |code|, p)
    {
      LeadsIsSound(code, p, l, q);
      SoundFlow(code, p, l);
    }
  }

  lemma LeadsIsSound(code: seq<u8>, p: nat, l: Line, q: nat)
    requires LeadsBy(code, p, l, q)
    ensures SoundAt(code, p, l)
  {
    hide SoundAt;
  }

  /** Instruction flow is the program's. */
  lemma {:induction false} ProgramPathIff(code: seq<u8>, entry: nat, path: seq<nat>)
    ensures ProgramPath(code, entry, path) <==> FlowPath(Decoder(code), |code|, entry, path)
    decreases |path|
  {
    hide Leads, Flow;
    if |path| > 1 {
      ProgramPathIff(code, entry, Front(path));
      LeadsIffFlow(code, Last(Front(path)), Last(path));
    }
  }

  lemma RunsIff(code: seq<u8>, entry: nat, p: nat)
    ensures Runs(code, entry, p) <==> Reachable(Decoder(code), |code|, entry, p)
  {
    forall path: seq<nat>
      ensures ProgramPath(code, entry, path) <==> FlowPath(Decoder(code), |code|, entry, path)
      ensures ProgramPath(code, entry, path) ==> path != []
    {
      ProgramPathIff(code, entry, path);
    }
    hide ProgramPath, FlowPath;
  }

  lemma SoundIff(code: seq<u8>, p: nat)
    ensures Sound(code, p) <==> Fine(Decoder(code), |code|, p)
  {
    hide SoundAt, D.DecodeAt, Fine;
    if Fine(Decoder(code), |code|, p) {
      var l := FineIsSound(code, p);
    }
    forall l | SoundAt(code, p, l)
      ensures Fine(Decoder(code), |code|, p)
    {
      SoundFlow(code, p, l);
    }
  }

  /** The graph of a program exists exactly when a sound line stands wherever the program runs. */
  lemma BuildableIff(code: seq<u8>, entry: nat)
    ensures (forall p :: Runs(code, entry, p) ==> Sound(code, p))
        <==> (forall p :: Reachable(Decoder(code), |code|, entry, p) ==> Fine(Decoder(code), |code|, p))
  {
    hide Runs, Sound, Fine, Reachable;
    forall p: nat
      ensures Runs(code, entry, p) <==> Reachable(Decoder(code), |code|, entry, p)
      ensures Sound(code, p) <==> Fine(Decoder(code), |code|, p)
    {
      RunsIff(code, entry, p);
      SoundIff(code, p);
    }
  }

  /** The instruction at p ends a block and may go to q. */
  ghost predicate EndLeads(decode: nat -> D.Decoded, n: nat, p: nat, q: nat) {
    Fine(decode, n, p) && Ends(decode, p) && q in Branches(decode, n, p)
  }

  lemma BranchLeadsIff(code: seq<u8>, p: nat, q: nat)
    ensures BranchLeads(code, p, q) <==> EndLeads(Decoder(code), |code|, p, q)
  {
    var decode, n := Decoder(code), |code|;
    assert EndLeads(decode, n, p, q) <==> Fine(decode, n, p) && Ends(decode, p) && q in Flow(decode, n, p);
    hide LeadsBy, SoundAt, D.DecodeAt, Fine, Ends, Branches, Flow, EndLeads, CourseOf;
    if Fine(decode, n, p) {
      var l := FineIsSound(code, p);
      SoundFlow(code, p, l);
    }
    forall l | LeadsBy(code, p, l, q) && !CourseOf(l.asm).GoesOn?
      ensures EndLeads(decode, n, p, q)
    {
      LeadsIsSound(code, p, l, q);
      SoundFlow(code, p, l);
    }
  }

  /** Blocks start at the entry and wherever branches, calls and loops that the program runs go, and nowhere else. */
  lemma StartsAre(code: seq<u8>, entry: nat, blocks: seq<BasicBlock>, s: nat)
    requires Window(Decoder(code), |code|) && Built(Decoder(code), |code|, entry, blocks)
    ensures s in StartsOf(blocks) <==> s == entry || exists p :: Runs(code, entry, p) && BranchLeads(code, p, s)
  {
    var decode, n := Decoder(code), |code|;
    assert s in StartsOf(blocks) <==> Leader(decode, n, entry, s);
    assert forall q: nat :: BranchesTo(decode, n, entry, q, s) <==> Reachable(decode, n, entry, q) && EndLeads(decode, n, q, s);
    hide Runs, Reachable, BranchLeads, EndLeads, Built, BranchesTo;
    forall p: nat
      ensures Runs(code, entry, p) <==> Reachable(decode, n, entry, p)
      ensures BranchLeads(code, p, s) <==> EndLeads(decode, n, p, s)
    {
      RunsIff(code, entry, p);
      BranchLeadsIff(code, p, s);
    }
  }

  // ---------- blocks ----------

  /** The last line of a block, whose lines follow one another from its start. */
  ghost predicate EndsWith(code: seq<u8>, b: BasicBlock, q: nat, l: Line) {
    && SoundAt(code, q, l) && b.start <= q && Behind(l, q) == b.end
    && AddressesOf(Decoder(code), b) != [] && q == Last(AddressesOf(Decoder(code), b))
  }

  /** What a block has from its last line: where it goes, in order, and the condition of a branch. */
  ghost predicate EndsAs(b: BasicBlock, q: nat, l: Line, n: nat) {
    && Valid(l.asm) && TargetInside(l, q, n)
    && b.successors == Nexts(l, q, n) && b.condition == ConditionOf(l.asm)
  }

  lemma LastFine(decode: nat -> D.Decoded, n: nat, starts: set<nat>, b: BasicBlock)
    requires IsBlock(decode, n, starts, b)
    ensures var a := AddressesOf(decode, b);
      && a != [] && Fine(decode, n, Last(a)) && b.start <= Last(a) && Next(decode, Last(a)) == b.end
      && b.successors == Flow(decode, n, Last(a)) && b.condition == BlockCondition(decode(Last(a)).value)
      && (!Ends(decode, Last(a)) ==> b.end == n || b.end in starts)
  {
    var a := AddressesOf(decode, b);
    StraightFine(decode, n, starts, a, |a| - 1);
    AddressesAscend(decode, b.start, b.end, |a| - 1);
    hide Fine, Flow, Ends, Straight;
  }

  lemma {:induction false} AddressesAscend(decode: nat -> D.Decoded, p: nat, end: nat, k: nat)
    requires k < |Addresses(decode, p, end)|
    ensures p <= Addresses(decode, p, end)[k]
    decreases end - p
  {
    if k > 0 {
      AddressesAscend(decode, Next(decode, p), end, k - 1);
    }
  }

  /** Every block of a built graph ends with a line, and as that line does. */
  lemma BlockEnds(code: seq<u8>, entry: nat, blocks: seq<BasicBlock>, b: BasicBlock) returns (q: nat, l: Line)
    requires Window(Decoder(code), |code|) && Built(Decoder(code), |code|, entry, blocks) && b in blocks
    ensures EndsWith(code, b, q, l) && EndsAs(b, q, l, |code|)
    ensures CourseOf(l.asm).GoesOn? ==> b.end == |code| || b.end in StartsOf(blocks)
  {
    var decode, n := Decoder(code), |code|;
    LoopRecovery.BuiltLast(decode, n, entry, blocks, b);
    LastFine(decode, n, StartsOf(blocks), b);
    hide D.DecodeAt, Flow, Fine, AddressesOf, Built, IsBlock, Ends, CourseOf, Nexts, ConditionOf, LineAt, TargetInside, BlockCondition;
    q := Last(AddressesOf(decode, b));
    l := FineIsSound(code, q);
    SoundIsLine(code, q, l);
    LineFlow(code, q, l);
  }

  lemma SoundIsLine(code: seq<u8>, q: nat, l: Line)
    requires SoundAt(code, q, l)
    ensures LineAt(code, q, l) && Valid(l.asm) && TargetInside(l, q, |code|)
  {
    hide TargetInside, Valid, Occurs;
  }

  // ---------- loops and functions ----------

  predicate IsCall(a: Asm) {
    a.CallNear? || (a.Indirect? && a.call)
  }

  /** Jumps, conditional jumps and loops; not calls. */
  predicate IsJump(a: Asm) {
    a.JumpIf? || a.LoopIf? || a.JumpShort? || a.JumpNear? || (a.Indirect? && !a.call)
  }

  lemma CallGoes(a: Asm)
    ensures IsCall(a) || IsJump(a) ==> CourseOf(a).Goes?
  {
  }

  /** The call that ends a block stands at q and goes to t. */
  ghost predicate CallFrom(decode: nat -> D.Decoded, b: BasicBlock, q: nat, t: nat) {
    FunctionRecovery.CallsTo(decode, b, t) && FunctionRecovery.LastOf(decode, b).value.value.offset == q
  }

  /** A block ends at q with a call of t. */
  ghost predicate CallsBy(code: seq<u8>, b: BasicBlock, q: nat, l: Line, t: nat) {
    EndsWith(code, b, q, l) && IsCall(l.asm) && CourseOf(l.asm).Goes? && Behind(l, q) + CourseOf(l.asm).distance == t
  }

  ghost predicate CallsAt(code: seq<u8>, b: BasicBlock, q: nat, t: nat) {
    exists l :: CallsBy(code, b, q, l, t)
  }

  /** The kinds of last instruction the recoveries act on. */
  lemma LastKinds(decode: nat -> D.Decoded, b: BasicBlock, i: D.Instruction)
    ensures LoopRecovery.IsBranch(Some(i)) <==> i.kind in {D.Jump, D.ConditionalJump, D.Loop}
    ensures FunctionRecovery.LastOf(decode, b) == Ok(Some(i)) ==> (FunctionRecovery.EndsInCall(decode, b) <==> i.kind == D.Call)
  {
    hide FunctionRecovery.LastOf;
  }

  /** What the recoveries read off the last line of a block. */
  lemma EndKinds(code: seq<u8>, entry: nat, blocks: seq<BasicBlock>, b: BasicBlock, q: nat, l: Line)
    requires Window(Decoder(code), |code|) && Built(Decoder(code), |code|, entry, blocks) && b in blocks && EndsWith(code, b, q, l)
    ensures EndsAs(b, q, l, |code|) && Decoder(code)(q).Ok? && AddressesOf(Decoder(code), b) != []
    ensures LoopRecovery.IsBranch(Some(LoopRecovery.Terminator(Decoder(code), b))) <==> IsJump(l.asm)
    ensures forall p, t: nat :: CallFrom(Decoder(code), b, p, t) <==> p == q && CallsBy(code, b, q, l, t)
  {
    var decode, n := Decoder(code), |code|;
    LoopRecovery.BuiltLast(decode, n, entry, blocks, b);
    LastFine(decode, n, StartsOf(blocks), b);
    assert FunctionRecovery.LastOf(decode, b) == Ok(Some(decode(q).value));
    LastKinds(decode, b, decode(q).value);
    hide FunctionRecovery.EndsInCall, LoopRecovery.IsBranch;
    hide D.DecodeAt, AddressesOf, Nexts, Built, IsBlock, Flow, ConditionOf, CourseOf, Meant, TargetInside, Fine, Ends, LineAt, LineBytes, BlockCondition;
    hide FunctionRecovery.LastOf;
    SoundIsLine(code, q, l);
    LineFlow(code, q, l);
    LineFields(code, q, l);
    MeantCourse(l.asm);
    MeantKinds(l.asm);
    CallGoes(l.asm);
  }

  /** The recorded loops of a program: the jumps, conditional jumps and loops that end a block and do not go up. */
  lemma LoopsAre(code: seq<u8>, entry: nat, blocks: seq<BasicBlock>, b: BasicBlock, q: nat, l: Line, header: nat)
    requires Window(Decoder(code), |code|) && Built(Decoder(code), |code|, entry, blocks) && b in blocks && EndsWith(code, b, q, l)
    ensures LoopRecovery.LoopsOf(Decoder(code), blocks).Ok?
    ensures LoopRecovery.RecoveredLoop(header, b.start) in LoopRecovery.LoopsOf(Decoder(code), blocks).value
        <==> IsJump(l.asm) && LeadsBy(code, q, l, header) && header <= b.start
  {
    LoopRecovery.LoopsExact(Decoder(code), |code|, entry, blocks, blocks);
    EndKinds(code, entry, blocks, b, q, l);
    forall c | c in blocks && c.start == b.start
      ensures c == b
    {
      OneBlock(blocks, b, c);
    }
    hide D.DecodeAt, AddressesOf, Nexts, Built, LoopRecovery.IsBranch, TargetInside, LoopRecovery.LoopsOf, SoundAt, IsJump, ConditionOf;
  }

  lemma OneBlock(blocks: seq<BasicBlock>, b: BasicBlock, c: BasicBlock)
    requires Ascending(blocks) && b in blocks && c in blocks && b.start == c.start
    ensures b == c
  {
    var i :| 0 <= i < |blocks| && blocks[i] == b;
    var j :| 0 <= j < |blocks| && blocks[j] == c;
  }

  lemma CallsAtIff(code: seq<u8>, entry: nat, blocks: seq<BasicBlock>, b: BasicBlock, q: nat, t: nat)
    requires Window(Decoder(code), |code|) && Built(Decoder(code), |code|, entry, blocks) && b in blocks
    ensures CallsAt(code, b, q, t) <==> CallFrom(Decoder(code), b, q, t)
  {
    hide D.DecodeAt, Built, CallFrom, EndsWith, EndsAs, LoopRecovery.IsBranch, IsCall, IsJump, CourseOf, SoundAt;
    var p, k := BlockEnds(code, entry, blocks, b);
    EndKinds(code, entry, blocks, b, p, k);
    forall l | CallsBy(code, b, q, l, t)
      ensures CallFrom(Decoder(code), b, q, t)
    {
      EndKinds(code, entry, blocks, b, q, l);
    }
  }

  /** Recovered functions start at the entry and at the targets of the calls that end blocks. */
  lemma EntriesAre(code: seq<u8>, entry: nat, blocks: seq<BasicBlock>, functions: seq<FunctionRecovery.RecoveredFunction>, t: nat)
    requires Window(Decoder(code), |code|) && Built(Decoder(code), |code|, entry, blocks)
    requires FunctionRecovery.Recovered(Decoder(code), entry, blocks, functions)
    ensures t in FunctionRecovery.EntriesOf(functions) <==> t == entry || exists b, q :: b in blocks && CallsAt(code, b, q, t)
  {
    var decode := Decoder(code);
    forall b | b in blocks
      ensures FunctionRecovery.CallsTo(decode, b, t) <==> exists q :: CallFrom(decode, b, q, t)
    {
      CallHasSite(decode, b, t);
    }
    hide Built, CallsAt, CallFrom, FunctionRecovery.CallsTo;
    forall b, q: nat | b in blocks
      ensures CallsAt(code, b, q, t) <==> CallFrom(decode, b, q, t)
    {
      CallsAtIff(code, entry, blocks, b, q, t);
    }
  }

  lemma CallHasSite(decode: nat -> D.Decoded, b: BasicBlock, t: nat)
    ensures FunctionRecovery.CallsTo(decode, b, t) <==> exists q :: CallFrom(decode, b, q, t)
  {
    if FunctionRecovery.CallsTo(decode, b, t) {
      assert CallFrom(decode, b, FunctionRecovery.LastOf(decode, b).value.value.offset, t);
    }
  }

  /** The call sites of a recovered function are the addresses of the calls of it that end blocks. */
  lemma SitesAre(code: seq<u8>, entry: nat, blocks: seq<BasicBlock>, functions: seq<FunctionRecovery.RecoveredFunction>,
                 f: FunctionRecovery.RecoveredFunction, q: nat)
    requires Window(Decoder(code), |code|) && Built(Decoder(code), |code|, entry, blocks)
    requires FunctionRecovery.Recovered(Decoder(code), entry, blocks, functions) && f in functions
    ensures q in f.callSites <==> exists b :: b in blocks && CallsAt(code, b, q, f.entry)
  {
    hide Built, CallsAt, CallFrom, FunctionRecovery.CallsTo, FunctionRecovery.LastOf;
    forall b | b in blocks
      ensures CallsAt(code, b, q, f.entry) <==> CallFrom(Decoder(code), b, q, f.entry)
    {
      CallsAtIff(code, entry, blocks, b, q, f.entry);
    }
    SitesIn(Decoder(code), blocks, f.entry, q);
  }

  lemma {:induction false} SitesIn(decode: nat -> D.Decoded, blocks: seq<BasicBlock>, t: nat, q: nat)
    ensures q in FunctionRecovery.SitesOf(decode, blocks, t) <==> exists b :: b in blocks && CallFrom(decode, b, q, t)
    decreases |blocks|
  {
    if blocks != [] {
      var front, b := blocks[..|blocks| - 1], blocks[|blocks| - 1];
      assert blocks == front + [b];
      SitesIn(decode, front, t, q);
      assert q in FunctionRecovery.SitesOf(decode, blocks, t) <==> q in FunctionRecovery.SitesOf(decode, front, t) || CallFrom(decode, b, q, t);
      hide CallFrom, FunctionRecovery.SitesOf;
      assert forall c :: c in blocks <==> c in front || c == b;
      assert CallFrom(decode, b, q, t) ==> b in blocks;
    }
  }
}
