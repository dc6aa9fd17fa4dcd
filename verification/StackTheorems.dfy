/** What a well-bracketed program does to registers, memory and the SSA table. */
module StackTheorems {
  import opened Outcome
  import opened Words
  import opened InstructionTranslator
  import opened StackDiscipline
  import S = RegisterSsa
  import M = RealModeMemory

  // ---------- meaning without a stack ----------

  /** The registers afterwards: a POP gets what its PUSH saw, and no memory is involved. */
  function Meaning(p: Program, regs: seq<u16>): (r: seq<u16>)
    requires |regs| == SLOTS
    ensures |r| == SLOTS
    decreases p
  {
    match p
    case Done => regs
    case Bracket(push, inner, pop, rest) =>
      var sp, value := regs[SP_SLOT], regs[8 + push];
      Meaning(rest, Meaning(inner, regs[SP_SLOT := Lower(sp)])[8 + pop := value][SP_SLOT := sp])
    case Load(reg, value, rest) => Meaning(rest, regs[8 + reg := value])
  }

  lemma {:induction false} MeaningKeepsSp(p: Program, regs: seq<u16>)
    requires |regs| == SLOTS && LoadsNoSp(p)
    ensures Meaning(p, regs)[SP_SLOT] == regs[SP_SLOT]
    decreases p
  {
    match p
    case Done =>
    case Bracket(push, inner, pop, rest) =>
      var sp, value := regs[SP_SLOT], regs[8 + push];
      MeaningKeepsSp(rest, Meaning(inner, regs[SP_SLOT := Lower(sp)])[8 + pop := value][SP_SLOT := sp]);
    case Load(reg, value, rest) =>
      MeaningKeepsSp(rest, regs[8 + reg := value]);
  }

  /** A program between pushes of some registers and their pops in reverse. */
  function Saving(fields: seq<Field>, body: Program): Program {
    if fields == [] then body else Bracket(fields[0], Saving(fields[1..], body), fields[0], Done)
  }

  /** Registers saved around a body have their old values afterwards. */
  lemma {:induction false} SavedRegisters(fields: seq<Field>, body: Program, regs: seq<u16>, k: Field)
    requires |regs| == SLOTS && k in fields && k != SP_FIELD
    ensures Meaning(Saving(fields, body), regs)[8 + k] == regs[8 + k]
    decreases |fields|
  {
    if fields[0] != k {
      SavedRegisters(fields[1..], body, regs[SP_SLOT := Lower(regs[SP_SLOT])], k);
    }
  }

  // ---------- the stack ----------

  predicate InWord(k: nat, segment: u16, offset: u16) {
    M.Physical(segment, offset) <= k < M.Physical(segment, offset) + 2
  }

  /** The byte lies in one of the depth words below SP; offsets wrap. */
  predicate InStack(k: nat, segment: u16, sp: u16, depth: nat)
    decreases depth
  {
    depth > 0 && (InWord(k, segment, Lower(sp)) || InStack(k, segment, Lower(sp), depth - 1))
  }

  ghost predicate OnlyStack(before: seq<u8>, after: seq<u8>, segment: u16, sp: u16, depth: nat) {
    && |before| == |after| == M.SIZE
    && forall k :: 0 <= k < M.SIZE && !InStack(k, segment, sp, depth) ==> after[k] == before[k]
  }

  lemma {:induction false} FindWord(k: nat, segment: u16, sp: u16, depth: nat) returns (j: nat)
    requires InStack(k, segment, sp, depth)
    ensures 1 <= j <= depth && InWord(k, segment, Wrap16(sp - 2 * j))
    decreases depth
  {
    if InWord(k, segment, Lower(sp)) {
      j := 1;
    } else {
      var n := FindWord(k, segment, Lower(sp), depth - 1);
      j := n + 1;
      LowerAgain(sp, n);
    }
  }

  lemma LowerAgain(sp: int, n: nat)
    ensures Wrap16(Lower(sp) - 2 * n) == Wrap16(sp - 2 * (n + 1))
  {
  }

  /** A word is not among the 32767 words below it. */
  lemma TopSurvives(k: nat, segment: u16, sp: u16, depth: nat)
    requires InWord(k, segment, sp) && depth < 0x8000
    ensures !InStack(k, segment, sp, depth)
  {
    if InStack(k, segment, sp, depth) {
      var j := FindWord(k, segment, sp, depth);
      WordsApart(k, segment, sp, j);
    }
  }

  lemma WordsApart(k: nat, segment: u16, sp: u16, j: nat)
    requires 1 <= j < 0x8000
    ensures InWord(k, segment, sp) ==> !InWord(k, segment, Wrap16(sp - 2 * j))
  {
    var other := Wrap16(sp - 2 * j);
    assert other == sp - 2 * j || other == sp - 2 * j + 0x1_0000;
  }

  lemma {:induction false} Deeper(k: nat, segment: u16, sp: u16, depth: nat, more: nat)
    requires depth <= more && InStack(k, segment, sp, depth)
    ensures InStack(k, segment, sp, more)
    decreases depth
  {
    if !InWord(k, segment, Lower(sp)) {
      Deeper(k, segment, Lower(sp), depth - 1, more - 1);
    }
  }

  lemma OnlyStackThen(a: seq<u8>, b: seq<u8>, c: seq<u8>, segment: u16, sp: u16, first: nat, second: nat, depth: nat)
    requires OnlyStack(a, b, segment, sp, first) && OnlyStack(b, c, segment, sp, second)
    requires first <= depth && second <= depth
    ensures OnlyStack(a, c, segment, sp, depth)
  {
    hide InStack;
    forall k | 0 <= k < M.SIZE && !InStack(k, segment, sp, depth)
      ensures c[k] == a[k]
    {
      if InStack(k, segment, sp, first) {
        Deeper(k, segment, sp, first, depth);
      }
      if InStack(k, segment, sp, second) {
        Deeper(k, segment, sp, second, depth);
      }
    }
  }

  /** Without wrap-around the stack is one range of bytes below SS:SP. */
  lemma {:induction false} StackIsRange(k: nat, segment: u16, sp: u16, depth: nat)
    requires 2 * depth <= sp
    ensures InStack(k, segment, sp, depth) <==> M.Physical(segment, sp) - 2 * depth <= k < M.Physical(segment, sp)
    decreases depth
  {
    if depth > 0 {
      StackIsRange(k, segment, Lower(sp), depth - 1);
      assert Lower(sp) == sp - 2;
    }
  }

  // ---------- one bracket ----------

  lemma PushedState(m: Machine, k: Field, segment: u16)
    requires Sized(m)
    ensures var r, sp := Pushed(m, Id(k), segment), Lower(m.regs[SP_SLOT]);
      && |r.regs| == SLOTS && r.regs == m.regs[SP_SLOT := sp]
      && WordAt(r.mem, M.Physical(segment, sp)) == m.regs[8 + k]
      && OnlyStack(m.mem, r.mem, segment, m.regs[SP_SLOT], 1)
  {
    hide WordAt, Id;
    var sp := Lower(m.regs[SP_SLOT]);
    WrittenWord(m.mem, M.Physical(segment, sp), m.regs[8 + k]);
    assert InStack(0, segment, m.regs[SP_SLOT], 1) <==> InWord(0, segment, sp) || InStack(0, segment, sp, 0);
  }

  lemma PoppedState(m: Machine, k: Field, segment: u16)
    requires Sized(m)
    ensures var r, value := Popped(m, Id(k), segment), WordAt(m.mem, Top(m, segment));
      |r.regs| == SLOTS && r.mem == m.mem && r.regs == m.regs[8 + k := value][SP_SLOT := Higher(m.regs[SP_SLOT])]
  {
    hide WordAt, Id;
  }

  lemma SameWord(a: seq<u8>, b: seq<u8>, segment: u16, sp: u16, depth: nat)
    requires OnlyStack(a, b, segment, sp, depth) && depth < 0x8000
    ensures WordAt(b, M.Physical(segment, sp)) == WordAt(a, M.Physical(segment, sp))
  {
    hide InStack;
    var at := M.Physical(segment, sp);
    TopSurvives(at, segment, sp, depth);
    TopSurvives(at + 1, segment, sp, depth);
  }

  lemma OneWordMore(a: seq<u8>, b: seq<u8>, c: seq<u8>, segment: u16, sp: u16, depth: nat)
    requires OnlyStack(a, b, segment, sp, 1) && OnlyStack(b, c, segment, Lower(sp), depth)
    ensures OnlyStack(a, c, segment, sp, depth + 1)
  {
    forall k | 0 <= k < M.SIZE && !InStack(k, segment, sp, depth + 1)
      ensures c[k] == a[k]
    {
      assert !InStack(k, segment, sp, 1) by {
        if InStack(k, segment, sp, 1) {
          Deeper(k, segment, sp, 1, depth + 1);
        }
      }
    }
  }

  // ---------- the main theorem ----------

  lemma HigherLower(sp: u16)
    ensures Higher(Lower(sp)) == sp
  {
  }

  /** A POP after a run that kept the word of its PUSH. */
  lemma BracketState(m: Machine, push: Field, done: Machine, pop: Field, segment: u16, depth: nat)
    requires Sized(m) && Sized(done) && depth < 0x8000 && done.regs[SP_SLOT] == Lower(m.regs[SP_SLOT])
    requires OnlyStack(Pushed(m, Id(push), segment).mem, done.mem, segment, Lower(m.regs[SP_SLOT]), depth)
    ensures var r, sp := Popped(done, Id(pop), segment), m.regs[SP_SLOT];
      && WordAt(done.mem, Top(done, segment)) == m.regs[8 + push]
      && Sized(r) && r.regs == done.regs[8 + pop := m.regs[8 + push]][SP_SLOT := sp]
      && OnlyStack(m.mem, r.mem, segment, sp, depth + 1)
  {
    hide Pushed, Popped, OnlyStack, Id, Lower, Higher, WordAt, M.Physical, InStack;
    var sp, pushed := m.regs[SP_SLOT], Pushed(m, Id(push), segment);
    PushedState(m, push, segment);
    SameWord(pushed.mem, done.mem, segment, Lower(sp), depth);
    PoppedState(done, pop, segment);
    HigherLower(sp);
    OneWordMore(m.mem, pushed.mem, done.mem, segment, sp, depth);
  }

  lemma {:induction false} AfterMeans(p: Program, m: Machine, segment: u16)
    requires Sized(m) && LoadsNoSp(p) && Depth(p) <= 0x8000
    ensures var r := After(p, m, segment);
      && Sized(r) && r.regs == Meaning(p, m.regs)
      && OnlyStack(m.mem, r.mem, segment, m.regs[SP_SLOT], Depth(p))
    decreases p
  {
    hide Sized, Pushed, Popped, Loaded, OnlyStack, Id, Lower, Higher, WordAt, M.Physical, InStack, After;
    SizedParts(m);
    AfterUnfolds(p, m, segment);
    var sp := m.regs[SP_SLOT];
    match p
    case Done =>
      Unchanged(m.mem, segment, sp);
    case Bracket(push, inner, pop, rest) =>
      var pushed := Pushed(m, Id(push), segment);
      PushedState(m, push, segment);
      AfterMeans(inner, pushed, segment);
      MeaningKeepsSp(inner, pushed.regs);
      var done := After(inner, pushed, segment);
      BracketState(m, push, done, pop, segment, Depth(inner));
      var popped := Popped(done, Id(pop), segment);
      AfterMeans(rest, popped, segment);
      OnlyStackThen(m.mem, popped.mem, After(rest, popped, segment).mem, segment, sp, Depth(inner) + 1, Depth(rest), Depth(p));
    case Load(reg, value, rest) =>
      LoadedState(m, reg, value);
      AfterMeans(rest, Loaded(m, Id(reg), value), segment);
  }

  lemma SizedParts(m: Machine)
    requires Sized(m)
    ensures |m.regs| == SLOTS && |m.mem| == M.SIZE
  {
  }

  lemma Unchanged(mem: seq<u8>, segment: u16, sp: u16)
    requires |mem| == M.SIZE
    ensures OnlyStack(mem, mem, segment, sp, 0)
  {
  }

  lemma LoadedState(m: Machine, k: Field, value: u16)
    requires Sized(m)
    ensures |m.regs| == SLOTS && Loaded(m, Id(k), value).regs == m.regs[8 + k := value] && Loaded(m, Id(k), value).mem == m.mem
  {
    hide Id;
  }

  /**
   * Running the code of a program of depth up to 32768 never fails, gives every register the value the
   * stack-free meaning gives it, SP its old one, and changes only the words below SP it pushed.
   */
  lemma WellBracketed(p: Program, m: Machine, segment: u16)
    requires Sized(m) && LoadsNoSp(p) && Depth(p) <= 0x8000
    ensures var r := Run(Code(p), 0, |Code(p)|, m, segment);
      && r.Ok? && Sized(r.value) && r.value.regs == Meaning(p, m.regs) && r.value.regs[SP_SLOT] == m.regs[SP_SLOT]
      && OnlyStack(m.mem, r.value.mem, segment, m.regs[SP_SLOT], Depth(p))
  {
    hide OnlyStack, Meaning, After, Code, Sized, Id;
    var code := Code(p);
    assert code[0..0 + |code|] == code;
    RunIsAfter(p, code, 0, |code|, m, segment);
    AfterMeans(p, m, segment);
    SizedParts(m);
    MeaningKeepsSp(p, m.regs);
  }

  /** When SP is large enough not to wrap, only the 2 * depth bytes below SS:SP change. */
  lemma ChangesOnlyBelowSp(p: Program, m: Machine, segment: u16, k: nat)
    requires Sized(m) && LoadsNoSp(p) && 2 * Depth(p) <= m.regs[SP_SLOT] && k < M.SIZE
    requires k < M.Physical(segment, m.regs[SP_SLOT]) - 2 * Depth(p) || k >= M.Physical(segment, m.regs[SP_SLOT])
    ensures Run(Code(p), 0, |Code(p)|, m, segment).Ok?
    ensures Run(Code(p), 0, |Code(p)|, m, segment).value.mem[k] == m.mem[k]
  {
    hide Run, Code, Meaning, InStack;
    WellBracketed(p, m, segment);
    StackIsRange(k, segment, m.regs[SP_SLOT], Depth(p));
  }

  // ---------- the depth is as large as it can be ----------

  const BX: Field := 3

  /** PUSH BX, n times, and the POPs. */
  function Chain(n: nat): Program {
    if n == 0 then Done else Bracket(BX, Chain(n - 1), BX, Done)
  }

  lemma {:induction false} ChainIs(n: nat, regs: seq<u16>)
    requires |regs| == SLOTS
    ensures Depth(Chain(n)) == n && LoadsNoSp(Chain(n)) && Meaning(Chain(n), regs) == regs
  {
    hide Meaning, Lower;
    if n == 0 {
      MeaningOfDone(regs);
    } else {
      var lowered: seq<u16> := regs[SP_SLOT := Lower(regs[SP_SLOT])];
      ChainIs(n - 1, lowered);
      MeaningOfBracket(BX, Chain(n - 1), regs);
      assert lowered[8 + BX := regs[8 + BX]][SP_SLOT := regs[SP_SLOT]] == regs;
    }
  }

  lemma MeaningOfDone(regs: seq<u16>)
    requires |regs| == SLOTS
    ensures Meaning(Done, regs) == regs
  {
  }

  lemma MeaningOfBracket(k: Field, inner: Program, regs: seq<u16>)
    requires |regs| == SLOTS
    ensures Meaning(Bracket(k, inner, k, Done), regs) ==
      Meaning(inner, regs[SP_SLOT := Lower(regs[SP_SLOT])])[8 + k := regs[8 + k]][SP_SLOT := regs[SP_SLOT]]
  {
  }

  /** The chain leaves BX in each of its n words. */
  lemma {:induction false} ChainFills(n: nat, m: Machine, segment: u16, j: nat)
    requires Sized(m) && 1 <= j <= n <= 0x8000
    ensures WordAt(After(Chain(n), m, segment).mem, M.Physical(segment, Wrap16(m.regs[SP_SLOT] - 2 * j))) == m.regs[8 + BX]
    decreases n
  {
    hide Sized, Pushed, Popped, OnlyStack, Id, Lower, WordAt, M.Physical, After, Meaning;
    SizedParts(m);
    AfterUnfolds(Chain(n), m, segment);
    AfterUnfolds(Done, m, segment);
    var sp, pushed := m.regs[SP_SLOT], Pushed(m, Id(BX), segment);
    PushedState(m, BX, segment);
    ChainIs(n - 1, pushed.regs);
    var done := After(Chain(n - 1), pushed, segment);
    AfterMeans(Chain(n - 1), pushed, segment);
    PoppedState(done, BX, segment);
    var popped := Popped(done, Id(BX), segment);
    AfterUnfolds(Done, popped, segment);
    if j == 1 {
      SameWord(pushed.mem, done.mem, segment, Lower(sp), n - 1);
      LowerIs(sp);
    } else {
      ChainFills(n - 1, pushed, segment, j - 1);
      LowerAgain(sp, j - 1);
    }
  }

  lemma LowerIs(sp: int)
    ensures Lower(sp) == Wrap16(sp - 2 * 1)
  {
  }

  const AX: Field := 0

  /** PUSH AX around n times PUSH BX. */
  function Around(n: nat): Program {
    Bracket(AX, Chain(n), AX, Done)
  }

  /** At depth 32769 the stack has wrapped onto its first word: AX gets the value of BX, not its own. */
  lemma OneDeeperOverwrites(n: nat, m: Machine, segment: u16)
    requires n == 0x8000 && Sized(m)
    ensures Depth(Around(n)) == n + 1 && LoadsNoSp(Around(n)) && Meaning(Around(n), m.regs) == m.regs
    ensures After(Around(n), m, segment).regs[8 + AX] == m.regs[8 + BX]
  {
    hide After, Meaning, Around;
    AroundMeans(n, m.regs);
    AroundRuns(n, m, segment);
  }

  lemma AroundMeans(n: nat, regs: seq<u16>)
    requires |regs| == SLOTS
    ensures Depth(Around(n)) == n + 1 && LoadsNoSp(Around(n)) && Meaning(Around(n), regs) == regs
  {
    hide Meaning, Chain, Lower;
    var chain := Chain(n);
    var lowered: seq<u16> := regs[SP_SLOT := Lower(regs[SP_SLOT])];
    MeaningOfBracket(AX, chain, regs);
    ChainIs(n, lowered);
    assert lowered[8 + AX := regs[8 + AX]][SP_SLOT := regs[SP_SLOT]] == regs;
  }

  lemma AroundRuns(n: nat, m: Machine, segment: u16)
    requires n == 0x8000 && Sized(m)
    ensures After(Around(n), m, segment).regs[8 + AX] == m.regs[8 + BX]
  {
    hide Sized, Pushed, Popped, OnlyStack, Id, Lower, Higher, Wrap16, InStack, WordAt, M.Physical;
    hide After, Chain, Meaning, Depth, LoadsNoSp;
    SizedParts(m);
    var chain := Chain(n);
    AfterUnfolds(Around(n), m, segment);
    var sp, pushed := m.regs[SP_SLOT], Pushed(m, Id(AX), segment);
    PushedState(m, AX, segment);
    ChainIs(n, pushed.regs);
    var done := After(chain, pushed, segment);
    AfterMeans(chain, pushed, segment);
    ChainFills(n, pushed, segment, n);
    WrappedAround(Lower(sp));
    PoppedState(done, AX, segment);
    AfterUnfolds(Done, Popped(done, Id(AX), segment), segment);
  }

  lemma WrappedAround(sp: u16)
    ensures Wrap16(sp - 2 * 0x8000) == sp
  {
  }
}
