/** How the constants of the SSA table follow the concrete registers over a well-bracketed program. */
module StackSsa {
  import opened Outcome
  import opened Words
  import opened InstructionTranslator
  import opened StackDiscipline
  import opened StackTheorems
  import S = RegisterSsa
  import M = RealModeMemory

  /** Every register has a value of the table. */
  ghost predicate KnownIds(m: Machine) {
    Sized(m) && forall r :: 0 <= r < S.REGISTERS ==> m.current[r] < |m.values|
  }

  /** The constant the table has for a register now. */
  function ConstantOf(m: Machine, reg: S.RegisterId): Option<u16>
    requires KnownIds(m) && reg < S.REGISTERS
  {
    m.values[m.current[reg]].constant
  }

  /** Constants of the word registers other than SP are what the registers hold. */
  ghost predicate Agrees(m: Machine) {
    && KnownIds(m)
    && forall k: Field :: k != SP_FIELD && ConstantOf(m, Id(k)).Some? ==> ConstantOf(m, Id(k)).value == m.regs[8 + k]
  }

  lemma DefinedConstants(m: Machine, reg: S.RegisterId, value: u16)
    requires KnownIds(m) && reg < S.REGISTERS
    ensures var r := Defined(m, reg, value);
      && KnownIds(r) && r.regs == m.regs
      && forall q: S.RegisterId :: q < S.REGISTERS ==> ConstantOf(r, q) == if q == reg then Some(value) else ConstantOf(m, q)
  {
  }

  lemma StoredWord(regs: seq<u16>, k: Field, value: u16)
    requires |regs| == SLOTS
    ensures Stored(regs, Id(k), value) == regs[8 + k := value]
  {
  }

  lemma IdsDiffer(j: Field, k: Field)
    ensures Id(j) == Id(k) <==> j == k
    ensures Id(j) == SP <==> j == SP_FIELD
  {
  }

  /** What a step leaves of agreement, and which constant it gives SP. */
  ghost predicate Step(m: Machine, r: Machine, spConstant: Option<u16>) {
    KnownIds(m) && KnownIds(r) && (Agrees(m) ==> Agrees(r)) && ConstantOf(r, SP) == spConstant
  }

  lemma PushStep(m: Machine, k: Field, segment: u16)
    requires KnownIds(m)
    ensures Step(m, Pushed(m, Id(k), segment), Some(Lower(m.regs[SP_SLOT])))
    ensures Pushed(m, Id(k), segment).regs[SP_SLOT] == Lower(m.regs[SP_SLOT])
  {
    hide Id, Stored;
    var sp := Lower(m.regs[SP_SLOT]);
    var mem := WithWord(m.mem, M.Physical(segment, sp), ConcreteValue(Id(k), m.regs));
    var t := m.(mem := mem, regs := Stored(m.regs, SP, sp));
    StoredSp(m.regs, sp);
    DefinedConstants(t, SP, sp);
    forall j: Field
      ensures Id(j) == SP <==> j == SP_FIELD
    {
      IdsDiffer(j, k);
    }
  }

  lemma PopStep(m: Machine, k: Field, segment: u16)
    requires KnownIds(m)
    ensures Step(m, Popped(m, Id(k), segment),
                 if k == SP_FIELD then Some(WordAt(m.mem, Top(m, segment))) else ConstantOf(m, SP))
    ensures Popped(m, Id(k), segment).regs[SP_SLOT] == Higher(m.regs[SP_SLOT])
  {
    hide Id, Stored, WordAt;
    var value := WordAt(m.mem, Top(m, segment));
    var t := m.(regs := Stored(Stored(m.regs, Id(k), value), SP, Higher(m.regs[SP_SLOT])));
    StoredWord(m.regs, k, value);
    StoredSp(Stored(m.regs, Id(k), value), Higher(m.regs[SP_SLOT]));
    DefinedConstants(t, Id(k), value);
    forall j: Field
      ensures (Id(j) == Id(k) <==> j == k) && (Id(k) == SP <==> k == SP_FIELD)
    {
      IdsDiffer(j, k);
      IdsDiffer(k, j);
    }
  }

  lemma LoadStep(m: Machine, k: Field, value: u16)
    requires KnownIds(m)
    ensures Step(m, Loaded(m, Id(k), value), if k == SP_FIELD then Some(value) else ConstantOf(m, SP))
    ensures k != SP_FIELD ==> Loaded(m, Id(k), value).regs[SP_SLOT] == m.regs[SP_SLOT]
  {
    hide Id, Stored;
    StoredWord(m.regs, k, value);
    DefinedConstants(m.(regs := Stored(m.regs, Id(k), value)), Id(k), value);
    forall j: Field
      ensures (Id(j) == Id(k) <==> j == k) && (Id(k) == SP <==> k == SP_FIELD)
    {
      IdsDiffer(j, k);
      IdsDiffer(k, j);
    }
  }

  /** The nesting at which the last PUSH of the program stands; 0 without one. */
  function LastPush(p: Program): nat {
    match p
    case Done => 0
    case Bracket(_, inner, _, rest) => if LastPush(rest) > 0 then LastPush(rest) else 1 + LastPush(inner)
    case Load(_, _, rest) => LastPush(rest)
  }

  lemma {:induction false} LastPushBounds(p: Program)
    ensures LastPush(p) <= Depth(p) && (Pushes(p) <==> LastPush(p) > 0)
    decreases p
  {
    match p
    case Done =>
    case Bracket(_, inner, _, rest) =>
      LastPushBounds(inner);
      LastPushBounds(rest);
    case Load(_, _, rest) =>
      LastPushBounds(rest);
  }

  function Down(sp: int, words: nat): u16 {
    Wrap16(sp - 2 * words)
  }

  /** The constants of the registers other than SP stay right, whatever the program and its depth. */
  lemma {:induction false} AgreementKept(p: Program, m: Machine, segment: u16)
    requires KnownIds(m)
    ensures var r := After(p, m, segment); KnownIds(r) && (Agrees(m) ==> Agrees(r))
    decreases p
  {
    hide Pushed, Popped, Loaded, Id, After, Agrees, ConstantOf, KnownIds, Sized;
    KnownSized(m);
    AfterUnfolds(p, m, segment);
    match p
    case Done =>
    case Bracket(push, inner, pop, rest) =>
      var pushed := Pushed(m, Id(push), segment);
      PushStep(m, push, segment);
      AgreementKept(inner, pushed, segment);
      var done := After(inner, pushed, segment);
      PopStep(done, pop, segment);
      AgreementKept(rest, Popped(done, Id(pop), segment), segment);
    case Load(reg, value, rest) =>
      LoadStep(m, reg, value);
      AgreementKept(rest, Loaded(m, Id(reg), value), segment);
  }

  // ---------- the constant of SP ----------

  /**
   * The last constant a program gives SP, along its meaning without a stack: the lowered SP at a PUSH and
   * the pushed value at a POP SP. A POP of another register gives SP none.
   */
  function LastSp(p: Program, regs: seq<u16>): Option<u16>
    requires |regs| == SLOTS
    decreases p
  {
    match p
    case Done => None
    case Bracket(push, inner, pop, rest) =>
      var sp, value := regs[SP_SLOT], regs[8 + push];
      var lowered := regs[SP_SLOT := Lower(sp)];
      var inside := LastSp(inner, lowered);
      var behind := LastSp(rest, Meaning(inner, lowered)[8 + pop := value][SP_SLOT := sp]);
      if behind.Some? then behind else if pop == SP_FIELD then Some(value) else if inside.Some? then inside else Some(Lower(sp))
    case Load(reg, value, rest) => LastSp(rest, regs[8 + reg := value])
  }

  lemma {:induction false} SpConstantByMeaning(p: Program, m: Machine, segment: u16)
    requires KnownIds(m) && LoadsNoSp(p) && Depth(p) <= 0x8000 && |m.regs| == SLOTS
    ensures KnownIds(After(p, m, segment))
    ensures ConstantOf(After(p, m, segment), SP) == if LastSp(p, m.regs).Some? then LastSp(p, m.regs) else ConstantOf(m, SP)
    decreases p
  {
    hide Pushed, Popped, Loaded, Id, After, Agrees, ConstantOf, Lower, Higher, KnownIds, Sized, OnlyStack, WordAt, Meaning;
    KnownSized(m);
    AfterUnfolds(p, m, segment);
    match p
    case Done =>
    case Bracket(push, inner, pop, rest) =>
      var pushed := Pushed(m, Id(push), segment);
      PushStep(m, push, segment);
      PushedState(m, push, segment);
      SpConstantByMeaning(inner, pushed, segment);
      var done := After(inner, pushed, segment);
      AfterMeans(inner, pushed, segment);
      MeaningKeepsSp(inner, pushed.regs);
      BracketState(m, push, done, pop, segment, Depth(inner));
      PopStep(done, pop, segment);
      SpConstantByMeaning(rest, Popped(done, Id(pop), segment), segment);
    case Load(reg, value, rest) =>
      LoadStep(m, reg, value);
      LoadedState(m, reg, value);
      SpConstantByMeaning(rest, Loaded(m, Id(reg), value), segment);
  }

  /**
   * Without a POP SP, at any depth: the constant of SP stays at the last PUSH, for POP gives SP no new value
   * in the table. SP itself is restored.
   */
  lemma {:induction false} SpConstantIsStale(p: Program, m: Machine, segment: u16)
    requires KnownIds(m) && LoadsNoSp(p)
    ensures KnownIds(After(p, m, segment)) && After(p, m, segment).regs[SP_SLOT] == m.regs[SP_SLOT]
    ensures PopsNoSp(p) ==>
        ConstantOf(After(p, m, segment), SP) == if LastPush(p) > 0 then Some(Down(m.regs[SP_SLOT], LastPush(p))) else ConstantOf(m, SP)
    decreases p
  {
    hide Pushed, Popped, Loaded, Id, After, Agrees, ConstantOf, Lower, Higher, Down, KnownIds, Sized;
    KnownSized(m);
    AfterUnfolds(p, m, segment);
    match p
    case Done =>
    case Bracket(push, inner, pop, rest) =>
      var sp, pushed := m.regs[SP_SLOT], Pushed(m, Id(push), segment);
      PushStep(m, push, segment);
      SpConstantIsStale(inner, pushed, segment);
      var done := After(inner, pushed, segment);
      PopStep(done, pop, segment);
      SpConstantIsStale(rest, Popped(done, Id(pop), segment), segment);
      DownTwice(sp, LastPush(inner));
    case Load(reg, value, rest) =>
      LoadStep(m, reg, value);
      SpConstantIsStale(rest, Loaded(m, Id(reg), value), segment);
  }

  /** The last instruction that gives SP a constant is a PUSH. */
  predicate EndsInPush(p: Program) {
    match p
    case Done => false
    case Bracket(_, inner, pop, rest) =>
      if Pushes(rest) then EndsInPush(rest) else pop != SP_FIELD && (Pushes(inner) ==> EndsInPush(inner))
    case Load(_, _, rest) => EndsInPush(rest)
  }

  lemma {:induction false} LastSpIsPush(p: Program, regs: seq<u16>)
    requires |regs| == SLOTS && LoadsNoSp(p)
    ensures LastSp(p, regs) == None <==> !Pushes(p)
    ensures EndsInPush(p) ==> LastSp(p, regs) == Some(Down(regs[SP_SLOT], LastPush(p)))
    ensures PopsNoSp(p) && Pushes(p) ==> EndsInPush(p)
    decreases p
  {
    hide Lower, Higher, Down, Meaning;
    LastPushBounds(p);
    match p
    case Done =>
    case Bracket(push, inner, pop, rest) =>
      var sp, value := regs[SP_SLOT], regs[8 + push];
      var lowered: seq<u16> := regs[SP_SLOT := Lower(sp)];
      LastPushBounds(inner);
      LastPushBounds(rest);
      LastSpIsPush(inner, lowered);
      LastSpIsPush(rest, Meaning(inner, lowered)[8 + pop := value][SP_SLOT := sp]);
      DownTwice(sp, LastPush(inner));
    case Load(reg, value, rest) =>
      LastSpIsPush(rest, regs[8 + reg := value]);
  }

  /** The constant of SP after any bracketed program; only behind a POP SP does the depth matter. */
  lemma SpConstantIs(p: Program, m: Machine, segment: u16)
    requires KnownIds(m) && LoadsNoSp(p) && (PopsNoSp(p) || Depth(p) <= 0x8000)
    ensures var r := After(p, m, segment);
      && |m.regs| == SLOTS && KnownIds(r) && r.regs[SP_SLOT] == m.regs[SP_SLOT]
      && ConstantOf(r, SP) == if LastSp(p, m.regs).Some? then LastSp(p, m.regs) else ConstantOf(m, SP)
  {
    hide After, KnownIds, ConstantOf, Sized, LastSp, Down;
    KnownSized(m);
    SpConstantIsStale(p, m, segment);
    if PopsNoSp(p) {
      LastSpIsPush(p, m.regs);
      LastPushBounds(p);
    } else {
      SpConstantByMeaning(p, m, segment);
    }
  }

  /** From a right constant of SP, the table is right again exactly when the last constant given is SP or there is none. */
  lemma SpConstantRightIff(p: Program, m: Machine, segment: u16)
    requires KnownIds(m) && LoadsNoSp(p) && (PopsNoSp(p) || Depth(p) <= 0x8000) && ConstantOf(m, SP) == Some(m.regs[SP_SLOT])
    ensures var r, sp := After(p, m, segment), m.regs[SP_SLOT];
      |m.regs| == SLOTS && KnownIds(r) && (ConstantOf(r, SP) == Some(r.regs[SP_SLOT]) <==> LastSp(p, m.regs) in {None, Some(sp)})
  {
    hide After, KnownIds, ConstantOf, Sized, LastSp;
    SpConstantIs(p, m, segment);
  }

  /** So behind a last PUSH the table's SP is right exactly at a nesting that is a multiple of 32768: never below that depth. */
  lemma SpConstantIsWrong(p: Program, m: Machine, segment: u16)
    requires KnownIds(m) && LoadsNoSp(p) && EndsInPush(p) && (PopsNoSp(p) || Depth(p) <= 0x8000)
    ensures var r := After(p, m, segment);
      && KnownIds(r) && r.regs[SP_SLOT] == m.regs[SP_SLOT] && 0 < LastPush(p) <= Depth(p) && ConstantOf(r, SP).Some?
      && (ConstantOf(r, SP) == Some(r.regs[SP_SLOT]) <==> LastPush(p) % 0x8000 == 0)
      && (Depth(p) < 0x8000 ==> ConstantOf(r, SP) != Some(r.regs[SP_SLOT]))
  {
    hide After, KnownIds, ConstantOf, Sized, LastSp, Down;
    KnownSized(m);
    SpConstantIs(p, m, segment);
    LastSpIsPush(p, m.regs);
    LastPushBounds(p);
    DownIsSame(m.regs[SP_SLOT], LastPush(p));
  }

  /** POP SP gives SP the popped word in the table, and SP + 2 among the concrete registers. */
  lemma PopSpCounterexample(m: Machine, segment: u16)
    requires KnownIds(m)
    ensures var p := Bracket(0, Done, SP_FIELD, Done); var r := After(p, m, segment);
      && |m.regs| == SLOTS && KnownIds(r) && r.regs[SP_SLOT] == m.regs[SP_SLOT] && ConstantOf(r, SP) == Some(m.regs[8])
  {
    var p := Bracket(0, Done, SP_FIELD, Done);
    assert LastSp(p, m.regs) == Some(m.regs[8]);
    hide After, KnownIds, ConstantOf, Sized, LastSp;
    SpConstantIs(p, m, segment);
  }

  lemma KnownSized(m: Machine)
    requires KnownIds(m)
    ensures Sized(m) && |m.regs| == SLOTS
  {
  }

  lemma DownTwice(sp: u16, n: nat)
    ensures Higher(Lower(sp)) == sp && Down(Lower(sp), n) == Down(sp, 1 + n) && Down(sp, 1) == Lower(sp)
  {
    DownAgain(sp, n);
  }

  lemma DownAgain(sp: u16, n: nat)
    ensures Down(Lower(sp), n) == Down(sp, 1 + n)
  {
    var low := sp - 2;
    assert Lower(sp) == low || Lower(sp) == low + 0x1_0000;
    assert Down(sp, 1 + n) == Wrap16(low - 2 * n);
  }

  lemma DownIsSame(sp: u16, n: nat)
    ensures Down(sp, n) == sp <==> n % 0x8000 == 0
  {
    var turns, rest := n / 0x8000, n % 0x8000;
    assert sp - 2 * n == sp - 2 * rest - 0x1_0000 * turns;
    assert Down(sp, n) == Wrap16(sp - 2 * rest);
    assert Wrap16(sp - 2 * rest) == sp - 2 * rest || Wrap16(sp - 2 * rest) == sp - 2 * rest + 0x1_0000;
  }
}
