/**
 * Well-bracketed runs of machine code: every PUSH has its POP, with loads of immediates in between
 * (src/semantics/instruction_translator.cpp, src/runtime/real_mode_memory.cpp).
 */
module StackDiscipline {
  import opened Outcome
  import opened Words
  import opened InstructionTranslator
  import A = Assembler8086
  import D = InstructionDecoder
  import S = RegisterSsa
  import M = RealModeMemory

  /** The register field of an opcode: AX CX DX BX SP BP SI DI. */
  type Field = k: nat | k < 8

  const SP_FIELD: Field := 4

  datatype Program =
    | Done
    | Bracket(push: Field, inner: Program, pop: Field, rest: Program)
    | Load(reg: Field, value: u16, rest: Program)

  function Code(p: Program): seq<u8> {
    match p
    case Done => []
    case Bracket(push, inner, pop, rest) => [0x50 + push] + Code(inner) + [0x58 + pop] + Code(rest)
    case Load(reg, value, rest) => [0xb8 + reg, value % 0x100, value / 0x100] + Code(rest)
  }

  function Depth(p: Program): nat {
    match p
    case Done => 0
    case Bracket(_, inner, _, rest) => if Depth(inner) + 1 >= Depth(rest) then Depth(inner) + 1 else Depth(rest)
    case Load(_, _, rest) => Depth(rest)
  }

  predicate LoadsNoSp(p: Program) {
    match p
    case Done => true
    case Bracket(_, inner, _, rest) => LoadsNoSp(inner) && LoadsNoSp(rest)
    case Load(reg, _, rest) => reg != SP_FIELD && LoadsNoSp(rest)
  }

  predicate PopsNoSp(p: Program) {
    match p
    case Done => true
    case Bracket(_, inner, pop, rest) => pop != SP_FIELD && PopsNoSp(inner) && PopsNoSp(rest)
    case Load(_, _, rest) => PopsNoSp(rest)
  }

  predicate Pushes(p: Program) {
    match p
    case Done => false
    case Bracket(_, _, _, _) => true
    case Load(_, _, rest) => Pushes(rest)
  }

  // ---------- running machine code ----------

  datatype RunError = Undecodable(decoding: D.DecodeError) | Untranslatable(translation: TranslationError) | PastEnd

  /** Decodes and translates one instruction after the other, from at up to end. */
  function Run(code: seq<u8>, at: nat, end: nat, m: Machine, segment: u16): (r: Result<Machine, RunError>)
    requires Sized(m)
    ensures r.Ok? ==> Sized(r.value)
    decreases end - at
  {
    if at >= end then if at == end then Ok(m) else Err(PastEnd)
    else
      match D.DecodeAt(code, at)
      case Err(error) => Err(Undecodable(error))
      case Ok(i) =>
        if i.size == 0 then Err(PastEnd)
        else
          match Translated(code, i, m, segment)
          case Err(error) => Err(Untranslatable(error))
          case Ok(after) => Run(code, at + i.size, end, after, segment)
  }

  /** The SSA register of a register field. */
  function Id(k: Field): (id: S.RegisterId)
    ensures id < S.FLAGS && SlotOf(id) == 8 + k && 8 <= id
    ensures RegisterFor(D.RegisterOperand(D.WordWidth, k).reg) == Some(id)
  {
    [8, 10, 11, 9, 15, 14, 12, 13][k]
  }

  function After(p: Program, m: Machine, segment: u16): (r: Machine)
    requires Sized(m)
    ensures Sized(r)
    decreases p
  {
    match p
    case Done => m
    case Bracket(push, inner, pop, rest) =>
      After(rest, Popped(After(inner, Pushed(m, Id(push), segment), segment), Id(pop), segment), segment)
    case Load(reg, value, rest) => After(rest, Loaded(m, Id(reg), value), segment)
  }

  ghost predicate Occurs(code: seq<u8>, at: nat, part: seq<u8>) {
    at + |part| <= |code| && code[at..at + |part|] == part
  }

  lemma OccursParts(code: seq<u8>, at: nat, first: seq<u8>, second: seq<u8>)
    requires Occurs(code, at, first + second)
    ensures Occurs(code, at, first) && Occurs(code, at + |first|, second)
  {
    assert code[at..at + |first|] == (first + second)[..|first|];
    assert code[at + |first|..at + |first| + |second|] == (first + second)[|first|..];
  }

  lemma DecodesStack(code: seq<u8>, at: nat, k: Field, pop: bool)
    requires at < |code| && code[at] == (if pop then 0x58 else 0x50) + k
    ensures D.DecodeAt(code, at) == Ok(D.Plain(D.Stack, 1).(offset := at, first := D.RegisterOperand(D.WordWidth, k),
                                                          operandCount := 1, stackPop := pop))
  {
    hide D.DecodeAt;
    FieldRegister(k);
    var reg := D.RegisterFor(k, D.WordWidth);
    A.AssembledDecodes(if pop then A.Pop(reg) else A.Push(reg), code, at);
  }

  /** The assembler's name for a field. */
  lemma FieldRegister(k: Field)
    ensures var reg := D.RegisterFor(k, D.WordWidth);
      A.IsWord(reg) && !A.IsByte(reg) && A.CodeOf(reg) == k && A.InRegisterOperand(reg) == D.RegisterOperand(D.WordWidth, k)
  {
  }

  lemma DecodesLoad(code: seq<u8>, at: nat, k: Field, value: u16)
    requires Occurs(code, at, [0xb8 + k, value % 0x100, value / 0x100])
    ensures D.DecodeAt(code, at) ==
      Ok(D.Plain(D.MoveImmediate, 3).(offset := at, first := D.RegisterOperand(D.WordWidth, k),
                                      second := D.ImmediateOperand(D.WordWidth, value), operandCount := 2))
  {
    hide D.DecodeAt;
    FieldRegister(k);
    A.AssembledDecodes(A.LoadRegister(D.RegisterFor(k, D.WordWidth), value), code, at);
  }

  lemma RunStack(code: seq<u8>, at: nat, end: nat, k: Field, pop: bool, m: Machine, segment: u16)
    requires at < end <= |code| && code[at] == (if pop then 0x58 else 0x50) + k && Sized(m)
    ensures Run(code, at, end, m, segment) ==
      Run(code, at + 1, end, if pop then Popped(m, Id(k), segment) else Pushed(m, Id(k), segment), segment)
  {
    hide D.DecodeAt, Popped, Pushed, Loaded, Sized;
    DecodesStack(code, at, k, pop);
  }

  lemma RunLoad(code: seq<u8>, at: nat, end: nat, k: Field, value: u16, m: Machine, segment: u16)
    requires at < end <= |code| && Occurs(code, at, [0xb8 + k, value % 0x100, value / 0x100]) && Sized(m)
    ensures Run(code, at, end, m, segment) == Run(code, at + 3, end, Loaded(m, Id(k), value), segment)
  {
    hide D.DecodeAt, Popped, Pushed, Loaded, Sized;
    DecodesLoad(code, at, k, value);
  }

  /** A bracketed program never fails, in any segment, whatever its depth. */
  lemma {:induction false} RunIsAfter(p: Program, code: seq<u8>, at: nat, end: nat, m: Machine, segment: u16)
    requires Occurs(code, at, Code(p)) && at + |Code(p)| <= end <= |code| && Sized(m)
    ensures Run(code, at, end, m, segment) == Run(code, at + |Code(p)|, end, After(p, m, segment), segment)
    decreases p
  {
    hide Run, D.DecodeAt, Popped, Pushed, Loaded, Sized, Occurs, Id, Code, After;
    AfterUnfolds(p, m, segment);
    match p
    case Done =>
      assert Code(p) == [] by { CodeOfDone(); }
    case Bracket(push, inner, pop, rest) =>
      BracketOccurs(p, code, at);
      var inside, behind := at + 1, at + 1 + |Code(inner)|;
      RunStack(code, at, end, push, false, m, segment);
      var pushed := Pushed(m, Id(push), segment);
      RunIsAfter(inner, code, inside, end, pushed, segment);
      var done := After(inner, pushed, segment);
      RunStack(code, behind, end, pop, true, done, segment);
      RunIsAfter(rest, code, behind + 1, end, Popped(done, Id(pop), segment), segment);
    case Load(reg, value, rest) =>
      LoadOccurs(p, code, at);
      RunLoad(code, at, end, reg, value, m, segment);
      RunIsAfter(rest, code, at + 3, end, Loaded(m, Id(reg), value), segment);
  }

  lemma BracketOccurs(p: Program, code: seq<u8>, at: nat)
    requires p.Bracket? && Occurs(code, at, Code(p))
    ensures var behind := at + 1 + |Code(p.inner)|;
      && at + |Code(p)| == behind + 1 + |Code(p.rest)| <= |code|
      && code[at] == 0x50 + p.push && code[behind] == 0x58 + p.pop
      && Occurs(code, at + 1, Code(p.inner)) && Occurs(code, behind + 1, Code(p.rest))
  {
    hide Code, Occurs;
    var inner, rest := Code(p.inner), Code(p.rest);
    BracketCode(p);
    OccursParts(code, at, [0x50 + p.push], inner + ([0x58 + p.pop] + rest));
    OccursParts(code, at + 1, inner, [0x58 + p.pop] + rest);
    OccursParts(code, at + 1 + |inner|, [0x58 + p.pop], rest);
    OccursOne(code, at, 0x50 + p.push);
    OccursOne(code, at + 1 + |inner|, 0x58 + p.pop);
    OccursInside(code, at + 2 + |inner|, rest);
  }

  lemma BracketCode(p: Program)
    requires p.Bracket?
    ensures Code(p) == [0x50 + p.push] + (Code(p.inner) + ([0x58 + p.pop] + Code(p.rest)))
  {
    Regroup([0x50 + p.push], Code(p.inner), [0x58 + p.pop], Code(p.rest));
  }

  lemma Regroup(a: seq<u8>, b: seq<u8>, c: seq<u8>, d: seq<u8>)
    ensures a + b + c + d == a + (b + (c + d))
  {
  }

  lemma OccursOne(code: seq<u8>, at: nat, b: u8)
    requires Occurs(code, at, [b])
    ensures at < |code| && code[at] == b
  {
    assert code[at..at + 1] == [b];
  }

  lemma OccursInside(code: seq<u8>, at: nat, part: seq<u8>)
    requires Occurs(code, at, part)
    ensures at + |part| <= |code|
  {
  }

  lemma LoadOccurs(p: Program, code: seq<u8>, at: nat)
    requires p.Load? && Occurs(code, at, Code(p))
    ensures at + |Code(p)| == at + 3 + |Code(p.rest)| <= |code|
    ensures Occurs(code, at, [0xb8 + p.reg, p.value % 0x100, p.value / 0x100]) && Occurs(code, at + 3, Code(p.rest))
  {
    OccursParts(code, at, [0xb8 + p.reg, p.value % 0x100, p.value / 0x100], Code(p.rest));
  }

  lemma CodeOfDone()
    ensures Code(Done) == []
  {
  }

  lemma AfterUnfolds(p: Program, m: Machine, segment: u16)
    requires Sized(m)
    ensures After(p, m, segment) ==
      match p
      case Done => m
      case Bracket(push, inner, pop, rest) =>
        After(rest, Popped(After(inner, Pushed(m, Id(push), segment), segment), Id(pop), segment), segment)
      case Load(reg, value, rest) => After(rest, Loaded(m, Id(reg), value), segment)
  {
  }
}
