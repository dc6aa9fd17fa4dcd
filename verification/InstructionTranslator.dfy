/**
 * PUSH, POP and moves of an immediate to a register, on concrete registers and memory and on the SSA table
 * (src/semantics/instruction_translator.cpp).
 */
module InstructionTranslator {
  import opened Outcome
  import opened Words
  import D = InstructionDecoder
  import S = RegisterSsa
  import M = RealModeMemory

  datatype TranslationError = ExceedsSource | NeedsState | NotWordRegister | DestinationNotRegister | NotImplemented

  /** memory_access; the width is always a word here. */
  datatype Access = Access(isWrite: bool, physical: u32)

  /** semantic_effect. */
  datatype Effect = Effect(destination: S.RegisterId, ssaValue: nat, immediate: Option<u16>, memory: Option<Access>)

  const SLOTS: nat := 20
  const SP_SLOT: nat := 12
  const SP: S.RegisterId := 15

  /** What translation changes: register_values, memory, the SSA table and the current value of each register. */
  datatype Machine = Machine(regs: seq<u16>, mem: seq<u8>, values: seq<S.SsaValue>, current: seq<nat>)

  predicate Sized(m: Machine) {
    |m.regs| == SLOTS && |m.mem| == M.SIZE && |m.current| == S.REGISTERS
  }

  // ---------- registers ----------

  /** The stack pointer after a push, and after a pop. */
  function Lower(sp: int): u16 {
    Wrap16(sp - 2)
  }

  function Higher(sp: int): u16 {
    Wrap16(sp + 2)
  }

  function HighByte(half: int): u16 {
    Wrap16(half * 0x100)
  }

  /** register_for: segment registers have no SSA register. */
  function RegisterFor(reg: D.RegisterName): (r: Option<S.RegisterId>)
    ensures r.Some? ==> r.value < S.FLAGS
    ensures r.None? <==> reg in {D.ES, D.CS, D.SS, D.DS}
  {
    match reg
    case AL => Some(0) case CL => Some(1) case DL => Some(2) case BL => Some(3)
    case AH => Some(4) case CH => Some(5) case DH => Some(6) case BH => Some(7)
    case AX => Some(8) case BX => Some(9) case CX => Some(10) case DX => Some(11)
    case SI => Some(12) case DI => Some(13) case BP => Some(14) case SP => Some(15)
    case _ => None
  }

  /** The index of an SSA register among the concrete registers. */
  function SlotOf(reg: S.RegisterId): (slot: nat)
    requires reg < S.FLAGS
    ensures slot < 16
  {
    if reg <= 8 then reg else [11, 9, 10, 14, 15, 13, 12][reg - 9]
  }

  function ConcreteValue(reg: S.RegisterId, regs: seq<u16>): u16
    requires |regs| == SLOTS
  {
    if reg >= S.FLAGS then 0 else regs[SlotOf(reg)]
  }

  /** store_concrete: a byte half also updates its word, a word leaves its halves alone. */
  function Stored(regs: seq<u16>, reg: S.RegisterId, value: u16): (r: seq<u16>)
    requires |regs| == SLOTS
    ensures |r| == SLOTS
  {
    if reg >= S.FLAGS then regs
    else if reg < 8 then
      var byte := regs[reg := value % 0x100];
      byte[8 + reg % 4 := Bitwise16(Or, HighByte(byte[4 + reg % 4]), byte[reg % 4])]
    else regs[SlotOf(reg) := value]
  }

  /** The four words made of two halves hold their halves. */
  predicate Coherent(regs: seq<u16>, pair: nat)
    requires |regs| == SLOTS && pair < 4
  {
    regs[pair] < 0x100 && regs[4 + pair] < 0x100 && regs[8 + pair] == 0x100 * regs[4 + pair] + regs[pair]
  }

  /**
   * What a store does: ConcreteValue gives back the value, cut to its width. Storing a half keeps the other
   * half, and the word is made of both again if the other one was a byte. Storing a word changes nothing
   * else, so its halves stay as they were. The flags are not among the registers.
   */
  ghost predicate StoreMeaning(before: seq<u16>, after: seq<u16>, reg: S.RegisterId, value: u16) {
    && |before| == |after| == SLOTS
    && (reg >= S.FLAGS ==> after == before)
    && (reg < S.FLAGS ==> ConcreteValue(reg, after) == if reg < 8 then value % 0x100 else value)
    && (reg < 8 ==>
          && (forall k :: 0 <= k < SLOTS && k != reg && k != 8 + reg % 4 ==> after[k] == before[k])
          && (before[(reg + 4) % 8] < 0x100 ==> Coherent(after, reg % 4)))
    && (8 <= reg < S.FLAGS ==> forall k :: 0 <= k < SLOTS && k != SlotOf(reg) ==> after[k] == before[k])
  }

  lemma StoredMeans(regs: seq<u16>, reg: S.RegisterId, value: u16)
    requires |regs| == SLOTS
    ensures StoreMeaning(regs, Stored(regs, reg, value), reg, value)
  {
    hide Bitwise16, Wrap16;
    if reg < 8 {
      var byte := regs[reg := value % 0x100];
      var low, high := byte[reg % 4], byte[4 + reg % 4];
      if low < 0x100 && high < 0x100 {
        OrOfBytes(high, low);
      }
    }
  }

  /** After a store to a word, its halves agree with it exactly when they already held the new value. */
  lemma WordStoreCoherentIff(regs: seq<u16>, k: nat, value: u16)
    requires |regs| == SLOTS && k < 4
    ensures var reg: S.RegisterId := [8, 10, 11, 9][k];
      Coherent(Stored(regs, reg, value), k) <==> regs[k] == value % 0x100 && regs[4 + k] == value / 0x100
  {
  }

  lemma StoredSp(regs: seq<u16>, value: u16)
    requires |regs| == SLOTS
    ensures Stored(regs, SP, value) == regs[SP_SLOT := value]
  {
  }

  // ---------- translation ----------

  predicate IsStackForm(i: D.Instruction) {
    i.kind == D.Stack && i.size == 1 && i.operandCount == 1 && i.first.kind == D.Register && i.first.width == D.WordWidth
  }

  predicate IsLoadForm(i: D.Instruction) {
    i.kind == D.MoveImmediate && i.operandCount == 2 && i.first.kind == D.Register && i.second.kind == D.Immediate
  }

  /** The machine after define_constant. */
  function Defined(m: Machine, reg: S.RegisterId, value: u16): (r: Machine)
    requires Sized(m) && reg < S.REGISTERS
    ensures Sized(r)
  {
    var v := S.SsaValue(|m.values|, reg, S.Definition, [], Some(value), None);
    m.(values := m.values + [v], current := m.current[reg := |m.values|])
  }

  function Top(m: Machine, segment: u16): u32
    requires Sized(m)
  {
    M.Physical(segment, m.regs[SP_SLOT])
  }

  function Pushed(m: Machine, reg: S.RegisterId, segment: u16): (r: Machine)
    requires Sized(m) && reg < S.REGISTERS
    ensures Sized(r)
  {
    var sp := Lower(m.regs[SP_SLOT]);
    var mem := WithWord(m.mem, M.Physical(segment, sp), ConcreteValue(reg, m.regs));
    Defined(m.(mem := mem, regs := Stored(m.regs, SP, sp)), SP, sp)
  }

  /** The register is stored first, so popping SP discards the word. */
  function Popped(m: Machine, reg: S.RegisterId, segment: u16): (r: Machine)
    requires Sized(m) && reg < S.REGISTERS
    ensures Sized(r)
  {
    var value := WordAt(m.mem, Top(m, segment));
    var regs := Stored(Stored(m.regs, reg, value), SP, Higher(m.regs[SP_SLOT]));
    Defined(m.(regs := regs), reg, value)
  }

  function Loaded(m: Machine, reg: S.RegisterId, value: u16): (r: Machine)
    requires Sized(m) && reg < S.REGISTERS
    ensures Sized(r)
  {
    Defined(m.(regs := Stored(m.regs, reg, value)), reg, value)
  }

  /** Translation of the forms above with concrete registers and memory. */
  function Translated(code: seq<u8>, i: D.Instruction, m: Machine, segment: u16): (r: Result<Machine, TranslationError>)
    requires Sized(m)
    ensures r.Ok? ==> Sized(r.value)
  {
    if i.offset + i.size > |code| then Err(ExceedsSource)
    else
      var reg := RegisterFor(i.first.reg);
      if IsStackForm(i) then
        if reg.None? then Err(NotWordRegister)
        else if i.stackPop then Ok(Popped(m, reg.value, segment))
        else Ok(Pushed(m, reg.value, segment))
      else if !IsLoadForm(i) then Err(NotImplemented)
      else if reg.None? then Err(DestinationNotRegister)
      else Ok(Loaded(m, reg.value, i.second.immediate))
  }

  ghost function Snapshot(ssa: S.Builder, state: array<nat>, registers: array<u16>, memory: M.Memory): Machine
    reads ssa, state, registers, memory.bytes
  {
    Machine(registers[..], memory.bytes[..], ssa.values, state[..])
  }

  /** store_concrete. */
  method StoreConcrete(registers: array<u16>, reg: S.RegisterId, value: u16)
    requires registers.Length == SLOTS
    modifies registers
    ensures registers[..] == Stored(old(registers[..]), reg, value)
    ensures StoreMeaning(old(registers[..]), registers[..], reg, value)
  {
    StoredMeans(registers[..], reg, value);
    if reg < 8 {
      registers[reg] := value % 0x100;
      registers[8 + reg % 4] := Bitwise16(Or, HighByte(registers[4 + reg % 4]), registers[reg % 4]);
    } else if reg < S.FLAGS {
      registers[SlotOf(reg)] := value;
    }
  }

  /** The branches of translate for stack instructions and for moves of an immediate to a register. */
  method Translate(code: seq<u8>, i: D.Instruction, ssa: S.Builder, state: array<nat>,
                   registers: array?<u16>, memory: M.Memory?, segment: u16)
    returns (r: Result<Effect, TranslationError>)
    requires ssa.Valid() && state.Length == S.REGISTERS
    requires (registers != null ==> registers.Length == SLOTS) && (memory != null ==> memory.Valid())
    requires i.kind == D.Stack || IsLoadForm(i)
    modifies ssa, state, registers, if memory == null then {} else {memory.bytes}
    ensures ssa.Valid()
    ensures registers != null && memory != null ==>
        var was, now := old(Snapshot(ssa, state, registers, memory)), Snapshot(ssa, state, registers, memory);
        match Translated(code, i, was, segment)
        case Err(error) => r == Err(error) && now == was
        case Ok(m) =>
          && now == m && r.Ok? && r.value.ssaValue == |was.values| == |now.values| - 1
          && r.value.destination == now.values[|was.values|].reg && r.value.immediate == now.values[|was.values|].constant
          && r.value.memory == (if !IsStackForm(i) then None
                                else Some(Access(!i.stackPop, if i.stackPop then Top(was, segment) else Top(now, segment))))
    ensures IsStackForm(i) && i.offset + i.size <= |code| && (registers == null || memory == null) ==> r == Err(NeedsState)
    ensures i.offset + i.size > |code| ==> r == Err(ExceedsSource)
    ensures i.offset + i.size <= |code| && i.kind == D.Stack && !IsStackForm(i) ==> r == Err(NotImplemented)
    ensures i.offset + i.size <= |code| && IsLoadForm(i) ==>
        match RegisterFor(i.first.reg)
        case None => r == Err(DestinationNotRegister)
        case Some(reg) =>
          var id, value := |old(ssa.values)|, i.second.immediate;
          && r == Ok(Effect(reg, id, Some(value), None)) && state[..] == old(state[..])[reg := id]
          && ssa.values == old(ssa.values) + [S.SsaValue(id, reg, S.Definition, [], Some(value), None)]
    ensures r == Err(NotWordRegister) <==>
        && i.offset + i.size <= |code| && IsStackForm(i) && registers != null && memory != null
        && RegisterFor(i.first.reg).None?
    ensures r.Err? ==> ssa.values == old(ssa.values) && state[..] == old(state[..])
  {
    hide Stored, ConcreteValue, WithWord, WordAt, S.BuilderTable;
    if i.offset > |code| || |code| - i.offset < i.size {
      return Err(ExceedsSource);
    }
    var reg := RegisterFor(i.first.reg);
    if IsStackForm(i) {
      if registers == null || memory == null {
        return Err(NeedsState);
      }
      if reg.None? {
        return Err(NotWordRegister);
      }
      var sp := registers[SP_SLOT];
      if i.stackPop {
        var read := memory.ReadAt(segment, sp);
        StoreConcrete(registers, reg.value, read.value);
        StoreConcrete(registers, SP, Higher(sp));
        var id := ssa.DefineConstant(state, reg.value, read.value);
        return Ok(Effect(reg.value, id, Some(read.value), Some(Access(false, M.Physical(segment, sp)))));
      }
      var value := ConcreteValue(reg.value, registers[..]);
      var lower := Lower(sp);
      var failed := memory.WriteAt(segment, lower, value);
      StoreConcrete(registers, SP, lower);
      StoredSp(old(registers[..]), lower);
      assert registers[..][SP_SLOT] == lower;
      var id := ssa.DefineConstant(state, SP, lower);
      return Ok(Effect(SP, id, Some(lower), Some(Access(true, M.Physical(segment, lower)))));
    }
    if i.kind == D.Stack {
      return Err(NotImplemented);
    }
    if reg.None? {
      return Err(DestinationNotRegister);
    }
    var id := ssa.DefineConstant(state, reg.value, i.second.immediate);
    if registers != null {
      StoreConcrete(registers, reg.value, i.second.immediate);
    }
    return Ok(Effect(reg.value, id, Some(i.second.immediate), None));
  }
}
