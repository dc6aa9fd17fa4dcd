/**
 * Moves of an immediate to a register, from their bytes to their effect, and which stack instructions are
 * translated (src/decoder/instruction_decoder.cpp, src/semantics/instruction_translator.cpp).
 */
module RegisterLoads {
  import opened Outcome
  import opened Words
  import opened InstructionTranslator
  import A = Assembler8086
  import D = InstructionDecoder
  import L = Listing
  import S = RegisterSsa
  import M = RealModeMemory

  /** The SSA register of each general register. */
  function SsaRegister(reg: D.RegisterName): S.RegisterId {
    match reg
    case AL => 0 case CL => 1 case DL => 2 case BL => 3 case AH => 4 case CH => 5 case DH => 6 case BH => 7
    case AX => 8 case BX => 9 case CX => 10 case DX => 11 case SI => 12 case DI => 13 case BP => 14 case SP => 15
    case _ => 17
  }

  /** The place of each general register among the concrete ones: the byte halves, then the words. */
  function SlotFor(reg: D.RegisterName): (slot: nat)
    ensures slot < 16
  {
    match reg
    case AL => 0 case CL => 1 case DL => 2 case BL => 3 case AH => 4 case CH => 5 case DH => 6 case BH => 7
    case AX => 8 case CX => 9 case DX => 10 case BX => 11 case SP => 12 case BP => 13 case SI => 14 case DI => 15
    case _ => 0
  }

  /** A load of a value: its slot, the word of a byte half, and the table; nothing else. */
  ghost predicate LoadedAs(before: Machine, after: Machine, reg: D.RegisterName, value: u16) {
    var slot, id := SlotFor(reg), SsaRegister(reg);
    && Sized(before) && Sized(after) && id < S.REGISTERS
    && after.mem == before.mem
    && after.regs[slot] == value
    && (forall k :: 0 <= k < SLOTS && k != slot && !(A.IsByte(reg) && k == 8 + slot % 4) ==> after.regs[k] == before.regs[k])
    && (A.IsByte(reg) && before.regs[(slot + 4) % 8] < 0x100 ==> Coherent(after.regs, slot % 4))
    && after.values == before.values + [S.SsaValue(|before.values|, id, S.Definition, [], Some(value), None)]
    && after.current == before.current[id := |before.values|]
  }

  /** The bytes of MOV reg, value decode, translate, and load that register with that value. */
  lemma LoadRuns(reg: D.RegisterName, value: u16, code: seq<u8>, at: nat, m: Machine, segment: u16)
    requires A.Valid(A.LoadRegister(reg, value)) && L.Occurs(code, at, A.Assemble(A.LoadRegister(reg, value))) && Sized(m)
    ensures D.DecodeAt(code, at).Ok?
    ensures var r := Translated(code, D.DecodeAt(code, at).value, m, segment);
      r.Ok? && LoadedAs(m, r.value, reg, value)
  {
    hide D.DecodeAt, Stored, Sized;
    var a := A.LoadRegister(reg, value);
    A.AssembledDecodes(a, code, at);
    LoadMeans(reg, value);
    RegisterIs(reg);
    hide A.Valid, A.Assemble, A.Meant, SsaRegister, RegisterFor;
    SizedMachine(m);
    LoadStores(m, reg, value);
  }

  lemma LoadMeans(reg: D.RegisterName, value: u16)
    requires A.Valid(A.LoadRegister(reg, value))
    ensures var i, a := A.Meant(A.LoadRegister(reg, value)), A.LoadRegister(reg, value);
      && !A.IsLate(a) && IsLoadForm(i) && !IsStackForm(i) && i.first.reg == reg && i.second.immediate == value
      && (A.IsByte(reg) || A.IsWord(reg)) && (A.IsByte(reg) ==> value < 0x100)
  {
  }

  lemma RegisterIs(reg: D.RegisterName)
    requires A.IsByte(reg) || A.IsWord(reg)
    ensures RegisterFor(reg) == Some(SsaRegister(reg)) && SsaRegister(reg) < S.FLAGS && SlotOf(SsaRegister(reg)) == SlotFor(reg)
    ensures A.IsByte(reg) <==> SsaRegister(reg) < 8
    ensures A.IsByte(reg) ==> SsaRegister(reg) == SlotFor(reg)
  {
  }

  lemma SizedMachine(m: Machine)
    requires Sized(m)
    ensures |m.regs| == SLOTS && |m.current| == S.REGISTERS
  {
  }

  lemma LoadStores(m: Machine, reg: D.RegisterName, value: u16)
    requires Sized(m) && (A.IsByte(reg) || A.IsWord(reg)) && (A.IsByte(reg) ==> value < 0x100)
    ensures SsaRegister(reg) < S.REGISTERS && LoadedAs(m, Loaded(m, SsaRegister(reg), value), reg, value)
  {
    RegisterIs(reg);
    StoredMeans(m.regs, SsaRegister(reg), value);
    ReadsBack(Stored(m.regs, SsaRegister(reg), value), SsaRegister(reg));
    hide Stored, SsaRegister, SlotFor, RegisterFor, A.IsByte, A.IsWord, SlotOf, Coherent, ConcreteValue;
  }

  lemma ReadsBack(regs: seq<u16>, reg: S.RegisterId)
    requires |regs| == SLOTS && reg < S.FLAGS
    ensures ConcreteValue(reg, regs) == regs[SlotOf(reg)]
  {
  }

  // ---------- which stack instructions are translated ----------

  /** PUSH and POP of a register without prefixes; every other stack instruction is refused. */
  lemma StackLinesIff(code: seq<u8>, o: nat, l: L.Line, m: Machine, segment: u16)
    requires L.LineAt(code, o, l) && Sized(m) && D.DecodeAt(code, o).Ok? && D.DecodeAt(code, o).value.kind == D.Stack
    ensures var r := Translated(code, D.DecodeAt(code, o).value, m, segment);
      if l.prefixes == [] && (l.asm.Push? || l.asm.Pop?) then r.Ok? else r == Err(NotImplemented)
  {
    hide D.DecodeAt, Sized, A.Valid, A.Meant, A.Assemble, A.IsLate, Popped, Pushed, RegisterFor;
    L.LineDecodes(code, o, l);
    if l.asm.Push? || l.asm.Pop? {
      PushMeans(l.asm);
    } else {
      NoOperand(l.asm);
    }
  }

  lemma PushMeans(a: A.Asm)
    requires A.Valid(a) && (a.Push? || a.Pop?)
    ensures var i := A.Meant(a);
      IsStackForm(i.(size := 1)) && |A.Assemble(a)| == 1 && RegisterFor(i.first.reg).Some? && !A.IsLate(a)
  {
  }

  /** The decoder gives no other stack instruction an operand. */
  lemma NoOperand(a: A.Asm)
    requires A.Valid(a) && !a.Push? && !a.Pop?
    ensures A.Meant(a).kind == D.Stack ==> A.Meant(a).operandCount == 0
    ensures A.IsLate(a) ==> A.Meant(a).kind != D.Stack
  {
    hide A.PlaceOperand, A.InRegisterOperand, A.Value, A.ModRm, A.OffsetBytes, A.ValidPlace, A.AluOf, A.AluCode, A.CodeOf;
    hide A.WidthOfRegister, A.SingleMeant, A.Valid;
    if a.Single? {
      SingleHasNone(a.single);
    }
  }

  lemma SingleHasNone(s: A.Single)
    ensures A.SingleMeant(s).operandCount == 0
  {
  }
}
