/**
 * A reference assembler for every 8086 form the decoder takes (src/decoder/instruction_decoder.cpp):
 * decoding undoes it.
 */
module Assembler8086 {
  import opened Outcome
  import opened Words
  import opened InstructionDecoder

  type Short = d: int | -0x80 <= d < 0x80
  type Near = d: int | -0x8000 <= d < 0x8000

  // ---------- what is assembled ----------

  datatype Base = BxSi | BxDi | BpSi | BpDi | AtSi | AtDi | AtBp | AtBx

  datatype Offset = NoOffset | ShortOffset(d: Short) | NearOffset(n: Near)

  datatype Place = InRegister(reg: RegisterName) | Direct(address: Near) | Based(base: Base, offset: Offset)

  datatype Binary = Alu(op: AluOperation) | Mov | TestBits

  datatype Asm =
    | WithRegister(op: Binary, toRegister: bool, reg: RegisterName, place: Place)
    | WithImmediate(op: Binary, width: Width, place: Place, value: u16)
    | WithShort(alu: AluOperation, place: Place, short: Short)
    | Accumulator(op: Binary, width: Width, value: u16)
    | LoadRegister(reg: RegisterName, value: u16)
    | Increment(reg: RegisterName)
    | Decrement(reg: RegisterName)
    | Push(reg: RegisterName)
    | Pop(reg: RegisterName)
    | JumpIf(condition: BranchCondition, distance: Short)
    | LoopIf(condition: BranchCondition, distance: Short)
    | JumpShort(distance: Short)
    | JumpNear(far: Near)
    | CallNear(far: Near)
    | Int(number: u8)
    | Ret
    | Exchange(reg: RegisterName, place: Place)
    | ByteAlias(alu: AluOperation, place: Place, data: u8)
    | MovSpare(field: nat, width: Width, place: Place, value: u16)
    | Single(single: Single)
    | WithData8(form8: Data8, data: u8)
    | WithData16(form16: Data16, data16: u16)
    | AtPlace(form: PlaceForm, field: nat, place: Place)
    | TestPlace(width: Width, place: Place, value: u16)
    | Indirect(call: bool, place: Place)

  datatype StringName = Movs | Cmps | Stos | Lods | Scas

  /** Instructions of one byte whose operands the decoder leaves out. */
  datatype Single =
    | NoOp | XchgAx(other: RegisterName) | Cbw | Cwd | WaitOp | Pushf | Popf | Sahf | Lahf | Xlat
    | Daa | Das | Aaa | Aas | Hlt | Cmc | Clc | Stc | Cli | Sti | Cld | Std
    | PopCs | PushSegment(seg: RegisterName) | PopSegment(seg: RegisterName)
    | StringStep(name: StringName, width: Width) | InDx(width: Width) | OutDx(width: Width)
    | Int3 | Into | RetFar | Iret

  datatype Data8 = Aam | Aad | InData(width: Width) | OutData(width: Width)

  datatype Data16 = RetPop | RetFarPop | LoadAccumulator(width: Width) | StoreAccumulator(width: Width)

  /** Instructions with a ModR/M byte whose operands the decoder leaves out. */
  datatype PlaceForm =
    | MovFromSegment | MovToSegment | Lea | PopPlace | Les | Lds
    | Shift(byCl: bool, width: Width) | Escape(n: nat) | Unary(width: Width) | ByteIncDec | WordIncDec | PushPlace

  function CodeOf(reg: RegisterName): (n: nat)
    ensures n < 8
  {
    match reg
    case AL => 0 case AX => 0 case ES => 0
    case CL => 1 case CX => 1 case CS => 1
    case DL => 2 case DX => 2 case SS => 2
    case BL => 3 case BX => 3 case DS => 3
    case AH => 4 case SP => 4
    case CH => 5 case BP => 5
    case DH => 6 case SI => 6
    case BH => 7 case DI => 7
  }

  predicate IsByte(reg: RegisterName) {
    reg in {AL, CL, DL, BL, AH, CH, DH, BH}
  }

  predicate IsWord(reg: RegisterName) {
    reg in {AX, CX, DX, BX, SP, BP, SI, DI}
  }

  function WidthOfRegister(reg: RegisterName): Width {
    if IsByte(reg) then ByteWidth else WordWidth
  }

  predicate IsAlu(op: AluOperation) {
    op != NoAlu && op != Test
  }

  function AluCode(op: AluOperation): (n: nat)
    ensures n < 8
  {
    match op
    case Add => 0 case BitOr => 1 case Adc => 2 case Sbb => 3
    case BitAnd => 4 case Subtract => 5 case BitXor => 6 case _ => 7
  }

  function ConditionCode(c: BranchCondition): nat {
    match c
    case Overflow => 0 case NotOverflow => 1 case Below => 2 case AboveOrEqual => 3
    case Equal => 4 case NotEqual => 5 case BelowOrEqual => 6 case Above => 7
    case Sign => 8 case NotSign => 9 case Parity => 10 case NotParity => 11
    case Less => 12 case GreaterOrEqual => 13 case LessOrEqual => 14 case Greater => 15
    case _ => 16
  }

  function LoopCode(c: BranchCondition): nat {
    match c
    case LoopNotEqual => 0 case LoopEqual => 1 case LoopAlways => 2 case CxZero => 3
    case _ => 4
  }

  function BaseCode(b: Base): (n: nat)
    ensures n < 8
  {
    match b
    case BxSi => 0 case BxDi => 1 case BpSi => 2 case BpDi => 3
    case AtSi => 4 case AtDi => 5 case AtBp => 6 case AtBx => 7
  }

  // ---------- encoding ----------

  function ShortByte(d: int): u8 {
    d % 0x100
  }

  function NearBytes(n: int): (r: seq<u8>)
    ensures |r| == 2
  {
    [n % 0x100, n / 0x100 % 0x100]
  }

  function ModOf(place: Place): (n: nat)
    ensures n < 4
  {
    match place
    case InRegister(_) => 3
    case Direct(_) => 0
    case Based(_, offset) => match offset case NoOffset => 0 case ShortOffset(_) => 1 case NearOffset(_) => 2
  }

  function RmOf(place: Place): (n: nat)
    ensures n < 8
  {
    match place
    case InRegister(reg) => CodeOf(reg)
    case Direct(_) => 6
    case Based(base, _) => BaseCode(base)
  }

  function ModRm(place: Place, field: nat): u8
    requires field < 8
  {
    ModOf(place) * 64 + field * 8 + RmOf(place)
  }

  function OffsetBytes(place: Place): (r: seq<u8>)
    ensures |r| <= 2
  {
    match place
    case InRegister(_) => []
    case Direct(address) => NearBytes(address)
    case Based(_, offset) =>
      match offset
      case NoOffset => []
      case ShortOffset(d) => [ShortByte(d)]
      case NearOffset(n) => NearBytes(n)
  }

  function ValueBytes(width: Width, value: u16): (r: seq<u8>)
    ensures 1 <= |r| <= 2
  {
    if width == ByteWidth then [value % 0x100] else [value % 0x100, value / 0x100]
  }

  function WidthBit(width: Width): nat {
    if width == ByteWidth then 0 else 1
  }

  /** BP alone has no form without an offset. */
  predicate ValidPlace(place: Place, width: Width) {
    match place
    case InRegister(reg) => if width == ByteWidth then IsByte(reg) else IsWord(reg)
    case Direct(_) => true
    case Based(base, offset) => base == AtBp ==> offset != NoOffset
  }

  predicate IsSegment(reg: RegisterName) {
    reg in {ES, CS, SS, DS}
  }

  predicate ValidSingle(s: Single) {
    match s
    case XchgAx(other) => IsWord(other) && other != AX
    case PushSegment(seg) => IsSegment(seg)
    case PopSegment(seg) => IsSegment(seg) && seg != CS
    case _ => true
  }

  /** The fields of the ModR/M byte that belong to a form. */
  predicate ValidField(form: PlaceForm, field: nat) {
    match form
    case Escape(n) => n < 8 && field < 8
    case Unary(_) => 1 <= field < 8
    case ByteIncDec => field < 2
    case WordIncDec => field < 2 || field == 7
    case PushPlace => field == 6
    case _ => field < 8
  }

  function SingleOpcode(s: Single): u8
    requires ValidSingle(s)
  {
    match s
    case NoOp => 0x90
    case XchgAx(other) => 0x90 + CodeOf(other)
    case Cbw => 0x98 case Cwd => 0x99 case WaitOp => 0x9b
    case Pushf => 0x9c case Popf => 0x9d case Sahf => 0x9e case Lahf => 0x9f
    case Xlat => 0xd7
    case Daa => 0x27 case Das => 0x2f case Aaa => 0x37 case Aas => 0x3f
    case Hlt => 0xf4 case Cmc => 0xf5 case Clc => 0xf8 case Stc => 0xf9
    case Cli => 0xfa case Sti => 0xfb case Cld => 0xfc case Std => 0xfd
    case PopCs => 0x0f
    case PushSegment(seg) => 0x06 + 8 * CodeOf(seg)
    case PopSegment(seg) => 0x07 + 8 * CodeOf(seg)
    case StringStep(name, width) =>
      (match name case Movs => 0xa4 case Cmps => 0xa6 case Stos => 0xaa case Lods => 0xac case Scas => 0xae) + WidthBit(width)
    case InDx(width) => 0xec + WidthBit(width)
    case OutDx(width) => 0xee + WidthBit(width)
    case Int3 => 0xcc case Into => 0xce case RetFar => 0xcb case Iret => 0xcf
  }

  function Data8Opcode(f: Data8): u8 {
    match f
    case Aam => 0xd4
    case Aad => 0xd5
    case InData(width) => 0xe4 + WidthBit(width)
    case OutData(width) => 0xe6 + WidthBit(width)
  }

  function Data16Opcode(f: Data16): u8 {
    match f
    case RetPop => 0xc2
    case RetFarPop => 0xca
    case LoadAccumulator(width) => 0xa0 + WidthBit(width)
    case StoreAccumulator(width) => 0xa2 + WidthBit(width)
  }

  function PlaceOpcode(f: PlaceForm): u8
    requires f.Escape? ==> f.n < 8
  {
    match f
    case MovFromSegment => 0x8c
    case MovToSegment => 0x8e
    case Lea => 0x8d
    case PopPlace => 0x8f
    case Les => 0xc4
    case Lds => 0xc5
    case Shift(byCl, width) => 0xd0 + (if byCl then 2 else 0) + WidthBit(width)
    case Escape(n) => 0xd8 + n
    case Unary(width) => 0xf6 + WidthBit(width)
    case ByteIncDec => 0xfe
    case WordIncDec => 0xff
    case PushPlace => 0xff
  }

  predicate ValidValue(width: Width, value: u16) {
    width == ByteWidth ==> value < 0x100
  }

  predicate Valid(a: Asm) {
    match a
    case Exchange(reg, place) => (IsByte(reg) || IsWord(reg)) && ValidPlace(place, WidthOfRegister(reg))
    case ByteAlias(op, place, _) => IsAlu(op) && ValidPlace(place, ByteWidth)
    case MovSpare(field, width, place, value) => 0 < field < 8 && ValidPlace(place, width) && ValidValue(width, value)
    case Single(single) => ValidSingle(single)
    case AtPlace(form, field, place) => ValidField(form, field) && ValidPlace(place, WordWidth)
    case TestPlace(width, place, value) => ValidPlace(place, width) && ValidValue(width, value)
    case Indirect(_, place) => ValidPlace(place, WordWidth)
    case WithRegister(op, toRegister, reg, place) =>
      (IsByte(reg) || IsWord(reg)) && ValidPlace(place, WidthOfRegister(reg))
      && (op.Alu? ==> IsAlu(op.op)) && (op.TestBits? ==> !toRegister)
    case WithImmediate(op, width, place, value) =>
      ValidPlace(place, width) && ValidValue(width, value) && (op.Alu? ==> IsAlu(op.op)) && !op.TestBits?
    case WithShort(op, place, _) => ValidPlace(place, WordWidth) && IsAlu(op)
    case Accumulator(op, width, value) => ValidValue(width, value) && (op.Alu? ==> IsAlu(op.op)) && !op.Mov?
    case LoadRegister(reg, value) => (IsByte(reg) || IsWord(reg)) && ValidValue(WidthOfRegister(reg), value)
    case Increment(reg) => IsWord(reg)
    case Decrement(reg) => IsWord(reg)
    case Push(reg) => IsWord(reg)
    case Pop(reg) => IsWord(reg)
    case JumpIf(condition, _) => ConditionCode(condition) < 16
    case LoopIf(condition, _) => LoopCode(condition) < 4
    case _ => true
  }

  function Assemble(a: Asm): (r: seq<u8>)
    requires Valid(a)
    ensures 1 <= |r| <= 6
  {
    match a
    case WithRegister(op, toRegister, reg, place) =>
      var base := match op case Alu(o) => AluCode(o) * 8 case Mov => 0x88 case TestBits => 0x84;
      [base + (if toRegister then 2 else 0) + WidthBit(WidthOfRegister(reg)), ModRm(place, CodeOf(reg))] + OffsetBytes(place)
    case WithImmediate(op, width, place, value) =>
      [(if op.Mov? then 0xc6 else 0x80) + WidthBit(width), ModRm(place, if op.Alu? then AluCode(op.op) else 0)]
      + OffsetBytes(place) + ValueBytes(width, value)
    case WithShort(op, place, value) => [0x83, ModRm(place, AluCode(op))] + OffsetBytes(place) + [ShortByte(value)]
    case Accumulator(op, width, value) =>
      [(if op.Alu? then AluCode(op.op) * 8 + 4 else 0xa8) + WidthBit(width)] + ValueBytes(width, value)
    case LoadRegister(reg, value) =>
      [(if IsByte(reg) then 0xb0 else 0xb8) + CodeOf(reg)] + ValueBytes(WidthOfRegister(reg), value)
    case Increment(reg) => [0x40 + CodeOf(reg)]
    case Decrement(reg) => [0x48 + CodeOf(reg)]
    case Push(reg) => [0x50 + CodeOf(reg)]
    case Pop(reg) => [0x58 + CodeOf(reg)]
    case JumpIf(condition, distance) => [0x70 + ConditionCode(condition), ShortByte(distance)]
    case LoopIf(condition, distance) => [0xe0 + LoopCode(condition), ShortByte(distance)]
    case JumpShort(distance) => [0xeb, ShortByte(distance)]
    case JumpNear(distance) => [0xe9] + NearBytes(distance)
    case CallNear(distance) => [0xe8] + NearBytes(distance)
    case Int(number) => [0xcd, number]
    case Ret => [0xc3]
    case Exchange(reg, place) => [0x86 + WidthBit(WidthOfRegister(reg)), ModRm(place, CodeOf(reg))] + OffsetBytes(place)
    case ByteAlias(op, place, data) => [0x82, ModRm(place, AluCode(op))] + OffsetBytes(place) + [data]
    case MovSpare(field, width, place, value) =>
      [0xc6 + WidthBit(width), ModRm(place, field)] + OffsetBytes(place) + ValueBytes(width, value)
    case Single(single) => [SingleOpcode(single)]
    case WithData8(form, data) => [Data8Opcode(form), data]
    case WithData16(form, data) => [Data16Opcode(form), data % 0x100, data / 0x100]
    case AtPlace(form, field, place) => [PlaceOpcode(form), ModRm(place, field)] + OffsetBytes(place)
    case TestPlace(width, place, value) =>
      [0xf6 + WidthBit(width), ModRm(place, 0)] + OffsetBytes(place) + ValueBytes(width, value)
    case Indirect(call, place) => [0xff, ModRm(place, if call then 2 else 4)] + OffsetBytes(place)
  }

  // ---------- what should be decoded ----------

  function InRegisterOperand(reg: RegisterName): Operand {
    Operand(Register, WidthOfRegister(reg), reg, 0, 0, AL, AL, 0, 0, false)
  }

  function Value(width: Width, value: u16): Operand {
    Operand(Immediate, width, AL, value, 0, AL, AL, 0, 0, false)
  }

  /** The registers of an address, and how many they are; AL stands for none. */
  function Registers(b: Base): (RegisterName, RegisterName, u8) {
    match b
    case BxSi => (BX, SI, 2) case BxDi => (BX, DI, 2) case BpSi => (BP, SI, 2) case BpDi => (BP, DI, 2)
    case AtSi => (SI, AL, 1) case AtDi => (DI, AL, 1) case AtBp => (BP, AL, 1) case AtBx => (BX, AL, 1)
  }

  function OffsetOf(offset: Offset): int {
    match offset case NoOffset => 0 case ShortOffset(d) => d case NearOffset(n) => n
  }

  function PlaceOperand(place: Place, width: Width, modrm: u8): Operand {
    match place
    case InRegister(reg) => InRegisterOperand(reg)
    case Direct(address) => Operand(Memory, width, AL, 0, modrm, BP, AL, 0, address, true)
    case Based(base, offset) =>
      var (first, second, count) := Registers(base);
      Operand(Memory, width, AL, 0, modrm, first, second, count, OffsetOf(offset), false)
  }

  function KindOf(op: Binary): InstructionKind {
    match op
    case Alu(o) => if o == CompareOp then Compare else Arithmetic
    case Mov => Move
    case TestBits => Compare
  }

  function AluOf(op: Binary): AluOperation {
    match op case Alu(o) => o case Mov => NoAlu case TestBits => Test
  }

  function Two(kind: InstructionKind, alu: AluOperation, first: Operand, second: Operand): Instruction {
    Plain(kind, 0).(first := first, second := second, operandCount := 2, alu := alu)
  }

  function SingleMeant(s: Single): Instruction {
    match s
    case NoOp => Plain(Nop, 0) case WaitOp => Plain(Nop, 0)
    case XchgAx(_) => Plain(Move, 0) case Xlat => Plain(Move, 0)
    case Cbw => Plain(Arithmetic, 0) case Cwd => Plain(Arithmetic, 0)
    case Daa => Plain(Arithmetic, 0) case Das => Plain(Arithmetic, 0)
    case Aaa => Plain(Arithmetic, 0) case Aas => Plain(Arithmetic, 0)
    case Hlt => Plain(Flags, 0) case Cmc => Plain(Flags, 0) case Clc => Plain(Flags, 0) case Stc => Plain(Flags, 0)
    case Cli => Plain(Flags, 0) case Sti => Plain(Flags, 0) case Cld => Plain(Flags, 0) case Std => Plain(Flags, 0)
    case Sahf => Plain(Flags, 0) case Lahf => Plain(Flags, 0)
    case Pushf => Plain(Stack, 0) case Popf => Plain(Stack, 0) case PopCs => Plain(Stack, 0)
    case PushSegment(_) => Plain(Stack, 0) case PopSegment(_) => Plain(Stack, 0)
    case StringStep(_, _) => Plain(StringOp, 0)
    case InDx(_) => Plain(Io, 0) case OutDx(_) => Plain(Io, 0)
    case Int3 => Plain(Interrupt, 0).(interruptNumber := 3)
    case Into => Plain(Interrupt, 0).(interruptNumber := 4)
    case RetFar => Plain(Return, 0) case Iret => Plain(Return, 0)
  }

  function Data8Kind(f: Data8): InstructionKind {
    match f case Aam => Arithmetic case Aad => Arithmetic case InData(_) => Io case OutData(_) => Io
  }

  function Data16Kind(f: Data16): InstructionKind {
    match f case RetPop => Return case RetFarPop => Return case LoadAccumulator(_) => Move case StoreAccumulator(_) => Move
  }

  function PlaceKind(f: PlaceForm): InstructionKind {
    match f
    case Shift(_, _) => Arithmetic case Unary(_) => Arithmetic case ByteIncDec => Arithmetic case WordIncDec => Arithmetic
    case Escape(_) => Coprocessor
    case PushPlace => Stack
    case _ => Move
  }

  /** The decoder looks for the operand of such a transfer one byte too late: it is not determined by the bytes. */
  predicate IsLate(a: Asm) {
    a.Indirect? && OffsetBytes(a.place) != []
  }

  /** The instruction without offset and size. */
  function Meant(a: Asm): Instruction
    requires Valid(a)
  {
    match a
    case WithRegister(op, toRegister, reg, place) =>
      var r, p := InRegisterOperand(reg), PlaceOperand(place, WidthOfRegister(reg), ModRm(place, CodeOf(reg)));
      if toRegister then Two(KindOf(op), AluOf(op), r, p) else Two(KindOf(op), AluOf(op), p, r)
    case WithImmediate(op, width, place, value) =>
      var modrm := ModRm(place, if op.Alu? then AluCode(op.op) else 0);
      Two(KindOf(op), AluOf(op), PlaceOperand(place, width, modrm), Value(width, value))
    case WithShort(op, place, value) =>
      Two(KindOf(Alu(op)), op, PlaceOperand(place, WordWidth, ModRm(place, AluCode(op))), Value(WordWidth, Wrap16(value)))
    case Accumulator(op, width, value) =>
      Two(KindOf(op), AluOf(op), InRegisterOperand(if width == ByteWidth then AL else AX), Value(width, value))
    case LoadRegister(reg, value) =>
      Two(MoveImmediate, NoAlu, InRegisterOperand(reg), Value(WidthOfRegister(reg), value))
    case Increment(reg) => Two(Arithmetic, Add, InRegisterOperand(reg), Value(WordWidth, 1))
    case Decrement(reg) => Two(Arithmetic, Subtract, InRegisterOperand(reg), Value(WordWidth, 1))
    case Push(reg) => Plain(Stack, 0).(first := InRegisterOperand(reg), operandCount := 1)
    case Pop(reg) => Plain(Stack, 0).(first := InRegisterOperand(reg), operandCount := 1, stackPop := true)
    case JumpIf(condition, distance) => Plain(ConditionalJump, 0).(condition := condition, relativeTarget := distance)
    case LoopIf(condition, distance) => Plain(Loop, 0).(condition := condition, relativeTarget := distance)
    case JumpShort(distance) => Plain(Jump, 0).(relativeTarget := distance)
    case JumpNear(distance) => Plain(Jump, 0).(relativeTarget := distance)
    case CallNear(distance) => Plain(Call, 0).(relativeTarget := distance)
    case Int(number) => Plain(Interrupt, 0).(interruptNumber := number)
    case Ret => Plain(Return, 0)
    case Exchange(reg, place) =>
      Two(Arithmetic, Add, InRegisterOperand(reg), PlaceOperand(place, WidthOfRegister(reg), ModRm(place, CodeOf(reg))))
    case ByteAlias(op, place, data) =>
      Two(KindOf(Alu(op)), op, PlaceOperand(place, ByteWidth, ModRm(place, AluCode(op))), Value(ByteWidth, data))
    case MovSpare(field, width, place, value) =>
      Two(Move, NoAlu, PlaceOperand(place, width, ModRm(place, field)), Value(width, value))
    case Single(single) => SingleMeant(single)
    case WithData8(form, _) => Plain(Data8Kind(form), 0)
    case WithData16(form, _) => Plain(Data16Kind(form), 0)
    case AtPlace(form, _, _) => Plain(PlaceKind(form), 0)
    case TestPlace(_, _, _) => Plain(Compare, 0)
    case Indirect(call, place) =>
      Plain(if call then Call else Jump, 0).(
        first := if OffsetBytes(place) != [] then EMPTY_OPERAND else PlaceOperand(place, WordWidth, ModRm(place, if call then 2 else 4)),
        operandCount := 1, indirect := true)
  }

  // ---------- ModR/M bytes ----------

  lemma ModRmFields(place: Place, field: nat)
    requires field < 8
    ensures var m := ModRm(place, field); Mode(m) == ModOf(place) && RegField(m) == field && RmField(m) == RmOf(place)
  {
    hide ModOf, RmOf;
    var m, mode, rm := ModRm(place, field), ModOf(place), RmOf(place);
    assert m / 8 == mode * 8 + field;
  }

  lemma RegisterNamed(reg: RegisterName)
    requires IsByte(reg) || IsWord(reg)
    ensures CodeOf(reg) < 8 && RegisterOperand(WidthOfRegister(reg), CodeOf(reg)) == InRegisterOperand(reg)
  {
  }

  lemma SignedBytes(d: Short, n: Near)
    ensures Signed8(ShortByte(d)) == d
    ensures Signed16(Word(NearBytes(n)[0], NearBytes(n)[1])) == n
  {
    NearSigned(n);
  }

  lemma NearSigned(n: Near)
    ensures Signed16(Word(NearBytes(n)[0], NearBytes(n)[1])) == n
  {
    var high, low := n / 0x100, n % 0x100;
    assert n == high * 0x100 + low && -0x80 <= high < 0x80;
    assert high % 0x100 == if high < 0 then high + 0x100 else high;
  }

  /** The bytes at b2 and b3 are those of the offset, as far as there are any. */
  predicate Follows(place: Place, low: u8, high: u8) {
    var o := OffsetBytes(place);
    (|o| >= 1 ==> low == o[0]) && (|o| == 2 ==> high == o[1])
  }

  /** A ModR/M byte with its offset decodes to the place, and to the size of the offset. */
  lemma PlaceDecodes(place: Place, width: Width, field: nat, low: u8, high: u8)
    requires field < 8 && ValidPlace(place, width) && Follows(place, low, high)
    ensures DisplacementSize(ModRm(place, field)) == |OffsetBytes(place)|
    ensures RmOperand(width, ModRm(place, field), low, high) == PlaceOperand(place, width, ModRm(place, field))
  {
    hide ModRm, Mode, RmField, RegField, Signed8, Signed16, Word, NearBytes, ShortByte, CodeOf;
    ModRmFields(place, field);
    match place
    case InRegister(reg) => RegisterNamed(reg);
    case Direct(address) => NearLength(address); SignedBytes(0, address);
    case Based(base, offset) =>
      match offset
      case NoOffset =>
      case ShortOffset(d) => SignedBytes(d, 0);
      case NearOffset(n) => NearLength(n); SignedBytes(0, n);
  }

  lemma NearLength(n: Near)
    ensures |NearBytes(n)| == 2
  {
  }

  // ---------- decoding undoes assembling ----------

  predicate Begins(w: Bytes, bytes: seq<u8>) {
    |bytes| <= 6 && forall k: nat :: k < |bytes| ==> w.At(k) == bytes[k]
  }

  /** The form at w is the instruction meant. */
  predicate Decoded(a: Asm, w: Bytes)
    requires Valid(a)
  {
    && !IsPrefix(w.opcode) && FormOf(w).size == |Assemble(a)| && FormOf(w).decoded.Ok?
    && FormOf(w).decoded.value == MeantAs(a, FormOf(w).decoded.value, 0, FormOf(w).size)
  }

  /** The instruction meant, at an offset and with a size; a late operand is left as it is. */
  function MeantAs(a: Asm, i: Instruction, offset: nat, size: u8): Instruction
    requires Valid(a)
  {
    var m := Meant(a).(offset := offset, size := size);
    if IsLate(a) then m.(first := i.first) else m
  }

  lemma OpcodeBits(code: nat, toRegister: bool, width: Width)
    requires code < 8
    ensures var opcode := code * 8 + (if toRegister then 2 else 0) + WidthBit(width);
      && opcode <= 0x3b && opcode / 4 % 2 == 0 && opcode / 8 % 8 == code
      && WidthOf(opcode) == width && (opcode / 2 % 2 == 0 <==> !toRegister)
      && (0x38 <= opcode <= 0x3f <==> code == 7)
      && !IsPrefix(opcode) && !IsOneByte(opcode) && FixedSize(opcode) == 0
  {
  }

  lemma AluNamed(op: AluOperation)
    requires IsAlu(op)
    ensures AluForExtension(AluCode(op)) == op && (AluCode(op) == 7 <==> op == CompareOp)
  {
  }

  function BinaryOpcode(op: Binary, toRegister: bool, width: Width): u8 {
    (match op case Alu(o) => AluCode(o) * 8 case Mov => 0x88 case TestBits => 0x84)
    + (if toRegister then 2 else 0) + WidthBit(width)
  }

  /** The decoder's form for the two-operand opcodes. */
  lemma BinaryForm(w: Bytes, op: Binary, toRegister: bool, width: Width)
    requires w.opcode == BinaryOpcode(op, toRegister, width)
    requires (op.Alu? ==> IsAlu(op.op)) && (op.TestBits? ==> !toRegister)
    ensures var f := FormOf(w);
      && !IsPrefix(w.opcode) && f.size == 2 + DisplacementSize(w.b1)
      && f.decoded == Ok(Directed(Plain(KindOf(op), f.size).(alu := AluOf(op)), w.opcode,
                                  RegisterOperand(width, RegField(w.b1)), RmOperand(width, w.b1, w.b2, w.b3)))
      && (w.opcode / 2 % 2 == 0 <==> !toRegister)
  {
    hide RmOperand, RegField, DisplacementSize, AluCode, AluForExtension, RegisterOperand, Directed;
    if op.Alu? {
      AluNamed(op.op);
      OpcodeBits(AluCode(op.op), toRegister, width);
    }
  }

  lemma WithRegisterDecodes(a: Asm, w: Bytes)
    requires a.WithRegister? && Valid(a) && Begins(w, Assemble(a))
    ensures Decoded(a, w)
  {
    hide ModRm, CodeOf, RmOperand, PlaceOperand, OffsetBytes, RegField, DisplacementSize, IsByte, IsWord, AluCode;
    hide ValidPlace, WidthOfRegister, Follows, FormOf, IsPrefix, KindOf;
    var width, m := WidthOfRegister(a.reg), ModRm(a.place, CodeOf(a.reg));
    RegisterNamed(a.reg);
    assert w.At(0) == Assemble(a)[0] && w.At(1) == Assemble(a)[1] == m;
    assert [w.opcode, m] + OffsetBytes(a.place) + [] == Assemble(a);
    OffsetFollows(a.place, w.opcode, m, [], w);
    PlaceDecodes(a.place, width, CodeOf(a.reg), w.b2, w.b3);
    ModRmFields(a.place, CodeOf(a.reg));
    BinaryForm(w, a.op, a.toRegister, width);
  }

  lemma OffsetFollows(place: Place, opcode: u8, modrm: u8, rest: seq<u8>, w: Bytes)
    requires Begins(w, [opcode, modrm] + OffsetBytes(place) + rest)
    ensures Follows(place, w.b2, w.b3)
  {
    var all := [opcode, modrm] + OffsetBytes(place) + rest;
    assert |OffsetBytes(place)| >= 1 ==> w.At(2) == all[2];
    assert |OffsetBytes(place)| == 2 ==> w.At(3) == all[3];
  }

  /** The decoder's form for the opcodes with an immediate behind the ModR/M byte. */
  lemma ImmediateForm(w: Bytes, opcode: u8, field: nat)
    requires w.opcode == opcode && opcode in {0x80, 0x81, 0x82, 0x83, 0xc6, 0xc7} && RegField(w.b1) == field
    ensures var f, move := FormOf(w), 0xc6 <= opcode;
      var width := if opcode in {0x80, 0x82, 0xc6} then ByteWidth else WordWidth;
      var at := 2 + DisplacementSize(w.b1);
      && !IsPrefix(w.opcode) && f.size == at + (if opcode == 0x81 || opcode == 0xc7 then 2 else 1)
      && f.decoded == Ok(Two(if move then Move else if AluForExtension(field) == CompareOp then Compare else Arithmetic,
                             if move then NoAlu else AluForExtension(field), RmOperand(width, w.b1, w.b2, w.b3),
                             Value(width, if opcode == 0x81 || opcode == 0xc7 then Word(w.At(at), w.At(at + 1))
                                          else if opcode == 0x83 then Wrap16(Signed8(w.At(at))) else w.At(at))).(size := f.size))
  {
    ModRmOpcodes(opcode);
    hide RmOperand, DisplacementSize, AluForExtension, Signed8, Word, Wrap16, IsOneByte, FixedSize, IsPrefix, IsModRmArithmetic;
  }

  lemma ModRmOpcodes(opcode: u8)
    requires opcode in {0x02, 0x03, 0x80, 0x81, 0x82, 0x83, 0x86, 0x87, 0xc6, 0xc7}
    ensures !IsPrefix(opcode) && !IsOneByte(opcode) && FixedSize(opcode) == 0 && IsModRm(opcode)
    ensures IsModRmArithmetic(opcode) <==> opcode in {0x02, 0x03, 0x86, 0x87}
  {
  }

  lemma ValueDecodes(width: Width, value: u16, low: u8, high: u8)
    requires ValidValue(width, value)
    requires low == ValueBytes(width, value)[0] && (width == WordWidth ==> high == ValueBytes(width, value)[1])
    ensures value == if width == WordWidth then Word(low, high) else low
  {
  }

  lemma WithImmediateDecodes(a: Asm, w: Bytes)
    requires a.WithImmediate? && Valid(a) && Begins(w, Assemble(a))
    ensures Decoded(a, w)
  {
    hide ModRm, RmOperand, PlaceOperand, OffsetBytes, RegField, DisplacementSize, AluCode, AluForExtension;
    hide ValidPlace, Follows, FormOf, IsPrefix, Word, Wrap16, Signed8, ValueBytes;
    var field := if a.op.Alu? then AluCode(a.op.op) else 0;
    var m, rest := ModRm(a.place, field), ValueBytes(a.width, a.value);
    ValueLength(a.width, a.value);
    assert w.At(0) == Assemble(a)[0] && w.At(1) == Assemble(a)[1] == m;
    OffsetFollows(a.place, w.opcode, m, rest, w);
    PlaceDecodes(a.place, a.width, field, w.b2, w.b3);
    ModRmFields(a.place, field);
    ImmediateForm(w, w.opcode, field);
    var at := 2 + |OffsetBytes(a.place)|;
    assert w.At(at) == Assemble(a)[at] == rest[0];
    assert a.width == WordWidth ==> w.At(at + 1) == Assemble(a)[at + 1] == rest[1];
    ValueDecodes(a.width, a.value, w.At(at), w.At(at + 1));
    if a.op.Alu? {
      AluNamed(a.op.op);
    }
  }

  lemma ValueLength(width: Width, value: u16)
    ensures |ValueBytes(width, value)| == 1 + WidthBit(width)
  {
  }

  lemma WithShortDecodes(a: Asm, w: Bytes)
    requires a.WithShort? && Valid(a) && Begins(w, Assemble(a))
    ensures Decoded(a, w)
  {
    hide ModRm, RmOperand, PlaceOperand, OffsetBytes, RegField, DisplacementSize, AluCode, AluForExtension;
    hide ValidPlace, Follows, FormOf, IsPrefix, Word, Wrap16, Signed8, ShortByte, NearBytes;
    var field := AluCode(a.alu);
    var m := ModRm(a.place, field);
    assert w.At(0) == Assemble(a)[0] == 0x83 && w.At(1) == Assemble(a)[1] == m;
    OffsetFollows(a.place, w.opcode, m, [ShortByte(a.short)], w);
    PlaceDecodes(a.place, WordWidth, field, w.b2, w.b3);
    ModRmFields(a.place, field);
    ImmediateForm(w, w.opcode, field);
    var at := 2 + |OffsetBytes(a.place)|;
    assert w.At(at) == Assemble(a)[at] == ShortByte(a.short);
    SignedBytes(a.short, 0);
    AluNamed(a.alu);
  }

  lemma AccumulatorDecodes(a: Asm, w: Bytes)
    requires a.Accumulator? && Valid(a) && Begins(w, Assemble(a))
    ensures Decoded(a, w)
  {
    hide AluForExtension, Word, ValueBytes, AluCode, FormOf, IsPrefix, IsOneByte;
    var code := if a.op.Alu? then AluCode(a.op.op) else 0;
    ValueLength(a.width, a.value);
    assert w.At(0) == Assemble(a)[0] && w.At(1) == Assemble(a)[1];
    assert a.width == WordWidth ==> w.At(2) == Assemble(a)[2];
    ValueDecodes(a.width, a.value, w.b1, w.b2);
    AccumulatorBits(code, a.width);
    TestBytes();
    AccumulatorForm(w);
    if a.op.Alu? {
      AluNamed(a.op.op);
    }
  }

  lemma AccumulatorForm(w: Bytes)
    requires IsAccumulatorImmediate(w.opcode) && !IsOneByte(w.opcode) && !IsPrefix(w.opcode)
    ensures FormOf(w).size == (if w.opcode % 2 == 0 then 2 else 3)
    ensures FormOf(w).decoded == Ok(AccumulatorImmediate(w.opcode, w.b1, w.b2))
  {
    hide IsOneByte, AccumulatorImmediate;
  }

  lemma AccumulatorBits(code: nat, width: Width)
    requires code < 8
    ensures var opcode := code * 8 + 4 + WidthBit(width);
      && opcode <= 0x3d && (opcode % 8 == 4 || opcode % 8 == 5) && opcode / 8 % 8 == code && WidthOf(opcode) == width
      && (0x38 <= opcode <= 0x3f <==> code == 7) && !IsPrefix(opcode) && !IsOneByte(opcode)
  {
  }

  lemma TestBytes()
    ensures !IsOneByte(0xa8) && !IsOneByte(0xa9) && !IsPrefix(0xa8) && !IsPrefix(0xa9)
  {
  }

  lemma LoadDecodes(a: Asm, w: Bytes)
    requires a.LoadRegister? && Valid(a) && Begins(w, Assemble(a))
    ensures Decoded(a, w)
  {
    hide Word, ValueBytes, RegisterOperand, CodeOf, InRegisterOperand;
    var width := WidthOfRegister(a.reg);
    RegisterNamed(a.reg);
    ValueLength(width, a.value);
    assert w.At(0) == Assemble(a)[0] && w.At(1) == Assemble(a)[1];
    assert width == WordWidth ==> w.At(2) == Assemble(a)[2];
    ValueDecodes(width, a.value, w.b1, w.b2);
  }

  lemma ExchangeDecodes(a: Asm, w: Bytes)
    requires a.Exchange? && Valid(a) && Begins(w, Assemble(a))
    ensures Decoded(a, w)
  {
    hide ModRm, CodeOf, RmOperand, PlaceOperand, OffsetBytes, RegField, DisplacementSize, IsByte, IsWord;
    hide ValidPlace, WidthOfRegister, Follows, FormOf, RegisterOperand, InRegisterOperand;
    var width, m := WidthOfRegister(a.reg), ModRm(a.place, CodeOf(a.reg));
    RegisterNamed(a.reg);
    assert w.At(0) == Assemble(a)[0] && w.At(1) == Assemble(a)[1] == m;
    assert [w.opcode, m] + OffsetBytes(a.place) + [] == Assemble(a);
    OffsetFollows(a.place, w.opcode, m, [], w);
    PlaceDecodes(a.place, width, CodeOf(a.reg), w.b2, w.b3);
    ModRmFields(a.place, CodeOf(a.reg));
    ToRegisterForm(w);
  }

  lemma ByteAliasDecodes(a: Asm, w: Bytes)
    requires a.ByteAlias? && Valid(a) && Begins(w, Assemble(a))
    ensures Decoded(a, w)
  {
    hide ModRm, RmOperand, PlaceOperand, OffsetBytes, RegField, DisplacementSize, AluCode, AluForExtension;
    hide ValidPlace, Follows, FormOf, IsPrefix, Word, Wrap16, Signed8;
    var field := AluCode(a.alu);
    var m := ModRm(a.place, field);
    assert w.At(0) == Assemble(a)[0] == 0x82 && w.At(1) == Assemble(a)[1] == m;
    OffsetFollows(a.place, w.opcode, m, [a.data], w);
    PlaceDecodes(a.place, ByteWidth, field, w.b2, w.b3);
    ModRmFields(a.place, field);
    ImmediateForm(w, w.opcode, field);
    var at := 2 + |OffsetBytes(a.place)|;
    assert w.At(at) == Assemble(a)[at] == a.data;
    AluNamed(a.alu);
  }

  lemma MovSpareDecodes(a: Asm, w: Bytes)
    requires a.MovSpare? && Valid(a) && Begins(w, Assemble(a))
    ensures Decoded(a, w)
  {
    hide ModRm, RmOperand, PlaceOperand, OffsetBytes, RegField, DisplacementSize, AluForExtension;
    hide ValidPlace, Follows, FormOf, IsPrefix, Word, Wrap16, Signed8, ValueBytes;
    var m, rest := ModRm(a.place, a.field), ValueBytes(a.width, a.value);
    ValueLength(a.width, a.value);
    assert w.At(0) == Assemble(a)[0] && w.At(1) == Assemble(a)[1] == m;
    OffsetFollows(a.place, w.opcode, m, rest, w);
    PlaceDecodes(a.place, a.width, a.field, w.b2, w.b3);
    ModRmFields(a.place, a.field);
    ImmediateForm(w, w.opcode, a.field);
    var at := 2 + |OffsetBytes(a.place)|;
    assert w.At(at) == Assemble(a)[at] == rest[0];
    assert a.width == WordWidth ==> w.At(at + 1) == Assemble(a)[at + 1] == rest[1];
    ValueDecodes(a.width, a.value, w.At(at), w.At(at + 1));
  }

  lemma OneByteForm(w: Bytes)
    requires IsOneByte(w.opcode)
    ensures !IsPrefix(w.opcode) && FormOf(w) == Form(1, Ok(DecodeOneByte(w.opcode)), false)
  {
    hide DecodeOneByte;
  }

  lemma SingleIsOneByte(s: Single)
    requires ValidSingle(s)
    ensures IsOneByte(SingleOpcode(s)) && DecodeOneByte(SingleOpcode(s)) == SingleMeant(s).(size := 1)
    ensures SingleMeant(s).offset == 0
  {
    SingleOpcodes(s);
    hide RegisterOperand, IsOneByte, CodeOf;
  }

  lemma SingleOpcodes(s: Single)
    requires ValidSingle(s)
    ensures IsOneByte(SingleOpcode(s))
    ensures s.XchgAx? ==> 0x91 <= SingleOpcode(s) <= 0x97
    ensures s.PushSegment? ==> SingleOpcode(s) in {0x06, 0x0e, 0x16, 0x1e}
    ensures s.PopSegment? ==> SingleOpcode(s) in {0x07, 0x17, 0x1f}
  {
  }

  lemma SingleDecodes(a: Asm, w: Bytes)
    requires a.Single? && Valid(a) && Begins(w, Assemble(a))
    ensures Decoded(a, w)
  {
    hide FormOf, IsPrefix, IsOneByte, DecodeOneByte, SingleOpcode, SingleMeant;
    assert w.At(0) == Assemble(a)[0];
    SingleIsOneByte(a.single);
    OneByteForm(w);
  }

  lemma Data8Form(w: Bytes)
    requires w.opcode in {0xd4, 0xd5, 0xe4, 0xe5, 0xe6, 0xe7}
    ensures !IsPrefix(w.opcode)
    ensures FormOf(w) == Form(2, Ok(Plain(if w.opcode in {0xd4, 0xd5} then Arithmetic else Io, 2)), false)
  {
  }

  lemma Data16Form(w: Bytes)
    requires w.opcode in {0xc2, 0xca, 0xa0, 0xa1, 0xa2, 0xa3}
    ensures !IsPrefix(w.opcode)
    ensures FormOf(w) == Form(3, Ok(Plain(if w.opcode in {0xc2, 0xca} then Return else Move, 3)), false)
  {
  }

  lemma Data8Decodes(a: Asm, w: Bytes)
    requires a.WithData8? && Valid(a) && Begins(w, Assemble(a))
    ensures Decoded(a, w)
  {
    hide FormOf, IsPrefix;
    assert w.At(0) == Assemble(a)[0];
    Data8Form(w);
  }

  lemma Data16Decodes(a: Asm, w: Bytes)
    requires a.WithData16? && Valid(a) && Begins(w, Assemble(a))
    ensures Decoded(a, w)
  {
    hide FormOf, IsPrefix;
    assert w.At(0) == Assemble(a)[0];
    Data16Form(w);
  }

  /** The decoder's form for the opcodes whose r/m operand it leaves out. */
  lemma PlaceFormOf(w: Bytes, f: PlaceForm, field: nat)
    requires ValidField(f, field) && w.opcode == PlaceOpcode(f) && RegField(w.b1) == field
    ensures !IsPrefix(w.opcode)
    ensures FormOf(w).size == 2 + DisplacementSize(w.b1) && FormOf(w).decoded == Ok(Plain(PlaceKind(f), FormOf(w).size))
  {
    PlaceOpcodes(f, field);
    hide RegField, DisplacementSize, RmOperand, RegisterOperand, IsOneByte, IsPrefix, FixedSize, IsAccumulatorImmediate;
  }

  lemma PlaceOpcodes(f: PlaceForm, field: nat)
    requires ValidField(f, field)
    ensures var opcode := PlaceOpcode(f); !IsPrefix(opcode) && !IsOneByte(opcode) && FixedSize(opcode) == 0 && IsModRm(opcode)
  {
  }

  lemma AtPlaceDecodes(a: Asm, w: Bytes)
    requires a.AtPlace? && Valid(a) && Begins(w, Assemble(a))
    ensures Decoded(a, w)
  {
    hide ModRm, OffsetBytes, RegField, DisplacementSize, ValidPlace, Follows, FormOf, IsPrefix, PlaceOpcode, PlaceKind, ValidField;
    FieldBelow8(a.form, a.field);
    var m := ModRm(a.place, a.field);
    assert w.At(0) == Assemble(a)[0] && w.At(1) == Assemble(a)[1] == m;
    assert [w.opcode, m] + OffsetBytes(a.place) + [] == Assemble(a);
    OffsetFollows(a.place, w.opcode, m, [], w);
    PlaceDecodes(a.place, WordWidth, a.field, w.b2, w.b3);
    ModRmFields(a.place, a.field);
    PlaceFormOf(w, a.form, a.field);
  }

  lemma FieldBelow8(f: PlaceForm, field: nat)
    requires ValidField(f, field)
    ensures field < 8 && (f.Escape? ==> f.n < 8)
  {
  }

  lemma TestForm(w: Bytes)
    requires w.opcode in {0xf6, 0xf7} && RegField(w.b1) == 0
    ensures !IsPrefix(w.opcode) && FormOf(w).size == 2 + DisplacementSize(w.b1) + (if w.opcode == 0xf6 then 1 else 2)
    ensures FormOf(w).decoded == Ok(Plain(Compare, FormOf(w).size))
  {
    hide DisplacementSize, RmOperand, RegisterOperand;
  }

  lemma TestPlaceDecodes(a: Asm, w: Bytes)
    requires a.TestPlace? && Valid(a) && Begins(w, Assemble(a))
    ensures Decoded(a, w)
  {
    hide ModRm, OffsetBytes, RegField, DisplacementSize, ValidPlace, Follows, FormOf, IsPrefix, ValueBytes;
    var m, rest := ModRm(a.place, 0), ValueBytes(a.width, a.value);
    ValueLength(a.width, a.value);
    assert w.At(0) == Assemble(a)[0] && w.At(1) == Assemble(a)[1] == m;
    OffsetFollows(a.place, w.opcode, m, rest, w);
    PlaceDecodes(a.place, a.width, 0, w.b2, w.b3);
    ModRmFields(a.place, 0);
    TestForm(w);
  }

  lemma IndirectForm(w: Bytes, call: bool)
    requires w.opcode == 0xff && RegField(w.b1) == (if call then 2 else 4)
    ensures !IsPrefix(w.opcode) && FormOf(w).size == 2 + DisplacementSize(w.b1)
    ensures FormOf(w).decoded ==
      Ok(Plain(if call then Call else Jump, FormOf(w).size).(first := RmOperand(WordWidth, w.b1, w.b3, w.b4), operandCount := 1, indirect := true))
  {
    hide DisplacementSize, RmOperand, RegisterOperand;
  }

  lemma IndirectDecodes(a: Asm, w: Bytes)
    requires a.Indirect? && Valid(a) && Begins(w, Assemble(a))
    ensures Decoded(a, w)
  {
    hide ModRm, RmOperand, PlaceOperand, OffsetBytes, RegField, DisplacementSize, ValidPlace, FormOf, IsPrefix;
    var field := if a.call then 2 else 4;
    var m := ModRm(a.place, field);
    assert w.At(0) == Assemble(a)[0] && w.At(1) == Assemble(a)[1] == m;
    assert [w.opcode, m] + OffsetBytes(a.place) + [] == Assemble(a);
    OffsetFollows(a.place, w.opcode, m, [], w);
    PlaceDecodes(a.place, WordWidth, field, w.b2, w.b3);
    if !IsLate(a) {
      PlaceDecodes(a.place, WordWidth, field, w.b3, w.b4);
    }
    ModRmFields(a.place, field);
    IndirectForm(w, a.call);
  }

  predicate IsSimple(a: Asm) {
    a.Increment? || a.Decrement? || a.Push? || a.Pop? || a.Ret?
  }

  lemma SimpleForm(w: Bytes, n: nat)
    requires n < 8
    ensures w.opcode == 0xc3 || 0x40 <= w.opcode <= 0x5f ==>
        !IsPrefix(w.opcode) && FormOf(w) == Form(1, Ok(DecodeOneByte(w.opcode)), false)
    ensures w.opcode == 0x40 + n || w.opcode == 0x48 + n ==> w.opcode % 8 == n
  {
    hide DecodeOneByte;
  }

  lemma SimpleDecodes(a: Asm, w: Bytes)
    requires IsSimple(a) && Valid(a) && Begins(w, Assemble(a))
    ensures Decoded(a, w)
  {
    hide RegisterOperand, CodeOf, InRegisterOperand, FormOf, IsPrefix;
    assert w.At(0) == Assemble(a)[0];
    SimpleForm(w, if a.Ret? then 0 else CodeOf(a.reg));
    if !a.Ret? {
      RegisterNamed(a.reg);
    }
  }

  lemma ConditionalForm(w: Bytes, n: nat)
    ensures w.opcode == 0x70 + n && n < 16 ==>
        !IsPrefix(w.opcode) && FormOf(w) ==
        Form(2, Ok(Plain(ConditionalJump, 2).(relativeTarget := Signed8(w.b1), condition := JumpCondition(n))), false)
  {
    hide Signed8, JumpCondition;
  }

  lemma LoopForm(w: Bytes, n: nat)
    ensures w.opcode == 0xe0 + n && n < 4 ==>
        !IsPrefix(w.opcode) && FormOf(w) ==
        Form(2, Ok(Plain(Loop, 2).(relativeTarget := Signed8(w.b1), condition := LoopCondition(n))), false)
  {
    hide Signed8, LoopCondition;
  }

  lemma TransferForm(w: Bytes)
    ensures w.opcode in {0xe8, 0xe9} ==>
        !IsPrefix(w.opcode) && FormOf(w) ==
        Form(3, Ok(Plain(if w.opcode == 0xe8 then Call else Jump, 3).(relativeTarget := Signed16(Word(w.b1, w.b2)))), false)
    ensures w.opcode == 0xeb ==>
        !IsPrefix(w.opcode) && FormOf(w) ==
        Form(2, Ok(Plain(Jump, 2).(relativeTarget := Signed8(w.b1))), false)
    ensures w.opcode == 0xcd ==>
        !IsPrefix(w.opcode) && FormOf(w) ==
        Form(2, Ok(Plain(Interrupt, 2).(interruptNumber := w.b1)), false)
  {
    hide Signed8, Signed16, Word;
  }

  lemma OfBranches(c: BranchCondition, d: Short)
    ensures Valid(JumpIf(c, d)) <==> ConditionCode(c) < 16
    ensures Valid(LoopIf(c, d)) <==> LoopCode(c) < 4
    ensures Valid(JumpIf(c, d)) ==>
        && Assemble(JumpIf(c, d)) == [0x70 + ConditionCode(c), ShortByte(d)] && !IsLate(JumpIf(c, d))
        && Meant(JumpIf(c, d)) == Plain(ConditionalJump, 0).(condition := c, relativeTarget := d)
    ensures Valid(LoopIf(c, d)) ==>
        && Assemble(LoopIf(c, d)) == [0xe0 + LoopCode(c), ShortByte(d)] && !IsLate(LoopIf(c, d))
        && Meant(LoopIf(c, d)) == Plain(Loop, 0).(condition := c, relativeTarget := d)
  {
    hide ConditionCode, LoopCode, ShortByte;
  }

  lemma DecodedBy(a: Asm, w: Bytes, i: Instruction, atModRm: bool)
    requires Valid(a) && !IsLate(a) && !IsPrefix(w.opcode) && FormOf(w) == Form(|Assemble(a)|, Ok(i), atModRm)
    requires i == Meant(a).(offset := 0, size := |Assemble(a)|)
    ensures Decoded(a, w)
  {
    hide FormOf, Meant, Assemble, Valid, IsPrefix, IsLate;
  }

  lemma JumpIfDecodes(c: BranchCondition, d: Short, w: Bytes)
    requires Valid(JumpIf(c, d)) && Begins(w, Assemble(JumpIf(c, d)))
    ensures Decoded(JumpIf(c, d), w)
  {
    OfBranches(c, d);
    hide ShortByte, Signed8, JumpCondition, FormOf, IsPrefix, ConditionCode, Assemble, Meant, Valid, IsLate;
    var a := JumpIf(c, d);
    assert w.At(0) == Assemble(a)[0] && w.At(1) == Assemble(a)[1];
    ConditionalForm(w, ConditionCode(c));
    ConditionNamed(c);
    SignedBytes(d, 0);
    hide Begins, Decoded;
    DecodedBy(a, w, Plain(ConditionalJump, 2).(relativeTarget := d, condition := c), false);
  }

  lemma LoopIfDecodes(c: BranchCondition, d: Short, w: Bytes)
    requires Valid(LoopIf(c, d)) && Begins(w, Assemble(LoopIf(c, d)))
    ensures Decoded(LoopIf(c, d), w)
  {
    OfBranches(c, d);
    hide ShortByte, Signed8, LoopCondition, FormOf, IsPrefix, LoopCode, Assemble, Meant, Valid, IsLate;
    var a := LoopIf(c, d);
    assert w.At(0) == Assemble(a)[0] && w.At(1) == Assemble(a)[1];
    LoopForm(w, LoopCode(c));
    ConditionNamed(c);
    SignedBytes(d, 0);
    hide Begins, Decoded;
    DecodedBy(a, w, Plain(Loop, 2).(relativeTarget := d, condition := c), false);
  }

  predicate IsTransfer(a: Asm) {
    a.JumpShort? || a.JumpNear? || a.CallNear? || a.Int?
  }

  lemma TransferDecodes(a: Asm, w: Bytes)
    requires Valid(a) && Begins(w, Assemble(a)) && IsTransfer(a)
    ensures Decoded(a, w)
  {
    hide ShortByte, NearBytes, Word, Signed8, Signed16, FormOf, IsPrefix;
    assert w.At(0) == Assemble(a)[0];
    TransferForm(w);
    if a.JumpNear? || a.CallNear? {
      NearLength(a.far);
      assert w.At(1) == Assemble(a)[1] && w.At(2) == Assemble(a)[2];
      SignedBytes(0, a.far);
    } else {
      assert w.At(1) == Assemble(a)[1];
      SignedBytes(if a.Int? then 0 else a.distance, 0);
    }
  }

  lemma ConditionNamed(c: BranchCondition)
    ensures ConditionCode(c) < 16 ==> JumpCondition(ConditionCode(c)) == c
    ensures LoopCode(c) < 4 ==> LoopCondition(LoopCode(c)) == c
  {
  }

  lemma FormDecodes(a: Asm, w: Bytes)
    requires Valid(a) && Begins(w, Assemble(a))
    ensures Decoded(a, w)
  {
    hide Valid, Assemble, Begins, Decoded;
    match a
    case WithRegister(_, _, _, _) => WithRegisterDecodes(a, w);
    case WithImmediate(_, _, _, _) => WithImmediateDecodes(a, w);
    case WithShort(_, _, _) => WithShortDecodes(a, w);
    case Accumulator(_, _, _) => AccumulatorDecodes(a, w);
    case LoadRegister(_, _) => LoadDecodes(a, w);
    case Exchange(_, _) => ExchangeDecodes(a, w);
    case ByteAlias(_, _, _) => ByteAliasDecodes(a, w);
    case MovSpare(_, _, _, _) => MovSpareDecodes(a, w);
    case Single(_) => SingleDecodes(a, w);
    case WithData8(_, _) => Data8Decodes(a, w);
    case WithData16(_, _) => Data16Decodes(a, w);
    case AtPlace(_, _, _) => AtPlaceDecodes(a, w);
    case TestPlace(_, _, _) => TestPlaceDecodes(a, w);
    case Indirect(_, _) => IndirectDecodes(a, w);
    case Increment(_) => SimpleDecodes(a, w);
    case Decrement(_) => SimpleDecodes(a, w);
    case Push(_) => SimpleDecodes(a, w);
    case Pop(_) => SimpleDecodes(a, w);
    case Ret => SimpleDecodes(a, w);
    case JumpIf(c, d) => JumpIfDecodes(c, d, w);
    case LoopIf(c, d) => LoopIfDecodes(c, d, w);
    case JumpShort(_) => TransferDecodes(a, w);
    case JumpNear(_) => TransferDecodes(a, w);
    case CallNear(_) => TransferDecodes(a, w);
    case Int(_) => TransferDecodes(a, w);
  }

  lemma BytesBegin(code: seq<u8>, at: nat, part: seq<u8>)
    requires at + |part| <= |code| && code[at..at + |part|] == part && |part| <= 6
    ensures Begins(BytesAt(code, at), part)
  {
    forall k: nat | k < |part|
      ensures BytesAt(code, at).At(k) == part[k]
    {
      assert part[k] == code[at..at + |part|][k] == code[at + k];
    }
  }

  /** Wherever the bytes of an assembled instruction stand, exactly that instruction is decoded. */
  lemma AssembledDecodes(a: Asm, code: seq<u8>, at: nat)
    requires Valid(a) && at + |Assemble(a)| <= |code| && code[at..at + |Assemble(a)|] == Assemble(a)
    ensures DecodeAt(code, at).Ok? && DecodeAt(code, at).value == MeantAs(a, DecodeAt(code, at).value, at, |Assemble(a)|)
  {
    hide Valid, Assemble, Begins, FormOf, Meant, IsPrefix, IsLate;
    BytesBegin(code, at, Assemble(a));
    FormDecodes(a, BytesAt(code, at));
    assert BytesAt(code, at).opcode == code[at];
  }

  /** Two assembled instructions with the same bytes mean the same. */
  lemma BytesDetermineMeaning(a: Asm, b: Asm)
    requires Valid(a) && Valid(b) && Assemble(a) == Assemble(b)
    ensures Meant(a) == Meant(b)
  {
    hide Valid, Assemble, Meant, DecodeAt, IsLate;
    AssembledDecodes(a, Assemble(a), 0);
    AssembledDecodes(b, Assemble(b), 0);
    SizeAndOffset(a);
    SizeAndOffset(b);
    SameLateness(a, b);
  }

  lemma SizeAndOffset(a: Asm)
    requires Valid(a)
    ensures Meant(a).size == 0 && Meant(a).offset == 0 && (Meant(a).indirect <==> a.Indirect?)
    ensures IsLate(a) ==> Meant(a).first == EMPTY_OPERAND
  {
    hide PlaceOperand, InRegisterOperand, Value, ModRm, OffsetBytes, ValidPlace, KindOf, AluOf;
  }

  /** Whether an operand is late shows in the ModR/M byte. */
  lemma SameLateness(a: Asm, b: Asm)
    requires Valid(a) && Valid(b) && Assemble(a) == Assemble(b) && (a.Indirect? <==> b.Indirect?)
    ensures IsLate(a) <==> IsLate(b)
  {
    hide ModRm, RmOperand, PlaceOperand, ValidPlace, OffsetBytes, DisplacementSize;
    if a.Indirect? {
      var some, other := ModRm(a.place, if a.call then 2 else 4), ModRm(b.place, if b.call then 2 else 4);
      assert Assemble(a)[1] == some && Assemble(b)[1] == other;
      LengthShows(a.place, if a.call then 2 else 4);
      LengthShows(b.place, if b.call then 2 else 4);
    }
  }

  lemma LengthShows(place: Place, field: nat)
    requires field < 8 && ValidPlace(place, WordWidth)
    ensures DisplacementSize(ModRm(place, field)) == |OffsetBytes(place)|
  {
    var o := OffsetBytes(place);
    PlaceDecodes(place, WordWidth, field, if |o| >= 1 then o[0] else 0, if |o| == 2 then o[1] else 0);
  }

  /** XCHG with a ModR/M byte, 86h and 87h, is decoded as the ADD to the register with the same operands. */
  lemma ExchangeIsAdd(code: seq<u8>, at: nat)
    requires at < |code| && (code[at] == 0x86 || code[at] == 0x87)
    ensures DecodeAt(code, at) == DecodeAt(code[at := code[at] - 0x84], at)
  {
    var opcode: u8 := code[at] - 0x84;
    var other := code[at := opcode];
    ExchangeForm(BytesAt(code, at), opcode);
    assert BytesAt(other, at) == BytesAt(code, at).(opcode := opcode);
    hide FormOf;
    assert DecodeAt(code, at) == DecodeOpcode(code, at);
    assert DecodeAt(other, at) == DecodeOpcode(other, at);
  }

  lemma ExchangeForm(w: Bytes, opcode: u8)
    requires (w.opcode == 0x86 && opcode == 0x02) || (w.opcode == 0x87 && opcode == 0x03)
    ensures FormOf(w) == FormOf(w.(opcode := opcode)) && !IsPrefix(opcode)
  {
    hide FormOf;
    ToRegisterForm(w);
    ToRegisterForm(w.(opcode := opcode));
  }

  lemma ToRegisterForm(w: Bytes)
    requires w.opcode in {0x02, 0x03, 0x86, 0x87}
    ensures var size, width := 2 + DisplacementSize(w.b1), if w.opcode % 2 == 0 then ByteWidth else WordWidth;
      FormOf(w) == Form(size, Ok(Two(Arithmetic, Add, RegisterOperand(width, RegField(w.b1)),
                                     RmOperand(width, w.b1, w.b2, w.b3)).(size := size)), true)
  {
    ModRmOpcodes(w.opcode);
    ToRegisterDecoded(w);
    hide DecodeModRm, RmOperand, RegisterOperand, RegField, DisplacementSize, IsOneByte, FixedSize, IsPrefix, Two;
  }

  lemma ToRegisterDecoded(w: Bytes)
    requires w.opcode in {0x02, 0x03, 0x86, 0x87} && IsModRm(w.opcode)
    ensures var size, width := 2 + DisplacementSize(w.b1), if w.opcode % 2 == 0 then ByteWidth else WordWidth;
      && ModRmSize(w.opcode, w.b1) == size
      && DecodeModRm(w) == Ok(Two(Arithmetic, Add, RegisterOperand(width, RegField(w.b1)), RmOperand(width, w.b1, w.b2, w.b3)).(size := size))
  {
    hide RmOperand, RegisterOperand, RegField, DisplacementSize;
  }
}
