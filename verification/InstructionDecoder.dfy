/**
 * Boundary decoding of 8086 machine code (src/decoder/instruction_decoder.cpp). Opcodes are tried in
 * the order of the source; error texts become the constructors of DecodeError.
 */
module InstructionDecoder {
  import opened Words
  import opened Outcome

  datatype InstructionKind =
    | Nop | MoveImmediate | Move | Arithmetic | Compare | Stack | Flags | StringOp | Io | Coprocessor
    | Interrupt | Call | Jump | ConditionalJump | Loop | Return

  datatype Width = ByteWidth | WordWidth

  datatype RegisterName =
    | AL | CL | DL | BL | AH | CH | DH | BH
    | AX | CX | DX | BX | SP | BP | SI | DI
    | ES | CS | SS | DS

  datatype OperandKind = NoOperand | Register | Immediate | Memory

  datatype BranchCondition =
    | Overflow | NotOverflow | Below | AboveOrEqual | Equal | NotEqual | BelowOrEqual | Above
    | Sign | NotSign | Parity | NotParity | Less | GreaterOrEqual | LessOrEqual | Greater
    | LoopNotEqual | LoopEqual | LoopAlways | CxZero | Always

  datatype AluOperation = NoAlu | Add | Adc | BitOr | Sbb | BitAnd | Subtract | BitXor | CompareOp | Test

  datatype RepPrefix = NoRep | Rep | Repe | Repne

  datatype Operand = Operand(kind: OperandKind, width: Width, reg: RegisterName, immediate: u16, modrm: u8,
                             base: RegisterName, index: RegisterName, registerCount: u8,
                             displacement: int, directAddress: bool)

  datatype Instruction = Instruction(kind: InstructionKind, offset: nat, size: u8, relativeTarget: int,
                                     interruptNumber: u8, first: Operand, second: Operand, operandCount: u8,
                                     condition: BranchCondition, alu: AluOperation, stackPop: bool, indirect: bool,
                                     rep: RepPrefix, operandSizeOverride: bool, addressSizeOverride: bool)

  datatype DecodeError =
    | OutsideCode | Truncated(at: nat) | TooManyPrefixes | TooLong | IndirectUnsupported
    | UnsupportedFe | UnsupportedOpcode(opcode: u8, at: nat)

  type Decoded = Result<Instruction, DecodeError>

  const EMPTY_OPERAND := Operand(NoOperand, ByteWidth, AL, 0, 0, AL, AL, 0, 0, false)

  /** An instruction whose further fields keep their defaults; its offset is set by the caller. */
  function Plain(kind: InstructionKind, size: u8): Instruction {
    Instruction(kind, 0, size, 0, 0, EMPTY_OPERAND, EMPTY_OPERAND, 0, Always, NoAlu, false, false, NoRep, false, false)
  }

  /** What a read past the end of the code yields here; the source leaves it undefined. */
  const PAST_END: u8 := 0

  function ByteAt(code: seq<u8>, at: nat): u8 {
    if at < |code| then code[at] else PAST_END
  }

  /** An opcode byte and the five bytes after it: no form without prefixes looks further. */
  datatype Bytes = Bytes(opcode: u8, b1: u8, b2: u8, b3: u8, b4: u8, b5: u8) {
    function At(k: nat): u8 {
      match k
      case 0 => opcode
      case 1 => b1
      case 2 => b2
      case 3 => b3
      case 4 => b4
      case _ => b5
    }
  }

  function BytesAt(code: seq<u8>, at: nat): Bytes {
    Bytes(ByteAt(code, at), ByteAt(code, at + 1), ByteAt(code, at + 2), ByteAt(code, at + 3),
          ByteAt(code, at + 4), ByteAt(code, at + 5))
  }

  // ---------- ModR/M ----------

  function Mode(modrm: u8): nat { modrm / 64 }
  function RegField(modrm: u8): nat { modrm / 8 % 8 }
  function RmField(modrm: u8): nat { modrm % 8 }

  function DisplacementSize(modrm: u8): u8 {
    if Mode(modrm) == 0 && RmField(modrm) == 6 then 2
    else if Mode(modrm) == 1 then 1
    else if Mode(modrm) == 2 then 2
    else 0
  }

  function RegisterFor(encoding: nat, width: Width): RegisterName
    requires encoding < 8
  {
    match encoding
    case 0 => if width == ByteWidth then AL else AX
    case 1 => if width == ByteWidth then CL else CX
    case 2 => if width == ByteWidth then DL else DX
    case 3 => if width == ByteWidth then BL else BX
    case 4 => if width == ByteWidth then AH else SP
    case 5 => if width == ByteWidth then CH else BP
    case 6 => if width == ByteWidth then DH else SI
    case _ => if width == ByteWidth then BH else DI
  }

  function RegisterOperand(width: Width, encoding: nat): Operand
    requires encoding < 8
  {
    EMPTY_OPERAND.(kind := Register, width := width, reg := RegisterFor(encoding, width))
  }

  function ImmediateOperand(width: Width, immediate: u16): Operand {
    EMPTY_OPERAND.(kind := Immediate, width := width, immediate := immediate)
  }

  function Displacement(modrm: u8, low: u8, high: u8): int {
    if DisplacementSize(modrm) == 2 then Signed16(Word(low, high))
    else if DisplacementSize(modrm) == 1 then Signed8(low)
    else 0
  }

  function BaseRegister(rm: nat): RegisterName {
    match rm
    case 0 => BX
    case 1 => BX
    case 2 => BP
    case 3 => BP
    case 4 => SI
    case 5 => DI
    case 6 => BP
    case _ => BX
  }

  function IndexRegister(rm: nat): RegisterName {
    if rm == 0 || rm == 2 then SI else if rm == 1 || rm == 3 then DI else AL
  }

  /** The register or memory operand of a ModR/M byte; low and high are read as displacement bytes. */
  function RmOperand(width: Width, modrm: u8, low: u8, high: u8): Operand {
    if Mode(modrm) == 3 then RegisterOperand(width, RmField(modrm))
    else
      var direct := Mode(modrm) == 0 && RmField(modrm) == 6;
      var rm := RmField(modrm);
      Operand(Memory, width, AL, 0, modrm, BaseRegister(rm), IndexRegister(rm),
              if direct then 0 else if rm <= 3 then 2 else 1, Displacement(modrm, low, high), direct)
  }

  function AluForExtension(extension: nat): AluOperation {
    match extension % 8
    case 0 => Add
    case 1 => BitOr
    case 2 => Adc
    case 3 => Sbb
    case 4 => BitAnd
    case 5 => Subtract
    case 6 => BitXor
    case _ => CompareOp
  }

  // ---------- opcode groups ----------

  predicate IsPrefix(opcode: u8) {
    || opcode == 0x26 || opcode == 0x2e || opcode == 0x36 || opcode == 0x3e
    || opcode == 0xf0 || opcode == 0xf2 || opcode == 0xf3 || opcode == 0x66 || opcode == 0x67
  }

  /** op AL, imm8 and op AX, imm16: 04h, 05h, 0Ch, 0Dh, ..., 3Ch, 3Dh, and TEST A8h, A9h. */
  predicate IsAccumulatorImmediate(opcode: u8) {
    || (opcode <= 0x3d && (opcode % 8 == 4 || opcode % 8 == 5))
    || opcode == 0xa8 || opcode == 0xa9
  }

  predicate IsModRmArithmetic(opcode: u8) {
    (opcode <= 0x3b && opcode / 4 % 2 == 0) || 0x84 <= opcode <= 0x87
  }

  function WidthOf(opcode: u8): Width {
    if opcode % 2 == 0 then ByteWidth else WordWidth
  }

  predicate IsStringOp(opcode: u8) {
    0xa4 <= opcode <= 0xa7 || 0xaa <= opcode <= 0xaf
  }

  predicate IsDecimalAdjust(opcode: u8) {
    opcode == 0x27 || opcode == 0x2f || opcode == 0x37 || opcode == 0x3f
  }

  predicate IsFlagsOp(opcode: u8) {
    opcode == 0xf4 || opcode == 0xf5 || 0xf8 <= opcode <= 0xfd || opcode == 0x9e || opcode == 0x9f
  }

  /** PUSH and POP of segment registers. */
  predicate IsSegmentStack(opcode: u8) {
    || opcode == 0x06 || opcode == 0x07 || opcode == 0x0e || opcode == 0x16
    || opcode == 0x17 || opcode == 0x1e || opcode == 0x1f
  }

  predicate IsOneByteReturn(opcode: u8) {
    opcode == 0xc3 || opcode == 0xcb || opcode == 0xcf
  }

  predicate IsOneByte(opcode: u8) {
    || 0x90 <= opcode <= 0x99 || 0x9b <= opcode <= 0x9f || opcode == 0xd7 || IsDecimalAdjust(opcode) || IsFlagsOp(opcode)
    || opcode == 0x0f || IsStringOp(opcode) || 0xec <= opcode <= 0xef || 0x40 <= opcode <= 0x5f || IsSegmentStack(opcode)
    || opcode == 0xcc || opcode == 0xce || IsOneByteReturn(opcode)
  }

  /** Opcodes that stand alone. */
  function DecodeOneByte(opcode: u8): (i: Instruction)
    requires IsOneByte(opcode)
    ensures i.size == 1 && i.rep == NoRep
  {
    if opcode == 0x90 || opcode == 0x9b then Plain(Nop, 1)
    else if 0x91 <= opcode <= 0x97 || opcode == 0xd7 then Plain(Move, 1)
    else if opcode == 0x98 || opcode == 0x99 || IsDecimalAdjust(opcode) then Plain(Arithmetic, 1)
    else if IsFlagsOp(opcode) then Plain(Flags, 1)
    else if IsStringOp(opcode) then Plain(StringOp, 1)
    else if 0xec <= opcode <= 0xef then Plain(Io, 1)
    else if 0x50 <= opcode <= 0x57 then
      Plain(Stack, 1).(first := RegisterOperand(WordWidth, opcode - 0x50), operandCount := 1)
    else if 0x58 <= opcode <= 0x5f then
      Plain(Stack, 1).(first := RegisterOperand(WordWidth, opcode - 0x58), operandCount := 1, stackPop := true)
    else if 0x40 <= opcode <= 0x4f then
      Plain(Arithmetic, 1).(first := RegisterOperand(WordWidth, opcode % 8), second := ImmediateOperand(WordWidth, 1),
                            operandCount := 2, alu := if opcode <= 0x47 then Add else Subtract)
    else if opcode == 0xcc then Plain(Interrupt, 1).(interruptNumber := 3)
    else if opcode == 0xce then Plain(Interrupt, 1).(interruptNumber := 4)
    else if IsOneByteReturn(opcode) then Plain(Return, 1)
    else Plain(Stack, 1)
  }

  /** The size of an opcode followed by immediate bytes only, or 0. */
  function FixedSize(opcode: u8): (size: u8)
    ensures size == 0 || size == 2 || size == 3
  {
    if || opcode == 0xd4 || opcode == 0xd5 || opcode == 0xcd || opcode == 0xeb || 0xe0 <= opcode <= 0xe7
       || 0xb0 <= opcode <= 0xb7 || 0x70 <= opcode <= 0x7f then 2
    else if || opcode == 0xc2 || opcode == 0xca || opcode == 0xe8 || opcode == 0xe9 || 0xa0 <= opcode <= 0xa3
            || 0xb8 <= opcode <= 0xbf then 3
    else if IsAccumulatorImmediate(opcode) then if opcode % 2 == 0 then 2 else 3
    else 0
  }

  function JumpCondition(n: nat): BranchCondition
    requires n < 16
  {
    match n
    case 0 => Overflow
    case 1 => NotOverflow
    case 2 => Below
    case 3 => AboveOrEqual
    case 4 => Equal
    case 5 => NotEqual
    case 6 => BelowOrEqual
    case 7 => Above
    case 8 => Sign
    case 9 => NotSign
    case 10 => Parity
    case 11 => NotParity
    case 12 => Less
    case 13 => GreaterOrEqual
    case 14 => LessOrEqual
    case _ => Greater
  }

  function LoopCondition(n: nat): BranchCondition
    requires n < 4
  {
    match n
    case 0 => LoopNotEqual
    case 1 => LoopEqual
    case 2 => LoopAlways
    case _ => CxZero
  }

  function AccumulatorImmediate(opcode: u8, low: u8, high: u8): Instruction {
    var width := WidthOf(opcode);
    var kind := if 0x38 <= opcode <= 0x3f || opcode == 0xa8 || opcode == 0xa9 then Compare else Arithmetic;
    Plain(kind, if width == ByteWidth then 2 else 3).(
      first := RegisterOperand(width, 0),
      second := ImmediateOperand(width, if width == ByteWidth then low else Word(low, high)),
      operandCount := 2,
      alu := if opcode == 0xa8 || opcode == 0xa9 then Test else AluForExtension(opcode / 8 % 8))
  }

  /** Opcodes followed by one or two immediate bytes. */
  function DecodeFixed(opcode: u8, low: u8, high: u8): (i: Instruction)
    requires FixedSize(opcode) != 0
    ensures i.size == FixedSize(opcode) && i.rep == NoRep
  {
    if opcode == 0xd4 || opcode == 0xd5 then Plain(Arithmetic, 2)
    else if 0xa0 <= opcode <= 0xa3 then Plain(Move, 3)
    else if 0xe4 <= opcode <= 0xe7 then Plain(Io, 2)
    else if 0xb0 <= opcode <= 0xb7 then
      Plain(MoveImmediate, 2).(first := RegisterOperand(ByteWidth, opcode - 0xb0),
                               second := ImmediateOperand(ByteWidth, low), operandCount := 2)
    else if 0xb8 <= opcode <= 0xbf then
      Plain(MoveImmediate, 3).(first := RegisterOperand(WordWidth, opcode - 0xb8),
                               second := ImmediateOperand(WordWidth, Word(low, high)), operandCount := 2)
    else if IsAccumulatorImmediate(opcode) then AccumulatorImmediate(opcode, low, high)
    else if opcode == 0xcd then Plain(Interrupt, 2).(interruptNumber := low)
    else if opcode == 0xc2 || opcode == 0xca then Plain(Return, 3)
    else if opcode == 0xe8 || opcode == 0xe9 then
      Plain(if opcode == 0xe8 then Call else Jump, 3).(relativeTarget := Signed16(Word(low, high)))
    else if opcode == 0xeb then Plain(Jump, 2).(relativeTarget := Signed8(low))
    else if 0x70 <= opcode <= 0x7f then
      Plain(ConditionalJump, 2).(relativeTarget := Signed8(low), condition := JumpCondition(opcode - 0x70))
    else Plain(Loop, 2).(relativeTarget := Signed8(low), condition := LoopCondition(opcode - 0xe0))
  }

  /** How many immediate bytes follow the ModR/M form of an opcode. */
  function ImmediateSize(opcode: u8, modrm: u8): (n: u8)
    ensures n <= 2
  {
    if opcode == 0xc7 || opcode == 0x81 then 2
    else if opcode == 0xc6 || opcode == 0x80 || opcode == 0x82 || opcode == 0x83 then 1
    else if opcode == 0xf6 && RegField(modrm) == 0 then 1
    else if opcode == 0xf7 && RegField(modrm) == 0 then 2
    else 0
  }

  predicate IsModRm(opcode: u8) {
    || IsModRmArithmetic(opcode) || 0x80 <= opcode <= 0x8f || 0xc4 <= opcode <= 0xc7 || 0xd0 <= opcode <= 0xd3
    || 0xd8 <= opcode <= 0xdf || opcode == 0xf6 || opcode == 0xf7 || opcode == 0xfe || opcode == 0xff
  }

  function ModRmSize(opcode: u8, modrm: u8): (size: u8)
    ensures 2 <= size <= 6
  {
    2 + DisplacementSize(modrm) + ImmediateSize(opcode, modrm)
  }

  /** The register and r/m operands in the order the direction bit gives them. */
  function Directed(i: Instruction, opcode: u8, reg: Operand, rm: Operand): Instruction {
    if opcode / 2 % 2 == 0 then i.(first := rm, second := reg, operandCount := 2)
    else i.(first := reg, second := rm, operandCount := 2)
  }

  /** The group 80h-83h and MOV r/m, immediate. */
  function DecodeRmImmediate(w: Bytes): Instruction {
    var move := w.opcode == 0xc6 || w.opcode == 0xc7;
    var at := 2 + DisplacementSize(w.b1);
    var immediate: u16 :=
      if w.opcode == 0xc7 || w.opcode == 0x81 then Word(w.At(at), w.At(at + 1))
      else if w.opcode == 0x83 then Wrap16(Signed8(w.At(at)))
      else w.At(at);
    var width := if w.opcode == 0xc7 || w.opcode == 0x81 || w.opcode == 0x83 then WordWidth else ByteWidth;
    var alu := if move then NoAlu else AluForExtension(RegField(w.b1));
    var kind := if move then Move else if alu == CompareOp then Compare else Arithmetic;
    Plain(kind, ModRmSize(w.opcode, w.b1)).(first := RmOperand(width, w.b1, w.b2, w.b3),
                                            second := ImmediateOperand(width, immediate), operandCount := 2, alu := alu)
  }

  /** The group FFh. For indirect transfers the operand is looked up from the byte after the ModR/M byte. */
  function DecodeGroupFF(w: Bytes): Decoded {
    var extension := RegField(w.b1);
    if extension == 2 || extension == 4 then
      Ok(Plain(if extension == 2 then Call else Jump, ModRmSize(w.opcode, w.b1)).(
           first := RmOperand(WordWidth, w.b1, w.b3, w.b4), operandCount := 1, indirect := true))
    else if 3 <= extension <= 5 then Err(IndirectUnsupported)
    else Ok(Plain(if extension == 6 then Stack else Arithmetic, ModRmSize(w.opcode, w.b1)))
  }

  /** Opcodes with a ModR/M byte. */
  function DecodeModRm(w: Bytes): (r: Decoded)
    requires IsModRm(w.opcode)
    ensures r.Ok? ==> r.value.size == ModRmSize(w.opcode, w.b1) && r.value.rep == NoRep
  {
    var size := ModRmSize(w.opcode, w.b1);
    var reg, rm := RegisterOperand(WidthOf(w.opcode), RegField(w.b1)), RmOperand(WidthOf(w.opcode), w.b1, w.b2, w.b3);
    if IsModRmArithmetic(w.opcode) then
      var test := w.opcode == 0x84 || w.opcode == 0x85;
      var kind := if 0x38 <= w.opcode <= 0x3f || test then Compare else Arithmetic;
      Ok(Directed(Plain(kind, size).(alu := if test then Test else AluForExtension(w.opcode / 8 % 8)), w.opcode, reg, rm))
    else if 0x88 <= w.opcode <= 0x8b then Ok(Directed(Plain(Move, size), w.opcode, reg, rm))
    else if 0x8c <= w.opcode <= 0x8f || w.opcode == 0xc4 || w.opcode == 0xc5 then Ok(Plain(Move, size))
    else if w.opcode == 0xc6 || w.opcode == 0xc7 || 0x80 <= w.opcode <= 0x83 then Ok(DecodeRmImmediate(w))
    else if w.opcode == 0xff then DecodeGroupFF(w)
    else if w.opcode == 0xf6 || w.opcode == 0xf7 then Ok(Plain(if RegField(w.b1) == 0 then Compare else Arithmetic, size))
    else if w.opcode == 0xfe && RegField(w.b1) > 1 then Err(UnsupportedFe)
    else if w.opcode == 0xfe || 0xd0 <= w.opcode <= 0xd3 then Ok(Plain(Arithmetic, size))
    else Ok(Plain(Coprocessor, size))
  }

  /**
   * The form of an opcode: its size, or 0 when there is none, the instruction, and whether a missing
   * ModR/M byte is reported at the place of that byte.
   */
  datatype Form = Form(size: u8, decoded: Decoded, atModRm: bool)

  function FormOf(w: Bytes): Form {
    if IsOneByte(w.opcode) then Form(1, Ok(DecodeOneByte(w.opcode)), false)
    else if FixedSize(w.opcode) != 0 then Form(FixedSize(w.opcode), Ok(DecodeFixed(w.opcode, w.b1, w.b2)), false)
    else if IsModRm(w.opcode) then Form(ModRmSize(w.opcode, w.b1), DecodeModRm(w), w.opcode != 0xf6 && w.opcode != 0xf7)
    else Form(0, Err(UnsupportedOpcode(w.opcode, 0)), false)
  }

  /** Puts a form at its offset if the code holds all of it. */
  function Placed(code: seq<u8>, offset: nat, form: Form): Decoded {
    if offset >= |code| then Err(OutsideCode)
    else if form.size == 0 then Err(UnsupportedOpcode(code[offset], offset))
    else if |code| - offset < form.size then
      Err(Truncated(if form.atModRm && offset + 1 == |code| then offset + 1 else offset))
    else if form.decoded.Ok? then Ok(form.decoded.value.(offset := offset))
    else form.decoded
  }

  /**
   * Decodes at a byte that is not a prefix. The branch of the source for F2h and F3h before a string
   * opcode is absent: both bytes are prefixes, so it is never reached.
   */
  function DecodeOpcode(code: seq<u8>, offset: nat): Decoded {
    Placed(code, offset, FormOf(BytesAt(code, offset)))
  }

  // ---------- prefixes ----------

  datatype Prefixes = Prefixes(count: nat, rep: RepPrefix, operandSize: bool, addressSize: bool)

  const NO_PREFIXES := Prefixes(0, NoRep, false, false)

  /** The first of F2h and F3h decides the repeat prefix. */
  function AddPrefix(p: Prefixes, b: u8): Prefixes {
    var counted := p.(count := p.count + 1);
    if b == 0xf3 then counted.(rep := if p.rep == NoRep then Rep else p.rep)
    else if b == 0xf2 then counted.(rep := if p.rep == NoRep then Repne else p.rep)
    else if b == 0x66 then counted.(operandSize := true)
    else if b == 0x67 then counted.(addressSize := true)
    else counted
  }

  function ScanPrefixes(code: seq<u8>, next: nat, p: Prefixes): (r: Result<Prefixes, DecodeError>)
    requires next <= |code|
    ensures r.Ok? ==> p.count <= r.value.count <= p.count + |code| - next
    decreases |code| - next
  {
    if next < |code| && IsPrefix(code[next]) then
      if p.count == 15 then Err(TooManyPrefixes) else ScanPrefixes(code, next + 1, AddPrefix(p, code[next]))
    else Ok(p)
  }

  function WithPrefixes(i: Instruction, offset: nat, p: Prefixes): Instruction
    requires i.size + p.count <= 15
  {
    i.(offset := offset, size := i.size + p.count, rep := if p.rep == NoRep then i.rep else p.rep,
       operandSizeOverride := p.operandSize, addressSizeOverride := p.addressSize)
  }

  /** The number of prefix bytes from offset. */
  function PrefixCount(code: seq<u8>, offset: nat): nat
    decreases |code| - offset
  {
    if offset < |code| && IsPrefix(code[offset]) then 1 + PrefixCount(code, offset + 1) else 0
  }

  /** Extends the decoding of the bytes behind the prefixes over the prefixes. */
  function Prefixed(code: seq<u8>, offset: nat, opcode: Decoded): Decoded {
    if offset >= |code| then Err(OutsideCode)
    else if !IsPrefix(code[offset]) then opcode
    else
      var scanned := ScanPrefixes(code, offset, NO_PREFIXES);
      if scanned.Err? then Err(scanned.error)
      else if offset + scanned.value.count == |code| then Err(Truncated(offset))
      else if opcode.Err? then opcode
      else if opcode.value.size + scanned.value.count > 15 then Err(TooLong)
      else Ok(WithPrefixes(opcode.value, offset, scanned.value))
  }

  function DecodeAt(code: seq<u8>, offset: nat): Decoded {
    Prefixed(code, offset, DecodeOpcode(code, offset + PrefixCount(code, offset)))
  }

  lemma {:induction false} ScanCounts(code: seq<u8>, next: nat, p: Prefixes)
    requires next <= |code| && ScanPrefixes(code, next, p).Ok?
    ensures ScanPrefixes(code, next, p).value.count == p.count + PrefixCount(code, next)
    ensures next + PrefixCount(code, next) <= |code|
    ensures next + PrefixCount(code, next) < |code| ==> !IsPrefix(code[next + PrefixCount(code, next)])
    decreases |code| - next
  {
    if next < |code| && IsPrefix(code[next]) {
      ScanCounts(code, next + 1, AddPrefix(p, code[next]));
    }
  }

  /** Decoding with the prefix loop of the source. */
  method Decode(code: seq<u8>, offset: nat) returns (r: Decoded)
    ensures r == DecodeAt(code, offset)
  {
    hide DecodeOpcode, ScanPrefixes;
    if offset >= |code| {
      return Err(OutsideCode);
    }
    if !IsPrefix(code[offset]) {
      return DecodeOpcode(code, offset);
    }
    var scanned, next := ScanLoop(code, offset);
    if scanned.Err? {
      return Err(scanned.error);
    }
    ScanCounts(code, offset, NO_PREFIXES);
    assert next == offset + PrefixCount(code, offset);
    var count := scanned.value.count;
    if next == |code| {
      return Err(Truncated(offset));
    }
    var decoded := DecodeOpcode(code, next);
    if decoded.Err? {
      return decoded;
    }
    if decoded.value.size > 15 - count {
      return Err(TooLong);
    }
    return Ok(WithPrefixes(decoded.value, offset, scanned.value));
  }

  /** The prefix loop. */
  method ScanLoop(code: seq<u8>, offset: nat) returns (r: Result<Prefixes, DecodeError>, next: nat)
    requires offset < |code|
    ensures r == ScanPrefixes(code, offset, NO_PREFIXES)
    ensures r.Ok? ==> r.value.count <= 15 && next == offset + r.value.count <= |code|
  {
    var count, rep, operandSize, addressSize := 0, NoRep, false, false;
    next := offset;
    while next < |code| && IsPrefix(code[next])
      invariant offset <= next <= |code| && count == next - offset <= 15
      invariant ScanPrefixes(code, next, Prefixes(count, rep, operandSize, addressSize)) == ScanPrefixes(code, offset, NO_PREFIXES)
    {
      if count == 15 {
        return Err(TooManyPrefixes), next;
      }
      var p := code[next];
      if p == 0xf3 {
        rep := if rep == NoRep then Rep else rep;
      } else if p == 0xf2 {
        rep := if rep == NoRep then Repne else rep;
      } else if p == 0x66 {
        operandSize := true;
      } else if p == 0x67 {
        addressSize := true;
      }
      count := count + 1;
      next := next + 1;
    }
    r := Ok(Prefixes(count, rep, operandSize, addressSize));
  }
}
