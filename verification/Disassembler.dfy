/**
 * Every instruction the decoder takes is an assembled one (src/decoder/instruction_decoder.cpp): together
 * with Assembler8086, decoding succeeds exactly where the bytes of an assembled instruction stand.
 */
module Disassembler {
  import opened Outcome
  import opened Words
  import opened InstructionDecoder
  import opened Assembler8086

  // ---------- places ----------

  function BaseOf(rm: nat): Base {
    match rm
    case 0 => BxSi case 1 => BxDi case 2 => BpSi case 3 => BpDi
    case 4 => AtSi case 5 => AtDi case 6 => AtBp case _ => AtBx
  }

  /** The register or address of a ModR/M byte and the two bytes after it. */
  function PlaceFrom(m: u8, low: u8, high: u8, width: Width): Place {
    if m / 64 == 3 then InRegister(RegisterFor(m % 8, width))
    else if m / 64 == 0 && m % 8 == 6 then Direct(Signed16(Word(low, high)))
    else
      Based(BaseOf(m % 8), if m / 64 == 0 then NoOffset else if m / 64 == 1 then ShortOffset(Signed8(low))
                           else NearOffset(Signed16(Word(low, high))))
  }

  lemma ByteSigned(low: u8, high: u8)
    ensures -0x80 <= Signed8(low) < 0x80 && ShortByte(Signed8(low)) == low
    ensures -0x8000 <= Signed16(Word(low, high)) < 0x8000 && NearBytes(Signed16(Word(low, high))) == [low, high]
  {
    var n := Signed16(Word(low, high));
    assert n == if high < 0x80 then 0x100 * high + low else 0x100 * (high - 0x100) + low;
  }

  lemma RegisterCoded(n: nat, width: Width)
    requires n < 8
    ensures var reg := RegisterFor(n, width); CodeOf(reg) == n && WidthOfRegister(reg) == width && (IsByte(reg) || IsWord(reg))
    ensures if width == ByteWidth then IsByte(RegisterFor(n, width)) else IsWord(RegisterFor(n, width))
  {
  }

  lemma ModRmParts(m: u8)
    ensures m == m / 64 * 64 + m / 8 % 8 * 8 + m % 8 && m / 64 < 4
  {
    assert m / 8 / 8 == m / 64;
  }

  lemma PlaceEncodes(m: u8, low: u8, high: u8, width: Width)
    ensures var p := PlaceFrom(m, low, high, width);
      && ValidPlace(p, width) && ModRm(p, RegField(m)) == m && |OffsetBytes(p)| == DisplacementSize(m) && Follows(p, low, high)
  {
    hide RegisterFor, Signed8, Signed16, Word, CodeOf, ShortByte, NearBytes, IsByte, IsWord;
    ModRmParts(m);
    ByteSigned(low, high);
    RegisterCoded(m % 8, width);
    RegisterCoded(m % 8, WordWidth);
    RegisterCoded(m % 8, ByteWidth);
  }

  // ---------- families of opcodes ----------

  /** The form at w is that of an assembled instruction. */
  ghost predicate Stands(a: Asm, w: Bytes) {
    Valid(a) && Begins(w, Assemble(a))
  }

  lemma BeginsPlace(w: Bytes, place: Place, rest: seq<u8>)
    requires Follows(place, w.b2, w.b3) && |rest| <= 2
    requires forall k: nat :: k < |rest| ==> w.At(2 + |OffsetBytes(place)| + k) == rest[k]
    ensures Begins(w, [w.opcode, w.b1] + OffsetBytes(place) + rest)
  {
    var o := OffsetBytes(place);
    var all := [w.opcode, w.b1] + o + rest;
    forall k: nat | k < |all|
      ensures w.At(k) == all[k]
    {
      if k >= 2 + |o| {
        assert all[k] == rest[k - 2 - |o|];
        assert w.At(2 + |o| + (k - 2 - |o|)) == rest[k - 2 - |o|];
      }
    }
  }

  lemma TwoOperands(w: Bytes) returns (a: Asm)
    requires (w.opcode < 0x40 && w.opcode % 8 < 4) || w.opcode in {0x84, 0x85, 0x86, 0x87, 0x88, 0x89, 0x8a, 0x8b}
    ensures Stands(a, w)
  {
    hide ModRm, OffsetBytes, DisplacementSize, RegField, Follows, PlaceFrom, ValidPlace, IsByte, IsWord, CodeOf, RegisterFor;
    var width, field := WidthOf(w.opcode), RegField(w.b1);
    FieldBelow(w.b1);
    var reg, place := RegisterFor(field, width), PlaceFrom(w.b1, w.b2, w.b3, width);
    RegisterCoded(field, width);
    PlaceEncodes(w.b1, w.b2, w.b3, width);
    if w.opcode in {0x86, 0x87} {
      a := Exchange(reg, place);
    } else {
      var op := if w.opcode < 0x40 then Alu(AluForExtension(w.opcode / 8)) else if w.opcode < 0x88 then TestBits else Mov;
      a := WithRegister(op, w.opcode / 2 % 2 == 1, reg, place);
      AluCoded(w.opcode / 8);
    }
    assert Assemble(a) == [w.opcode, w.b1] + OffsetBytes(place) + [];
    BeginsPlace(w, place, []);
  }

  lemma FieldBelow(m: u8)
    ensures RegField(m) < 8
  {
  }

  lemma AluCoded(n: nat)
    ensures n < 8 ==> IsAlu(AluForExtension(n)) && AluCode(AluForExtension(n)) == n
  {
  }

  function ImmediateAt(w: Bytes, at: nat, width: Width): u16 {
    if width == ByteWidth then w.At(at) else Word(w.At(at), w.At(at + 1))
  }

  lemma ImmediateBytes(w: Bytes, at: nat, width: Width)
    ensures ValidValue(width, ImmediateAt(w, at, width))
    ensures ValueBytes(width, ImmediateAt(w, at, width)) == if width == ByteWidth then [w.At(at)] else [w.At(at), w.At(at + 1)]
  {
    hide Word;
    WordParts(w.At(at), w.At(at + 1));
  }

  lemma WithData(w: Bytes) returns (a: Asm)
    requires w.opcode in {0x80, 0x81, 0x82, 0x83, 0xc6, 0xc7} || (w.opcode in {0xf6, 0xf7} && RegField(w.b1) == 0)
    ensures Stands(a, w)
  {
    hide ModRm, OffsetBytes, DisplacementSize, RegField, Follows, PlaceFrom, ValidPlace, ValueBytes, ImmediateAt, AluCode, AluForExtension;
    var width := if w.opcode in {0x80, 0x82, 0xc6, 0xf6} then ByteWidth else WordWidth;
    var field, place := RegField(w.b1), PlaceFrom(w.b1, w.b2, w.b3, width);
    FieldBelow(w.b1);
    PlaceEncodes(w.b1, w.b2, w.b3, width);
    var at := 2 + |OffsetBytes(place)|;
    var value := ImmediateAt(w, at, width);
    ImmediateBytes(w, at, width);
    AluCoded(field);
    ByteSigned(w.At(at), 0);
    a := if w.opcode in {0x80, 0x81} then WithImmediate(Alu(AluForExtension(field)), width, place, value)
         else if w.opcode == 0x82 then ByteAlias(AluForExtension(field), place, w.At(at))
         else if w.opcode == 0x83 then WithShort(AluForExtension(field), place, Signed8(w.At(at)))
         else if w.opcode in {0xf6, 0xf7} then TestPlace(width, place, value)
         else if field == 0 then WithImmediate(Mov, width, place, value)
         else MovSpare(field, width, place, value);
    var rest := if w.opcode in {0x82, 0x83} then [w.At(at)] else ValueBytes(width, value);
    BeginsPlace(w, place, rest);
    assert Assemble(a) == [w.opcode, w.b1] + OffsetBytes(place) + rest;
  }

  /** The form of an opcode with a ModR/M byte whose operands are left out. */
  function PlaceFormFor(opcode: u8, field: nat): PlaceForm {
    if opcode == 0x8c then MovFromSegment else if opcode == 0x8d then Lea else if opcode == 0x8e then MovToSegment
    else if opcode == 0x8f then PopPlace else if opcode == 0xc4 then Les else if opcode == 0xc5 then Lds
    else if 0xd0 <= opcode <= 0xd3 then Shift(opcode >= 0xd2, WidthOf(opcode))
    else if 0xd8 <= opcode <= 0xdf then Escape(opcode - 0xd8)
    else if opcode == 0xf6 || opcode == 0xf7 then Unary(WidthOf(opcode))
    else if opcode == 0xfe then ByteIncDec
    else if field == 6 then PushPlace else WordIncDec
  }

  lemma WithoutOperands(w: Bytes) returns (a: Asm)
    requires var field := RegField(w.b1);
      || w.opcode in {0x8c, 0x8d, 0x8e, 0x8f, 0xc4, 0xc5} || 0xd0 <= w.opcode <= 0xd3 || 0xd8 <= w.opcode <= 0xdf
      || (w.opcode in {0xf6, 0xf7} && field != 0) || (w.opcode == 0xfe && field < 2)
      || (w.opcode == 0xff && field in {0, 1, 6, 7})
    ensures Stands(a, w)
  {
    hide ModRm, OffsetBytes, DisplacementSize, RegField, Follows, PlaceFrom, ValidPlace;
    var field, place := RegField(w.b1), PlaceFrom(w.b1, w.b2, w.b3, WordWidth);
    FieldBelow(w.b1);
    PlaceEncodes(w.b1, w.b2, w.b3, WordWidth);
    a := AtPlace(PlaceFormFor(w.opcode, field), field, place);
    BeginsPlace(w, place, []);
    assert [w.opcode, w.b1] + OffsetBytes(place) + [] == [w.opcode, w.b1] + OffsetBytes(place);
  }

  lemma Indirectly(w: Bytes) returns (a: Asm)
    requires w.opcode == 0xff && RegField(w.b1) in {2, 4}
    ensures Stands(a, w)
  {
    hide ModRm, OffsetBytes, DisplacementSize, RegField, Follows, PlaceFrom, ValidPlace;
    var place := PlaceFrom(w.b1, w.b2, w.b3, WordWidth);
    PlaceEncodes(w.b1, w.b2, w.b3, WordWidth);
    a := Indirect(RegField(w.b1) == 2, place);
    BeginsPlace(w, place, []);
    assert [w.opcode, w.b1] + OffsetBytes(place) + [] == [w.opcode, w.b1] + OffsetBytes(place);
  }

  lemma OneByte(w: Bytes) returns (a: Asm)
    requires IsOneByte(w.opcode)
    ensures Stands(a, w)
  {
    if 0x40 <= w.opcode <= 0x5f {
      var n := w.opcode % 8;
      RegisterCoded(n, WordWidth);
      var reg := RegisterFor(n, WordWidth);
      a := if w.opcode < 0x48 then Increment(reg) else if w.opcode < 0x50 then Decrement(reg)
           else if w.opcode < 0x58 then Push(reg) else Pop(reg);
      hide RegisterFor, CodeOf, IsByte, IsWord;
      assert Assemble(a) == [w.opcode];
    } else if w.opcode == 0xc3 {
      a := Ret;
    } else {
      a := Single(SingleFor(w.opcode));
      SingleCoded(w.opcode);
      hide SingleFor, SingleOpcode, ValidSingle;
      assert Assemble(a) == [w.opcode];
    }
  }

  function SingleFor(opcode: u8): Single {
    if opcode == 0x90 then NoOp
    else if 0x91 <= opcode <= 0x97 then XchgAx(RegisterFor(opcode - 0x90, WordWidth))
    else if opcode in {0x06, 0x0e, 0x16, 0x1e} then PushSegment([ES, CS, SS, DS][opcode / 8])
    else if opcode in {0x07, 0x17, 0x1f} then PopSegment([ES, CS, SS, DS][opcode / 8])
    else if 0xa4 <= opcode <= 0xaf then
      StringStep(if opcode < 0xa6 then Movs else if opcode < 0xa8 then Cmps else if opcode < 0xac then Stos
                 else if opcode < 0xae then Lods else Scas, WidthOf(opcode))
    else if 0xec <= opcode <= 0xed then InDx(WidthOf(opcode))
    else if 0xee <= opcode <= 0xef then OutDx(WidthOf(opcode))
    else
      match opcode
      case 0x98 => Cbw case 0x99 => Cwd case 0x9b => WaitOp case 0x9c => Pushf case 0x9d => Popf
      case 0x9e => Sahf case 0x9f => Lahf case 0xd7 => Xlat
      case 0x27 => Daa case 0x2f => Das case 0x37 => Aaa case 0x3f => Aas
      case 0xf4 => Hlt case 0xf5 => Cmc case 0xf8 => Clc case 0xf9 => Stc
      case 0xfa => Cli case 0xfb => Sti case 0xfc => Cld case 0xfd => Std
      case 0x0f => PopCs case 0xcc => Int3 case 0xce => Into case 0xcb => RetFar
      case _ => Iret
  }

  lemma SingleCoded(opcode: u8)
    requires IsOneByte(opcode) && !(0x40 <= opcode <= 0x5f) && opcode != 0xc3
    ensures ValidSingle(SingleFor(opcode)) && SingleOpcode(SingleFor(opcode)) == opcode
  {
    if 0x91 <= opcode <= 0x97 {
      hide IsOneByte;
      RegisterCoded(opcode - 0x90, WordWidth);
    } else if opcode < 0x90 {
      hide SingleFor, SingleOpcode, ValidSingle;
      LowCoded(opcode);
    } else {
      hide SingleFor, SingleOpcode, ValidSingle, IsOneByte;
      HighCoded(opcode);
    }
  }

  lemma LowCoded(opcode: u8)
    requires IsOneByte(opcode) && opcode < 0x40
    ensures ValidSingle(SingleFor(opcode)) && SingleOpcode(SingleFor(opcode)) == opcode
  {
  }

  lemma HighCoded(opcode: u8)
    requires IsOneByte(opcode) && opcode >= 0x90 && !(0x91 <= opcode <= 0x97) && opcode != 0xc3
    ensures ValidSingle(SingleFor(opcode)) && SingleOpcode(SingleFor(opcode)) == opcode
  {
  }

  lemma Fixed(w: Bytes) returns (a: Asm)
    requires FixedSize(w.opcode) != 0 && !IsOneByte(w.opcode)
    ensures Stands(a, w)
  {
    hide IsOneByte;
    if w.opcode in {0xd4, 0xd5, 0xe4, 0xe5, 0xe6, 0xe7} {
      a := Data8At(w);
    } else if w.opcode in {0xc2, 0xca, 0xa0, 0xa1, 0xa2, 0xa3} {
      a := Data16At(w);
    } else if 0xb0 <= w.opcode <= 0xbf {
      a := LoadAt(w);
    } else if IsAccumulatorImmediate(w.opcode) {
      a := AccumulatorAt(w);
    } else {
      a := TransferAt(w);
    }
  }

  lemma Data8At(w: Bytes) returns (a: Asm)
    requires w.opcode in {0xd4, 0xd5, 0xe4, 0xe5, 0xe6, 0xe7}
    ensures Stands(a, w)
  {
    var f := if w.opcode == 0xd4 then Aam else if w.opcode == 0xd5 then Aad
             else if w.opcode < 0xe6 then InData(WidthOf(w.opcode)) else OutData(WidthOf(w.opcode));
    a := WithData8(f, w.b1);
    assert Assemble(a) == [w.opcode, w.b1];
  }

  lemma Data16At(w: Bytes) returns (a: Asm)
    requires w.opcode in {0xc2, 0xca, 0xa0, 0xa1, 0xa2, 0xa3}
    ensures Stands(a, w)
  {
    var f := if w.opcode == 0xc2 then RetPop else if w.opcode == 0xca then RetFarPop
             else if w.opcode < 0xa2 then LoadAccumulator(WidthOf(w.opcode)) else StoreAccumulator(WidthOf(w.opcode));
    a := WithData16(f, Word(w.b1, w.b2));
    WordParts(w.b1, w.b2);
    assert Assemble(a) == [w.opcode, w.b1, w.b2];
  }

  lemma WordParts(low: u8, high: u8)
    ensures Word(low, high) % 0x100 == low && Word(low, high) / 0x100 == high
  {
  }

  lemma LoadAt(w: Bytes) returns (a: Asm)
    requires 0xb0 <= w.opcode <= 0xbf
    ensures Stands(a, w)
  {
    hide RegisterFor, CodeOf, IsByte, IsWord, ImmediateAt, ValueBytes;
    var width := if w.opcode < 0xb8 then ByteWidth else WordWidth;
    RegisterCoded(w.opcode % 8, width);
    ImmediateBytes(w, 1, width);
    a := LoadRegister(RegisterFor(w.opcode % 8, width), ImmediateAt(w, 1, width));
    assert WidthOfRegister(a.reg) == width && (IsByte(a.reg) <==> width == ByteWidth);
    assert Assemble(a) == [w.opcode] + ValueBytes(width, a.value);
  }

  lemma AccumulatorAt(w: Bytes) returns (a: Asm)
    requires IsAccumulatorImmediate(w.opcode)
    ensures Stands(a, w)
  {
    hide ImmediateAt, ValueBytes, AluCode, AluForExtension;
    var width := WidthOf(w.opcode);
    ImmediateBytes(w, 1, width);
    AluCoded(w.opcode / 8);
    a := Accumulator(if w.opcode < 0x40 then Alu(AluForExtension(w.opcode / 8)) else TestBits, width, ImmediateAt(w, 1, width));
    assert Assemble(a) == [w.opcode] + ValueBytes(width, a.value);
  }

  lemma TransferAt(w: Bytes) returns (a: Asm)
    requires w.opcode in {0xcd, 0xe8, 0xe9, 0xeb} || 0x70 <= w.opcode <= 0x7f || 0xe0 <= w.opcode <= 0xe3
    ensures Stands(a, w)
  {
    hide ShortByte, NearBytes, Signed8, Signed16, Word;
    ByteSigned(w.b1, 0);
    ByteSigned(w.b1, w.b2);
    ConditionCoded(w.opcode);
    if w.opcode == 0xcd {
      a := Int(w.b1);
    } else if w.opcode == 0xe8 {
      a := CallNear(Signed16(Word(w.b1, w.b2)));
    } else if w.opcode == 0xe9 {
      a := JumpNear(Signed16(Word(w.b1, w.b2)));
    } else if w.opcode == 0xeb {
      a := JumpShort(Signed8(w.b1));
    } else if w.opcode < 0x80 {
      a := JumpIf(JumpCondition(w.opcode - 0x70), Signed8(w.b1));
    } else {
      a := LoopIf(LoopCondition(w.opcode - 0xe0), Signed8(w.b1));
    }
  }

  lemma ConditionCoded(opcode: u8)
    ensures 0x70 <= opcode <= 0x7f ==> ConditionCode(JumpCondition(opcode - 0x70)) == opcode - 0x70
    ensures 0xe0 <= opcode <= 0xe3 ==> LoopCode(LoopCondition(opcode - 0xe0)) == opcode - 0xe0
  {
  }

  // ---------- all of them ----------

  /** A form that is one is that of an assembled instruction. */
  lemma FormIsAssembled(w: Bytes) returns (a: Asm)
    requires !IsPrefix(w.opcode) && FormOf(w).size != 0 && FormOf(w).decoded.Ok?
    ensures Stands(a, w)
  {
    hide Stands, RegField, IsOneByte, FixedSize;
    if !IsOneByte(w.opcode) && FixedSize(w.opcode) == 0 {
      OpcodeClasses(w);
    }
    if IsOneByte(w.opcode) {
      a := OneByte(w);
    } else if FixedSize(w.opcode) != 0 {
      a := Fixed(w);
    } else if w.opcode < 0x40 || 0x84 <= w.opcode <= 0x8b {
      a := TwoOperands(w);
    } else if w.opcode in {0x80, 0x81, 0x82, 0x83, 0xc6, 0xc7} || (w.opcode in {0xf6, 0xf7} && RegField(w.b1) == 0) {
      a := WithData(w);
    } else if w.opcode == 0xff && RegField(w.b1) in {2, 4} {
      a := Indirectly(w);
    } else {
      a := WithoutOperands(w);
    }
  }

  /** What is left when an opcode neither stands alone nor has a fixed size. */
  lemma OpcodeClasses(w: Bytes)
    requires FormOf(w).size != 0 && FormOf(w).decoded.Ok? && !IsOneByte(w.opcode) && FixedSize(w.opcode) == 0
    ensures w.opcode < 0x40 ==> w.opcode % 8 < 4
    ensures || w.opcode < 0x40 || 0x80 <= w.opcode <= 0x8f || 0xc4 <= w.opcode <= 0xc7 || 0xd0 <= w.opcode <= 0xd3
            || 0xd8 <= w.opcode <= 0xdf || w.opcode in {0xf6, 0xf7, 0xfe, 0xff}
    ensures w.opcode == 0xfe ==> RegField(w.b1) < 2
    ensures w.opcode == 0xff ==> RegField(w.b1) in {0, 1, 2, 4, 6, 7}
  {
    FieldBelow(w.b1);
    hide IsOneByte, FixedSize, RegField, RmOperand, RegisterOperand;
  }

  /** Where an instruction without prefixes is decoded, the bytes of an assembled one stand. */
  lemma DecodedIsAssembled(code: seq<u8>, at: nat) returns (a: Asm)
    requires at < |code| && !IsPrefix(code[at]) && DecodeAt(code, at).Ok?
    ensures Valid(a) && at + |Assemble(a)| <= |code| && code[at..at + |Assemble(a)|] == Assemble(a)
  {
    hide FormOf, Valid, Assemble, IsPrefix, Meant;
    var w := BytesAt(code, at);
    assert w.opcode == code[at];
    a := FormIsAssembled(w);
    FormDecodes(a, w);
    var n := |Assemble(a)|;
    forall k: nat | k < n
      ensures code[at + k] == Assemble(a)[k]
    {
      assert w.At(k) == Assemble(a)[k];
    }
    assert code[at..at + n] == Assemble(a);
  }
}
