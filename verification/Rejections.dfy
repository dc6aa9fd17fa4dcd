/**
 * Why bytes that are no prefix are not decoded (src/decoder/instruction_decoder.cpp): their opcode starts no
 * encoding, the code ends inside one, or they are one of the two groups that are refused by name.
 */
module Rejections {
  import opened Outcome
  import opened Words
  import opened InstructionDecoder
  import opened Assembler8086
  import opened Listing
  import Disassembler

  /** FEh /2 to /7, and the far transfers FFh /3 and /5. */
  datatype Refusal = Refusal(opcode: u8, field: nat, place: Place)

  ghost predicate ValidRefusal(f: Refusal) {
    && ((f.opcode == 0xfe && 2 <= f.field < 8) || (f.opcode == 0xff && f.field in {3, 5}))
    && ValidPlace(f.place, if f.opcode == 0xfe then ByteWidth else WordWidth)
  }

  ghost function RefusedBytes(f: Refusal): seq<u8>
    requires ValidRefusal(f)
  {
    [f.opcode, ModRm(f.place, f.field)] + OffsetBytes(f.place)
  }

  ghost predicate Assembles(a: Asm, bytes: seq<u8>) {
    Valid(a) && Assemble(a) == bytes
  }

  ghost predicate Refuses(f: Refusal, bytes: seq<u8>) {
    ValidRefusal(f) && RefusedBytes(f) == bytes
  }

  /** The bytes of an assembled instruction or of a refused one. */
  ghost predicate Encoding(bytes: seq<u8>) {
    (exists a :: Assembles(a, bytes)) || exists f :: Refuses(f, bytes)
  }

  /** The code ends inside bytes that start at o. */
  ghost predicate CutOff(code: seq<u8>, o: nat, bytes: seq<u8>) {
    o < |code| < o + |bytes| && code[o..] == bytes[..|code| - o]
  }

  ghost predicate RefusedAt(code: seq<u8>, o: nat, f: Refusal) {
    ValidRefusal(f) && Occurs(code, o, RefusedBytes(f))
  }

  /** Opcodes with a ModR/M byte that is looked at before the size of the instruction. */
  predicate AsksForModRm(b: u8) {
    || (b < 0x40 && b % 8 < 4) || 0x80 <= b <= 0x8f || 0xc4 <= b <= 0xc7 || 0xd0 <= b <= 0xd3 || 0xd8 <= b <= 0xdf
    || b in {0xfe, 0xff}
  }

  // ---------- forms ----------

  lemma RefusedForm(f: Refusal, w: Bytes)
    requires ValidRefusal(f) && Begins(w, RefusedBytes(f))
    ensures !IsPrefix(w.opcode) && FormOf(w).size == |RefusedBytes(f)| <= 6
    ensures FormOf(w).decoded == Err(if f.opcode == 0xfe then UnsupportedFe else IndirectUnsupported)
  {
    hide ModRm, OffsetBytes, DisplacementSize, RegField, RmOperand, RegisterOperand, ValidPlace;
    var bytes, o := RefusedBytes(f), OffsetBytes(f.place);
    assert w.opcode == bytes[0] && w.b1 == bytes[1];
    ModRmFields(f.place, f.field);
    assert |o| >= 1 ==> w.b2 == w.At(2) == bytes[2] == o[0];
    assert |o| == 2 ==> w.b3 == w.At(3) == bytes[3] == o[1];
    PlaceDecodes(f.place, if f.opcode == 0xfe then ByteWidth else WordWidth, f.field, w.b2, w.b3);
    OffsetLength(f.place);
  }

  lemma OffsetLength(place: Place)
    ensures |OffsetBytes(place)| <= 2
  {
  }

  /** A form that is an error is a refused one. */
  lemma FormRefused(w: Bytes) returns (f: Refusal)
    requires FormOf(w).size != 0 && FormOf(w).decoded.Err?
    ensures ValidRefusal(f) && Begins(w, RefusedBytes(f)) && f.opcode == w.opcode
  {
    hide ModRm, OffsetBytes, DisplacementSize, RegField, RmOperand, RegisterOperand, Disassembler.PlaceFrom, ValidPlace;
    hide Follows, IsOneByte, FixedSize, IsModRmArithmetic;
    Disassembler.FieldBelow(w.b1);
    var width := if w.opcode == 0xfe then ByteWidth else WordWidth;
    var place := Disassembler.PlaceFrom(w.b1, w.b2, w.b3, width);
    Disassembler.PlaceEncodes(w.b1, w.b2, w.b3, width);
    f := Refusal(w.opcode, RegField(w.b1), place);
    Disassembler.BeginsPlace(w, place, []);
    assert RefusedBytes(f) == [w.opcode, w.b1] + OffsetBytes(place) + [];
  }

  /** Every form is that of an encoding. */
  lemma FormEncodes(w: Bytes) returns (bytes: seq<u8>)
    requires !IsPrefix(w.opcode) && FormOf(w).size != 0
    ensures Encoding(bytes) && Begins(w, bytes)
  {
    hide FormOf, Valid, Assemble, RefusedBytes, ValidRefusal, Begins, IsPrefix;
    if FormOf(w).decoded.Ok? {
      var a := Disassembler.FormIsAssembled(w);
      bytes := Assemble(a);
      assert Assembles(a, bytes);
    } else {
      var f := FormRefused(w);
      bytes := RefusedBytes(f);
      assert Refuses(f, bytes);
    }
  }

  /** An encoding has the form of its first bytes. */
  lemma EncodingForm(bytes: seq<u8>, w: Bytes)
    requires Encoding(bytes) && Begins(w, bytes)
    ensures !IsPrefix(w.opcode) && FormOf(w).size == |bytes| >= 1
    ensures w.opcode == bytes[0]
  {
    hide FormOf, Valid, Assemble, RefusedBytes, ValidRefusal, IsPrefix, Meant, IsLate;
    if a :| Assembles(a, bytes) {
      FormDecodes(a, w);
    } else {
      var f :| Refuses(f, bytes);
      RefusedForm(f, w);
      RefusedOpcode(f);
    }
    assert w.At(0) == bytes[0];
  }

  lemma RefusedOpcode(f: Refusal)
    requires ValidRefusal(f)
    ensures |RefusedBytes(f)| >= 2 && RefusedBytes(f)[0] == f.opcode
  {
  }

  lemma ShortEncoding(bytes: seq<u8>)
    requires Encoding(bytes)
    ensures 1 <= |bytes| <= 6
  {
    hide Valid, ValidRefusal;
    if a :| Assembles(a, bytes) {
    } else {
      var f :| Refuses(f, bytes);
      OffsetLength(f.place);
    }
  }

  /** The opcode says whether there is a form, and with the ModR/M byte how long it is. */
  lemma FormSizes(v: Bytes, w: Bytes)
    requires v.opcode == w.opcode
    ensures FormOf(v).size == 0 <==> FormOf(w).size == 0
    ensures FormOf(v).size == 1 <==> FormOf(w).size == 1
    ensures v.b1 == w.b1 ==> FormOf(v).size == FormOf(w).size
    ensures FormOf(v).size != 0 ==> (FormOf(v).atModRm <==> AsksForModRm(v.opcode))
  {
    hide RmOperand, RegisterOperand, RegField, DisplacementSize, DecodeOneByte, DecodeFixed, DecodeModRm, ImmediateSize;
  }

  // ---------- where no prefix stands ----------

  /** Decoding at a byte that is no prefix is placing its form. */
  lemma DecodesForm(code: seq<u8>, o: nat)
    requires o < |code| && !PrefixByte(code[o])
    ensures DecodeAt(code, o) == Placed(code, o, FormOf(BytesAt(code, o)))
    ensures BytesAt(code, o).opcode == code[o] && !IsPrefix(code[o])
  {
    hide FormOf, PrefixByte, IsPrefix;
    PrefixByteIs(code[o]);
    DecodesAlone(code, o);
  }

  /** An opcode is unsupported exactly when no encoding starts with it. */
  lemma UnsupportedIff(code: seq<u8>, o: nat)
    requires o < |code| && !PrefixByte(code[o])
    ensures DecodeAt(code, o) == Err(UnsupportedOpcode(code[o], o)) <==> forall bytes :: Encoding(bytes) ==> bytes == [] || bytes[0] != code[o]
    ensures DecodeAt(code, o).Err? && DecodeAt(code, o).error.UnsupportedOpcode? ==>
        DecodeAt(code, o) == Err(UnsupportedOpcode(code[o], o))
  {
    hide DecodeAt, FormOf, PrefixByte, IsPrefix, Begins, Encoding;
    var w := BytesAt(code, o);
    DecodesForm(code, o);
    FormError(w);
    if FormOf(w).size != 0 {
      var bytes := FormEncodes(w);
      EncodingForm(bytes, w);
    }
    forall bytes | Encoding(bytes) && bytes != [] && bytes[0] == code[o]
      ensures FormOf(w).size != 0
    {
      ShortEncoding(bytes);
      assert bytes[0..0 + |bytes|] == bytes;
      BytesBegin(bytes, 0, bytes);
      EncodingForm(bytes, BytesAt(bytes, 0));
      FormSizes(w, BytesAt(bytes, 0));
    }
  }

  lemma FormError(w: Bytes)
    ensures FormOf(w).size != 0 && FormOf(w).decoded.Err? ==>
        FormOf(w).decoded.error == if w.opcode == 0xfe then UnsupportedFe else IndirectUnsupported
  {
    hide IsOneByte, FixedSize, IsModRmArithmetic, RmOperand, RegisterOperand, RegField, DecodeOneByte, DecodeFixed;
  }

  /** What a code that ends too early is called: the place is that of a ModR/M byte that is asked for first. */
  ghost predicate IsTruncated(code: seq<u8>, o: nat)
    requires o < |code|
  {
    DecodeAt(code, o) == Err(Truncated(if o + 1 == |code| && AsksForModRm(code[o]) then o + 1 else o))
  }

  /** An instruction is truncated exactly when the code ends inside an encoding. */
  lemma TruncatedIff(code: seq<u8>, o: nat)
    requires o < |code| && !PrefixByte(code[o])
    ensures IsTruncated(code, o) <==> exists bytes :: Encoding(bytes) && CutOff(code, o, bytes)
    ensures DecodeAt(code, o).Err? && DecodeAt(code, o).error.Truncated? ==> IsTruncated(code, o)
  {
    hide DecodeAt, FormOf, PrefixByte, IsPrefix, Begins, Encoding, CutOff, BytesAt;
    var w := BytesAt(code, o);
    DecodesForm(code, o);
    FormSizes(w, w);
    FormError(w);
    if FormOf(w).size != 0 {
      var bytes := FormEncodes(w);
      EncodingForm(bytes, w);
      if |bytes| > |code| - o {
        BeginsCutOff(code, o, bytes);
      }
    }
    forall bytes | Encoding(bytes) && CutOff(code, o, bytes)
      ensures FormOf(w).size > |code| - o
    {
      CutOffForm(code, o, bytes);
    }
  }

  lemma BeginsCutOff(code: seq<u8>, o: nat, bytes: seq<u8>)
    requires o < |code| < o + |bytes| && Begins(BytesAt(code, o), bytes)
    ensures CutOff(code, o, bytes)
  {
    var w := BytesAt(code, o);
    forall k | 0 <= k < |code| - o
      ensures code[o..][k] == bytes[k]
    {
      assert w.At(k) == bytes[k];
    }
  }

  lemma CutOffForm(code: seq<u8>, o: nat, bytes: seq<u8>)
    requires Encoding(bytes) && CutOff(code, o, bytes)
    ensures FormOf(BytesAt(code, o)).size > |code| - o
  {
    hide FormOf, Begins, Encoding;
    ShortEncoding(bytes);
    assert bytes[0..0 + |bytes|] == bytes;
    BytesBegin(bytes, 0, bytes);
    var v, w := BytesAt(bytes, 0), BytesAt(code, o);
    EncodingForm(bytes, v);
    assert v.opcode == w.opcode by {
      assert code[o..][0] == bytes[0];
    }
    if |code| - o >= 2 {
      assert v.b1 == w.b1 by {
        assert code[o..][1] == bytes[1];
      }
    }
    FormSizes(v, w);
  }

  /** The two named errors stand exactly for the bytes of refused instructions. */
  lemma RefusedIff(code: seq<u8>, o: nat)
    requires o < |code| && !PrefixByte(code[o])
    ensures DecodeAt(code, o) == Err(UnsupportedFe) <==> exists f :: RefusedAt(code, o, f) && f.opcode == 0xfe
    ensures DecodeAt(code, o) == Err(IndirectUnsupported) <==> exists f :: RefusedAt(code, o, f) && f.opcode == 0xff
  {
    hide DecodeAt, FormOf, PrefixByte, IsPrefix, Begins, RefusedBytes, ValidRefusal, BytesAt, Occurs;
    var w := BytesAt(code, o);
    DecodesForm(code, o);
    FormError(w);
    if FormOf(w).size != 0 && FormOf(w).decoded.Err? {
      var f := FormRefused(w);
      RefusedForm(f, w);
      RefusedIs(f);
      if |RefusedBytes(f)| <= |code| - o {
        BeginsOccurs(code, o, RefusedBytes(f));
        assert RefusedAt(code, o, f);
      }
    }
    forall f | RefusedAt(code, o, f)
      ensures DecodeAt(code, o) == Err(if f.opcode == 0xfe then UnsupportedFe else IndirectUnsupported)
      ensures f.opcode in {0xfe, 0xff}
    {
      RefusedIs(f);
      RefusedDecodes(code, o, f);
    }
  }

  lemma RefusedIs(f: Refusal)
    requires ValidRefusal(f)
    ensures f.opcode in {0xfe, 0xff}
  {
  }

  lemma BeginsOccurs(code: seq<u8>, o: nat, bytes: seq<u8>)
    requires o + |bytes| <= |code| && Begins(BytesAt(code, o), bytes)
    ensures Occurs(code, o, bytes)
  {
    var w := BytesAt(code, o);
    forall k | 0 <= k < |bytes|
      ensures code[o..o + |bytes|][k] == bytes[k]
    {
      assert w.At(k) == bytes[k];
    }
  }

  lemma RefusedDecodes(code: seq<u8>, o: nat, f: Refusal)
    requires o < |code| && !PrefixByte(code[o]) && RefusedAt(code, o, f)
    ensures DecodeAt(code, o) == Err(if f.opcode == 0xfe then UnsupportedFe else IndirectUnsupported)
  {
    hide DecodeAt, FormOf, PrefixByte, IsPrefix, Begins, ValidRefusal, BytesAt;
    RefusedLength(f);
    DecodesForm(code, o);
    BytesBegin(code, o, RefusedBytes(f));
    RefusedForm(f, BytesAt(code, o));
  }

  lemma RefusedLength(f: Refusal)
    requires ValidRefusal(f)
    ensures 2 <= |RefusedBytes(f)| <= 4
  {
    OffsetLength(f.place);
  }
}
