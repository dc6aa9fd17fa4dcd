/**
 * Lines of a program: prefix bytes and an assembled instruction. What the prefix loop makes of them
 * (src/decoder/instruction_decoder.cpp), and that decoding succeeds exactly where a line stands.
 */
module Listing {
  import opened Outcome
  import opened Words
  import opened InstructionDecoder
  import opened Assembler8086
  import Disassembler

  /** Segment overrides, LOCK, the two repeat prefixes, and the two size overrides. */
  predicate PrefixByte(b: u8) {
    b in {0x26, 0x2e, 0x36, 0x3e, 0xf0, 0xf2, 0xf3, 0x66, 0x67}
  }

  predicate PrefixBytes(p: seq<u8>) {
    forall k :: 0 <= k < |p| ==> PrefixByte(p[k])
  }

  ghost predicate Occurs(code: seq<u8>, at: nat, part: seq<u8>) {
    at + |part| <= |code| && code[at..at + |part|] == part
  }

  /** The byte b stands in p before any byte c. */
  predicate FirstIs(p: seq<u8>, b: u8, c: u8) {
    exists k :: 0 <= k < |p| && p[k] == b && forall j :: 0 <= j < k ==> p[j] != c
  }

  /** What prefix bytes make of an instruction decoded behind them. */
  ghost predicate Prefixing(i: Instruction, alone: Instruction, o: nat, p: seq<u8>) {
    && i.offset == o && i.size == alone.size + |p|
    && (i.rep == NoRep <==> 0xf2 !in p && 0xf3 !in p)
    && (i.rep == Rep <==> FirstIs(p, 0xf3, 0xf2))
    && (i.rep == Repne <==> FirstIs(p, 0xf2, 0xf3))
    && (i.operandSizeOverride <==> 0x66 in p)
    && (i.addressSizeOverride <==> 0x67 in p)
    && i == alone.(offset := i.offset, size := i.size, rep := i.rep, operandSizeOverride := i.operandSizeOverride,
                   addressSizeOverride := i.addressSizeOverride)
  }

  // ---------- the prefix loop ----------

  lemma PrefixByteIs(b: u8)
    ensures PrefixByte(b) <==> IsPrefix(b)
  {
  }

  /** What has been collected after the bytes p. */
  ghost predicate Collected(c: Prefixes, p: seq<u8>) {
    && c.count == |p| && c.rep != Repe
    && (c.rep == NoRep <==> 0xf2 !in p && 0xf3 !in p)
    && (c.rep == Rep <==> FirstIs(p, 0xf3, 0xf2))
    && (c.rep == Repne <==> FirstIs(p, 0xf2, 0xf3))
    && (c.operandSize <==> 0x66 in p)
    && (c.addressSize <==> 0x67 in p)
  }

  lemma FirstOfNone(b: u8, c: u8)
    ensures !FirstIs([], b, c)
  {
  }

  lemma FirstSnoc(p: seq<u8>, x: u8, b: u8, c: u8)
    requires b != c
    ensures FirstIs(p + [x], b, c) <==> FirstIs(p, b, c) || (x == b && c !in p)
  {
    var q := p + [x];
    if FirstIs(p, b, c) {
      var k :| 0 <= k < |p| && p[k] == b && forall j :: 0 <= j < k ==> p[j] != c;
      assert q[k] == b && forall j :: 0 <= j < k ==> q[j] == p[j];
    }
    if x == b && c !in p {
      assert q[|p|] == b && forall j :: 0 <= j < |p| ==> q[j] == p[j];
    }
    if FirstIs(q, b, c) {
      var k :| 0 <= k < |q| && q[k] == b && forall j :: 0 <= j < k ==> q[j] != c;
      if k < |p| {
        assert p[k] == b && forall j :: 0 <= j < k ==> p[j] == q[j];
      } else {
        assert forall j :: 0 <= j < |p| ==> p[j] == q[j];
      }
    }
  }

  lemma CollectedSnoc(c: Prefixes, p: seq<u8>, b: u8)
    requires Collected(c, p)
    ensures Collected(AddPrefix(c, b), p + [b])
  {
    hide FirstIs;
    FirstSnoc(p, b, 0xf3, 0xf2);
    FirstSnoc(p, b, 0xf2, 0xf3);
    assert forall x: u8 :: x in p + [b] <==> x in p || x == b;
    FirstIsIn(p, 0xf3, 0xf2);
    FirstIsIn(p, 0xf2, 0xf3);
  }

  lemma FirstIsIn(p: seq<u8>, b: u8, c: u8)
    ensures FirstIs(p, b, c) ==> b in p
    ensures b in p && c !in p ==> FirstIs(p, b, c)
  {
    if b in p && c !in p {
      var k :| 0 <= k < |p| && p[k] == b;
      assert forall j :: 0 <= j < k ==> p[j] != c;
    }
  }

  /** The scan over prefix bytes that a further byte ends. */
  lemma {:induction false} ScanCollects(code: seq<u8>, o: nat, done: seq<u8>, p: seq<u8>, c: Prefixes)
    requires Occurs(code, o, done + p) && PrefixBytes(p) && Collected(c, done)
    requires o + |done| + |p| < |code| ==> !PrefixByte(code[o + |done| + |p|])
    ensures var r := ScanPrefixes(code, o + |done|, c);
      if |done| + |p| <= 15 then r.Ok? && Collected(r.value, done + p) else r == Err(TooManyPrefixes) || |done| > 15
    decreases |p|
  {
    hide Collected, IsPrefix;
    var next := o + |done|;
    if p == [] {
      assert done + p == done;
      if next < |code| {
        PrefixByteIs(code[next]);
      }
      CollectedCount(c, done);
    } else {
      var b, rest := p[0], p[1..];
      assert code[next] == b by {
        assert (done + p)[|done|] == b == code[o..o + |done + p|][|done|];
      }
      PrefixByteIs(b);
      CollectedCount(c, done);
      if c.count < 15 {
        CollectedSnoc(c, done, b);
        assert done + [b] + rest == done + p;
        ScanCollects(code, o, done + [b], rest, AddPrefix(c, b));
      }
    }
  }

  lemma CollectedCount(c: Prefixes, p: seq<u8>)
    requires Collected(c, p)
    ensures c.count == |p|
  {
  }

  lemma {:induction false} CountIs(code: seq<u8>, o: nat, p: seq<u8>)
    requires Occurs(code, o, p) && PrefixBytes(p)
    requires o + |p| < |code| ==> !PrefixByte(code[o + |p|])
    ensures PrefixCount(code, o) == |p|
    decreases |p|
  {
    hide IsPrefix;
    if p == [] {
      if o < |code| {
        PrefixByteIs(code[o]);
      }
    } else {
      assert code[o] == p[0] && code[o + 1..o + 1 + |p[1..]|] == p[1..] by {
        assert code[o..o + |p|] == p;
      }
      PrefixByteIs(p[0]);
      CountIs(code, o + 1, p[1..]);
    }
  }

  /**
   * Prefix bytes before something that is none: at most 15 of them, and at most 15 bytes with the
   * instruction behind them, which is decoded as it would be alone but for its own fields.
   */
  lemma PrefixesMean(code: seq<u8>, o: nat, p: seq<u8>)
    requires Occurs(code, o, p) && PrefixBytes(p) && p != []
    requires o + |p| < |code| ==> !PrefixByte(code[o + |p|])
    ensures var r, alone := DecodeAt(code, o), DecodeAt(code, o + |p|);
      if |p| > 15 then r == Err(TooManyPrefixes)
      else if o + |p| == |code| then r == Err(Truncated(o))
      else if alone.Err? then r == alone
      else if alone.value.size + |p| > 15 then r == Err(TooLong)
      else r.Ok? && Prefixing(r.value, alone.value, o, p)
  {
    hide DecodeOpcode, IsPrefix, FirstIs, ScanPrefixes;
    assert code[o] == p[0] by {
      assert code[o..o + |p|][0] == p[0];
    }
    PrefixByteIs(code[o]);
    CountIs(code, o, p);
    NothingCollected();
    assert [] + p == p;
    ScanCollects(code, o, [], p, NO_PREFIXES);
    if o + |p| < |code| {
      PrefixByteIs(code[o + |p|]);
      DecodesAlone(code, o + |p|);
    }
  }

  lemma NothingCollected()
    ensures Collected(NO_PREFIXES, [])
  {
  }

  /** Without prefixes the repeat prefix and the overrides are those of the opcode: none. */
  lemma DecodesAlone(code: seq<u8>, at: nat)
    requires at < |code| && !IsPrefix(code[at])
    ensures DecodeAt(code, at) == DecodeOpcode(code, at)
    ensures DecodeAt(code, at).Ok? ==> DecodeAt(code, at).value.rep == NoRep
  {
    hide FormOf, IsPrefix;
    OpcodeRepeats(BytesAt(code, at));
  }

  lemma OpcodeRepeats(w: Bytes)
    ensures FormOf(w).decoded.Ok? ==> FormOf(w).decoded.value.rep == NoRep
  {
    hide IsOneByte, FixedSize, IsModRm, DecodeOneByte, DecodeFixed, DecodeModRm;
  }

  // ---------- lines ----------

  datatype Line = Line(prefixes: seq<u8>, asm: Asm)

  ghost predicate ValidLine(l: Line) {
    PrefixBytes(l.prefixes) && Valid(l.asm) && |l.prefixes| + |Assemble(l.asm)| <= 15
  }

  function LineBytes(l: Line): seq<u8>
    requires Valid(l.asm)
  {
    l.prefixes + Assemble(l.asm)
  }

  ghost predicate LineAt(code: seq<u8>, o: nat, l: Line) {
    ValidLine(l) && Occurs(code, o, LineBytes(l))
  }

  /** The instruction is the one an assembled instruction at an address means. */
  ghost predicate IsMeant(i: Instruction, a: Asm, at: nat)
    requires Valid(a)
  {
    i == MeantAs(a, i, at, |Assemble(a)|)
  }

  lemma AssembledIsMeant(a: Asm, code: seq<u8>, at: nat)
    requires Valid(a) && Occurs(code, at, Assemble(a))
    ensures DecodeAt(code, at).Ok? && IsMeant(DecodeAt(code, at).value, a, at)
    ensures DecodeAt(code, at).value.size == |Assemble(a)|
  {
    hide Valid, Assemble, Meant, IsLate, DecodeAt;
    AssembledDecodes(a, code, at);
  }

  /** A line as it is decoded: the instruction it means, alone, and its prefixes. */
  ghost predicate Reads(r: Decoded, alone: Decoded, o: nat, l: Line)
    requires Valid(l.asm)
  {
    && r.Ok? && alone.Ok? && IsMeant(alone.value, l.asm, o + |l.prefixes|)
    && (l.prefixes == [] ==> r == alone)
    && (l.prefixes != [] ==> Prefixing(r.value, alone.value, o, l.prefixes))
  }

  /** Where a line stands, exactly it is decoded. */
  lemma LineDecodes(code: seq<u8>, o: nat, l: Line)
    requires LineAt(code, o, l)
    ensures Reads(DecodeAt(code, o), DecodeAt(code, o + |l.prefixes|), o, l)
  {
    hide DecodeAt, Prefixing, Assemble, Valid, IsMeant, PrefixBytes, PrefixByte;
    var p, part, at := l.prefixes, Assemble(l.asm), o + |l.prefixes|;
    assert code[o..at] == p && code[at..at + |part|] == part by {
      assert code[o..at] == (p + part)[..|p|] && code[at..at + |part|] == (p + part)[|p|..];
    }
    AssembledIsMeant(l.asm, code, at);
    StartsPlain(l.asm);
    assert code[at] == part[0] by {
      assert code[at..at + |part|][0] == part[0];
    }
    if p != [] {
      PrefixesMean(code, o, p);
    }
  }

  /** No assembled instruction starts with a prefix byte. */
  lemma StartsPlain(a: Asm)
    requires Valid(a)
    ensures !PrefixByte(Assemble(a)[0])
  {
    hide Valid, Assemble, FormOf, Meant, IsLate;
    var bytes := Assemble(a);
    var w := BytesAt(bytes, 0);
    assert bytes[0..0 + |bytes|] == bytes;
    BytesBegin(bytes, 0, bytes);
    FormDecodes(a, w);
    PrefixByteIs(bytes[0]);
  }

  /** Where anything is decoded, a line stands. */
  lemma DecodedIsLine(code: seq<u8>, o: nat) returns (l: Line)
    requires DecodeAt(code, o).Ok?
    ensures LineAt(code, o, l)
  {
    hide DecodeAt, Valid, Assemble, PrefixByte, PrefixBytes, Prefixing, IsMeant;
    InsideCode(code, o);
    var p := PrefixesAt(code, o);
    var at := o + |p|;
    assert p == [] ==> at == o;
    if p != [] {
      PrefixesMean(code, o, p);
      PrefixedSize(code, o, p);
    }
    InsideCode(code, at);
    PrefixByteIs(code[at]);
    var a := Disassembler.DecodedIsAssembled(code, at);
    AssembledIsMeant(a, code, at);
    l := Line(p, a);
    assert code[o..at + |Assemble(a)|] == p + Assemble(a);
  }

  lemma PrefixedSize(code: seq<u8>, o: nat, p: seq<u8>)
    requires DecodeAt(code, o).Ok? && DecodeAt(code, o + |p|).Ok?
    requires Prefixing(DecodeAt(code, o).value, DecodeAt(code, o + |p|).value, o, p)
    ensures DecodeAt(code, o).value.size == DecodeAt(code, o + |p|).value.size + |p|
  {
    hide DecodeAt;
  }

  lemma InsideCode(code: seq<u8>, at: nat)
    ensures DecodeAt(code, at).Ok? ==> at < |code|
  {
  }

  lemma {:induction false} PrefixesAt(code: seq<u8>, o: nat) returns (p: seq<u8>)
    requires o <= |code|
    ensures Occurs(code, o, p) && PrefixBytes(p)
    ensures o + |p| < |code| ==> !PrefixByte(code[o + |p|])
    decreases |code| - o
  {
    if o == |code| || !PrefixByte(code[o]) {
      p := [];
    } else {
      var rest := PrefixesAt(code, o + 1);
      p := [code[o]] + rest;
      assert code[o..o + |p|] == p;
    }
  }

  /** Decoding succeeds exactly where a line stands. */
  lemma DecodesIffLine(code: seq<u8>, o: nat)
    ensures DecodeAt(code, o).Ok? <==> exists l :: LineAt(code, o, l)
  {
    hide DecodeAt, LineAt;
    if DecodeAt(code, o).Ok? {
      var l := DecodedIsLine(code, o);
    }
    forall l | LineAt(code, o, l)
      ensures DecodeAt(code, o).Ok?
    {
      LineDecodes(code, o, l);
    }
  }

  /** An opcode reported as unsupported starts no assembled instruction. */
  lemma UnsupportedMeans(code: seq<u8>, o: nat, b: u8, at: nat, a: Asm)
    requires DecodeAt(code, o) == Err(UnsupportedOpcode(b, at)) && o < |code| && !PrefixByte(code[o]) && Valid(a)
    ensures at == o && b == code[o] && Assemble(a)[0] != b
  {
    hide Valid, Assemble, Meant, IsLate, PrefixByte;
    PrefixByteIs(code[o]);
    var bytes := Assemble(a);
    assert bytes[0..0 + |bytes|] == bytes;
    BytesBegin(bytes, 0, bytes);
    FormDecodes(a, BytesAt(bytes, 0));
    UnsupportedForm(BytesAt(code, o), BytesAt(bytes, 0));
  }

  lemma UnsupportedForm(v: Bytes, w: Bytes)
    ensures v.opcode == w.opcode ==> (FormOf(v).size == 0 <==> FormOf(w).size == 0)
    ensures FormOf(v).size != 0 && FormOf(v).decoded.Err? ==> !FormOf(v).decoded.error.UnsupportedOpcode?
  {
    hide IsOneByte, FixedSize, IsModRmArithmetic, RmOperand, RegisterOperand, RegField, DecodeOneByte, DecodeFixed;
  }
}
