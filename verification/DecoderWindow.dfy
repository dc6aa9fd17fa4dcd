/**
 * What a decoded instruction depends on: its own bytes and nothing else, wherever they lie, except for
 * the operand of an indirect call or jump with a displacement.
 */
module DecoderWindow {
  import opened Words
  import opened Outcome
  import opened InstructionDecoder

  /** n bytes of c from o are the n bytes of d from p. */
  ghost predicate Agree(c: seq<u8>, o: nat, d: seq<u8>, p: nat, n: nat)
    decreases n
  {
    if n == 0 then o <= |c| && p <= |d|
    else o < |c| && p < |d| && c[o] == d[p] && Agree(c, o + 1, d, p + 1, n - 1)
  }

  lemma {:induction false} AgreeAt(c: seq<u8>, o: nat, d: seq<u8>, p: nat, n: nat, k: nat)
    requires Agree(c, o, d, p, n) && k < n
    ensures o + k < |c| && p + k < |d| && c[o + k] == d[p + k]
    decreases n
  {
    if k != 0 {
      AgreeAt(c, o + 1, d, p + 1, n - 1, k - 1);
    }
  }

  lemma {:induction false} AgreeShift(c: seq<u8>, o: nat, d: seq<u8>, p: nat, n: nat, k: nat)
    requires Agree(c, o, d, p, n) && k <= n
    ensures Agree(c, o + k, d, p + k, n - k)
    decreases k
  {
    if k != 0 {
      AgreeShift(c, o + 1, d, p + 1, n - 1, k - 1);
    }
  }

  lemma {:induction false} AgreePrefix(c: seq<u8>, o: nat, d: seq<u8>, p: nat, n: nat, k: nat)
    requires Agree(c, o, d, p, n) && k <= n
    ensures Agree(c, o, d, p, k)
    decreases n
  {
    if k != 0 {
      AgreePrefix(c, o + 1, d, p + 1, n - 1, k - 1);
    } else if n != 0 {
      AgreePrefix(c, o + 1, d, p + 1, n - 1, 0);
    }
  }

  /** Agreement is equality of the two slices. */
  lemma {:induction false} AgreeIsSlices(c: seq<u8>, o: nat, d: seq<u8>, p: nat, n: nat)
    requires o + n <= |c| && p + n <= |d|
    ensures Agree(c, o, d, p, n) <==> c[o..o + n] == d[p..p + n]
    decreases n
  {
    if n != 0 {
      AgreeIsSlices(c, o + 1, d, p + 1, n - 1);
      assert c[o..o + n] == [c[o]] + c[o + 1..o + n] && d[p..p + n] == [d[p]] + d[p + 1..p + n];
    }
  }

  // ---------- the forms ----------

  /** An FFh /2 or /4 form with displacement bytes. */
  predicate LateOperand(opcode: u8, modrm: u8) {
    opcode == 0xff && (RegField(modrm) == 2 || RegField(modrm) == 4) && DisplacementSize(modrm) != 0
  }

  /** Two instructions that differ at most in where they are and in their first operand. */
  predicate SameFlow(i: Instruction, j: Instruction) {
    j == i.(offset := j.offset, first := j.first)
  }

  /** Two windows whose first n bytes are the same. */
  predicate SameBytes(w: Bytes, v: Bytes, n: nat) {
    && (1 <= n ==> w.opcode == v.opcode)
    && (2 <= n ==> w.b1 == v.b1)
    && (3 <= n ==> w.b2 == v.b2)
    && (4 <= n ==> w.b3 == v.b3)
    && (5 <= n ==> w.b4 == v.b4)
    && (6 <= n ==> w.b5 == v.b5)
  }

  lemma {:induction false} RmWindow(width: Width, modrm: u8, low: u8, high: u8, low': u8, high': u8)
    requires DisplacementSize(modrm) >= 1 ==> low == low'
    requires DisplacementSize(modrm) == 2 ==> high == high'
    ensures RmOperand(width, modrm, low, high) == RmOperand(width, modrm, low', high')
  {
  }

  /** A form depends on its own bytes, except for the operand of a displaced indirect transfer. */
  lemma {:induction false} FormWindow(w: Bytes, v: Bytes)
    requires FormOf(w).size != 0 && SameBytes(w, v, FormOf(w).size)
    ensures FormOf(v).size == FormOf(w).size
    ensures FormOf(w).decoded.Ok? ==> FormOf(v).decoded.Ok? && SameFlow(FormOf(w).decoded.value, FormOf(v).decoded.value)
    ensures FormOf(w).decoded.Ok? ==> FormOf(w).decoded.value.offset == FormOf(v).decoded.value.offset == 0
    ensures !LateOperand(w.opcode, w.b1) ==> FormOf(v).decoded == FormOf(w).decoded
  {
    if IsOneByte(w.opcode) {
    } else if FixedSize(w.opcode) != 0 {
      FixedWindow(w, v);
    } else if w.opcode == 0xff {
      GroupFFWindow(w, v);
    } else {
      ModRmWindow(w, v);
    }
  }

  lemma {:induction false} GroupFFWindow(w: Bytes, v: Bytes)
    requires w.opcode == v.opcode == 0xff && SameBytes(w, v, ModRmSize(w.opcode, w.b1))
    ensures DecodeGroupFF(w).Ok? ==> DecodeGroupFF(v).Ok? && SameFlow(DecodeGroupFF(w).value, DecodeGroupFF(v).value)
    ensures DecodeGroupFF(w).Ok? ==> DecodeGroupFF(w).value.offset == DecodeGroupFF(v).value.offset == 0
    ensures !LateOperand(w.opcode, w.b1) ==> DecodeGroupFF(v) == DecodeGroupFF(w)
  {
    if DisplacementSize(w.b1) == 0 {
      RmWindow(WordWidth, w.b1, w.b3, w.b4, v.b3, v.b4);
    }
  }

  lemma {:induction false} FixedWindow(w: Bytes, v: Bytes)
    requires FixedSize(w.opcode) != 0 && SameBytes(w, v, FixedSize(w.opcode))
    ensures DecodeFixed(w.opcode, w.b1, w.b2) == DecodeFixed(v.opcode, v.b1, v.b2)
  {
  }

  lemma {:induction false} ModRmWindow(w: Bytes, v: Bytes)
    requires IsModRm(w.opcode) && w.opcode != 0xff && SameBytes(w, v, ModRmSize(w.opcode, w.b1))
    ensures DecodeModRm(w) == DecodeModRm(v)
  {
    RmWindow(WidthOf(w.opcode), w.b1, w.b2, w.b3, v.b2, v.b3);
    RmWindow(ByteWidth, w.b1, w.b2, w.b3, v.b2, v.b3);
    RmWindow(WordWidth, w.b1, w.b2, w.b3, v.b2, v.b3);
  }

  lemma {:induction false} LateFormDiffers(w: Bytes, v: Bytes)
    requires LateOperand(w.opcode, w.b1) && SameBytes(w, v, FormOf(w).size) && w.At(FormOf(w).size) != v.At(FormOf(w).size)
    ensures FormOf(w).decoded.Ok? && FormOf(v).decoded.Ok? && FormOf(w).decoded.value.first != FormOf(v).decoded.value.first
  {
    assert Displacement(w.b1, w.b3, w.b4) != Displacement(v.b1, v.b3, v.b4);
  }

  // ---------- one opcode in the code ----------

  lemma {:induction false} BytesAgree(c: seq<u8>, o: nat, d: seq<u8>, p: nat, n: nat)
    requires Agree(c, o, d, p, n)
    ensures SameBytes(BytesAt(c, o), BytesAt(d, p), n)
  {
    if 1 <= n { AgreeAt(c, o, d, p, n, 0); }
    if 2 <= n { AgreeAt(c, o, d, p, n, 1); }
    if 3 <= n { AgreeAt(c, o, d, p, n, 2); }
    if 4 <= n { AgreeAt(c, o, d, p, n, 3); }
    if 5 <= n { AgreeAt(c, o, d, p, n, 4); }
    if 6 <= n { AgreeAt(c, o, d, p, n, 5); }
  }

  lemma {:induction false} BytesAtAt(code: seq<u8>, at: nat, k: nat)
    requires k <= 5
    ensures BytesAt(code, at).At(k) == ByteAt(code, at + k)
  {
  }

  lemma {:induction false} OpcodeBounds(code: seq<u8>, offset: nat)
    requires DecodeOpcode(code, offset).Ok?
    ensures var i := DecodeOpcode(code, offset).value;
      i.offset == offset && 1 <= i.size <= 6 && offset + i.size <= |code| && i.rep == NoRep
  {
  }

  /** Placing two forms that differ at most in their first operand. */
  lemma {:induction false} PlacedWindow(c: seq<u8>, o: nat, d: seq<u8>, p: nat, f: Form, g: Form)
    requires Placed(c, o, f).Ok? && f.size == g.size && p + f.size <= |d|
    requires g.decoded.Ok? && SameFlow(f.decoded.value, g.decoded.value)
    ensures Placed(d, p, g).Ok? && SameFlow(Placed(c, o, f).value, Placed(d, p, g).value)
    ensures Placed(d, p, g).value.offset == p
    ensures Placed(c, o, f).value.first == f.decoded.value.first
    ensures Placed(d, p, g).value.first == g.decoded.value.first
  {
  }

  /** What two decodings of agreeing bytes have to do with each other. */
  ghost predicate Related(i: Instruction, j: Instruction, p: nat, late: bool, beyond: u8, beyond': u8) {
    && SameFlow(i, j) && j.offset == p
    && (!late ==> i.first == j.first)
    && (late && beyond != beyond' ==> i.first != j.first)
  }

  lemma {:induction false} OpcodeWindow(c: seq<u8>, o: nat, d: seq<u8>, p: nat, late: bool)
    requires DecodeOpcode(c, o).Ok? && Agree(c, o, d, p, DecodeOpcode(c, o).value.size)
    requires late == LateOperand(ByteAt(c, o), ByteAt(c, o + 1))
    ensures DecodeOpcode(d, p).Ok?
    ensures var size := DecodeOpcode(c, o).value.size;
      Related(DecodeOpcode(c, o).value, DecodeOpcode(d, p).value, p, late, ByteAt(c, o + size), ByteAt(d, p + size))
  {
    hide DecodeOneByte, DecodeFixed, DecodeModRm;
    var w, v := BytesAt(c, o), BytesAt(d, p);
    OpcodeBounds(c, o);
    var size := DecodeOpcode(c, o).value.size;
    AgreeAt(c, o, d, p, size, size - 1);
    BytesAgree(c, o, d, p, size);
    FormWindow(w, v);
    PlacedWindow(c, o, d, p, FormOf(w), FormOf(v));
    if late && ByteAt(c, o + size) != ByteAt(d, p + size) {
      BytesAtAt(c, o, size);
      BytesAtAt(d, p, size);
      LateFormDiffers(w, v);
    }
  }

  // ---------- prefixes ----------

  lemma {:induction false} ScanWindow(c: seq<u8>, o: nat, d: seq<u8>, p: nat, acc: Prefixes)
    requires o <= |c| && ScanPrefixes(c, o, acc).Ok?
    requires Agree(c, o, d, p, ScanPrefixes(c, o, acc).value.count - acc.count + 1)
    ensures ScanPrefixes(d, p, acc) == ScanPrefixes(c, o, acc)
    decreases |c| - o
  {
    var n := ScanPrefixes(c, o, acc).value.count - acc.count;
    AgreeAt(c, o, d, p, n + 1, 0);
    if IsPrefix(c[o]) {
      AgreeShift(c, o, d, p, n + 1, 1);
      ScanWindow(c, o + 1, d, p + 1, AddPrefix(acc, c[o]));
    }
  }

  lemma {:induction false} ScanNeverRepe(code: seq<u8>, next: nat, p: Prefixes)
    requires next <= |code| && p.rep != Repe
    ensures ScanPrefixes(code, next, p).Ok? ==> ScanPrefixes(code, next, p).value.rep != Repe
    decreases |code| - next
  {
    if next < |code| && IsPrefix(code[next]) && p.count != 15 {
      ScanNeverRepe(code, next + 1, AddPrefix(p, code[next]));
    }
  }

  lemma {:induction false} PrefixedBounds(code: seq<u8>, offset: nat, x: Decoded)
    requires Prefixed(code, offset, x).Ok?
    requires x.Ok? ==> var i := x.value; var at := offset + PrefixCount(code, offset);
      i.offset == at && 1 <= i.size <= 6 && at + i.size <= |code| && i.rep == NoRep
    ensures var i := Prefixed(code, offset, x).value;
      i.offset == offset && 1 <= i.size <= 15 && offset + i.size <= |code| && i.rep != Repe
  {
    if IsPrefix(code[offset]) {
      ScanCounts(code, offset, NO_PREFIXES);
      ScanNeverRepe(code, offset, NO_PREFIXES);
    }
  }

  /** The bytes behind the prefixes agree as well. */
  lemma {:induction false} PrefixedAgree(c: seq<u8>, o: nat, d: seq<u8>, p: nat, x: Decoded)
    requires Prefixed(c, o, x).Ok? && Agree(c, o, d, p, Prefixed(c, o, x).value.size)
    ensures x.Ok? && Agree(c, o + PrefixCount(c, o), d, p + PrefixCount(c, o), x.value.size)
    ensures Prefixed(c, o, x).value.size == PrefixCount(c, o) + x.value.size
  {
    if IsPrefix(c[o]) {
      ScanCounts(c, o, NO_PREFIXES);
      AgreeShift(c, o, d, p, Prefixed(c, o, x).value.size, PrefixCount(c, o));
    }
  }

  lemma {:induction false} PrefixesAgree(c: seq<u8>, o: nat, d: seq<u8>, p: nat, size: nat)
    requires o < |c| && Agree(c, o, d, p, size) && PrefixCount(c, o) < size
    ensures p < |d| && IsPrefix(c[o]) == IsPrefix(d[p]) && PrefixCount(d, p) == PrefixCount(c, o)
    ensures ScanPrefixes(c, o, NO_PREFIXES).Ok? ==> ScanPrefixes(d, p, NO_PREFIXES) == ScanPrefixes(c, o, NO_PREFIXES)
  {
    AgreeAt(c, o, d, p, size, 0);
    AgreePrefix(c, o, d, p, size, PrefixCount(c, o) + 1);
    CountAgrees(c, o, d, p);
    if ScanPrefixes(c, o, NO_PREFIXES).Ok? {
      ScanCounts(c, o, NO_PREFIXES);
      ScanWindow(c, o, d, p, NO_PREFIXES);
    }
  }

  lemma {:induction false} CountAgrees(c: seq<u8>, o: nat, d: seq<u8>, p: nat)
    requires o < |c| && Agree(c, o, d, p, PrefixCount(c, o) + 1)
    ensures PrefixCount(d, p) == PrefixCount(c, o)
    decreases |c| - o
  {
    if IsPrefix(c[o]) {
      AgreeAt(c, o, d, p, PrefixCount(c, o) + 1, 1);
      CountAgrees(c, o + 1, d, p + 1);
    }
  }

  /** Related opcodes behind the same prefixes give related instructions. */
  lemma {:induction false} PrefixedRelated(c: seq<u8>, o: nat, d: seq<u8>, p: nat, x: Decoded, y: Decoded, late: bool, beyond: u8, beyond': u8)
    requires Prefixed(c, o, x).Ok? && x.Ok? && y.Ok?
    requires Related(x.value, y.value, p + PrefixCount(c, o), late, beyond, beyond')
    requires p + PrefixCount(c, o) < |d| && IsPrefix(c[o]) == IsPrefix(d[p])
    requires ScanPrefixes(c, o, NO_PREFIXES).Ok? ==> ScanPrefixes(d, p, NO_PREFIXES) == ScanPrefixes(c, o, NO_PREFIXES)
    ensures Prefixed(d, p, y).Ok?
    ensures Related(Prefixed(c, o, x).value, Prefixed(d, p, y).value, p, late, beyond, beyond')
  {
    if IsPrefix(c[o]) {
      ScanCounts(c, o, NO_PREFIXES);
    }
  }

  /** The bytes at offset are an indirect call or jump with a displacement, after any prefixes. */
  predicate ReadsLate(code: seq<u8>, offset: nat) {
    var at := offset + PrefixCount(code, offset);
    LateOperand(ByteAt(code, at), ByteAt(code, at + 1))
  }

  /** The opcode decodings x and y behind the prefixes of c at o and d at p. */
  ghost predicate Steps(c: seq<u8>, at: nat, d: seq<u8>, at': nat, x: Decoded, y: Decoded, late: bool) {
    x.Ok? ==>
      && 1 <= x.value.size && at + x.value.size <= |c|
      && (Agree(c, at, d, at', x.value.size) ==>
            && y.Ok?
            && Related(x.value, y.value, at', late, ByteAt(c, at + x.value.size), ByteAt(d, at' + x.value.size)))
  }

  lemma {:induction false} OpcodeSteps(c: seq<u8>, at: nat, d: seq<u8>, at': nat, late: bool)
    requires late == LateOperand(ByteAt(c, at), ByteAt(c, at + 1))
    ensures Steps(c, at, d, at', DecodeOpcode(c, at), DecodeOpcode(d, at'), late)
  {
    if DecodeOpcode(c, at).Ok? {
      OpcodeBounds(c, at);
      if Agree(c, at, d, at', DecodeOpcode(c, at).value.size) {
        OpcodeWindow(c, at, d, at', late);
      }
    }
  }

  lemma {:induction false} PrefixedWindow(c: seq<u8>, o: nat, d: seq<u8>, p: nat, x: Decoded, y: Decoded, late: bool)
    requires Prefixed(c, o, x).Ok? && Agree(c, o, d, p, Prefixed(c, o, x).value.size)
    requires Steps(c, o + PrefixCount(c, o), d, p + PrefixCount(d, p), x, y, late)
    ensures Prefixed(d, p, y).Ok?
    ensures var size := Prefixed(c, o, x).value.size;
      Related(Prefixed(c, o, x).value, Prefixed(d, p, y).value, p, late, ByteAt(c, o + size), ByteAt(d, p + size))
  {
    var size := Prefixed(c, o, x).value.size;
    PrefixedAgree(c, o, d, p, x);
    PrefixesAgree(c, o, d, p, size);
    AgreeAt(c, o, d, p, size, PrefixCount(c, o));
    PrefixedRelated(c, o, d, p, x, y, late, ByteAt(c, o + size), ByteAt(d, p + size));
  }

  // ---------- the window contract ----------

  /** A decoded instruction has 1 to 15 bytes, all inside the code, and is never marked REPE. */
  lemma {:induction false} DecodedBounds(code: seq<u8>, offset: nat)
    requires DecodeAt(code, offset).Ok?
    ensures var i := DecodeAt(code, offset).value;
      i.offset == offset && 1 <= i.size <= 15 && offset + i.size <= |code| && i.rep != Repe
  {
    var at := offset + PrefixCount(code, offset);
    if DecodeOpcode(code, at).Ok? {
      OpcodeBounds(code, at);
    }
    PrefixedBounds(code, offset, DecodeOpcode(code, at));
  }

  /**
   * A decoded instruction is decoded again wherever its bytes occur, in any code: the flow fields never
   * depend on anything else, and outside displaced indirect transfers nothing does.
   */
  lemma {:induction false} DecodeWindow(c: seq<u8>, o: nat, d: seq<u8>, p: nat)
    requires DecodeAt(c, o).Ok? && Agree(c, o, d, p, DecodeAt(c, o).value.size)
    ensures DecodeAt(d, p).Ok?
    ensures var size := DecodeAt(c, o).value.size;
      Related(DecodeAt(c, o).value, DecodeAt(d, p).value, p, ReadsLate(c, o), ByteAt(c, o + size), ByteAt(d, p + size))
  {
    hide FormOf;
    var at, at' := o + PrefixCount(c, o), p + PrefixCount(d, p);
    OpcodeSteps(c, at, d, at', ReadsLate(c, o));
    PrefixedWindow(c, o, d, p, DecodeOpcode(c, at), DecodeOpcode(d, at'), ReadsLate(c, o));
  }

  ghost predicate WindowStable(c: seq<u8>, o: nat)
    requires DecodeAt(c, o).Ok?
  {
    forall d: seq<u8>, p: nat :: Agree(c, o, d, p, DecodeAt(c, o).value.size) ==>
      DecodeAt(d, p) == Ok(DecodeAt(c, o).value.(offset := p))
  }

  /** The instruction alone, with one chosen byte after it. */
  function Followed(c: seq<u8>, o: nat, size: nat, b: u8): seq<u8>
    requires o + size <= |c|
  {
    c[o..o + size] + [b]
  }

  /** The window theorem holds of an instruction exactly when it is not a displaced indirect transfer. */
  lemma {:induction false} WindowStableIff(c: seq<u8>, o: nat)
    requires DecodeAt(c, o).Ok?
    ensures WindowStable(c, o) <==> !ReadsLate(c, o)
  {
    DecodedBounds(c, o);
    if !ReadsLate(c, o) {
      forall d: seq<u8>, p: nat | Agree(c, o, d, p, DecodeAt(c, o).value.size)
        ensures DecodeAt(d, p) == Ok(DecodeAt(c, o).value.(offset := p))
      {
        DecodeWindow(c, o, d, p);
      }
    } else {
      LateIsUnstable(c, o);
    }
  }

  lemma {:induction false} LateIsUnstable(c: seq<u8>, o: nat)
    requires DecodeAt(c, o).Ok? && ReadsLate(c, o)
    ensures !WindowStable(c, o)
  {
    hide FormOf;
    DecodedBounds(c, o);
    var size := DecodeAt(c, o).value.size;
    var d := Followed(c, o, size, if ByteAt(c, o + size) == 0 then 1 else 0);
    FollowedAgrees(c, o, size, d[size]);
    DecodeWindow(c, o, d, 0);
  }

  lemma {:induction false} FollowedAgrees(c: seq<u8>, o: nat, size: nat, b: u8)
    requires o + size <= |c|
    ensures Agree(c, o, Followed(c, o, size, b), 0, size) && ByteAt(Followed(c, o, size, b), size) == b
  {
    assert Followed(c, o, size, b)[0..0 + size] == c[o..o + size];
    AgreeIsSlices(c, o, Followed(c, o, size, b), 0, size);
  }
}
