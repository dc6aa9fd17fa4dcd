/** Fixed-width unsigned integers, little-endian byte strings and bit-wise operations. */
module Words {

  type u8 = x: int | 0 <= x < 0x100
  type u16 = x: int | 0 <= x < 0x1_0000
  type u32 = x: int | 0 <= x < 0x1_0000_0000
  type u64 = x: int | 0 <= x < 0x1_0000_0000_0000_0000

  function Wrap16(x: int): u16 {
    x % 0x1_0000
  }

  /** The two's complement reading of a 16-bit word. */
  function Signed16(x: u16): int {
    if x < 0x8000 then x else x - 0x1_0000
  }

  function Signed8(x: u8): int {
    if x < 0x80 then x else x - 0x100
  }

  function Word(low: u8, high: u8): u16 {
    low + 0x100 * high
  }

  // ---------- words in memory ----------

  function WordAt(bytes: seq<u8>, at: nat): u16
    requires at + 2 <= |bytes|
  {
    Word(bytes[at], bytes[at + 1])
  }

  function WithWord(bytes: seq<u8>, at: nat, value: u16): (r: seq<u8>)
    requires at + 2 <= |bytes|
    ensures |r| == |bytes|
  {
    bytes[at := value % 0x100][at + 1 := value / 0x100]
  }

  lemma WrittenWord(bytes: seq<u8>, at: nat, value: u16)
    requires at + 2 <= |bytes|
    ensures WordAt(WithWord(bytes, at, value), at) == value
  {
  }

  // ---------- little-endian byte strings ----------

  function Zeros(n: nat): (s: seq<u8>)
    ensures |s| == n
    ensures forall k :: 0 <= k < n ==> s[k] == 0
  {
    seq(n, _ => 0)
  }

  function Le(value: nat, width: nat): (bytes: seq<u8>)
    ensures |bytes| == width
  {
    if width == 0 then [] else [value % 0x100] + Le(value / 0x100, width - 1)
  }

  function FromLe(bytes: seq<u8>): nat {
    if bytes == [] then 0 else bytes[0] + 0x100 * FromLe(bytes[1..])
  }

  function Pow256(n: nat): (p: nat)
    ensures 1 <= p
  {
    if n == 0 then 1 else 0x100 * Pow256(n - 1)
  }

  lemma {:induction false} LeRoundTrip(value: nat, width: nat)
    requires value < Pow256(width)
    ensures FromLe(Le(value, width)) == value
  {
    if width != 0 {
      LeRoundTrip(value / 0x100, width - 1);
      assert Le(value, width)[1..] == Le(value / 0x100, width - 1);
    }
  }

  lemma LeRoundTrip4(value: u32)
    ensures FromLe(Le(value, 4)) == value
  {
    assert Pow256(4) == 0x100 * (0x100 * (0x100 * (0x100 * Pow256(0))));
    LeRoundTrip(value, 4);
  }

  lemma LeRoundTrip8(value: u64)
    ensures FromLe(Le(value, 8)) == value
  {
    assert Pow256(4) == 0x100 * (0x100 * (0x100 * (0x100 * Pow256(0))));
    assert Pow256(8) == 0x100 * (0x100 * (0x100 * (0x100 * Pow256(4))));
    LeRoundTrip(value, 8);
  }

  // ---------- bit-wise operations ----------

  datatype BitOp = And | Or | Xor

  function BitOf(op: BitOp, a: bool, b: bool): bool {
    match op
    case And => a && b
    case Or => a || b
    case Xor => a != b
  }

  /** Applies op to the lowest width bits of a and b. */
  function Bitwise(op: BitOp, a: nat, b: nat, width: nat): (r: nat)
    ensures r < Pow2(width)
  {
    if width == 0 then 0
    else (if BitOf(op, a % 2 == 1, b % 2 == 1) then 1 else 0) + 2 * Bitwise(op, a / 2, b / 2, width - 1)
  }

  function Pow2(n: nat): (p: nat)
    ensures 1 <= p
  {
    if n == 0 then 1 else 2 * Pow2(n - 1)
  }

  predicate Bit(x: nat, i: nat) {
    if i == 0 then x % 2 == 1 else Bit(x / 2, i - 1)
  }

  /** Bit i of the combined word is the combination of the two bits i. */
  lemma {:induction false} BitwiseBit(op: BitOp, a: nat, b: nat, width: nat, i: nat)
    requires i < width
    ensures Bit(Bitwise(op, a, b, width), i) == BitOf(op, Bit(a, i), Bit(b, i))
  {
    var rest := Bitwise(op, a / 2, b / 2, width - 1);
    assert Bitwise(op, a, b, width) / 2 == rest;
    if i != 0 {
      BitwiseBit(op, a / 2, b / 2, width - 1, i - 1);
    }
  }

  function Bitwise16(op: BitOp, a: u16, b: u16): u16 {
    assert Pow2(16) == 0x1_0000 by { Pow2Of16(); }
    Bitwise(op, a, b, 16)
  }

  lemma Pow2Of8()
    ensures Pow2(8) == 0x100
  {
    assert Pow2(4) == 16;
  }

  lemma Pow2Of16()
    ensures Pow2(16) == 0x1_0000
  {
    assert Pow2(4) == 16;
    assert Pow2(8) == 16 * Pow2(4);
    assert Pow2(12) == 16 * Pow2(8);
    assert Pow2(16) == 16 * Pow2(12);
  }

  lemma {:induction false} ZeroHasNoBit(i: nat)
    ensures !Bit(0, i)
    decreases i
  {
    if i != 0 {
      ZeroHasNoBit(i - 1);
    }
  }

  /** Multiplying by a power of two shifts the bits up. */
  lemma {:induction false} ShiftedBit(x: nat, k: nat, i: nat)
    ensures Bit(x * Pow2(k), i) <==> i >= k && Bit(x, i - k)
    decreases k
  {
    if k != 0 {
      var half := x * Pow2(k - 1);
      assert x * Pow2(k) == 2 * half;
      if i != 0 {
        ShiftedBit(x, k - 1, i - 1);
      }
    }
  }

  lemma {:induction false} OrWithZero(a: nat, width: nat)
    requires a < Pow2(width)
    ensures Bitwise(Or, a, 0, width) == a
    decreases width
  {
    if width != 0 {
      OrWithZero(a / 2, width - 1);
    }
  }

  lemma OrDoubled(half: nat, b: nat, width: nat)
    requires width > 0
    ensures Bitwise(Or, 2 * half, b, width) == b % 2 + 2 * Bitwise(Or, half, b / 2, width - 1)
  {
    hide Bitwise;
    BitwiseUnfolds(Or, 2 * half, b, width);
    assert 2 * half / 2 == half && 2 * half % 2 == 0;
  }

  lemma BitwiseUnfolds(op: BitOp, a: nat, b: nat, width: nat)
    requires width > 0
    ensures Bitwise(op, a, b, width) ==
      (if BitOf(op, a % 2 == 1, b % 2 == 1) then 1 else 0) + 2 * Bitwise(op, a / 2, b / 2, width - 1)
  {
  }

  /** Combining values that share no bit adds them. */
  lemma {:induction false} OrAdds(a: nat, n: nat, b: nat, width: nat)
    requires n <= width && b < Pow2(n) && a < Pow2(width - n)
    ensures Bitwise(Or, a * Pow2(n), b, width) == a * Pow2(n) + b
    decreases n
  {
    hide Bitwise;
    if n == 0 {
      OrWithZero(a, width);
    } else {
      var half := a * Pow2(n - 1);
      assert a * Pow2(n) == 2 * half;
      OrAdds(a, n - 1, b / 2, width - 1);
      OrDoubled(half, b, width);
    }
  }

  /** A high and a low byte combine to their word. */
  lemma OrOfBytes(high: u8, low: u8)
    ensures Bitwise16(Or, Wrap16(high * 0x100), low) == Word(low, high)
  {
    hide Bitwise, Pow2;
    Pow2Of8();
    OrAdds(high, 8, low, 16);
    assert Wrap16(high * 0x100) == high * Pow2(8);
  }

  /** A value is given by its bits. */
  lemma {:induction false} SameBits(a: nat, b: nat, width: nat)
    requires a < Pow2(width) && b < Pow2(width)
    requires forall i: nat :: i < width ==> Bit(a, i) == Bit(b, i)
    ensures a == b
    decreases width
  {
    if width != 0 {
      assert Bit(a, 0) == Bit(b, 0);
      forall i: nat | i < width - 1
        ensures Bit(a / 2, i) == Bit(b / 2, i)
      {
        assert Bit(a, i + 1) == Bit(b, i + 1);
      }
      SameBits(a / 2, b / 2, width - 1);
    }
  }

  /** Bit i is the parity of the quotient by 2^i. */
  lemma {:induction false} BitIsQuotient(x: nat, i: nat)
    ensures Bit(x, i) <==> x / Pow2(i) % 2 == 1
    decreases i
  {
    if i != 0 {
      BitIsQuotient(x / 2, i - 1);
      HalfQuotient(x, Pow2(i - 1));
    }
  }

  lemma HalfQuotient(x: nat, p: nat)
    requires p > 0
    ensures x / 2 / p == x / (2 * p)
  {
    var q, r := x / (2 * p), x % (2 * p);
    assert x == 2 * (q * p) + r && r < 2 * p;
    assert x / 2 == q * p + r / 2 && r / 2 < p;
    QuotientIs(x / 2, p, q, r / 2);
  }

  lemma QuotientIs(x: nat, p: nat, q: nat, r: nat)
    requires p > 0 && x == q * p + r && r < p
    ensures x / p == q
  {
    var d := x / p - q;
    assert x == (x / p) * p + x % p;
    assert d * p == r - x % p;
    assert d >= 1 ==> d * p >= p;
    assert d <= -1 ==> d * p + p <= 0;
  }

  /** The bits of a value put together of a low and a high part. */
  lemma {:induction false} SplitBits(low: nat, k: nat, high: nat, i: nat)
    requires low < Pow2(k)
    ensures Bit(low + high * Pow2(k), i) <==> if i < k then Bit(low, i) else Bit(high, i - k)
    decreases k
  {
    if k != 0 {
      var half := high * Pow2(k - 1);
      assert high * Pow2(k) == 2 * half;
      assert (low + 2 * half) / 2 == low / 2 + half && (low + 2 * half) % 2 == low % 2;
      if i != 0 {
        SplitBits(low / 2, k - 1, high, i - 1);
      }
    }
  }
}
