/** What the generated string loops compute. */
module StringTheorems {
  import opened Words
  import opened StringLoops
  import D = InstructionDecoder

  // ---------- walking over elements ----------

  /** The bytes of one element: a byte or a word. */
  function Width(op: StringOp): nat {
    if op in {Movsb, Cmpsb, Stosb, Lodsb, Scasb} then 1 else 2
  }

  /** The distance between one element and the next: down when the direction flag, bit 10, is set. */
  function Stride(op: StringOp, s: State): int {
    if Bit(s.flags, 10) then 0 - Width(op) else Width(op)
  }

  /** That is how the generated code steps. */
  lemma StepIsStride(op: StringOp, s: State)
    ensures Step(s.flags, Width(op)) == Stride(op, s)
  {
    BitIsQuotient(s.flags, 10);
    Pow2Of10();
  }

  lemma Pow2Of10()
    ensures Pow2(10) == 0x400
  {
    assert Pow2(5) == 32;
  }

  predicate IsStride(d: int) {
    d == 1 || d == -1 || d == 2 || d == -2
  }

  /** i strides. */
  function Times(d: int, i: int): int
    requires IsStride(d)
  {
    if d == 1 then i else if d == -1 then -i else if d == 2 then 2 * i else -(2 * i)
  }

  /** No address wraps while n elements are walked from a. */
  predicate Walks(a: u16, d: int, n: nat)
    requires IsStride(d)
  {
    n > 0 ==> 0 <= a + Times(d, n - 1) < 0x1_0000
  }

  /** The lowest address of n elements. */
  function Lowest(a: int, d: int, n: nat): int
    requires IsStride(d)
  {
    if d > 0 || n == 0 then a else a + Times(d, n - 1)
  }

  function Bytes(w: nat, n: nat): nat {
    if w == 1 then n else 2 * n
  }

  /** Memory changed at most in n elements from a. */
  ghost predicate OnlyElements(before: seq<u8>, after: seq<u8>, a: int, d: int, w: nat, n: nat)
    requires IsStride(d)
  {
    && |before| == |after| == MEMORY
    && forall j :: 0 <= j < MEMORY && !(Lowest(a, d, n) <= j < Lowest(a, d, n) + Bytes(w, n)) ==> after[j] == before[j]
  }

  lemma WalksOn(a: u16, d: int, n: nat)
    requires IsStride(d) && n > 1 && Walks(a, d, n)
    ensures Wrap16(a + d) == a + d && Walks(a + d, d, n - 1)
  {
  }

  lemma WrapOn(a: u16, d: int, n: nat)
    requires IsStride(d)
    ensures Wrap16(Wrap16(a + d) + Times(d, n)) == Wrap16(a + Times(d, n + 1))
  {
    WrapSum(a + d, Times(d, n));
    assert a + d + Times(d, n) == a + Times(d, n + 1);
  }

  lemma WrapSum(x: int, y: int)
    ensures Wrap16(Wrap16(x) + y) == Wrap16(x + y)
  {
  }

  lemma OnlyElementsFirst(before: seq<u8>, first: seq<u8>, after: seq<u8>, a: u16, d: int, w: nat, n: nat)
    requires IsStride(d) && (w == 1 || w == 2) && (d == w || d + w == 0) && n > 0
    requires OnlyElements(before, first, a, d, w, 1) && OnlyElements(first, after, a + d, d, w, n - 1)
    ensures OnlyElements(before, after, a, d, w, n)
  {
  }

  // ---------- REP MOVSB, REP MOVSW ----------

  predicate Moves(op: StringOp) {
    op == Movsb || op == Movsw
  }

  /** Neither pointer wraps over CX elements. */
  predicate Straight(op: StringOp, s: State) {
    Sized(s) && Walks(s.si, Stride(op, s), s.cx) && Walks(s.di, Stride(op, s), s.cx)
  }

  function AfterOne(op: StringOp, s: State): (t: State)
    requires Sized(s) && s.cx > 0
    ensures Sized(t)
  {
    Body(op, s.(cx := s.cx - 1))
  }

  lemma RepUnfolds(op: StringOp, s: State)
    requires Sized(s)
    ensures Execute(op, D.Rep, s) == if s.cx == 0 then s else Execute(op, D.Rep, AfterOne(op, s))
  {
    hide Body, Sized;
  }

  /** One element has been copied, and everything is one stride further. */
  lemma MovesOne(op: StringOp, s: State)
    requires Sized(s) && Moves(op) && s.cx > 0
    ensures var t, d, w := AfterOne(op, s), Stride(op, s), Width(op);
      && 1 <= w <= 2
      && t == s.(cx := s.cx - 1, si := Wrap16(s.si + d), di := Wrap16(s.di + d), mem := t.mem)
      && |t.mem| == MEMORY && s.si + w <= MEMORY && s.di + w <= MEMORY
      && (forall j :: 0 <= j < MEMORY && !(s.di <= j < s.di + w) ==> t.mem[j] == s.mem[j])
      && t.mem[s.di] == s.mem[s.si] && (w == 2 ==> t.mem[s.di + 1] == s.mem[s.si + 1])
  {
    StepIsStride(op, s);
    hide ComparedFlags, Stride, Step;
  }

  lemma MovesOn(op: StringOp, s: State)
    requires Straight(op, s) && Moves(op) && s.cx > 0
    ensures var t, d := AfterOne(op, s), Stride(op, s);
      && Straight(op, t) && Stride(op, t) == d && OnlyElements(s.mem, t.mem, s.di, d, Width(op), 1)
      && (s.cx > 1 ==> t.si == s.si + d && t.di == s.di + d)
  {
    hide Body, AfterOne;
    MovesOne(op, s);
    if s.cx > 1 {
      WalksOn(s.si, Stride(op, s), s.cx);
      WalksOn(s.di, Stride(op, s), s.cx);
    }
  }

  /** The pointers and the bytes outside the destination, in both directions and whatever the overlap. */
  lemma {:induction false} MovsFrame(op: StringOp, s: State)
    requires Straight(op, s) && Moves(op)
    ensures var r, d := Execute(op, D.Rep, s), Stride(op, s);
      && Sized(r) && OnlyElements(s.mem, r.mem, s.di, d, Width(op), s.cx)
      && r == s.(cx := 0, si := Wrap16(s.si + Times(d, s.cx)), di := Wrap16(s.di + Times(d, s.cx)), mem := r.mem)
    decreases s.cx
  {
    hide Execute, Body, AfterOne, OnlyElements, Times, Walks, Wrap16;
    RepUnfolds(op, s);
    var d := Stride(op, s);
    NoStride(s.si, d);
    NoStride(s.di, d);
    if s.cx == 0 {
      OnlyNone(s.mem, s.di, d, Width(op));
    } else {
      var t := AfterOne(op, s);
      MovesOne(op, s);
      MovesOn(op, s);
      MovsFrame(op, t);
      WrapOn(s.si, d, t.cx);
      WrapOn(s.di, d, t.cx);
      if s.cx == 1 {
        OnlyOne(t.mem, Execute(op, D.Rep, t).mem, t.di, s.di + d, d, Width(op));
      }
      OnlyElementsFirst(s.mem, t.mem, Execute(op, D.Rep, t).mem, s.di, d, Width(op), s.cx);
    }
  }

  lemma NoStride(a: u16, d: int)
    requires IsStride(d)
    ensures Wrap16(a + Times(d, 0)) == a
  {
  }

  lemma OnlyNone(mem: seq<u8>, a: int, d: int, w: nat)
    requires IsStride(d) && |mem| == MEMORY
    ensures OnlyElements(mem, mem, a, d, w, 0)
  {
  }

  lemma OnlyOne(before: seq<u8>, after: seq<u8>, a: int, b: int, d: int, w: nat)
    requires IsStride(d) && OnlyElements(before, after, a, d, w, 0)
    ensures OnlyElements(before, after, b, d, w, 0)
  {
  }

  /** The destination starts ahead of the source, inside the elements still to be read. */
  predicate Ahead(op: StringOp, s: State) {
    var d := s.di - s.si;
    if Stride(op, s) > 0 then 0 < d < Bytes(Width(op), s.cx) else 0 < -d < Bytes(Width(op), s.cx)
  }

  /** Unless the destination starts ahead inside the source, the loop is a copy of the old elements. */
  lemma {:induction false} MovsCopies(op: StringOp, s: State, k: nat, b: nat)
    requires Straight(op, s) && Moves(op) && !Ahead(op, s) && k < s.cx && b < Width(op)
    ensures var d := Stride(op, s);
      && 0 <= s.si + Times(d, k) && 0 <= s.di + Times(d, k) && s.si + Times(d, k) + b < MEMORY && s.di + Times(d, k) + b < MEMORY
      && Execute(op, D.Rep, s).mem[s.di + Times(d, k) + b] == s.mem[s.si + Times(d, k) + b]
    decreases s.cx
  {
    hide Execute, Body, AfterOne, Wrap16, Times, Walks, Stride, OnlyElements, Lowest, Straight, Ahead;
    StraightSized(op, s);
    var t, d := AfterOne(op, s), Stride(op, s);
    RepUnfolds(op, s);
    MovesOn(op, s);
    MovesOne(op, s);
    StrideIs(op, s);
    InReach(op, s, k, b);
    if k == 0 {
      MovsFrame(op, t);
      FirstKept(op, s, Execute(op, D.Rep, s).mem, b);
    } else {
      StillNotAhead(op, s, k, b);
      TimesNext(d, k - 1);
      MovsCopies(op, t, k - 1, b);
    }
  }

  /** The copied element lies behind what is still to be read. */
  lemma StillNotAhead(op: StringOp, s: State, k: nat, b: nat)
    requires Straight(op, s) && Moves(op) && !Ahead(op, s) && 0 < k < s.cx && b < Width(op)
    ensures var t, d := AfterOne(op, s), Stride(op, s);
      && !Ahead(op, t)
      && 0 <= t.si + Times(d, k - 1) && t.si + Times(d, k - 1) + b < MEMORY
      && 0 <= s.si + Times(d, k) && s.si + Times(d, k) + b < MEMORY
      && t.mem[t.si + Times(d, k - 1) + b] == s.mem[s.si + Times(d, k) + b]
  {
    hide Body, AfterOne, Wrap16, OnlyElements;
    MovesOne(op, s);
    MovesOn(op, s);
    InReach(op, s, k, b);
  }

  lemma ModNext(k: nat, p: nat)
    requires 0 < p
    ensures (k + 1) % p == if k % p == p - 1 then 0 else k % p + 1
  {
    var q, r := k / p, k % p;
    assert k == q * p + r;
    if r == p - 1 {
      assert k + 1 == (q + 1) * p;
      ModUnique(k + 1, p, q + 1, 0);
    } else {
      ModUnique(k + 1, p, q, r + 1);
    }
  }

  lemma ModUnique(x: nat, p: nat, q: nat, r: nat)
    requires 0 < p && x == q * p + r && r < p
    ensures x % p == r
  {
    var d := x / p - q;
    assert x == (x / p) * p + x % p;
    assert d * p == r - x % p;
    assert d >= 1 ==> d * p >= p;
    assert d <= -1 ==> d * p + p <= 0;
  }

  lemma StraightSized(op: StringOp, s: State)
    requires Straight(op, s)
    ensures Sized(s)
  {
  }

  lemma StrideIs(op: StringOp, s: State)
    ensures IsStride(Stride(op, s)) && (Stride(op, s) == Width(op) || Stride(op, s) + Width(op) == 0) && 1 <= Width(op) <= 2
  {
  }

  lemma InWalk(a: u16, d: int, n: nat, i: nat)
    requires IsStride(d) && Walks(a, d, n) && i < n
    ensures 0 <= a + Times(d, i) < 0x1_0000
  {
  }

  lemma InReach(op: StringOp, s: State, i: nat, b: nat)
    requires Straight(op, s) && i < s.cx && b < Width(op)
    ensures var d := Stride(op, s);
      0 <= s.si + Times(d, i) && 0 <= s.di + Times(d, i) && s.si + Times(d, i) + b < MEMORY && s.di + Times(d, i) + b < MEMORY
  {
    InWalk(s.si, Stride(op, s), s.cx, i);
    InWalk(s.di, Stride(op, s), s.cx, i);
  }

  lemma TimesNext(d: int, i: nat)
    requires IsStride(d)
    ensures Times(d, i + 1) == d + Times(d, i)
  {
  }

  /** The first element stays as it was copied when only the others may change. */
  lemma FirstKept(op: StringOp, s: State, after: seq<u8>, b: nat)
    requires Straight(op, s) && Moves(op) && s.cx > 0 && b < Width(op)
    requires OnlyElements(AfterOne(op, s).mem, after, AfterOne(op, s).di, Stride(op, s), Width(op), s.cx - 1)
    ensures s.di + Times(Stride(op, s), 0) == s.di && s.si + Times(Stride(op, s), 0) == s.si
    ensures s.di + b < MEMORY && s.si + b < MEMORY && |after| == MEMORY && after[s.di + b] == s.mem[s.si + b]
  {
    hide Body, AfterOne, Wrap16;
    MovesOne(op, s);
    MovesOn(op, s);
  }

  function Cycle(k: nat, p: nat): (m: nat)
    requires p > 0
    ensures m < p
  {
    k % p
  }

  lemma CycleNext(k: nat, p: nat)
    requires 0 < p
    ensures Cycle(0, p) == 0
    ensures Cycle(k + 1, p) == if Cycle(k, p) == p - 1 then 0 else Cycle(k, p) + 1
    ensures k < p ==> Cycle(k, p) == k
  {
    ModNext(k, p);
    if k < p {
      ModUnique(k, p, 0, k);
    }
  }

  // ---------- REP MOVSW with any distance ahead ----------

  /** Byte x of the words walked from a, counted in the direction of the walk. */
  function ByteFrom(a: int, up: bool, x: nat): int {
    if up then a + x else a + 1 - x
  }

  /** The byte that a word copy q bytes ahead repeats at byte x; one byte ahead, every word is read before it is written. */
  function Back(x: nat, q: nat): (y: nat)
    requires q > 0
    ensures y <= x
  {
    if q > 1 then Cycle(x, q) else if x == 0 || x % 2 == 1 then x else x - 1
  }

  lemma BackNext(x: nat, q: nat)
    requires q > 0
    ensures x < 2 ==> Back(x, q) == x
    ensures x >= 2 ==>
        var y := Back(x - 2, q) + 2;
        Back(x, q) == if y == q then 0 else if y == q + 1 then 1 else y
  {
    if q > 1 {
      if x >= 2 {
        CycleNext(x - 2, q);
        CycleNext(x - 1, q);
        CycleNext(0, q);
      } else {
        CycleNext(x, q);
      }
    }
  }

  lemma BackShort(x: nat, q: nat)
    requires 1 < q && x < q
    ensures Back(x, q) == x
  {
    CycleNext(x, q);
  }

  /** The first word of a copy, byte by byte in the direction of the walk. */
  lemma FirstWord(s: State, q: nat, y: nat)
    requires Straight(Movsw, s) && s.cx > 0 && s.di == (if Stride(Movsw, s) > 0 then s.si + q else s.si - q)
    requires y < 2 * s.cx
    ensures var t, up := AfterOne(Movsw, s), Stride(Movsw, s) > 0;
      && 0 <= ByteFrom(s.si, up, y) < MEMORY && 0 <= ByteFrom(s.si, up, 0) < MEMORY && 0 <= ByteFrom(s.si, up, 1) < MEMORY
      && |t.mem| == MEMORY
      && t.mem[ByteFrom(s.si, up, y)] == s.mem[ByteFrom(s.si, up, if y == q then 0 else if y == q + 1 then 1 else y)]
  {
    hide Body, AfterOne, Wrap16;
    MovesOne(Movsw, s);
    InReach(Movsw, s, y / 2, 0);
  }

  /** The bytes of the first word stay when only the others may change. */
  lemma FirstWordStays(s: State, x: nat)
    requires Straight(Movsw, s) && s.cx > 0 && x < 2
    ensures var r, up := Execute(Movsw, D.Rep, s), Stride(Movsw, s) > 0;
      && 0 <= ByteFrom(s.si, up, x) < MEMORY && 0 <= ByteFrom(s.di, up, x) < MEMORY
      && |r.mem| == MEMORY && r.mem[ByteFrom(s.di, up, x)] == s.mem[ByteFrom(s.si, up, x)]
  {
    hide Execute, Body, AfterOne, Wrap16;
    RepUnfolds(Movsw, s);
    StraightSized(Movsw, s);
    MovesOn(Movsw, s);
    MovesOne(Movsw, s);
    MovsFrame(Movsw, AfterOne(Movsw, s));
    var b := if Stride(Movsw, s) > 0 then x else 1 - x;
    FirstKept(Movsw, s, Execute(Movsw, D.Rep, s).mem, b);
  }

  lemma ByteInReach(s: State, x: nat)
    requires Straight(Movsw, s) && x < 2 * s.cx
    ensures var up := Stride(Movsw, s) > 0;
      && 0 <= ByteFrom(s.si, up, x) < MEMORY && 0 <= ByteFrom(s.di, up, x) < MEMORY
      && ByteFrom(s.si, up, x) == s.si + Times(Stride(Movsw, s), x / 2) + (if up then x % 2 else 1 - x % 2)
      && ByteFrom(s.di, up, x) == s.di + Times(Stride(Movsw, s), x / 2) + (if up then x % 2 else 1 - x % 2)
  {
    InReach(Movsw, s, x / 2, 0);
    assert x == x / 2 * 2 + x % 2;
  }

  /**
   * A word copy whose destination starts q bytes ahead inside the source, even or odd: its bytes repeat the
   * first q bytes, except that one byte ahead the second byte of each word is the old one.
   */
  lemma {:induction false} MovswAhead(s: State, q: nat, x: nat)
    requires Straight(Movsw, s) && s.di == (if Stride(Movsw, s) > 0 then s.si + q else s.si - q)
    requires 0 < q < 2 * s.cx && x < 2 * s.cx
    ensures var r, up := Execute(Movsw, D.Rep, s), Stride(Movsw, s) > 0;
      && 0 <= ByteFrom(s.si, up, Back(x, q)) < MEMORY && 0 <= ByteFrom(s.di, up, x) < MEMORY
      && |r.mem| == MEMORY && r.mem[ByteFrom(s.di, up, x)] == s.mem[ByteFrom(s.si, up, Back(x, q))]
    decreases s.cx
  {
    hide Execute, Body, AfterOne, Wrap16, Back, Straight, Stride, Ahead, OnlyElements, ByteFrom;
    StraightSized(Movsw, s);
    RepUnfolds(Movsw, s);
    var t, up := AfterOne(Movsw, s), Stride(Movsw, s) > 0;
    BackNext(x, q);
    ByteInReach(s, x);
    ByteInReach(s, Back(x, q));
    MovesOn(Movsw, s);
    MovesOne(Movsw, s);
    MovsFrame(Movsw, s);
    if x < 2 {
      FirstWordStays(s, x);
    } else {
      OneWordOn(s, x - 2);
      if q < 2 * t.cx {
        MovswAhead(t, q, x - 2);
        OneWordOn(s, Back(x - 2, q));
        FirstWord(s, q, Back(x - 2, q) + 2);
      } else {
        BackShort(x - 2, q);
        FirstWord(s, q, x);
        BehindWords(t, q, x - 2);
      }
    }
  }

  /** One iteration later every byte has a number two smaller. */
  lemma OneWordOn(s: State, x: nat)
    requires Straight(Movsw, s) && s.cx > 1
    ensures var t, up := AfterOne(Movsw, s), Stride(Movsw, s) > 0;
      && Stride(Movsw, t) == Stride(Movsw, s) && t.di - t.si == s.di - s.si && Straight(Movsw, t)
      && ByteFrom(t.si, up, x) == ByteFrom(s.si, up, x + 2) && ByteFrom(t.di, up, x) == ByteFrom(s.di, up, x + 2)
  {
    hide Body, AfterOne, Wrap16;
    MovesOn(Movsw, s);
  }

  /** Far enough ahead, the rest is a plain copy. */
  lemma BehindWords(s: State, q: nat, x: nat)
    requires Straight(Movsw, s) && s.di == (if Stride(Movsw, s) > 0 then s.si + q else s.si - q)
    requires 2 * s.cx <= q && x < 2 * s.cx
    ensures var r, up := Execute(Movsw, D.Rep, s), Stride(Movsw, s) > 0;
      && 0 <= ByteFrom(s.si, up, x) < MEMORY && 0 <= ByteFrom(s.di, up, x) < MEMORY
      && |r.mem| == MEMORY && r.mem[ByteFrom(s.di, up, x)] == s.mem[ByteFrom(s.si, up, x)]
  {
    hide Execute, Wrap16, ByteFrom;
    StraightSized(Movsw, s);
    MovsFrame(Movsw, s);
    ByteInReach(s, x);
    MovsCopies(Movsw, s, x / 2, if Stride(Movsw, s) > 0 then x % 2 else 1 - x % 2);
  }

  // ---------- REP STOSB, REP STOSW ----------

  predicate Stores(op: StringOp) {
    op == Stosb || op == Stosw
  }

  /** Byte b of AL or AX. */
  function Filler(s: State, b: nat): u8 {
    if b == 0 then s.ax % 0x100 else s.ax / 0x100
  }

  lemma StoresOne(op: StringOp, s: State)
    requires Sized(s) && Stores(op) && s.cx > 0
    ensures var t, d, w := AfterOne(op, s), Stride(op, s), Width(op);
      && t == s.(cx := s.cx - 1, di := Wrap16(s.di + d), mem := t.mem)
      && |t.mem| == MEMORY
      && forall j :: 0 <= j < MEMORY ==> t.mem[j] == if s.di <= j < s.di + w then Filler(s, j - s.di) else s.mem[j]
  {
    StepIsStride(op, s);
    hide ComparedFlags, Stride, Step;
  }

  // ---------- REP LODSB, REP LODSW ----------

  predicate Loads(op: StringOp) {
    op == Lodsb || op == Lodsw
  }

  /** The accumulator after an element is loaded: a byte leaves AH alone. */
  function LoadedFrom(op: StringOp, ax: u16, mem: seq<u8>, at: u16): u16
    requires |mem| == MEMORY
  {
    if op == Lodsb then 0x100 * (ax / 0x100) + mem[at] else WordAt(mem, at)
  }

  lemma LoadsOne(op: StringOp, s: State)
    requires Sized(s) && Loads(op) && s.cx > 0
    ensures AfterOne(op, s) == s.(cx := s.cx - 1, si := Wrap16(s.si + Stride(op, s)), ax := LoadedFrom(op, s.ax, s.mem, s.si))
  {
    StepIsStride(op, s);
    hide ComparedFlags, Stride, Step;
  }
}
