/**
 * The copying and filling loops over every state: pointers wrap at 64 KiB, and CX may be larger than the
 * number of elements there are.
 */
module StringRings {
  import opened Words
  import opened StringLoops
  import opened StringTheorems
  import D = InstructionDecoder

  /** The k-th element from a. */
  function Element(a: u16, d: int, k: nat): u16
    requires IsStride(d)
  {
    Wrap16(a + Times(d, k))
  }

  predicate InElement(x: int, a: u16, w: nat) {
    a <= x < a + w
  }

  /** The byte lies in one of n elements from a. */
  predicate Written(x: int, a: u16, d: int, w: nat, n: nat)
    requires IsStride(d)
    decreases n
  {
    n > 0 && (InElement(x, a, w) || Written(x, Element(a, d, 1), d, w, n - 1))
  }

  /** The number of elements of a size: the 64 KiB hold no more without two of them overlapping. */
  function Ring(w: nat): nat {
    if w == 1 then 0x1_0000 else 0x8000
  }

  lemma {:induction false} WrittenWhere(x: int, a: u16, d: int, w: nat, n: nat) returns (k: nat)
    requires IsStride(d) && Written(x, a, d, w, n)
    ensures k < n && InElement(x, Element(a, d, k), w)
    decreases n
  {
    if InElement(x, a, w) {
      k := 0;
      NoStride(a, d);
    } else {
      var j := WrittenWhere(x, Element(a, d, 1), d, w, n - 1);
      k := j + 1;
      ElementOn(a, d, j);
    }
  }

  lemma ElementOn(a: u16, d: int, k: nat)
    requires IsStride(d)
    ensures Element(Element(a, d, 1), d, k) == Element(a, d, k + 1) && Element(a, d, 1) == Wrap16(a + d)
    ensures Element(a, d, 0) == a
  {
    NoStride(a, d);
    WrapOn(a, d, k);
  }

  /** Elements less than a whole ring apart share no byte, and those a whole ring apart are the same. */
  lemma ElementsApart(a: u16, d: int, w: nat, i: nat)
    requires IsStride(d) && (w == 1 || w == 2) && (d == w || d + w == 0)
    ensures i % Ring(w) != 0 ==> Element(a, d, i) + w <= a || a + w <= Element(a, d, i)
    ensures i % Ring(w) == 0 ==> Element(a, d, i) == a
  {
    var turns, rest := i / Ring(w), i % Ring(w);
    assert i == turns * Ring(w) + rest;
    if w == 1 {
      TurnsByte(a, d, turns, rest);
    } else {
      TurnsWord(a, d, turns, rest);
    }
  }

  lemma TurnsByte(a: u16, d: int, turns: nat, rest: nat)
    requires (d == 1 || d == -1) && rest < 0x1_0000
    ensures var e := Element(a, d, turns * 0x1_0000 + rest); if rest == 0 then e == a else e != a
  {
    var sign: int := if d == 1 then turns else -1 * turns;
    WholeTurns(a + Times(d, rest), sign);
    assert a + Times(d, turns * 0x1_0000 + rest) == a + Times(d, rest) + sign * 0x1_0000;
    SmallTurn(a, Times(d, rest));
  }

  lemma TurnsWord(a: u16, d: int, turns: nat, rest: nat)
    requires (d == 2 || d == -2) && rest < 0x8000
    ensures var e := Element(a, d, turns * 0x8000 + rest); if rest == 0 then e == a else e + 2 <= a || a + 2 <= e
  {
    var sign: int := if d == 2 then turns else -1 * turns;
    WholeTurns(a + Times(d, rest), sign);
    assert a + Times(d, turns * 0x8000 + rest) == a + Times(d, rest) + sign * 0x1_0000;
    SmallTurn(a, Times(d, rest));
  }

  lemma WholeTurns(x: int, turns: int)
    ensures Wrap16(x + turns * 0x1_0000) == Wrap16(x)
  {
  }

  lemma SmallTurn(a: u16, x: int)
    requires -0x1_0000 < x < 0x1_0000
    ensures Wrap16(a + x) == if a + x < 0 then a + x + 0x1_0000 else if a + x < 0x1_0000 then a + x else a + x - 0x1_0000
  {
  }

  // ---------- REP MOVSB, REP MOVSW ----------

  /** Over every state: where the pointers end, and that nothing outside the destination elements changes. */
  lemma {:induction false} MovsEnds(op: StringOp, s: State)
    requires Sized(s) && Moves(op)
    ensures var r, d := Execute(op, D.Rep, s), Stride(op, s);
      && |r.mem| == MEMORY
      && r == s.(cx := 0, si := Element(s.si, d, s.cx), di := Element(s.di, d, s.cx), mem := r.mem)
      && forall x :: 0 <= x < MEMORY && !Written(x, s.di, d, Width(op), s.cx) ==> r.mem[x] == s.mem[x]
    decreases s.cx
  {
    hide Execute, Body, AfterOne, Times, Wrap16, Element;
    RepUnfolds(op, s);
    var d := Stride(op, s);
    ElementOn(s.si, d, 0);
    ElementOn(s.di, d, 0);
    if s.cx > 0 {
      var t := AfterOne(op, s);
      MovesOne(op, s);
      ElementOn(s.si, d, t.cx);
      ElementOn(s.di, d, t.cx);
      MovsEnds(op, t);
    }
  }

  /** Source and destination are a whole number of elements apart. */
  predicate Aligned(op: StringOp, s: State) {
    Width(op) == 1 || (s.di - s.si) % 2 == 0
  }

  /** How many elements the destination is ahead of the source, around the ring. */
  function Distance(op: StringOp, s: State): nat {
    (if Stride(op, s) > 0 then s.di - s.si else s.si - s.di) % 0x1_0000 / Width(op)
  }

  lemma DistanceIs(op: StringOp, s: State)
    requires Aligned(op, s)
    ensures Distance(op, s) < Ring(Width(op)) && Element(s.si, Stride(op, s), Distance(op, s)) == s.di
  {
    hide Wrap16;
    Turned(s.si, s.di);
    Turned(s.di, s.si);
    Parity(s.si, s.di);
    if Width(op) == 2 {
      Halved((s.di - s.si) % 0x1_0000);
      Halved((s.si - s.di) % 0x1_0000);
    }
  }

  lemma Turned(a: u16, b: u16)
    ensures Wrap16(a + (b - a) % 0x1_0000) == b && Wrap16(b - (b - a) % 0x1_0000) == a
  {
    assert (b - a) % 0x1_0000 == if b >= a then b - a else b - a + 0x1_0000;
  }

  lemma Parity(a: u16, b: u16)
    ensures (b - a) % 2 == 0 ==> (b - a) % 0x1_0000 % 2 == 0 && (a - b) % 0x1_0000 % 2 == 0
  {
    assert (b - a) % 0x1_0000 == if b >= a then b - a else b - a + 0x1_0000;
    assert (a - b) % 0x1_0000 == if a >= b then a - b else a - b + 0x1_0000;
  }

  lemma Halved(x: nat)
    ensures x % 2 == 0 ==> 2 * (x / 2) == x
    ensures x < 0x1_0000 ==> x / 2 < 0x8000
  {
  }

  /** The old element an iteration copies: its own, or that of its place among the first p. */
  function SourceOf(p: nat, k: nat): nat {
    if p == 0 then k else Cycle(k, p)
  }

  lemma DistanceKept(op: StringOp, s: State)
    requires Sized(s) && Moves(op) && s.cx > 0 && Aligned(op, s)
    ensures var t := AfterOne(op, s); Stride(op, t) == Stride(op, s) && Aligned(op, t) && Distance(op, t) == Distance(op, s)
  {
    hide Body, AfterOne, Wrap16, Stride;
    MovesOne(op, s);
    SameStride(op, s);
    SameDifference(s.si, s.di, Stride(op, s));
    SameDifference(s.di, s.si, Stride(op, s));
  }

  lemma SameDifference(a: u16, b: u16, d: int)
    ensures (Wrap16(b + d) - Wrap16(a + d)) % 0x1_0000 == (b - a) % 0x1_0000
    ensures (Wrap16(b + d) - Wrap16(a + d)) % 2 == (b - a) % 2
  {
    var turns := (b + d) / 0x1_0000 - (a + d) / 0x1_0000;
    assert b + d == (b + d) / 0x1_0000 * 0x1_0000 + Wrap16(b + d);
    assert a + d == (a + d) / 0x1_0000 * 0x1_0000 + Wrap16(a + d);
    assert Wrap16(b + d) - Wrap16(a + d) == (b - a) - turns * 0x1_0000;
    ModTurns(b - a, turns);
  }

  lemma ModTurns(x: int, turns: int)
    ensures (x - turns * 0x1_0000) % 0x1_0000 == x % 0x1_0000
    ensures (x - turns * 0x1_0000) % 2 == x % 2
  {
    WholeTurns(x, -1 * turns);
    EvenDifference(x, turns * 0x8000);
  }

  lemma EvenDifference(x: int, h: int)
    ensures (x - 2 * h) % 2 == x % 2
  {
  }

  /** What the first iteration has left in an old element: what it copied where it wrote, the old bytes elsewhere. */
  lemma FirstLeaves(op: StringOp, s: State, j: nat, b: nat)
    requires Sized(s) && Moves(op) && s.cx > 0 && Aligned(op, s) && b < Width(op)
    ensures var t, d, e, p := AfterOne(op, s), Stride(op, s), Element(s.si, Stride(op, s), j), Distance(op, s);
      && |t.mem| == MEMORY
      && (j >= p && (j - p) % Ring(Width(op)) == 0 ==> e == s.di && t.mem[e + b] == s.mem[s.si + b])
      && (j >= p && (j - p) % Ring(Width(op)) != 0 ==> t.mem[e + b] == s.mem[e + b])
      && (j < p && j + Ring(Width(op)) != p ==> t.mem[e + b] == s.mem[e + b])
  {
    hide Body, AfterOne, Times, Wrap16, Element, Distance;
    var d, w, p := Stride(op, s), Width(op), Distance(op, s);
    MovesOne(op, s);
    DistanceIs(op, s);
    StrideIs(op, s);
    if j >= p {
      ElementSum(s.si, d, p, j - p);
      ElementsApart(s.di, d, w, j - p);
    } else {
      ElementSum(s.si, d, j, p - j);
      ElementsApart(Element(s.si, d, j), d, w, p - j);
    }
  }

  lemma ElementSum(a: u16, d: int, i: nat, j: nat)
    requires IsStride(d)
    ensures Element(Element(a, d, i), d, j) == Element(a, d, i + j)
  {
    WrapSum(a + Times(d, i), Times(d, j));
    assert a + Times(d, i) + Times(d, j) == a + Times(d, i + j);
  }

  /**
   * Over every state whose source and destination are whole elements apart, wrapping or not: the last
   * iteration that writes an element leaves there an old element of the source. With the destination p
   * elements ahead around the ring the first p elements repeat; with p of 0, or of CX and more, it is a copy.
   */
  lemma {:induction false} MovsRing(op: StringOp, s: State, k: nat, b: nat)
    requires Sized(s) && Moves(op) && Aligned(op, s) && k < s.cx <= k + Ring(Width(op)) && b < Width(op)
    ensures var r, d, p := Execute(op, D.Rep, s), Stride(op, s), Distance(op, s);
      && |r.mem| == MEMORY
      && r.mem[Element(s.di, d, k) + b] == s.mem[Element(s.si, d, SourceOf(p, k)) + b]
    decreases s.cx
  {
    hide Execute, Body, AfterOne, Times, Wrap16, Element, Distance, Aligned, Stride, Ring, Cycle;
    RepUnfolds(op, s);
    var t, d, w, p := AfterOne(op, s), Stride(op, s), Width(op), Distance(op, s);
    MovesOne(op, s);
    MovsEnds(op, t);
    DistanceKept(op, s);
    DistanceIs(op, s);
    StrideIs(op, s);
    ElementOn(s.si, d, 0);
    ElementOn(s.di, d, 0);
    RingSize(w);
    if p > 0 {
      CycleNext(if k > 0 then k - 1 else 0, p);
    }
    if k == 0 {
      FirstStays(op, s, b);
    } else {
      var j := SourceOf(p, k - 1);
      ElementOn(s.si, d, j);
      ElementOn(s.di, d, k - 1);
      MovsRing(op, t, k - 1, b);
      FirstLeaves(op, s, j + 1, b);
      if p == 0 {
        ElementsApart(s.si, d, w, k);
      } else {
        NotWhole(j + 1, p, Ring(w));
      }
    }
  }

  lemma RingSize(w: nat)
    ensures Ring(w) >= 0x8000
  {
  }

  lemma NotWhole(j: nat, p: nat, ring: nat)
    requires 0 < j <= p < ring
    ensures j == p ==> (j - p) % ring == 0
    ensures j + ring != p
  {
  }

  /** The first element is not written again by fewer than a ring of further iterations. */
  lemma FirstStays(op: StringOp, s: State, b: nat)
    requires Sized(s) && Moves(op) && 0 < s.cx <= Ring(Width(op)) && b < Width(op)
    ensures Execute(op, D.Rep, s).mem[s.di + b] == s.mem[s.si + b]
  {
    hide Execute, Body, AfterOne, Times, Wrap16, Element, Stride, Ring, Written;
    RepUnfolds(op, s);
    var t, d, w := AfterOne(op, s), Stride(op, s), Width(op);
    MovesOne(op, s);
    SameStride(op, s);
    StrideIs(op, s);
    MovsEnds(op, t);
    ElementOn(s.di, d, 0);
    if Written(s.di + b, t.di, d, w, t.cx) {
      var i := WrittenWhere(s.di + b, t.di, d, w, t.cx);
      ElementOn(s.di, d, i);
      Whole(i + 1, Ring(w));
      ElementsApart(s.di, d, w, i + 1);
    }
  }

  lemma SameStride(op: StringOp, s: State)
    requires Sized(s) && Moves(op) && s.cx > 0
    ensures Stride(op, AfterOne(op, s)) == Stride(op, s)
  {
    hide Body, AfterOne;
    MovesOne(op, s);
  }

  lemma Whole(i: nat, ring: nat)
    requires 0 < i < ring
    ensures i % ring != 0
  {
  }

  // ---------- REP STOSB, REP STOSW ----------

  /** Over every state: the pointer ends CX strides on, and nothing outside the elements changes. */
  lemma {:induction false} StosEnds(op: StringOp, s: State)
    requires Sized(s) && Stores(op)
    ensures var r, d := Execute(op, D.Rep, s), Stride(op, s);
      && |r.mem| == MEMORY && r == s.(cx := 0, di := Element(s.di, d, s.cx), mem := r.mem)
      && forall x :: 0 <= x < MEMORY && !Written(x, s.di, d, Width(op), s.cx) ==> r.mem[x] == s.mem[x]
    decreases s.cx
  {
    hide Execute, Body, AfterOne, Times, Wrap16, Element;
    RepUnfolds(op, s);
    var d := Stride(op, s);
    ElementOn(s.di, d, 0);
    if s.cx > 0 {
      var t := AfterOne(op, s);
      StoresOne(op, s);
      ElementOn(s.di, d, t.cx);
      StosEnds(op, t);
    }
  }

  /** Every element holds the filler, however often it was written. */
  lemma {:induction false} StosRing(op: StringOp, s: State, k: nat, b: nat)
    requires Sized(s) && Stores(op) && k < s.cx && b < Width(op)
    ensures var r := Execute(op, D.Rep, s);
      |r.mem| == MEMORY && r.mem[Element(s.di, Stride(op, s), k) + b] == Filler(s, b)
    decreases s.cx
  {
    hide Execute, Body, AfterOne, Times, Wrap16, Element, Stride, Written, Filler;
    RepUnfolds(op, s);
    var t, d, w := AfterOne(op, s), Stride(op, s), Width(op);
    StoresOne(op, s);
    StoresSame(op, s);
    StrideIs(op, s);
    StosEnds(op, t);
    ElementOn(s.di, d, 0);
    if k > 0 {
      ElementOn(s.di, d, k - 1);
      StosRing(op, t, k - 1, b);
    } else if Written(s.di + b, t.di, d, w, t.cx) {
      var i := WrittenWhere(s.di + b, t.di, d, w, t.cx);
      ElementOn(s.di, d, i);
      ElementsApart(s.di, d, w, i + 1);
      StosRing(op, t, i, b);
    }
  }

  lemma StoresSame(op: StringOp, s: State)
    requires Sized(s) && Stores(op) && s.cx > 0
    ensures Stride(op, AfterOne(op, s)) == Stride(op, s) && forall b :: Filler(AfterOne(op, s), b) == Filler(s, b)
  {
    hide Body, AfterOne;
    StoresOne(op, s);
  }

  // ---------- REP LODSB, REP LODSW ----------

  /** Over every state: SI ends CX strides on, memory stays, and AL or AX is the last element read. */
  lemma {:induction false} LodsEnds(op: StringOp, s: State)
    requires Sized(s) && Loads(op)
    ensures var r, d := Execute(op, D.Rep, s), Stride(op, s);
      r == s.(cx := 0, si := Element(s.si, d, s.cx),
              ax := if s.cx == 0 then s.ax else LoadedFrom(op, s.ax, s.mem, Element(s.si, d, s.cx - 1)))
    decreases s.cx
  {
    hide Execute, Body, AfterOne, Times, Wrap16, Element, LoadedFrom, Stride;
    RepUnfolds(op, s);
    StrideIs(op, s);
    var d := Stride(op, s);
    ElementOn(s.si, d, 0);
    if s.cx > 0 {
      var t := AfterOne(op, s);
      LoadsOne(op, s);
      LoadsSame(op, s);
      ElementOn(s.si, d, t.cx);
      LodsEnds(op, t);
      if t.cx > 0 {
        ElementOn(s.si, d, t.cx - 1);
        LoadedTwice(op, s.ax, s.mem, s.si, Element(t.si, d, t.cx - 1));
      }
    }
  }

  lemma LoadsSame(op: StringOp, s: State)
    requires Sized(s) && Loads(op) && s.cx > 0
    ensures Stride(op, AfterOne(op, s)) == Stride(op, s)
  {
    hide Body, AfterOne, LoadedFrom;
    LoadsOne(op, s);
  }

  /** Only the last load counts. */
  lemma LoadedTwice(op: StringOp, ax: u16, mem: seq<u8>, first: u16, second: u16)
    requires |mem| == MEMORY && Loads(op)
    ensures LoadedFrom(op, LoadedFrom(op, ax, mem, first), mem, second) == LoadedFrom(op, ax, mem, second)
  {
  }

  // ---------- without a prefix ----------

  /** Without a prefix an operation does what it does under REP with a CX of 1, and leaves CX alone. */
  lemma OnceIsRepOfOne(op: StringOp, s: State)
    requires Sized(s)
    ensures Execute(op, D.NoRep, s) == Execute(op, D.Rep, s.(cx := 1)).(cx := s.cx)
  {
    hide Body;
    RepUnfolds(op, s.(cx := 1));
    IgnoresCx(op, s);
    hide Execute, AfterOne;
    ExecuteUnfolds(op, D.NoRep, s);
    RepUnfolds(op, AfterOne(op, s.(cx := 1)));
    AfterOneIs(op, s);
  }

  lemma AfterOneIs(op: StringOp, s: State)
    requires Sized(s)
    ensures AfterOne(op, s.(cx := 1)) == Body(op, s.(cx := 0)) && AfterOne(op, s.(cx := 1)).cx == 0
  {
    hide Body;
  }

  lemma IgnoresCx(op: StringOp, s: State)
    requires Sized(s)
    ensures Body(op, s) == Body(op, s.(cx := 0)).(cx := s.cx)
  {
    hide ComparedFlags, Step, Wrap16;
  }
}
