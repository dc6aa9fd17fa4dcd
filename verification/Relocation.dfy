/** What relocating an MZ image twice does (src/loader/binary_loader.cpp). */
module Relocation {
  import opened Outcome
  import opened Words
  import opened BinaryLoader

  /** Two word positions are the same or share no byte. */
  predicate Apart(p: nat, q: nat) {
    p == q || p + 2 <= q || q + 2 <= p
  }

  predicate ApartFromAll(p: nat, entries: seq<Address>) {
    forall i :: 0 <= i < |entries| ==> Apart(p, Linear(entries[i]))
  }

  predicate NoOverlap(entries: seq<Address>) {
    forall i :: 0 <= i < |entries| ==> ApartFromAll(Linear(entries[i]), entries)
  }

  predicate Covered(entries: seq<Address>, k: nat) {
    exists i :: 0 <= i < |entries| && Linear(entries[i]) <= k < Linear(entries[i]) + 2
  }

  // ---------- one word ----------

  lemma AddAtWord(bytes: seq<u8>, p: nat, x: u16)
    requires p + 2 <= |bytes|
    ensures WordAt(AddAt(bytes, p, x), p) == Wrap16(WordAt(bytes, p) + x)
    ensures forall k :: 0 <= k < |bytes| && k != p && k != p + 1 ==> AddAt(bytes, p, x)[k] == bytes[k]
  {
  }

  lemma StoreWord(bytes: seq<u8>, p: nat)
    requires p + 2 <= |bytes|
    ensures WithWord(bytes, p, WordAt(bytes, p)) == bytes
  {
    hide Wrap16;
  }

  lemma StoreAgain(bytes: seq<u8>, p: nat, v: u16, w: u16)
    requires p + 2 <= |bytes|
    ensures WithWord(WithWord(bytes, p, v), p, w) == WithWord(bytes, p, w)
  {
  }

  lemma StoreElsewhere(bytes: seq<u8>, p: nat, v: u16, q: nat)
    requires p + 2 <= |bytes| && q + 2 <= |bytes| && (p + 2 <= q || q + 2 <= p)
    ensures WordAt(WithWord(bytes, p, v), q) == WordAt(bytes, q)
  {
  }

  lemma WrapTwice(w: u16, x: u16, y: u16)
    ensures Wrap16(Wrap16(w + x) + y) == Wrap16(w + Wrap16(x + y))
  {
  }

  lemma AddAtTwice(bytes: seq<u8>, p: nat, x: u16, y: u16)
    requires p + 2 <= |bytes|
    ensures AddAt(AddAt(bytes, p, x), p, y) == AddAt(bytes, p, Wrap16(x + y))
  {
    hide WithWord, WordAt, Wrap16;
    var w := WordAt(bytes, p);
    WrittenWord(bytes, p, Wrap16(w + x));
    StoreAgain(bytes, p, Wrap16(w + x), Wrap16(w + Wrap16(x + y)));
    WrapTwice(w, x, y);
  }

  lemma AddAtZero(bytes: seq<u8>, p: nat)
    requires p + 2 <= |bytes|
    ensures AddAt(bytes, p, 0) == bytes
  {
    hide WithWord, WordAt;
    StoreWord(bytes, p);
  }

  lemma AddAtCommutes(bytes: seq<u8>, p: nat, x: u16, q: nat, y: u16)
    requires p + 2 <= |bytes| && q + 2 <= |bytes| && Apart(p, q)
    ensures AddAt(AddAt(bytes, p, x), q, y) == AddAt(AddAt(bytes, q, y), p, x)
  {
    hide WithWord, WordAt, Wrap16;
    if p == q {
      AddAtTwice(bytes, p, x, y);
      AddAtTwice(bytes, p, y, x);
    } else {
      StoreElsewhere(bytes, p, Wrap16(WordAt(bytes, p) + x), q);
      StoreElsewhere(bytes, q, Wrap16(WordAt(bytes, q) + y), p);
      StoresCommute(bytes, p, Wrap16(WordAt(bytes, p) + x), q, Wrap16(WordAt(bytes, q) + y));
    }
  }

  lemma StoresCommute(bytes: seq<u8>, p: nat, x: u16, q: nat, y: u16)
    requires p + 2 <= |bytes| && q + 2 <= |bytes| && (p + 2 <= q || q + 2 <= p)
    ensures WithWord(WithWord(bytes, p, x), q, y) == WithWord(WithWord(bytes, q, y), p, x)
  {
  }

  // ---------- the whole table ----------

  /** A word apart from the whole table may be raised before or after it. */
  lemma {:induction false} AddAtPastPatched(bytes: seq<u8>, p: nat, x: u16, entries: seq<Address>, amount: u16)
    requires p + 2 <= |bytes| && AllInside(entries, |bytes|) && ApartFromAll(p, entries)
    ensures Patched(AddAt(bytes, p, x), entries, amount) == AddAt(Patched(bytes, entries, amount), p, x)
    decreases |entries|
  {
    hide AddAt;
    if entries != [] {
      var q := Linear(entries[0]);
      AddAtCommutes(bytes, p, x, q, amount);
      AddAtPastPatched(AddAt(bytes, q, amount), p, x, entries[1..], amount);
    }
  }

  lemma NoOverlapTail(entries: seq<Address>, size: nat)
    requires NoOverlap(entries) && entries != []
    ensures NoOverlap(entries[1..]) && ApartFromAll(Linear(entries[0]), entries[1..])
  {
    forall i | 0 <= i < |entries| - 1
      ensures ApartFromAll(Linear(entries[1..][i]), entries[1..])
    {
      assert ApartFromAll(Linear(entries[i + 1]), entries);
    }
    assert ApartFromAll(Linear(entries[0]), entries);
  }

  /** Relocating by first and then by second is relocating once by their sum. */
  lemma {:induction false} RelocationsAdd(bytes: seq<u8>, entries: seq<Address>, first: u16, second: u16)
    requires AllInside(entries, |bytes|) && NoOverlap(entries)
    ensures Patched(Patched(bytes, entries, first), entries, second) == Patched(bytes, entries, Wrap16(first + second))
    decreases |entries|
  {
    hide AddAt, NoOverlap, ApartFromAll;
    if entries != [] {
      var p, rest := Linear(entries[0]), entries[1..];
      NoOverlapTail(entries, |bytes|);
      var raised := AddAt(bytes, p, first);
      AddAtPastPatched(raised, p, second, rest, first);
      AddAtTwice(bytes, p, first, second);
      RelocationsAdd(AddAt(raised, p, second), rest, first, second);
    }
  }

  lemma {:induction false} RelocatedByZero(bytes: seq<u8>, entries: seq<Address>)
    requires AllInside(entries, |bytes|)
    ensures Patched(bytes, entries, 0) == bytes
    decreases |entries|
  {
    if entries != [] {
      AddAtZero(bytes, Linear(entries[0]));
      RelocatedByZero(bytes, entries[1..]);
    }
  }

  /** Relocating by a segment and by its negative restores the module. */
  lemma RelocationUndone(bytes: seq<u8>, entries: seq<Address>, segment: u16)
    requires AllInside(entries, |bytes|) && NoOverlap(entries)
    ensures Patched(Patched(bytes, entries, segment), entries, Wrap16(0x1_0000 - segment)) == bytes
  {
    hide Patched, AllInside, NoOverlap;
    assert Wrap16(segment + Wrap16(0x1_0000 - segment)) == 0;
    RelocationsAdd(bytes, entries, segment, Wrap16(0x1_0000 - segment));
    RelocatedByZero(bytes, entries);
  }

  /** Bytes outside every listed word never change, whether or not words overlap. */
  lemma {:induction false} UncoveredUnchanged(bytes: seq<u8>, entries: seq<Address>, segment: u16, k: nat)
    requires AllInside(entries, |bytes|) && k < |bytes| && !Covered(entries, k)
    ensures Patched(bytes, entries, segment)[k] == bytes[k]
    decreases |entries|
  {
    hide AddAt;
    if entries != [] {
      var p := Linear(entries[0]);
      AddAtWord(bytes, p, segment);
      assert !(p <= k < p + 2);
      forall i | 0 <= i < |entries| - 1
        ensures !(Linear(entries[1..][i]) <= k < Linear(entries[1..][i]) + 2)
      {
        assert entries[1..][i] == entries[i + 1];
      }
      UncoveredUnchanged(AddAt(bytes, p, segment), entries[1..], segment, k);
    }
  }

  // ---------- overlapping words ----------

  /** Relocating twice is relocating by the sum, for every module of a size. */
  ghost predicate Additive(entries: seq<Address>, size: nat) {
    AllInside(entries, size) &&
    forall bytes: seq<u8>, first: u16, second: u16 | |bytes| == size ::
      Patched(Patched(bytes, entries, first), entries, second) == Patched(bytes, entries, Wrap16(first + second))
  }

  /** How often the table lists a word. */
  function CountAt(entries: seq<Address>, p: int): nat {
    if entries == [] then 0 else (if Linear(entries[0]) == p then 1 else 0) + CountAt(entries[1..], p)
  }

  /** A word that overlaps no other listed one is raised by the segment once for every time it is listed. */
  lemma {:induction false} RelocatedWord(bytes: seq<u8>, entries: seq<Address>, segment: u16, p: nat)
    requires p + 2 <= |bytes| && AllInside(entries, |bytes|) && ApartFromAll(p, entries)
    ensures WordAt(Patched(bytes, entries, segment), p) == (WordAt(bytes, p) + CountAt(entries, p) * segment) % 0x1_0000
    decreases |entries|
  {
    hide AddAt, WordAt, ApartFromAll;
    if entries != [] {
      var q, rest := Linear(entries[0]), entries[1..];
      var next := AddAt(bytes, q, segment);
      ApartTail(p, entries);
      RelocatedWord(next, rest, segment, p);
      if q == p {
        AddAtWord(bytes, p, segment);
        RaisedOnceMore(WordAt(bytes, p), segment, CountAt(rest, p));
      } else {
        AddAtElsewhere(bytes, q, segment, p);
      }
    }
  }

  lemma ApartTail(p: nat, entries: seq<Address>)
    requires ApartFromAll(p, entries) && entries != []
    ensures Apart(p, Linear(entries[0])) && ApartFromAll(p, entries[1..])
  {
  }

  lemma AddAtElsewhere(bytes: seq<u8>, q: nat, x: u16, p: nat)
    requires p + 2 <= |bytes| && q + 2 <= |bytes| && Apart(p, q) && p != q
    ensures WordAt(AddAt(bytes, q, x), p) == WordAt(bytes, p)
  {
    hide WithWord;
    StoreElsewhere(bytes, q, Wrap16(WordAt(bytes, q) + x), p);
  }

  lemma RaisedOnceMore(w: u16, x: u16, n: nat)
    ensures (Wrap16(w + x) + n * x) % 0x1_0000 == (w + (1 + n) * x) % 0x1_0000
  {
    var r, k := Wrap16(w + x), (w + x) / 0x1_0000;
    assert r == w + x - k * 0x1_0000;
    assert w + (1 + n) * x == r + n * x + k * 0x1_0000;
  }

  /** No word is listed 256 times or more. */
  predicate Sparse(entries: seq<Address>) {
    forall i :: 0 <= i < |entries| ==> CountAt(entries, Linear(entries[i])) < 0x100
  }

  lemma {:induction false} Counted(entries: seq<Address>, i: nat)
    requires i < |entries|
    ensures CountAt(entries, Linear(entries[i])) > 0
  {
    if i > 0 {
      Counted(entries[1..], i - 1);
    }
  }

  lemma {:induction false} CountedWhere(entries: seq<Address>, p: int) returns (i: nat)
    requires CountAt(entries, p) > 0
    ensures i < |entries| && Linear(entries[i]) == p
  {
    if Linear(entries[0]) == p {
      i := 0;
    } else {
      var rest := CountedWhere(entries[1..], p);
      i := rest + 1;
    }
  }

  /** Three consecutive bytes. */
  datatype View = View(x: u8, y: u8, z: u8)

  function ViewAt(bytes: seq<u8>, p: nat): View
    requires p + 3 <= |bytes|
  {
    View(bytes[p], bytes[p + 1], bytes[p + 2])
  }

  function RaiseXY(v: View, amount: u16): View {
    var w := Wrap16(Word(v.x, v.y) + amount);
    v.(x := w % 0x100, y := w / 0x100)
  }

  function RaiseYZ(v: View, amount: u16): View {
    var w := Wrap16(Word(v.y, v.z) + amount);
    v.(y := w % 0x100, z := w / 0x100)
  }

  function RaiseZ(v: View, n: nat): View {
    v.(z := (v.z + n) % 0x100)
  }

  lemma RaisedView(bytes: seq<u8>, q: nat, amount: u16, p: nat)
    requires q + 2 <= |bytes| && p + 3 <= |bytes| && q + 1 != p
    ensures var v := ViewAt(bytes, p);
      ViewAt(AddAt(bytes, q, amount), p) ==
      if q == p then RaiseXY(v, amount) else if q == p + 1 then RaiseYZ(v, amount)
      else if q == p + 2 then RaiseZ(v, amount % 0x100) else v
  {
    if q == p + 2 {
      LowByte(bytes, q, amount);
    }
  }

  lemma LowByte(bytes: seq<u8>, q: nat, amount: u16)
    requires q + 2 <= |bytes|
    ensures AddAt(bytes, q, amount)[q] == (bytes[q] + amount % 0x100) % 0x100
  {
    hide Word, Wrap16;
    HighByte(bytes[q], bytes[q + 1], amount);
  }

  lemma HighByte(y: u8, z: u8, amount: u16)
    ensures var w := Wrap16(Word(y, z) + amount);
      w % 0x100 == (y + amount % 0x100) % 0x100 &&
      w / 0x100 == (z + (amount / 0x100 + (y + amount % 0x100) / 0x100)) % 0x100
  {
    var low, high := y + amount % 0x100, z + (amount / 0x100 + (y + amount % 0x100) / 0x100);
    assert Word(y, z) + amount == low % 0x100 + 0x100 * high;
    var kept := if high < 0x100 then high else high - 0x100;
    assert Wrap16(Word(y, z) + amount) == low % 0x100 + 0x100 * kept;
  }

  lemma RaisedZ(v: View, n: nat)
    ensures RaiseZ(v, n) == v.(z := (v.z + n) % 0x100)
  {
  }

  /** A raise by 256 adds to high bytes only, a raise by 1 carries into them. */
  lemma RaisedBy256(v: View)
    ensures RaiseXY(v, 0x100) == v.(y := (v.y + 1) % 0x100) && RaiseYZ(v, 0x100) == v.(z := (v.z + 1) % 0x100)
    ensures RaiseZ(v, 0) == v
  {
    hide Word, Wrap16;
    HighByte(v.x, v.y, 0x100);
    HighByte(v.y, v.z, 0x100);
  }

  lemma RaisedBy1(v: View)
    ensures v.x < 0xFF ==> RaiseXY(v, 1) == v.(x := v.x + 1)
    ensures RaiseYZ(v, 1) == v.(y := (v.y + 1) % 0x100, z := (v.z + (v.y + 1) / 0x100) % 0x100)
  {
    WordPlus1(v.x, v.y);
    WordPlus1(v.y, v.z);
    hide Word, Wrap16;
  }

  lemma WordPlus1(low: u8, high: u8)
    ensures var w := Wrap16(Word(low, high) + 1);
      w % 0x100 == (low + 1) % 0x100 && w / 0x100 == (high + (low + 1) / 0x100) % 0x100
  {
    if low < 0xFF {
      assert Wrap16(Word(low, high) + 1) == Word(low + 1, high);
    } else {
      assert Wrap16(Word(low, high) + 1) == 0x100 * ((high + 1) % 0x100);
    }
  }

  /** The first entry, and the rest of the table. */
  lemma PatchedFirst(bytes: seq<u8>, entries: seq<Address>, amount: u16)
    requires AllInside(entries, |bytes|) && entries != []
    ensures Linear(entries[0]) + 2 <= |bytes| && AllInside(entries[1..], |bytes|)
    ensures Patched(bytes, entries, amount) == Patched(AddAt(bytes, Linear(entries[0]), amount), entries[1..], amount)
    ensures forall p :: CountAt(entries, p) == (if Linear(entries[0]) == p then 1 else 0) + CountAt(entries[1..], p)
  {
    InsideTail(entries, |bytes|);
  }

  lemma PatchedNothing(bytes: seq<u8>, amount: u16)
    ensures AllInside([], |bytes|) && Patched(bytes, [], amount) == bytes && forall p :: CountAt([], p) == 0
  {
  }

  /** Three bytes after m and n raises by 256 of the words at the first and the second. */
  function RaisedHigh(v: View, m: nat, n: nat): View {
    View(v.x, (v.y + m) % 0x100, (v.z + n) % 0x100)
  }

  lemma RaisedHighOnce(v: View, m: nat, n: nat)
    ensures RaisedHigh(v, 0, 0) == v
    ensures RaisedHigh(RaiseXY(v, 0x100), m, n) == RaisedHigh(v, 1 + m, n)
    ensures RaisedHigh(RaiseYZ(v, 0x100), m, n) == RaisedHigh(v, m, 1 + n)
    ensures RaiseZ(v, 0) == v
  {
    hide RaiseXY, RaiseYZ, RaiseZ;
    RaisedBy256(v);
    AddLater(v.y, m);
    AddLater(v.z, n);
  }

  /** Three bytes at a place below which nothing is listed, raised by 256. */
  lemma {:induction false} PatchedBy256(bytes: seq<u8>, entries: seq<Address>, p: nat)
    requires AllInside(entries, |bytes|) && CountAt(entries, p - 1) == 0 && p + 3 <= |bytes|
    ensures ViewAt(Patched(bytes, entries, 0x100), p) == RaisedHigh(ViewAt(bytes, p), CountAt(entries, p), CountAt(entries, p + 1))
    decreases |entries|
  {
    hide AddAt, RaiseXY, RaiseYZ, RaiseZ, ViewAt, RaisedHigh, Patched, CountAt, AllInside, Linear;
    var v := ViewAt(bytes, p);
    if entries == [] {
      PatchedNothing(bytes, 0x100);
      RaisedHighOnce(v, 0, 0);
    } else {
      var q, rest := Linear(entries[0]), entries[1..];
      PatchedFirst(bytes, entries, 0x100);
      RaisedView(bytes, q, 0x100, p);
      RaisedHighOnce(v, CountAt(rest, p), CountAt(rest, p + 1));
      PatchedBy256(AddAt(bytes, q, 0x100), rest, p);
    }
  }

  lemma AddLater(y: u8, n: nat)
    ensures ((y + 1) % 0x100 + n) % 0x100 == (y + (1 + n)) % 0x100
    ensures (y + 1) / 0x100 + ((y + 1) % 0x100 + n) / 0x100 == (y + (1 + n)) / 0x100
  {
    var sum := y + 1;
    assert sum == sum / 0x100 * 0x100 + sum % 0x100;
    assert sum + n == sum / 0x100 * 0x100 + (sum % 0x100 + n);
  }

  /** Three bytes after m, n and k raises by 1 of the words at the first, the second and the third. */
  function RaisedEach(v: View, m: nat, n: nat, k: nat): View
    requires v.x + m < 0x100
  {
    View(v.x + m, (v.y + n) % 0x100, (v.z + k + (v.y + n) / 0x100) % 0x100)
  }

  lemma RaisedFirst(v: View, m: nat, n: nat, k: nat)
    ensures v.x + m + 1 < 0x100 ==> RaiseXY(v, 1).x + m < 0x100 && RaisedEach(RaiseXY(v, 1), m, n, k) == RaisedEach(v, 1 + m, n, k)
  {
    hide RaiseXY;
    RaisedBy1(v);
  }

  lemma RaisedSecond(v: View, m: nat, n: nat, k: nat)
    requires v.x + m < 0x100
    ensures RaiseYZ(v, 1).x == v.x && RaisedEach(RaiseYZ(v, 1), m, n, k) == RaisedEach(v, m, 1 + n, k)
  {
    hide RaiseYZ;
    RaisedBy1(v);
    AddLater(v.y, n);
    CarryLater(v.z, (v.y + 1) / 0x100, k, ((v.y + 1) % 0x100 + n) / 0x100);
  }

  lemma RaisedThird(v: View, m: nat, n: nat, k: nat)
    requires v.x + m < 0x100
    ensures RaiseZ(v, 1).x == v.x && RaisedEach(RaiseZ(v, 1), m, n, k) == RaisedEach(v, m, n, 1 + k)
  {
    hide RaiseZ;
    RaisedZ(v, 1);
    CarryLater(v.z, 1, k, (v.y + n) / 0x100);
  }

  /** The same, raised by 1, as long as the first byte does not overflow. */
  lemma {:induction false} PatchedBy1(bytes: seq<u8>, entries: seq<Address>, p: nat)
    requires AllInside(entries, |bytes|) && CountAt(entries, p - 1) == 0 && p + 3 <= |bytes|
    requires bytes[p] + CountAt(entries, p) < 0x100
    ensures ViewAt(bytes, p).x == bytes[p]
    ensures ViewAt(Patched(bytes, entries, 1), p)
         == RaisedEach(ViewAt(bytes, p), CountAt(entries, p), CountAt(entries, p + 1), CountAt(entries, p + 2))
    decreases |entries|
  {
    hide AddAt, RaiseXY, RaiseYZ, RaiseZ, ViewAt, RaisedEach, Patched, CountAt, AllInside, Linear;
    FirstOfView(bytes, p);
    var v := ViewAt(bytes, p);
    if entries == [] {
      PatchedNothing(bytes, 1);
      RaisedNone(v);
    } else {
      var q, rest := Linear(entries[0]), entries[1..];
      PatchedFirst(bytes, entries, 1);
      RaisedView(bytes, q, 1, p);
      var m, n, k := CountAt(rest, p), CountAt(rest, p + 1), CountAt(rest, p + 2);
      RaisedFirst(v, m, n, k);
      RaisedSecond(v, m, n, k);
      RaisedThird(v, m, n, k);
      FirstOfView(AddAt(bytes, q, 1), p);
      PatchedBy1(AddAt(bytes, q, 1), rest, p);
    }
  }

  lemma RaisedNone(v: View)
    ensures RaisedEach(v, 0, 0, 0) == v
  {
  }

  lemma CarryLater(z: u8, c: nat, k: nat, d: nat)
    ensures ((z + c) % 0x100 + k + d) % 0x100 == (z + k + (c + d)) % 0x100
  {
  }

  /** A byte whose sum with n wraps before it is raised by m and not afterwards, or the other way round. */
  function Witness(m: nat, n: nat): (y: u8)
    requires 0 < m < 0x100 && 0 < n < 0x100
    ensures (y + n) / 0x100 != ((y + m) % 0x100 + n) / 0x100
  {
    if m + n <= 0x100 then 0x100 - n - m else 0x1FF - n - m
  }

  /** A table listing p and p + 1, but not p - 1, is not additive: 256 then 1 and 1 then 256 differ by a carry. */
  lemma OverlapLosesCarry(entries: seq<Address>, size: nat, p: nat)
    requires AllInside(entries, size) && 0 < CountAt(entries, p) < 0x100 && 0 < CountAt(entries, p + 1) < 0x100
    requires CountAt(entries, p - 1) == 0
    ensures !Additive(entries, size)
  {
    hide Patched, CountAt, ViewAt, Witness, Additive, AllInside, RaisedEach, RaisedHigh;
    ListedInside(entries, size, p + 1);
    var m, n, k := CountAt(entries, p), CountAt(entries, p + 1), CountAt(entries, p + 2);
    var y := Witness(m, n);
    var bytes: seq<u8> := Zeros(size)[p + 1 := y];
    ViewOfZeros(size, p, y);
    var high, low := Patched(bytes, entries, 0x100), Patched(bytes, entries, 1);
    PatchedBy256(bytes, entries, p);
    PatchedBy1(bytes, entries, p);
    FirstOfView(high, p);
    ViewsDiffer(y, m, n, k);
    PatchedBy1(high, entries, p);
    PatchedBy256(low, entries, p);
    assert ViewAt(Patched(high, entries, 1), p) != ViewAt(Patched(low, entries, 0x100), p);
    AdditiveCommutes(entries, bytes, 0x100, 1);
  }

  lemma AdditiveCommutes(entries: seq<Address>, bytes: seq<u8>, first: u16, second: u16)
    requires AllInside(entries, |bytes|)
    ensures Additive(entries, |bytes|) ==>
        Patched(Patched(bytes, entries, first), entries, second) == Patched(Patched(bytes, entries, second), entries, first)
  {
    hide Patched;
  }

  lemma ListedInside(entries: seq<Address>, size: nat, p: nat)
    requires AllInside(entries, size) && CountAt(entries, p) > 0
    ensures p + 2 <= size
  {
    var i := CountedWhere(entries, p);
  }

  lemma FirstOfView(bytes: seq<u8>, p: nat)
    requires p + 3 <= |bytes|
    ensures ViewAt(bytes, p).x == bytes[p]
  {
  }

  lemma ViewsDiffer(y: u8, m: nat, n: nat, k: nat)
    requires 0 < m < 0x100 && 0 < n < 0x100 && (y + n) / 0x100 != ((y + m) % 0x100 + n) / 0x100
    ensures RaisedHigh(View(0, y, 0), m, n).x == 0
    ensures RaisedEach(RaisedHigh(View(0, y, 0), m, n), m, n, k) != RaisedHigh(RaisedEach(View(0, y, 0), m, n, k), m, n)
  {
    hide RaisedEach, RaisedHigh;
    var raised := (y + m) % 0x100;
    AtMostOne(y, n);
    AtMostOne(raised, n);
    BothOrders(y, m, n, k);
    CarriesDiffer(n, k, (y + n) / 0x100, (raised + n) / 0x100);
  }

  lemma AtMostOne(y: u8, n: nat)
    requires n < 0x100
    ensures (y + n) / 0x100 <= 1
  {
  }

  lemma BothOrders(y: u8, m: nat, n: nat, k: nat)
    requires m < 0x100
    ensures RaisedHigh(View(0, y, 0), m, n).x == 0
    ensures RaisedEach(RaisedHigh(View(0, y, 0), m, n), m, n, k).z == (n % 0x100 + k + ((y + m) % 0x100 + n) / 0x100) % 0x100
    ensures RaisedHigh(RaisedEach(View(0, y, 0), m, n, k), m, n).z == ((k + (y + n) / 0x100) % 0x100 + n) % 0x100
  {
  }

  lemma CarriesDiffer(n: nat, k: nat, c: nat, d: nat)
    requires n < 0x100 && c <= 1 && d <= 1 && c != d
    ensures (n % 0x100 + k + d) % 0x100 != ((k + c) % 0x100 + n) % 0x100
  {
  }

  lemma ViewOfZeros(size: nat, p: nat, y: u8)
    requires p + 3 <= size
    ensures ViewAt(Zeros(size)[p + 1 := y], p) == View(0, y, 0)
    ensures (Zeros(size)[p + 1 := y])[p] == 0
  {
  }

  /** Some overlapping pair has nothing listed right below it. */
  lemma {:induction false} LowestOverlap(entries: seq<Address>, p: nat) returns (low: nat)
    requires CountAt(entries, p) > 0 && CountAt(entries, p + 1) > 0
    ensures CountAt(entries, low) > 0 && CountAt(entries, low + 1) > 0 && CountAt(entries, low - 1) == 0
  {
    if CountAt(entries, p - 1) > 0 {
      var i := CountedWhere(entries, p - 1);
      low := LowestOverlap(entries, p - 1);
    } else {
      low := p;
    }
  }

  lemma NoOverlapAdds(entries: seq<Address>, size: nat)
    requires AllInside(entries, size) && NoOverlap(entries)
    ensures Additive(entries, size)
  {
    hide Patched, NoOverlap;
    forall bytes: seq<u8>, first: u16, second: u16 | |bytes| == size
      ensures Patched(Patched(bytes, entries, first), entries, second) == Patched(bytes, entries, Wrap16(first + second))
    {
      RelocationsAdd(bytes, entries, first, second);
    }
  }

  /** While no word is listed 256 times: relocations add up exactly when no two listed words overlap. */
  lemma AdditiveIff(entries: seq<Address>, size: nat)
    requires AllInside(entries, size) && Sparse(entries)
    ensures Additive(entries, size) <==> NoOverlap(entries)
  {
    hide Patched, CountAt, Additive, NoOverlap, Sparse, AllInside;
    if NoOverlap(entries) {
      NoOverlapAdds(entries, size);
    } else {
      var p := FindOverlap(entries);
      var low := LowestOverlap(entries, p);
      SparseAt(entries, low);
      SparseAt(entries, low + 1);
      OverlapLosesCarry(entries, size, low);
    }
  }

  lemma FindOverlap(entries: seq<Address>) returns (p: nat)
    requires !NoOverlap(entries)
    ensures CountAt(entries, p) > 0 && CountAt(entries, p + 1) > 0
  {
    hide CountAt, Linear;
    var i :| 0 <= i < |entries| && !ApartFromAll(Linear(entries[i]), entries);
    var j :| 0 <= j < |entries| && !Apart(Linear(entries[i]), Linear(entries[j]));
    Counted(entries, i);
    Counted(entries, j);
    p := if Linear(entries[i]) < Linear(entries[j]) then Linear(entries[i]) else Linear(entries[j]);
  }

  lemma SparseAt(entries: seq<Address>, p: nat)
    requires Sparse(entries)
    ensures CountAt(entries, p) < 0x100
  {
    hide CountAt;
    if CountAt(entries, p) > 0 {
      var i := CountedWhere(entries, p);
    }
  }

  // ---------- 256 listings of one word ----------

  function Repeated(a: Address, n: nat): (r: seq<Address>)
    ensures |r| == n && forall i :: 0 <= i < n ==> r[i] == a
  {
    if n == 0 then [] else [a] + Repeated(a, n - 1)
  }

  lemma {:induction false} PatchedRepeated(bytes: seq<u8>, a: Address, n: nat, amount: u16)
    requires Inside(a, |bytes|)
    ensures AllInside(Repeated(a, n), |bytes|)
    ensures Patched(bytes, Repeated(a, n), amount) == AddAt(bytes, Linear(a), Wrap16(n * amount))
    decreases n
  {
    hide AddAt;
    if n == 0 {
      AddAtZero(bytes, Linear(a));
    } else {
      var once := AddAt(bytes, Linear(a), amount);
      PatchedRepeated(once, a, n - 1, amount);
      assert Repeated(a, n)[1..] == Repeated(a, n - 1);
      AddAtTwice(bytes, Linear(a), amount, Wrap16((n - 1) * amount));
      WrapProduct(n, amount);
    }
  }

  lemma WrapProduct(n: nat, amount: u16)
    requires n > 0
    ensures Wrap16(amount + Wrap16((n - 1) * amount)) == Wrap16(n * amount)
  {
    var before := (n - 1) * amount;
    assert n * amount == before + amount;
    hide *;
    WrapAdd(amount, before);
  }

  lemma WrapAdd(x: int, y: int)
    ensures Wrap16(x + Wrap16(y)) == Wrap16(y + x)
  {
  }

  /** Adding 256 times an amount to a word adds its low byte to the high byte. */
  function RaiseHigh(bytes: seq<u8>, at: nat, amount: u16): (r: seq<u8>)
    requires at < |bytes|
    ensures |r| == |bytes|
  {
    bytes[at := (bytes[at] + amount) % 0x100]
  }

  lemma AddAtHigh(bytes: seq<u8>, q: nat, amount: u16)
    requires q + 2 <= |bytes|
    ensures AddAt(bytes, q, Wrap16(0x100 * amount)) == RaiseHigh(bytes, q + 1, amount)
  {
    var shifted := Wrap16(0x100 * amount);
    assert shifted == 0x100 * (amount % 0x100);
    HighByte(bytes[q], bytes[q + 1], shifted);
    assert (bytes[q + 1] + amount % 0x100) % 0x100 == (bytes[q + 1] + amount) % 0x100;
    hide Word, Wrap16;
  }

  lemma RaiseHighTwice(bytes: seq<u8>, at: nat, x: u16, y: u16)
    requires at < |bytes|
    ensures RaiseHigh(RaiseHigh(bytes, at, x), at, y) == RaiseHigh(bytes, at, Wrap16(x + y))
  {
    hide Wrap16;
    ByteSums(bytes[at], x, y);
  }

  lemma ByteSums(b: u8, x: u16, y: u16)
    ensures ((b + x) % 0x100 + y) % 0x100 == (b + Wrap16(x + y)) % 0x100
  {
    assert Wrap16(x + y) == x + y || Wrap16(x + y) == x + y - 0x1_0000;
  }

  lemma RaiseHighCommutes(bytes: seq<u8>, p: nat, x: u16, y: u16)
    requires p + 3 <= |bytes|
    ensures AddAt(RaiseHigh(bytes, p + 2, x), p, y) == RaiseHigh(AddAt(bytes, p, y), p + 2, x)
  {
    hide Word, Wrap16;
  }

  /** A table that lists one word and, 256 times, the word overlapping it is additive all the same. */
  lemma OverlapOf256Adds(a: Address, b: Address, n: nat, size: nat)
    requires Linear(b) == Linear(a) + 1 && n == 0x100 && Inside(b, size)
    ensures var entries := [a] + Repeated(b, n); Additive(entries, size) && !NoOverlap(entries)
  {
    var p, entries := Linear(a), [a] + Repeated(b, n);
    assert entries[0] == a && entries[1] == b;
    assert !Apart(Linear(entries[0]), Linear(entries[1]));
    assert !ApartFromAll(Linear(entries[0]), entries);
    forall bytes: seq<u8>, x: u16, y: u16 | |bytes| == size
      ensures Patched(Patched(bytes, entries, x), entries, y) == Patched(bytes, entries, Wrap16(x + y))
    {
      hide Patched, AddAt, RaiseHigh, Wrap16;
      OnePass(bytes, a, b, n, x);
      var once := AddAt(bytes, p, x);
      OnePass(RaiseHigh(once, p + 2, x), a, b, n, y);
      OnePass(bytes, a, b, n, Wrap16(x + y));
      RaiseHighCommutes(once, p, x, y);
      AddAtTwice(bytes, p, x, y);
      RaiseHighTwice(AddAt(once, p, y), p + 2, x, y);
    }
  }

  lemma OnePass(bytes: seq<u8>, a: Address, b: Address, n: nat, x: u16)
    requires Linear(b) == Linear(a) + 1 && n == 0x100 && Inside(b, |bytes|)
    ensures AllInside([a] + Repeated(b, n), |bytes|)
    ensures Patched(bytes, [a] + Repeated(b, n), x) == RaiseHigh(AddAt(bytes, Linear(a), x), Linear(a) + 2, x)
  {
    hide AddAt, RaiseHigh;
    var entries, once := [a] + Repeated(b, n), AddAt(bytes, Linear(a), x);
    assert entries[1..] == Repeated(b, n);
    PatchedRepeated(once, b, n, x);
    AddAtHigh(once, Linear(b), x);
  }
}
