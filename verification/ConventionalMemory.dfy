/**
 * The DOS paragraph allocator (src/runtime/conventional_memory.cpp): first fit with splitting, and
 * coalescing of every adjacent pair of free blocks on release. Sizes and segments are 16-bit words.
 */
module ConventionalMemory {
  import opened Words
  import opened Outcome

  datatype Block = Block(start: u16, size: u16, free: bool)

  datatype MemoryError = ZeroSize | Exhausted | NotAllocated

  // ---------- what allocate and release do to a block list ----------

  predicate Fits(b: Block, paragraphs: u16) {
    b.free && paragraphs <= b.size
  }

  function FirstFit(blocks: seq<Block>, paragraphs: u16): (i: nat)
    ensures i <= |blocks|
    ensures i < |blocks| ==> Fits(blocks[i], paragraphs)
    ensures forall k :: 0 <= k < i ==> !Fits(blocks[k], paragraphs)
  {
    if blocks == [] || Fits(blocks[0], paragraphs) then 0 else 1 + FirstFit(blocks[1..], paragraphs)
  }

  /** Marks the first paragraphs of a free block as used; the remainder words wrap at 16 bits. */
  function Carve(b: Block, paragraphs: u16): seq<Block> {
    if b.size == paragraphs then [b.(free := false)]
    else [Block(b.start, paragraphs, false),
          Block(Wrap16(b.start + paragraphs), Wrap16(b.size - paragraphs), true)]
  }

  function Allocated(blocks: seq<Block>, paragraphs: u16): Result<(u16, seq<Block>), MemoryError> {
    if paragraphs == 0 then Err(ZeroSize)
    else
      var i := FirstFit(blocks, paragraphs);
      if i == |blocks| then Err(Exhausted)
      else Ok((blocks[i].start, blocks[..i] + Carve(blocks[i], paragraphs) + blocks[i + 1..]))
  }

  function IndexOf(blocks: seq<Block>, segment: u16): (i: nat)
    ensures i <= |blocks|
    ensures i < |blocks| ==> blocks[i].start == segment
    ensures forall k :: 0 <= k < i ==> blocks[k].start != segment
  {
    if blocks == [] || blocks[0].start == segment then 0 else 1 + IndexOf(blocks[1..], segment)
  }

  function Joined(a: Block, b: Block): Block {
    a.(size := Wrap16(a.size + b.size))
  }

  function Coalesced(blocks: seq<Block>): seq<Block>
    decreases |blocks|
  {
    if |blocks| < 2 then blocks
    else if blocks[0].free && blocks[1].free then Coalesced([Joined(blocks[0], blocks[1])] + blocks[2..])
    else [blocks[0]] + Coalesced(blocks[1..])
  }

  function Released(blocks: seq<Block>, segment: u16): Result<seq<Block>, MemoryError> {
    var i := IndexOf(blocks, segment);
    if i == |blocks| || blocks[i].free then Err(NotAllocated)
    else Ok(Coalesced(blocks[i := blocks[i].(free := true)]))
  }

  // ---------- the invariant: a canonical tiling ----------

  /** Non-empty blocks laid end to end from one paragraph to another. */
  ghost predicate Tiles(blocks: seq<Block>, from: nat, to: nat) {
    if blocks == [] then from == to
    else blocks[0].start == from && 0 < blocks[0].size && Tiles(blocks[1..], from + blocks[0].size, to)
  }

  ghost predicate NoFreePair(blocks: seq<Block>) {
    forall i :: 0 <= i && i + 1 < |blocks| ==> !(blocks[i].free && blocks[i + 1].free)
  }

  ghost predicate Canonical(blocks: seq<Block>, pool: u16) {
    Tiles(blocks, 0, pool) && NoFreePair(blocks)
  }

  /** The allocations a block list stands for. */
  ghost function Live(blocks: seq<Block>): set<(u16, u16)> {
    set b | b in blocks && !b.free :: (b.start, b.size)
  }

  lemma {:induction false} TilesBounds(blocks: seq<Block>, from: nat, to: nat)
    requires Tiles(blocks, from, to)
    ensures from <= to
    ensures blocks != [] ==> from < to
    ensures forall k :: 0 <= k < |blocks| ==> from <= blocks[k].start && blocks[k].start + blocks[k].size <= to
    ensures forall k :: 0 < k < |blocks| ==> from + blocks[0].size <= blocks[k].start
    decreases |blocks|
  {
    if blocks != [] {
      TilesBounds(blocks[1..], from + blocks[0].size, to);
      assert forall k :: 0 < k < |blocks| ==> blocks[k] == blocks[1..][k - 1];
    }
  }

  lemma {:induction false} TilesConcat(left: seq<Block>, right: seq<Block>, from: nat, to: nat)
    requires Tiles(left + right, from, to)
    ensures exists mid :: Tiles(left, from, mid) && Tiles(right, mid, to)
    decreases |left|
  {
    if left == [] {
      assert left + right == right;
      assert Tiles(left, from, from);
    } else {
      assert (left + right)[1..] == left[1..] + right;
      TilesConcat(left[1..], right, from + left[0].size, to);
      var mid :| Tiles(left[1..], from + left[0].size, mid) && Tiles(right, mid, to);
      assert Tiles(left, from, mid);
    }
  }

  lemma {:induction false} TilesJoin(left: seq<Block>, right: seq<Block>, from: nat, mid: nat, to: nat)
    requires Tiles(left, from, mid) && Tiles(right, mid, to)
    ensures Tiles(left + right, from, to)
    decreases |left|
  {
    if left == [] {
      assert left + right == right;
    } else {
      assert (left + right)[1..] == left[1..] + right;
      TilesJoin(left[1..], right, from + left[0].size, mid, to);
    }
  }

  /** Splits a tiling around block i. */
  lemma TilesAround(blocks: seq<Block>, i: nat, from: nat, to: nat)
    requires Tiles(blocks, from, to) && i < |blocks|
    ensures Tiles(blocks[..i], from, blocks[i].start)
    ensures 0 < blocks[i].size
    ensures Tiles(blocks[i + 1..], blocks[i].start + blocks[i].size, to)
  {
    assert blocks == blocks[..i] + blocks[i..];
    TilesConcat(blocks[..i], blocks[i..], from, to);
    var mid :| Tiles(blocks[..i], from, mid) && Tiles(blocks[i..], mid, to);
    assert blocks[i..][1..] == blocks[i + 1..];
  }

  /** In a tiling a start names at most one block. */
  lemma StartsDiffer(blocks: seq<Block>, i: nat, j: nat, from: nat, to: nat)
    requires Tiles(blocks, from, to) && i < j < |blocks|
    ensures blocks[i].start + blocks[i].size <= blocks[j].start
  {
    TilesAround(blocks, i, from, to);
    TilesBounds(blocks[i + 1..], blocks[i].start + blocks[i].size, to);
    assert blocks[j] == blocks[i + 1..][j - i - 1];
  }

  /** Every live pair is the first block or lies beyond it. */
  lemma LiveBounds(blocks: seq<Block>, from: nat, to: nat)
    requires Tiles(blocks, from, to) && blocks != []
    ensures forall p :: p in Live(blocks) ==>
      if p.0 == from then !blocks[0].free && p == (blocks[0].start, blocks[0].size)
      else from + blocks[0].size <= p.0
  {
    TilesBounds(blocks, from, to);
  }

  lemma LiveConcat(a: seq<Block>, b: seq<Block>)
    ensures Live(a + b) == Live(a) + Live(b)
  {
    assert forall x :: x in a + b <==> x in a || x in b;
  }

  lemma TailLive(blocks: seq<Block>, from: nat, to: nat)
    requires Tiles(blocks, from, to) && blocks != []
    ensures Live(blocks[1..]) == if blocks[0].free then Live(blocks) else Live(blocks) - {(blocks[0].start, blocks[0].size)}
  {
    assert blocks == [blocks[0]] + blocks[1..];
    LiveConcat([blocks[0]], blocks[1..]);
    TilesBounds(blocks[1..], from + blocks[0].size, to);
    assert forall p :: p in Live(blocks[1..]) ==> from < p.0;
    assert Live([blocks[0]]) == if blocks[0].free then {} else {(blocks[0].start, blocks[0].size)};
  }

  // ---------- canonicity ----------

  /** A live set fixes the first block of a tiling without adjacent free blocks. */
  lemma HeadNoLonger(a: seq<Block>, b: seq<Block>, from: nat, to: nat)
    requires Tiles(a, from, to) && NoFreePair(a) && Tiles(b, from, to)
    requires Live(a) <= Live(b) && a != [] && b != []
    ensures !a[0].free ==> a[0] == b[0]
    ensures a[0].free && b[0].free ==> b[0].size <= a[0].size
  {
    TilesBounds(a, from, to);
    TilesBounds(b, from, to);
    LiveBounds(b, from, to);
    if !a[0].free {
      assert (a[0].start, a[0].size) in Live(a);
    } else if 1 < |a| {
      assert a[1] == a[1..][0];
      assert !a[1].free && (a[1].start, a[1].size) in Live(a);
    } else {
      assert a[1..] == [];
    }
  }

  /** The block list is a function of the pool and of the live (segment, size) pairs alone. */
  lemma {:induction false} TilingUnique(a: seq<Block>, b: seq<Block>, from: nat, to: nat)
    requires Tiles(a, from, to) && NoFreePair(a) && Tiles(b, from, to) && NoFreePair(b)
    requires Live(a) == Live(b)
    ensures a == b
    decreases |a|
  {
    TilesBounds(a, from, to);
    TilesBounds(b, from, to);
    if a != [] && b != [] {
      HeadNoLonger(a, b, from, to);
      HeadNoLonger(b, a, from, to);
      TailLive(a, from, to);
      TailLive(b, from, to);
      TilingUnique(a[1..], b[1..], from + a[0].size, to);
      assert a == [a[0]] + a[1..] && b == [b[0]] + b[1..];
    }
  }

  lemma CanonicalUnique(a: seq<Block>, b: seq<Block>, pool: u16)
    requires Canonical(a, pool) && Canonical(b, pool) && Live(a) == Live(b)
    ensures a == b
  {
    TilingUnique(a, b, 0, pool);
  }

  // ---------- replacing one block ----------

  function Replaced(blocks: seq<Block>, i: nat, parts: seq<Block>): seq<Block>
    requires i < |blocks|
  {
    blocks[..i] + parts + blocks[i + 1..]
  }

  lemma TilesReplaced(blocks: seq<Block>, i: nat, parts: seq<Block>, from: nat, to: nat)
    requires Tiles(blocks, from, to) && i < |blocks|
    requires Tiles(parts, blocks[i].start, blocks[i].start + blocks[i].size)
    ensures Tiles(Replaced(blocks, i, parts), from, to)
  {
    var b := blocks[i];
    TilesAround(blocks, i, from, to);
    TilesJoin(blocks[..i], parts, from, b.start, b.start + b.size);
    TilesJoin(blocks[..i] + parts, blocks[i + 1..], from, b.start + b.size, to);
  }

  lemma LiveWithout(blocks: seq<Block>, i: nat, from: nat, to: nat)
    requires Tiles(blocks, from, to) && i < |blocks|
    ensures Live(blocks[..i]) + Live(blocks[i + 1..])
      == if blocks[i].free then Live(blocks) else Live(blocks) - {(blocks[i].start, blocks[i].size)}
  {
    LiveParts(blocks, i);
    LiveApart(blocks, i, from, to);
  }

  lemma LiveParts(blocks: seq<Block>, i: nat)
    requires i < |blocks|
    ensures Live(blocks) == Live(blocks[..i]) + Live(blocks[i + 1..])
      + if blocks[i].free then {} else {(blocks[i].start, blocks[i].size)}
  {
    var b, left, right := blocks[i], blocks[..i], blocks[i + 1..];
    assert blocks == left + [b] + right;
    LiveConcat(left + [b], right);
    LiveConcat(left, [b]);
    LiveSingle(b);
  }

  lemma LiveApart(blocks: seq<Block>, i: nat, from: nat, to: nat)
    requires Tiles(blocks, from, to) && i < |blocks|
    ensures (blocks[i].start, blocks[i].size) !in Live(blocks[..i]) + Live(blocks[i + 1..])
  {
    TilesAround(blocks, i, from, to);
    LiveStarts(blocks[..i], from, blocks[i].start);
    LiveStarts(blocks[i + 1..], blocks[i].start + blocks[i].size, to);
  }

  lemma LiveSingle(b: Block)
    ensures Live([b]) == if b.free then {} else {(b.start, b.size)}
  {
    assert b in [b];
  }

  lemma LiveStarts(blocks: seq<Block>, from: nat, to: nat)
    requires Tiles(blocks, from, to)
    ensures forall p :: p in Live(blocks) ==> from <= p.0 < to
  {
    TilesBounds(blocks, from, to);
  }

  lemma LiveReplaced(blocks: seq<Block>, i: nat, parts: seq<Block>, from: nat, to: nat)
    requires Tiles(blocks, from, to) && i < |blocks|
    ensures Live(Replaced(blocks, i, parts))
      == Live(parts) + if blocks[i].free then Live(blocks) else Live(blocks) - {(blocks[i].start, blocks[i].size)}
  {
    LiveWithout(blocks, i, from, to);
    LiveConcat(blocks[..i] + parts, blocks[i + 1..]);
    LiveConcat(blocks[..i], parts);
  }

  // ---------- allocate ----------

  lemma CarveTiles(b: Block, paragraphs: u16, to: u16)
    requires b.start + b.size <= to && 0 < paragraphs <= b.size
    ensures Tiles(Carve(b, paragraphs), b.start, b.start + b.size)
    ensures Live(Carve(b, paragraphs)) == {(b.start, paragraphs)}
  {
    var parts := Carve(b, paragraphs);
    if b.size == paragraphs {
      assert parts[1..] == [];
    } else {
      assert parts[1..] == [parts[1]] && parts[1..][1..] == [];
    }
    assert !parts[0].free && parts[0] in parts;
  }

  /** Carving keeps the pool canonical and adds exactly the new allocation to the live set. */
  lemma AllocatedCanonical(blocks: seq<Block>, pool: u16, paragraphs: u16)
    requires Canonical(blocks, pool) && Allocated(blocks, paragraphs).Ok?
    ensures var (segment, after) := Allocated(blocks, paragraphs).value;
      Canonical(after, pool) && Live(after) == Live(blocks) + {(segment, paragraphs)}
  {
    var i := FirstFit(blocks, paragraphs);
    var parts := Carve(blocks[i], paragraphs);
    TilesBounds(blocks, 0, pool);
    CarveTiles(blocks[i], paragraphs, pool);
    TilesReplaced(blocks, i, parts, 0, pool);
    LiveReplaced(blocks, i, parts, 0, pool);
    assert blocks == blocks[..i] + [blocks[i]] + blocks[i + 1..];
    CarvedNoFreePair(blocks[..i], blocks[i], blocks[i + 1..], paragraphs);
  }

  lemma CarvedNoFreePair(left: seq<Block>, b: Block, right: seq<Block>, paragraphs: u16)
    requires NoFreePair(left + [b] + right) && b.free
    ensures NoFreePair(left + Carve(b, paragraphs) + right)
  {
    var blocks, after := left + [b] + right, left + Carve(b, paragraphs) + right;
    var grown := |Carve(b, paragraphs)| - 1;
    assert forall k :: 0 <= k < |left| ==> after[k] == blocks[k];
    assert forall k :: |left| < k < |blocks| ==> after[k + grown] == blocks[k];
    assert !after[|left|].free;
    assert blocks[|left|] == b;
    forall k | 0 <= k && k + 1 < |after|
      ensures !(after[k].free && after[k + 1].free)
    {
      if k + 1 < |left| {
        assert !(blocks[k].free && blocks[k + 1].free);
      } else if |left| + grown < k {
        assert after[k] == blocks[k - grown] && after[k + 1] == blocks[k - grown + 1];
        assert !(blocks[k - grown].free && blocks[k - grown + 1].free);
      } else if |left| < k {
        assert after[k + 1] == blocks[|left| + 1];
        assert !(blocks[|left|].free && blocks[|left| + 1].free);
      }
    }
  }

  // ---------- release ----------

  lemma {:induction false} CoalescedCanonical(blocks: seq<Block>, from: nat, to: nat)
    requires Tiles(blocks, from, to) && to < 0x1_0000
    ensures Tiles(Coalesced(blocks), from, to)
    ensures NoFreePair(Coalesced(blocks))
    ensures Live(Coalesced(blocks)) == Live(blocks)
    ensures blocks != [] ==> Coalesced(blocks) != [] && Coalesced(blocks)[0].free == blocks[0].free
    decreases |blocks|
  {
    if |blocks| >= 2 {
      TilesBounds(blocks, from, to);
      assert blocks[1] == blocks[1..][0];
      if blocks[0].free && blocks[1].free {
        var joined := [Joined(blocks[0], blocks[1])];
        assert blocks == blocks[..2] + blocks[2..] && blocks[1..][1..] == blocks[2..];
        assert (joined + blocks[2..])[1..] == blocks[2..];
        LiveConcat(blocks[..2], blocks[2..]);
        LiveConcat(joined, blocks[2..]);
        assert Live(joined) == {} && Live(blocks[..2]) == {};
        CoalescedCanonical(joined + blocks[2..], from, to);
      } else {
        var rest := Coalesced(blocks[1..]);
        CoalescedCanonical(blocks[1..], from + blocks[0].size, to);
        assert ([blocks[0]] + rest)[1..] == rest;
        assert blocks == [blocks[0]] + blocks[1..];
        LiveConcat([blocks[0]], blocks[1..]);
        LiveConcat([blocks[0]], rest);
      }
    }
  }

  /** A live pair is a used block, found under its own start. */
  lemma LiveIndex(blocks: seq<Block>, pool: u16, segment: u16, size: u16)
    requires Canonical(blocks, pool)
    ensures (segment, size) in Live(blocks) <==>
      var i := IndexOf(blocks, segment); i < |blocks| && blocks[i] == Block(segment, size, false)
  {
    var i := IndexOf(blocks, segment);
    if (segment, size) in Live(blocks) {
      var b :| b in blocks && !b.free && b.start == segment && b.size == size;
      var k :| 0 <= k < |blocks| && blocks[k] == b;
      if i < k {
        StartsDiffer(blocks, i, k, 0, pool);
        TilesAround(blocks, i, 0, pool);
      }
    }
  }

  /** The size a segment was allocated with. */
  function SizeOf(blocks: seq<Block>, segment: u16): u16 {
    var i := IndexOf(blocks, segment);
    if i == |blocks| then 0 else blocks[i].size
  }

  /** Exactly the live segments can be released, and a release removes exactly that allocation. */
  lemma ReleasedCanonical(blocks: seq<Block>, pool: u16, segment: u16)
    requires Canonical(blocks, pool)
    ensures Released(blocks, segment).Ok? <==> (segment, SizeOf(blocks, segment)) in Live(blocks)
    ensures Released(blocks, segment).Ok? ==>
      var after := Released(blocks, segment).value;
      Canonical(after, pool) && Live(after) == Live(blocks) - {(segment, SizeOf(blocks, segment))}
  {
    var i := IndexOf(blocks, segment);
    LiveIndex(blocks, pool, segment, SizeOf(blocks, segment));
    if i < |blocks| && !blocks[i].free {
      var freed := [blocks[i].(free := true)];
      assert Tiles(freed, blocks[i].start, blocks[i].start + blocks[i].size) by {
        TilesAround(blocks, i, 0, pool);
        assert freed[1..] == [];
      }
      TilesReplaced(blocks, i, freed, 0, pool);
      LiveReplaced(blocks, i, freed, 0, pool);
      assert Live(freed) == {};
      assert blocks[i := blocks[i].(free := true)] == Replaced(blocks, i, freed);
      CoalescedCanonical(Replaced(blocks, i, freed), 0, pool);
    }
  }

  // ---------- whole runs ----------

  datatype Request = Allocate(paragraphs: u16) | Release(segment: u16)

  function Fresh(pool: u16): seq<Block> {
    if pool == 0 then [] else [Block(0, pool, true)]
  }

  /** A request that fails leaves the blocks as they were. */
  function After(blocks: seq<Block>, request: Request): seq<Block> {
    match request
    case Allocate(paragraphs) =>
      var r := Allocated(blocks, paragraphs);
      if r.Ok? then r.value.1 else blocks
    case Release(segment) =>
      var r := Released(blocks, segment);
      if r.Ok? then r.value else blocks
  }

  function Run(pool: u16, requests: seq<Request>): seq<Block> {
    if requests == [] then Fresh(pool)
    else After(Run(pool, requests[..|requests| - 1]), requests[|requests| - 1])
  }

  lemma FreshCanonical(pool: u16)
    ensures Canonical(Fresh(pool), pool) && Live(Fresh(pool)) == {}
  {
    if pool != 0 {
      assert Fresh(pool)[1..] == [];
    }
  }

  /** Over every run the blocks are non-empty, tile the pool and have no two adjacent free ones. */
  lemma {:induction false} RunCanonical(pool: u16, requests: seq<Request>)
    ensures Canonical(Run(pool, requests), pool)
    decreases |requests|
  {
    FreshCanonical(pool);
    if requests != [] {
      var before := Run(pool, requests[..|requests| - 1]);
      RunCanonical(pool, requests[..|requests| - 1]);
      match requests[|requests| - 1]
      case Allocate(paragraphs) =>
        if Allocated(before, paragraphs).Ok? { AllocatedCanonical(before, pool, paragraphs); }
      case Release(segment) =>
        ReleasedCanonical(before, pool, segment);
    }
  }

  /** Two histories that leave the same allocations live leave the same block list. */
  lemma HistoryIndependent(pool: u16, some: seq<Request>, other: seq<Request>)
    requires Live(Run(pool, some)) == Live(Run(pool, other))
    ensures Run(pool, some) == Run(pool, other)
  {
    RunCanonical(pool, some);
    RunCanonical(pool, other);
    CanonicalUnique(Run(pool, some), Run(pool, other), pool);
  }

  /** Releasing what was just allocated restores the identical block list. */
  lemma AllocateReleaseRestores(pool: u16, requests: seq<Request>, paragraphs: u16)
    requires Allocated(Run(pool, requests), paragraphs).Ok?
    ensures var (segment, after) := Allocated(Run(pool, requests), paragraphs).value;
      Released(after, segment) == Ok(Run(pool, requests))
  {
    var blocks := Run(pool, requests);
    var (segment, after) := Allocated(blocks, paragraphs).value;
    RunCanonical(pool, requests);
    AllocatedCanonical(blocks, pool, paragraphs);
    LiveIndex(after, pool, segment, paragraphs);
    ReleasedCanonical(after, pool, segment);
    LiveIndex(blocks, pool, segment, paragraphs);
    AllocatedWasFree(blocks, pool, paragraphs);
    CanonicalUnique(Released(after, segment).value, blocks, pool);
  }

  lemma AllocatedWasFree(blocks: seq<Block>, pool: u16, paragraphs: u16)
    requires Canonical(blocks, pool) && Allocated(blocks, paragraphs).Ok?
    ensures (Allocated(blocks, paragraphs).value.0, paragraphs) !in Live(blocks)
  {
    var i := FirstFit(blocks, paragraphs);
    LiveIndex(blocks, pool, blocks[i].start, paragraphs);
    var k := IndexOf(blocks, blocks[i].start);
    if k < i {
      StartsDiffer(blocks, k, i, 0, pool);
      TilesAround(blocks, k, 0, pool);
    }
  }

  /** Two successful releases give the same block list in either order. */
  lemma ReleasesCommute(pool: u16, requests: seq<Request>, s: u16, t: u16)
    requires Released(Run(pool, requests), s).Ok?
    requires Released(Released(Run(pool, requests), s).value, t).Ok?
    ensures Released(Run(pool, requests), t).Ok?
    ensures Released(Released(Run(pool, requests), t).value, s) == Released(Released(Run(pool, requests), s).value, t)
  {
    var blocks := Run(pool, requests);
    RunCanonical(pool, requests);
    var m, n := SizeOf(blocks, s), SizeOf(blocks, t);
    var withoutS, withoutT := Released(blocks, s).value, Released(blocks, t);
    ReleasedCanonical(blocks, pool, s);
    ReleasedCanonical(blocks, pool, t);
    ReleasedCanonical(withoutS, pool, t);
    LiveIndex(withoutS, pool, t, SizeOf(withoutS, t));
    LiveIndex(blocks, pool, t, SizeOf(withoutS, t));
    assert (t, n) in Live(withoutS);
    LiveIndex(blocks, pool, s, m);
    ReleasedCanonical(withoutT.value, pool, s);
    LiveIndex(withoutT.value, pool, s, m);
    CanonicalUnique(Released(withoutT.value, s).value, Released(withoutS, t).value, pool);
  }

  /** Once nothing is live the pool is one free block again. */
  lemma ReleasingAllRestores(pool: u16, requests: seq<Request>)
    requires Live(Run(pool, requests)) == {}
    ensures Run(pool, requests) == Fresh(pool)
  {
    RunCanonical(pool, requests);
    FreshCanonical(pool);
    CanonicalUnique(Run(pool, requests), Fresh(pool), pool);
  }

  // ---------- first fit finds the lowest gap ----------

  /** The paragraphs [at, at + size) lie in the pool and touch no allocation. */
  ghost predicate Gap(live: set<(u16, u16)>, pool: u16, at: nat, size: nat) {
    at + size <= pool && forall p :: p in live ==> at + size <= p.0 || p.0 + p.1 <= at
  }

  lemma {:induction false} BlockAt(blocks: seq<Block>, from: nat, to: nat, at: nat) returns (i: nat)
    requires Tiles(blocks, from, to) && from <= at < to
    ensures i < |blocks| && blocks[i].start <= at < blocks[i].start + blocks[i].size
    decreases |blocks|
  {
    if at < from + blocks[0].size {
      i := 0;
    } else {
      var j := BlockAt(blocks[1..], from + blocks[0].size, to, at);
      i := j + 1;
    }
  }

  /** Coalescing loses no room: a gap between allocations lies inside a single free block. */
  lemma GapInsideFreeBlock(blocks: seq<Block>, pool: u16, at: nat, size: nat) returns (i: nat)
    requires Canonical(blocks, pool) && 0 < size && Gap(Live(blocks), pool, at, size)
    ensures i < |blocks| && blocks[i].free
    ensures blocks[i].start <= at && at + size <= blocks[i].start + blocks[i].size
  {
    i := BlockAt(blocks, 0, pool, at);
    var b := blocks[i];
    assert !b.free ==> (b.start, b.size) in Live(blocks);
    if i + 1 < |blocks| {
      var next := blocks[i + 1];
      TilesAround(blocks, i, 0, pool);
      TilesAround(blocks, i + 1, 0, pool);
      assert next == blocks[i + 1..][0];
      assert !next.free && (next.start, next.size) in Live(blocks);
    } else {
      TilesAround(blocks, i, 0, pool);
      assert blocks[i + 1..] == [];
    }
  }

  /**
   * A request succeeds exactly when that many consecutive unallocated paragraphs exist, and it
   * returns the lowest segment where they do.
   */
  lemma FirstFitIsLowestGap(pool: u16, requests: seq<Request>, paragraphs: u16)
    requires paragraphs != 0
    ensures var blocks := Run(pool, requests);
      match Allocated(blocks, paragraphs)
      case Ok((segment, _)) =>
        && Gap(Live(blocks), pool, segment, paragraphs)
        && forall at: nat :: Gap(Live(blocks), pool, at, paragraphs) ==> segment <= at
      case Err(e) => e == Exhausted && forall at: nat :: !Gap(Live(blocks), pool, at, paragraphs)
  {
    var blocks := Run(pool, requests);
    RunCanonical(pool, requests);
    var i := FirstFit(blocks, paragraphs);
    forall at: nat | Gap(Live(blocks), pool, at, paragraphs)
      ensures i < |blocks| && blocks[i].start <= at
    {
      var k := GapInsideFreeBlock(blocks, pool, at, paragraphs);
      assert Fits(blocks[k], paragraphs);
      if i < k {
        StartsDiffer(blocks, i, k, 0, pool);
      }
    }
    if i < |blocks| {
      FreeBlockIsGap(blocks, pool, i, paragraphs);
    }
  }

  lemma FreeBlockIsGap(blocks: seq<Block>, pool: u16, i: nat, size: nat)
    requires Canonical(blocks, pool) && i < |blocks| && blocks[i].free && size <= blocks[i].size
    ensures Gap(Live(blocks), pool, blocks[i].start, size)
  {
    TilesBounds(blocks, 0, pool);
    forall p | p in Live(blocks)
      ensures blocks[i].start + size <= p.0 || p.0 + p.1 <= blocks[i].start
    {
      var b :| b in blocks && !b.free && p == (b.start, b.size);
      var k :| 0 <= k < |blocks| && blocks[k] == b;
      if i < k {
        StartsDiffer(blocks, i, k, 0, pool);
      } else {
        StartsDiffer(blocks, k, i, 0, pool);
      }
    }
  }

  function Largest(blocks: seq<Block>): (size: u16)
    ensures forall b :: b in blocks && b.free ==> b.size <= size
    ensures size == 0 || exists b :: b in blocks && b.free && b.size == size
  {
    if blocks == [] then 0
    else
      var before := Largest(blocks[..|blocks| - 1]);
      var last := blocks[|blocks| - 1];
      assert blocks == blocks[..|blocks| - 1] + [last];
      if last.free && before < last.size then last.size else before
  }

  /** A non-zero request succeeds exactly when it is at most the largest free block. */
  lemma AllocateIffLargest(blocks: seq<Block>, paragraphs: u16)
    ensures Allocated(blocks, paragraphs).Ok? <==> 0 < paragraphs <= Largest(blocks)
  {
    var i := FirstFit(blocks, paragraphs);
    if i < |blocks| {
      assert blocks[i] in blocks;
    } else if 0 < paragraphs {
      forall b | b in blocks && b.free
        ensures b.size < paragraphs
      {
        var k :| 0 <= k < |blocks| && blocks[k] == b;
        assert !Fits(blocks[k], paragraphs);
      }
    }
  }

  // ---------- the allocator object ----------

  class Allocator {
    var blocks: seq<Block>
    ghost const pool: u16

    ghost predicate Valid()
      reads this
    {
      Canonical(blocks, pool)
    }

    constructor (paragraphs: u16)
      ensures Valid() && pool == paragraphs && blocks == Fresh(paragraphs)
    {
      pool := paragraphs;
      blocks := [];
      if paragraphs != 0 {
        blocks := [Block(0, paragraphs, true)];
      }
      new;
      FreshCanonical(paragraphs);
    }

    method Allocate(paragraphs: u16) returns (r: Result<u16, MemoryError>)
      requires Valid()
      modifies this
      ensures Valid()
      ensures match Allocated(old(blocks), paragraphs)
        case Ok((segment, after)) => r == Ok(segment) && blocks == after
        case Err(e) => r == Err(e) && blocks == old(blocks)
      ensures r.Ok? <==> 0 < paragraphs <= Largest(old(blocks))
      ensures r.Ok? ==> Live(blocks) == old(Live(blocks)) + {(r.value, paragraphs)}
    {
      AllocateIffLargest(blocks, paragraphs);
      if Allocated(blocks, paragraphs).Ok? {
        AllocatedCanonical(blocks, pool, paragraphs);
      }
      r := Scan(paragraphs);
    }

    /** The search loop of allocate. */
    method Scan(paragraphs: u16) returns (r: Result<u16, MemoryError>)
      modifies this
      ensures match Allocated(old(blocks), paragraphs)
        case Ok((segment, after)) => r == Ok(segment) && blocks == after
        case Err(e) => r == Err(e) && blocks == old(blocks)
    {
      if paragraphs == 0 {
        return Err(ZeroSize);
      }
      var index := 0;
      while index < |blocks|
        invariant index <= |blocks| && blocks == old(blocks)
        invariant forall k :: 0 <= k < index ==> !Fits(blocks[k], paragraphs)
      {
        var block := blocks[index];
        if !block.free || block.size < paragraphs {
          index := index + 1;
          continue;
        }
        FirstFitIs(blocks, paragraphs, index);
        var segment := block.start;
        if block.size == paragraphs {
          blocks := blocks[index := block.(free := false)];
        } else {
          var remainder := Block(Wrap16(block.start + paragraphs), Wrap16(block.size - paragraphs), true);
          blocks := blocks[index := block.(size := paragraphs, free := false)];
          blocks := blocks[..index + 1] + [remainder] + blocks[index + 1..];
        }
        assert blocks == old(blocks)[..index] + Carve(block, paragraphs) + old(blocks)[index + 1..];
        return Ok(segment);
      }
      FirstFitIs(blocks, paragraphs, index);
      return Err(Exhausted);
    }

    method Release(segment: u16) returns (r: Result<(), MemoryError>)
      requires Valid()
      modifies this
      ensures Valid()
      ensures match Released(old(blocks), segment)
        case Ok(after) => r == Ok(()) && blocks == after
        case Err(e) => r == Err(e) && blocks == old(blocks)
      ensures r.Ok? <==> (segment, SizeOf(old(blocks), segment)) in old(Live(blocks))
      ensures r.Ok? ==> Live(blocks) == old(Live(blocks)) - {(segment, SizeOf(old(blocks), segment))}
    {
      ReleasedCanonical(blocks, pool, segment);
      var found := 0;
      while found < |blocks| && blocks[found].start != segment
        invariant found <= |blocks|
        invariant forall k :: 0 <= k < found ==> blocks[k].start != segment
      {
        found := found + 1;
      }
      IndexOfIs(blocks, segment, found);
      if found == |blocks| || blocks[found].free {
        return Err(NotAllocated);
      }
      blocks := blocks[found := blocks[found].(free := true)];
      Coalesce();
      return Ok(());
    }

    /** The merging loop of release. */
    method Coalesce()
      modifies this
      ensures blocks == Coalesced(old(blocks))
    {
      var index := 0;
      while index + 1 < |blocks|
        invariant index <= |blocks|
        invariant blocks[..index] + Coalesced(blocks[index..]) == Coalesced(old(blocks))
        decreases |blocks| - index
      {
        var current, next := blocks[index], blocks[index + 1];
        ghost var before, rest := blocks[..index], blocks[index..];
        if current.free && next.free {
          blocks := blocks[index := current.(size := Wrap16(current.size + next.size))];
          blocks := blocks[..index + 1] + blocks[index + 2..];
          assert blocks[index..] == [Joined(rest[0], rest[1])] + rest[2..];
          assert blocks[..index] == before;
        } else {
          index := index + 1;
          assert blocks[index..] == rest[1..];
          assert blocks[..index] == before + [rest[0]];
        }
      }
      assert blocks == blocks[..index] + blocks[index..];
    }

    method LargestFreeBlock() returns (largest: u16)
      ensures largest == Largest(blocks)
    {
      largest := 0;
      for k := 0 to |blocks|
        invariant largest == Largest(blocks[..k])
      {
        assert blocks[..k + 1][..k] == blocks[..k];
        if blocks[k].free && largest < blocks[k].size {
          largest := blocks[k].size;
        }
      }
      assert blocks[..|blocks|] == blocks;
    }
  }

  lemma {:induction false} FirstFitIs(blocks: seq<Block>, paragraphs: u16, i: nat)
    requires i <= |blocks| && (i < |blocks| ==> Fits(blocks[i], paragraphs))
    requires forall k :: 0 <= k < i ==> !Fits(blocks[k], paragraphs)
    ensures FirstFit(blocks, paragraphs) == i
  {
    if i != 0 && blocks != [] {
      assert forall k :: 0 <= k < i - 1 ==> blocks[1..][k] == blocks[k + 1];
      FirstFitIs(blocks[1..], paragraphs, i - 1);
    }
  }

  lemma {:induction false} IndexOfIs(blocks: seq<Block>, segment: u16, i: nat)
    requires i <= |blocks| && (i < |blocks| ==> blocks[i].start == segment)
    requires forall k :: 0 <= k < i ==> blocks[k].start != segment
    ensures IndexOf(blocks, segment) == i
  {
    if i != 0 && blocks != [] {
      assert forall k :: 0 <= k < i - 1 ==> blocks[1..][k] == blocks[k + 1];
      IndexOfIs(blocks[1..], segment, i - 1);
    }
  }
}
