/** Sector reads of the virtual disk (src/runtime/int13.cpp). */
module Int13 {
  import opened Outcome
  import opened Words

  const SECTOR: nat := 512

  datatype Geometry = Geometry(cylinders: u16, heads: u8, sectorsPerTrack: u8)

  datatype Disk = Disk(geometry: Geometry, bytes: seq<u8>)

  /** int13_request. */
  datatype Request = Request(ah: u8, al: u8, ch: u8, cl: u8, dh: u8, dl: u8)

  datatype Transfer = Transfer(data: seq<u8>, sectors: u8)

  datatype DiskError = UnsupportedFunction | UnknownDrive | OutsideGeometry | ExceedsImage

  /** A place on the disk; sectors count from 1. */
  datatype Chs = Chs(cylinder: nat, head: nat, sector: nat)

  function ChsOf(request: Request): Chs {
    Chs(request.ch + request.cl / 64 * 256, request.dh, request.cl % 64)
  }

  predicate Within(place: Chs, g: Geometry) {
    place.cylinder < g.cylinders && place.head < g.heads && 1 <= place.sector <= g.sectorsPerTrack
  }

  function Lba(place: Chs, g: Geometry): nat
    requires place.sector >= 1
  {
    (place.cylinder * g.heads + place.head) * g.sectorsPerTrack + (place.sector - 1)
  }

  function Capacity(g: Geometry): nat {
    g.cylinders * g.heads * g.sectorsPerTrack
  }

  function Dispatch(request: Request, disk: Disk): (r: Result<Transfer, DiskError>)
    ensures r.Ok? <==>
        && request.ah == 0x02 && request.dl == 0x80 && request.al != 0 && Within(ChsOf(request), disk.geometry)
        && (Lba(ChsOf(request), disk.geometry) + request.al) * 512 <= |disk.bytes|
    ensures r.Ok? ==> |r.value.data| == 512 * request.al && r.value.sectors == request.al
    ensures r == Err(UnsupportedFunction) <==> request.ah != 2
    ensures r == Err(UnknownDrive) <==> request.ah == 2 && request.dl != 0x80
    ensures r == Err(OutsideGeometry) <==>
        request.ah == 2 && request.dl == 0x80 && (request.al == 0 || !Within(ChsOf(request), disk.geometry))
  {
    if request.ah != 0x02 then Err(UnsupportedFunction)
    else if request.dl != 0x80 then Err(UnknownDrive)
    else
      var place := ChsOf(request);
      if request.al == 0 || !Within(place, disk.geometry) then Err(OutsideGeometry)
      else
        var offset := Lba(place, disk.geometry) * SECTOR;
        var length := request.al * SECTOR;
        if offset + length > |disk.bytes| then Err(ExceedsImage)
        else Ok(Transfer(disk.bytes[offset..offset + length], request.al))
  }

  /** The request that reads sectors from a place. */
  function ReadAt(place: Chs, sectors: u8): Request
    requires place.cylinder < 1024 && place.head < 256 && place.sector < 64
  {
    Request(0x02, sectors, place.cylinder % 256, place.cylinder / 256 * 64 + place.sector, place.head, 0x80)
  }

  lemma ReadAtPlace(place: Chs, sectors: u8)
    requires place.cylinder < 1024 && place.head < 256 && place.sector < 64
    ensures ChsOf(ReadAt(place, sectors)) == place
  {
  }

  /** The ten bits of the cylinder are CH and the upper two of CL, the six of the sector the rest of CL; the head is DH. */
  lemma ChsBits(request: Request, i: nat)
    ensures ChsOf(request).cylinder < 1024 && ChsOf(request).sector < 64 && ChsOf(request).head == request.dh
    ensures i < 8 ==> (Bit(ChsOf(request).cylinder, i) <==> Bit(request.ch, i))
    ensures i < 2 ==> (Bit(ChsOf(request).cylinder, 8 + i) <==> Bit(request.cl, 6 + i))
    ensures i < 6 ==> (Bit(ChsOf(request).sector, i) <==> Bit(request.cl, i))
  {
    hide Bit, Pow2;
    Pow2Of8();
    Pow2Of6();
    var high, low := request.cl / 64, request.cl % 64;
    if i < 8 {
      SplitBits(request.ch, 8, high, i);
    }
    SplitBits(request.ch, 8, high, 8 + i);
    if i < 6 {
      SplitBits(low, 6, high, i);
    }
    SplitBits(low, 6, high, 6 + i);
  }

  lemma Pow2Of6()
    ensures Pow2(6) == 64
  {
  }

  // ---------- places and sector numbers ----------

  lemma Difference(a: nat, c: nat, n: nat)
    ensures (a - c) * n == a * n - c * n
  {
  }

  lemma AtLeastOnce(d: int, n: nat)
    requires d > 0
    ensures d * n >= n
  {
  }

  lemma Grows(a: nat, c: nat, n: nat)
    requires a <= c
    ensures a * n <= c * n
    ensures a < c ==> a * n + n <= c * n
  {
    Difference(c, a, n);
    if a < c {
      AtLeastOnce(c - a, n);
    }
  }

  lemma QuotientUnique(n: nat, a: nat, b: nat, c: nat, d: nat)
    requires a * n + b == c * n + d && b < n && d < n
    ensures a == c && b == d
  {
    if a < c {
      Grows(a, c, n);
    } else {
      Grows(c, a, n);
    }
  }

  /** Two places of a geometry have different sector numbers. */
  lemma LbaInjective(p: Chs, q: Chs, g: Geometry)
    requires Within(p, g) && Within(q, g) && Lba(p, g) == Lba(q, g)
    ensures p == q
  {
    QuotientUnique(g.sectorsPerTrack, p.cylinder * g.heads + p.head, p.sector - 1,
                   q.cylinder * g.heads + q.head, q.sector - 1);
    QuotientUnique(g.heads, p.cylinder, p.head, q.cylinder, q.head);
  }

  /** Accepted requests that start at the same sector agree in CH, CL and DH. */
  lemma RequestsInjective(a: Request, b: Request, disk: Disk)
    requires Dispatch(a, disk).Ok? && Dispatch(b, disk).Ok?
    requires Lba(ChsOf(a), disk.geometry) == Lba(ChsOf(b), disk.geometry)
    ensures a.ch == b.ch && a.cl == b.cl && a.dh == b.dh
  {
    hide Lba;
    LbaInjective(ChsOf(a), ChsOf(b), disk.geometry);
  }

  lemma LbaBelowCapacity(p: Chs, g: Geometry)
    requires Within(p, g)
    ensures Lba(p, g) < Capacity(g)
  {
    Grows(p.cylinder, g.cylinders, g.heads);
    Grows(p.cylinder * g.heads + p.head, g.cylinders * g.heads, g.sectorsPerTrack);
  }

  /** The place of a sector number. */
  function PlaceOf(lba: nat, g: Geometry): Chs
    requires g.heads > 0 && g.sectorsPerTrack > 0
  {
    var track := lba / g.sectorsPerTrack;
    Chs(track / g.heads, track % g.heads, lba % g.sectorsPerTrack + 1)
  }

  lemma Divided(x: nat, n: nat)
    requires 0 < n
    ensures x == x / n * n + x % n && x % n < n
  {
  }

  lemma BelowProduct(a: nat, b: nat, c: nat, n: nat)
    requires a * n + b < c * n
    ensures a < c
  {
    if a >= c {
      Grows(c, a, n);
    }
  }

  lemma NotEmpty(g: Geometry)
    requires Capacity(g) > 0
    ensures g.cylinders > 0 && g.heads > 0 && g.sectorsPerTrack > 0
  {
  }

  lemma CapacityIs(g: Geometry)
    ensures Capacity(g) == (g.cylinders * g.heads) * g.sectorsPerTrack
  {
  }

  lemma LbaOfTrack(place: Chs, g: Geometry, track: nat)
    requires place.sector >= 1 && track == place.cylinder * g.heads + place.head
    ensures Lba(place, g) == track * g.sectorsPerTrack + place.sector - 1
  {
  }

  lemma DigitsBelow(lba: nat, cylinders: nat, h: nat, s: nat)
    requires 0 < h && 0 < s && lba < (cylinders * h) * s
    ensures lba / s / h < cylinders && lba / s % h < h && lba % s < s
    ensures lba / s == lba / s / h * h + lba / s % h && lba == lba / s * s + lba % s
  {
    var tracks, track := cylinders * h, lba / s;
    Divided(lba, s);
    Divided(track, h);
    BelowProduct(track, lba % s, tracks, s);
    BelowProduct(track / h, track % h, cylinders, h);
  }

  lemma PlaceOfWithin(lba: nat, g: Geometry)
    requires lba < Capacity(g)
    ensures g.heads > 0 && g.sectorsPerTrack > 0
    ensures Within(PlaceOf(lba, g), g) && Lba(PlaceOf(lba, g), g) == lba
  {
    hide Lba, Capacity;
    NotEmpty(g);
    CapacityIs(g);
    var s, h := g.sectorsPerTrack, g.heads;
    var track := lba / s;
    DigitsBelow(lba, g.cylinders, h, s);
    LbaOfTrack(PlaceOf(lba, g), g, track);
  }

  /** Some request reads from the sector. */
  ghost predicate Addressable(lba: nat, g: Geometry) {
    exists request: Request :: Within(ChsOf(request), g) && Lba(ChsOf(request), g) == lba
  }

  /** Ten bits of cylinder and six of sector address all of a geometry exactly when it fits into them. */
  lemma AllAddressableIff(g: Geometry)
    ensures (forall lba :: 0 <= lba < Capacity(g) ==> Addressable(lba, g))
        <==> (Capacity(g) == 0 || (g.cylinders <= 1024 && g.sectorsPerTrack <= 63))
  {
    hide Lba, Capacity;
    if g.cylinders <= 1024 && g.sectorsPerTrack <= 63 {
      forall lba: nat | lba < Capacity(g)
        ensures Addressable(lba, g)
      {
        PlaceOfWithin(lba, g);
        var place := PlaceOf(lba, g);
        ReadAtPlace(place, 1);
        assert Within(ChsOf(ReadAt(place, 1)), g);
      }
    } else if Capacity(g) != 0 {
      PlaceOfWithin(0, g);
      var far := if g.cylinders > 1024 then Chs(1024, 0, 1) else Chs(0, 0, 64);
      LbaBelowCapacity(far, g);
      forall request: Request | Within(ChsOf(request), g)
        ensures Lba(ChsOf(request), g) != Lba(far, g)
      {
        if Lba(ChsOf(request), g) == Lba(far, g) {
          LbaInjective(ChsOf(request), far, g);
        }
      }
      assert !Addressable(Lba(far, g), g);
    }
  }

  // ---------- reads of several sectors ----------

  /** The next sector: sectors carry into heads, and heads into cylinders. */
  function Next(place: Chs, g: Geometry): Chs {
    if place.sector < g.sectorsPerTrack then place.(sector := place.sector + 1)
    else if place.head + 1 < g.heads then Chs(place.cylinder, place.head + 1, 1)
    else Chs(place.cylinder + 1, 0, 1)
  }

  lemma NextIsFollowing(place: Chs, g: Geometry)
    requires Within(place, g)
    ensures Next(place, g).sector >= 1 && Lba(Next(place, g), g) == Lba(place, g) + 1
    ensures Lba(place, g) + 1 < Capacity(g) ==> Within(Next(place, g), g)
  {
    var s, h := g.sectorsPerTrack, g.heads;
    var track := place.cylinder * h + place.head;
    assert track * s + s == (track + 1) * s;
    assert (place.cylinder + 1) * h == place.cylinder * h + h;
    if place.sector == s && place.head + 1 == h && place.cylinder + 1 == g.cylinders {
      assert Lba(place, g) + 1 == Capacity(g);
    }
  }

  /** The registers of a request hold the place, and it lies in the geometry. */
  predicate Requestable(place: Chs, g: Geometry) {
    Within(place, g) && place.cylinder < 1024 && place.sector < 64
  }

  /** All of n successive places can be requested. */
  predicate Walk(place: Chs, n: nat, g: Geometry)
    decreases n
  {
    n == 0 || (Requestable(place, g) && Walk(Next(place, g), n - 1, g))
  }

  /** n reads of one sector each at successive places, up to the first that fails or cannot be requested. */
  function ReadOneByOne(place: Chs, n: nat, disk: Disk): Result<seq<u8>, DiskError>
    decreases n
  {
    if n == 0 then Ok([])
    else if !Requestable(place, disk.geometry) then Err(OutsideGeometry)
    else
      match Dispatch(ReadAt(place, 1), disk)
      case Err(error) => Err(error)
      case Ok(first) =>
        match ReadOneByOne(Next(place, disk.geometry), n - 1, disk)
        case Err(error) => Err(error)
        case Ok(rest) => Ok(first.data + rest)
  }

  function DataOf(r: Result<Transfer, DiskError>): Result<seq<u8>, DiskError> {
    match r
    case Err(error) => Err(error)
    case Ok(transfer) => Ok(transfer.data)
  }

  /** What a read at a place gives. */
  function Range(disk: Disk, lba: nat, n: nat): Result<seq<u8>, DiskError> {
    if (lba + n) * SECTOR > |disk.bytes| then Err(ExceedsImage)
    else
      assert lba * SECTOR <= (lba + n) * SECTOR;
      Ok(disk.bytes[lba * SECTOR..(lba + n) * SECTOR])
  }

  lemma RangeSplits(disk: Disk, lba: nat, n: nat)
    ensures (Range(disk, lba, n + 1).Ok? <==> Range(disk, lba, 1).Ok? && Range(disk, lba + 1, n).Ok?)
    ensures Range(disk, lba, n + 1).Ok? ==>
        Range(disk, lba, n + 1).value == Range(disk, lba, 1).value + Range(disk, lba + 1, n).value
  {
    var a, b, c := lba * SECTOR, (lba + 1) * SECTOR, (lba + 1 + n) * SECTOR;
    if c <= |disk.bytes| {
      assert disk.bytes[a..c] == disk.bytes[a..b] + disk.bytes[b..c];
    }
  }

  lemma RangeErrs(disk: Disk, lba: nat, n: nat)
    ensures Range(disk, lba, n).Err? ==> Range(disk, lba, n) == Err(ExceedsImage)
  {
  }

  lemma RangeOfNone(disk: Disk, lba: nat)
    ensures Range(disk, lba, 1).Ok? ==> Range(disk, lba + 1, 0) == Ok([])
  {
    if Range(disk, lba, 1).Ok? {
      assert disk.bytes[(lba + 1) * SECTOR..(lba + 1 + 0) * SECTOR] == [];
    }
  }

  /** A read of any number of sectors gives the bytes of those sectors in the image, or finds it too short. */
  lemma ReadIsRange(place: Chs, sectors: u8, disk: Disk)
    requires Requestable(place, disk.geometry) && sectors > 0
    ensures DataOf(Dispatch(ReadAt(place, sectors), disk)) == Range(disk, Lba(place, disk.geometry), sectors)
  {
    hide Lba;
    ReadAtPlace(place, sectors);
  }

  lemma {:induction false} OneByOneIsRange(place: Chs, n: nat, disk: Disk)
    requires n > 0 && Walk(place, n, disk.geometry)
    ensures ReadOneByOne(place, n, disk) == Range(disk, Lba(place, disk.geometry), n)
    decreases n
  {
    hide Lba, Capacity, Dispatch, Range, Next;
    var lba := Lba(place, disk.geometry);
    ReadIsRange(place, 1, disk);
    RangeErrs(disk, lba, n);
    RangeErrs(disk, lba, 1);
    RangeSplits(disk, lba, n - 1);
    if n > 1 {
      RangeErrs(disk, lba + 1, n - 1);
      NextIsFollowing(place, disk.geometry);
      OneByOneIsRange(Next(place, disk.geometry), n - 1, disk);
    } else {
      RangeOfNone(disk, lba);
    }
  }

  lemma {:induction false} OneByOneWalks(place: Chs, n: nat, disk: Disk)
    requires ReadOneByOne(place, n, disk).Ok?
    ensures Walk(place, n, disk.geometry)
    decreases n
  {
    if n > 0 {
      OneByOneWalks(Next(place, disk.geometry), n - 1, disk);
    }
  }

  /**
   * A read of n sectors whose places can all be requested is n reads of one sector with carry from sector
   * to head to cylinder: the same bytes, and the same error when the image is too short.
   */
  lemma ReadIsOneByOne(place: Chs, sectors: u8, disk: Disk)
    requires sectors > 0 && Walk(place, sectors, disk.geometry)
    ensures Requestable(place, disk.geometry)
    ensures DataOf(Dispatch(ReadAt(place, sectors), disk)) == ReadOneByOne(place, sectors, disk)
  {
    hide Lba, Capacity, Dispatch;
    ReadIsRange(place, sectors, disk);
    OneByOneIsRange(place, sectors, disk);
  }

  /**
   * Only the first place of a read is checked. A read that succeeds is its one-sector reads exactly when
   * all its places can be requested; otherwise one of those fails.
   */
  lemma OneByOneIff(place: Chs, sectors: u8, disk: Disk)
    requires Requestable(place, disk.geometry) && Dispatch(ReadAt(place, sectors), disk).Ok?
    ensures sectors > 0
    ensures DataOf(Dispatch(ReadAt(place, sectors), disk)) == ReadOneByOne(place, sectors, disk)
        <==> Walk(place, sectors, disk.geometry)
  {
    hide Lba, Capacity, ReadOneByOne, Walk;
    if Walk(place, sectors, disk.geometry) {
      ReadIsOneByOne(place, sectors, disk);
    }
    if ReadOneByOne(place, sectors, disk).Ok? {
      OneByOneWalks(place, sectors, disk);
    }
  }

  /** In a geometry that fits into the registers, those are the reads that stay inside it. */
  lemma {:induction false} WalkIffInside(place: Chs, n: nat, g: Geometry)
    requires g.cylinders <= 1024 && g.sectorsPerTrack <= 63 && n > 0 && Within(place, g)
    ensures Walk(place, n, g) <==> Lba(place, g) + n <= Capacity(g)
    decreases n
  {
    hide Lba, Capacity, Next;
    LbaBelowCapacity(place, g);
    NextIsFollowing(place, g);
    if n > 1 {
      if Within(Next(place, g), g) {
        WalkIffInside(Next(place, g), n - 1, g);
      }
    }
  }
}
