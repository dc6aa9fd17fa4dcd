/** COM and MZ containers and MZ relocation (src/loader/binary_loader.cpp). */
module BinaryLoader {
  import opened Outcome
  import opened Words

  datatype Format = Com | Mz

  /** segmented_address. */
  datatype Address = Address(segment: u16, offset: u16)

  /** program_image. */
  datatype Image = Image(format: Format, bytes: seq<u8>, entry: Address, stack: Address,
                         headerParagraphs: u16, relocations: seq<Address>)

  datatype LoadError =
    | InputEmpty
    | ComTooLarge
    | HeaderTruncated
    | SizeFieldsInvalid
    | DeclaredSizeInvalid
    | TableOutside
    | RelocationOutside
    | EntryOutside
    | NotRelocatable

  const MINIMUM_HEADER: nat := 28

  function Linear(a: Address): nat {
    a.segment * 16 + a.offset
  }

  function EntryOffset(image: Image): nat {
    if image.format == Com then 0 else Linear(image.entry)
  }

  /** A whole word lies at the address. */
  predicate Inside(a: Address, size: nat) {
    Linear(a) + 2 <= size
  }

  predicate AllInside(relocations: seq<Address>, size: nat) {
    forall i :: 0 <= i < |relocations| ==> Inside(relocations[i], size)
  }

  // ---------- what an MZ file says ----------

  datatype Header = Header(lastPage: u16, pages: u16, count: u16, paragraphs: u16,
                           ss: u16, sp: u16, ip: u16, cs: u16, table: u16)

  function HeaderOf(file: seq<u8>): Header
    requires MINIMUM_HEADER <= |file|
  {
    Header(WordAt(file, 2), WordAt(file, 4), WordAt(file, 6), WordAt(file, 8),
           WordAt(file, 14), WordAt(file, 16), WordAt(file, 20), WordAt(file, 22), WordAt(file, 24))
  }

  predicate SizeFieldsValid(h: Header) {
    h.lastPage <= 512 && h.pages != 0 && !(h.pages == 1 && h.lastPage == 0)
  }

  function DeclaredSize(h: Header): nat
    requires SizeFieldsValid(h)
  {
    (h.pages - 1) * 512 + (if h.lastPage == 0 then 512 else h.lastPage)
  }

  function HeaderSize(h: Header): nat {
    h.paragraphs * 16
  }

  predicate SizesFit(h: Header, size: nat)
    requires SizeFieldsValid(h)
  {
    MINIMUM_HEADER <= HeaderSize(h) <= DeclaredSize(h) <= size
  }

  predicate TableFits(h: Header) {
    h.table + 4 * h.count <= HeaderSize(h)
  }

  function TableEntry(file: seq<u8>, table: nat, i: nat): Address
    requires table + 4 * i + 4 <= |file|
  {
    Address(WordAt(file, table + 4 * i + 2), WordAt(file, table + 4 * i))
  }

  function Entries(file: seq<u8>, table: nat, n: nat): (r: seq<Address>)
    requires table + 4 * n <= |file|
    ensures |r| == n && forall i :: 0 <= i < n ==> r[i] == TableEntry(file, table, i)
  {
    if n == 0 then [] else Entries(file, table, n - 1) + [TableEntry(file, table, n - 1)]
  }

  predicate Readable(file: seq<u8>) {
    && MINIMUM_HEADER <= |file|
    && var h := HeaderOf(file);
      SizeFieldsValid(h) && SizesFit(h, |file|) && TableFits(h)
  }

  function ModuleOf(file: seq<u8>): Image
    requires Readable(file)
  {
    var h := HeaderOf(file);
    Image(Mz, file[HeaderSize(h)..DeclaredSize(h)], Address(h.cs, h.ip), Address(h.ss, h.sp), h.paragraphs,
          Entries(file, h.table, h.count))
  }

  /** The first test of parse_mz that a file fails. */
  function Fault(file: seq<u8>): (r: Option<LoadError>)
    ensures r == None ==> Readable(file)
  {
    if |file| < MINIMUM_HEADER then Some(HeaderTruncated)
    else
      var h := HeaderOf(file);
      if !SizeFieldsValid(h) then Some(SizeFieldsInvalid)
      else if !SizesFit(h, |file|) then Some(DeclaredSizeInvalid)
      else if !TableFits(h) then Some(TableOutside)
      else if !AllInside(ModuleOf(file).relocations, |ModuleOf(file).bytes|) then Some(RelocationOutside)
      else if h.ip >= |ModuleOf(file).bytes| then Some(EntryOutside)
      else None
  }

  function Parsed(file: seq<u8>): Result<Image, LoadError> {
    match Fault(file)
    case Some(error) => Err(error)
    case None => Ok(ModuleOf(file))
  }

  function Loaded(file: seq<u8>): Result<Image, LoadError> {
    if file == [] then Err(InputEmpty)
    else if |file| >= 2 && file[0] == 0x4D && file[1] == 0x5A then Parsed(file)
    else if |file| > 0xFFFF then Err(ComTooLarge)
    else Ok(Image(Com, file, Address(0, 0x100), Address(0, 0xFFFE), 0, []))
  }

  lemma TableEntryIs(file: seq<u8>, table: nat, i: nat)
    requires table + 4 * i + 4 <= |file|
    ensures TableEntry(file, table, i) == Address(WordAt(file, table + i * 4 + 2), WordAt(file, table + i * 4))
  {
  }

  lemma InsideIff(a: Address, size: nat)
    ensures Inside(a, size) <==> a.segment * 16 + a.offset + 2 <= size
  {
  }

  // ---------- the loader ----------

  method ParseMz(file: seq<u8>) returns (r: Result<Image, LoadError>)
    ensures r == Parsed(file)
  {
    hide Word, WordAt, HeaderOf, Linear, Inside, TableEntry;
    if |file| < MINIMUM_HEADER {
      return Err(HeaderTruncated);
    }
    var h := HeaderOf(file);
    if h.lastPage > 512 || h.pages == 0 || (h.pages == 1 && h.lastPage == 0) {
      return Err(SizeFieldsInvalid);
    }
    var declaredSize := (h.pages - 1) * 512 + (if h.lastPage == 0 then 512 else h.lastPage);
    var headerSize := h.paragraphs * 16;
    if declaredSize > |file| || headerSize < MINIMUM_HEADER || headerSize > declaredSize {
      return Err(DeclaredSizeInvalid);
    }
    if h.table > headerSize || h.count > (headerSize - h.table) / 4 {
      return Err(TableOutside);
    }
    var bytes := file[headerSize..declaredSize];
    var relocations: seq<Address> := [];
    for index := 0 to h.count
      invariant relocations == Entries(file, h.table, index)
      invariant AllInside(relocations, |bytes|)
    {
      var entry := h.table + index * 4;
      var address := Address(WordAt(file, entry + 2), WordAt(file, entry));
      var offset := address.segment * 16 + address.offset;
      TableEntryIs(file, h.table, index);
      InsideIff(address, |bytes|);
      if offset > |bytes| || |bytes| - offset < 2 {
        assert Entries(file, h.table, h.count)[index] == address;
        return Err(RelocationOutside);
      }
      relocations := relocations + [address];
    }
    if h.ip >= |bytes| {
      return Err(EntryOutside);
    }
    return Ok(Image(Mz, bytes, Address(h.cs, h.ip), Address(h.ss, h.sp), h.paragraphs, relocations));
  }

  method LoadBytes(file: seq<u8>) returns (r: Result<Image, LoadError>)
    ensures r == Loaded(file)
    ensures file == [] ==> r == Err(InputEmpty)
    ensures |file| > 0xFFFF && !(file[0] == 0x4D && file[1] == 0x5A) ==> r == Err(ComTooLarge)
    ensures 1 <= |file| <= 0xFFFF && !(|file| >= 2 && file[0] == 0x4D && file[1] == 0x5A) ==>
        r == Ok(Image(Com, file, Address(0, 0x100), Address(0, 0xFFFE), 0, []))
  {
    hide Parsed;
    if file == [] {
      return Err(InputEmpty);
    }
    if |file| >= 2 && file[0] == 0x4D && file[1] == 0x5A {
      r := ParseMz(file);
      return;
    }
    if |file| > 0xFFFF {
      return Err(ComTooLarge);
    }
    return Ok(Image(Com, file, Address(0, 0x100), Address(0, 0xFFFE), 0, []));
  }

  // ---------- what an accepted file is ----------

  /** The word at a place, written out. */
  function W(file: seq<u8>, k: nat): nat
    requires k + 2 <= |file|
  {
    var low: int, high: int := file[k], file[k + 1];
    low + 0x100 * high
  }

  /** An MZ file and the image it describes, field by field. */
  ghost predicate Describes(file: seq<u8>, image: Image) {
    && 28 <= |file|
    && var header, last, pages, table := 16 * W(file, 8), W(file, 2), W(file, 4), W(file, 24);
       var declared := 512 * (pages - 1) + (if last == 0 then 512 else last);
       && pages >= 1 && last <= 512 && !(pages == 1 && last == 0)
       && 28 <= header <= declared <= |file| && table + 4 * W(file, 6) <= header
       && image.format == Mz && image.headerParagraphs == W(file, 8) && image.bytes == file[header..declared]
       && image.entry.segment == W(file, 22) && image.entry.offset == W(file, 20)
       && image.stack.segment == W(file, 14) && image.stack.offset == W(file, 16)
       && |image.relocations| == W(file, 6)
       && (forall i :: 0 <= i < |image.relocations| ==>
             && image.relocations[i].offset == W(file, table + 4 * i) && image.relocations[i].segment == W(file, table + 4 * i + 2)
             && 16 * image.relocations[i].segment + image.relocations[i].offset + 2 <= |image.bytes|)
       && W(file, 20) < |image.bytes|
  }

  lemma WIsWordAt(file: seq<u8>, k: nat)
    requires k + 2 <= |file|
    ensures W(file, k) == WordAt(file, k)
  {
  }

  /** An MZ file is accepted exactly when it describes an image, and as that image. */
  lemma AcceptedIff(file: seq<u8>, image: Image)
    ensures Parsed(file) == Ok(image) <==> Describes(file, image)
  {
    hide W, WordAt;
    if |file| >= 28 {
      forall k: nat | k + 2 <= |file|
        ensures W(file, k) == WordAt(file, k)
      {
        WIsWordAt(file, k);
      }
      if Describes(file, image) {
        DescribedIsModule(file, image);
      }
      if Parsed(file) == Ok(image) {
        ModuleIsDescribed(file);
      }
    }
  }

  lemma DescribedIsModule(file: seq<u8>, image: Image)
    requires Describes(file, image) && forall k: nat :: k + 2 <= |file| ==> W(file, k) == WordAt(file, k)
    ensures Fault(file) == None && image == ModuleOf(file)
  {
    hide W, WordAt;
    var h := HeaderOf(file);
    assert image.relocations == Entries(file, h.table, h.count);
  }

  lemma ModuleIsDescribed(file: seq<u8>)
    requires Fault(file) == None && forall k: nat :: k + 2 <= |file| ==> W(file, k) == WordAt(file, k)
    ensures Describes(file, ModuleOf(file))
  {
    hide W, WordAt;
    var h, image := HeaderOf(file), ModuleOf(file);
    forall i | 0 <= i < |image.relocations|
      ensures image.relocations[i] == TableEntry(file, h.table, i) && Inside(image.relocations[i], |image.bytes|)
    {
    }
  }

  // ---------- why a file is rejected ----------

  ghost predicate SizesWrong(file: seq<u8>)
    requires 28 <= |file|
  {
    W(file, 2) > 512 || W(file, 4) == 0 || (W(file, 4) == 1 && W(file, 2) == 0)
  }

  /** Where the module ends: whole pages but for the last, where 0 means a whole page too. */
  ghost function ModuleEnd(file: seq<u8>): int
    requires 28 <= |file|
  {
    512 * W(file, 4) - (if W(file, 2) == 0 then 0 else 512 - W(file, 2))
  }

  ghost predicate HeaderWrong(file: seq<u8>)
    requires 28 <= |file|
  {
    var header := 16 * W(file, 8);
    ModuleEnd(file) > |file| || header < 28 || header > ModuleEnd(file)
  }

  ghost predicate TableWrong(file: seq<u8>)
    requires 28 <= |file|
  {
    W(file, 24) + 4 * W(file, 6) > 16 * W(file, 8)
  }

  /** The word an entry of the table lists does not lie in the module. */
  ghost predicate EntryWrong(file: seq<u8>, i: nat)
    requires 28 <= |file|
  {
    && i < W(file, 6) && W(file, 24) + 4 * i + 4 <= |file|
    && var at := W(file, 24) + 4 * i;
      16 * W(file, at + 2) + W(file, at) + 2 > ModuleEnd(file) - 16 * W(file, 8)
  }

  /** The errors of an MZ file, each reported only when none of those before it applies. */
  lemma FaultsAre(file: seq<u8>)
    ensures Fault(file) == Some(HeaderTruncated) <==> |file| < 28
    ensures |file| >= 28 ==> (Fault(file) == Some(SizeFieldsInvalid) <==> SizesWrong(file))
    ensures |file| >= 28 && !SizesWrong(file) ==> (Fault(file) == Some(DeclaredSizeInvalid) <==> HeaderWrong(file))
    ensures |file| >= 28 && !SizesWrong(file) && !HeaderWrong(file) ==>
        (Fault(file) == Some(TableOutside) <==> TableWrong(file))
    ensures |file| >= 28 && !SizesWrong(file) && !HeaderWrong(file) && !TableWrong(file) ==>
        && (Fault(file) == Some(RelocationOutside) <==> exists i :: EntryWrong(file, i))
        && (Fault(file) == Some(EntryOutside) <==>
              (forall i :: !EntryWrong(file, i)) && W(file, 20) >= ModuleEnd(file) - 16 * W(file, 8))
  {
    hide W, WordAt;
    if |file| >= 28 {
      forall k: nat | k + 2 <= |file|
        ensures W(file, k) == WordAt(file, k)
      {
        WIsWordAt(file, k);
      }
      if !SizesWrong(file) && !HeaderWrong(file) && !TableWrong(file) {
        EntriesWrong(file);
      }
    }
  }

  lemma EntriesWrong(file: seq<u8>)
    requires Readable(file) && forall k: nat :: k + 2 <= |file| ==> W(file, k) == WordAt(file, k)
    ensures AllInside(ModuleOf(file).relocations, |ModuleOf(file).bytes|) <==> forall i :: !EntryWrong(file, i)
    ensures |ModuleOf(file).bytes| == ModuleEnd(file) - 16 * W(file, 8)
  {
    hide W, WordAt;
    var m := ModuleOf(file);
    forall i | 0 <= i < |m.relocations|
      ensures Inside(m.relocations[i], |m.bytes|) <==> !EntryWrong(file, i)
    {
      assert m.relocations[i] == TableEntry(file, HeaderOf(file).table, i);
    }
  }

  // ---------- relocation ----------

  function AddAt(bytes: seq<u8>, at: nat, amount: u16): (r: seq<u8>)
    requires at + 2 <= |bytes|
    ensures |r| == |bytes|
  {
    WithWord(bytes, at, Wrap16(WordAt(bytes, at) + amount))
  }

  lemma InsideTail(entries: seq<Address>, size: nat)
    requires AllInside(entries, size) && entries != []
    ensures Inside(entries[0], size) && AllInside(entries[1..], size)
  {
  }

  /** Every listed word is raised once for each of its entries, in their order. */
  function Patched(bytes: seq<u8>, entries: seq<Address>, amount: u16): (r: seq<u8>)
    requires AllInside(entries, |bytes|)
    ensures |r| == |bytes|
    decreases |entries|
  {
    if entries == [] then bytes
    else
      InsideTail(entries, |bytes|);
      Patched(AddAt(bytes, Linear(entries[0]), amount), entries[1..], amount)
  }

  lemma InsidePrefix(entries: seq<Address>, i: nat, size: nat)
    requires i <= |entries|
    ensures i == 0 ==> AllInside(entries[..i], size)
    ensures i < |entries| && !Inside(entries[i], size) ==> !AllInside(entries, size)
    ensures i < |entries| && AllInside(entries[..i], size) && Inside(entries[i], size) ==> AllInside(entries[..i + 1], size)
    ensures AllInside(entries, size) ==> AllInside(entries[i..], size)
  {
  }

  lemma AddAtIs(bytes: seq<u8>, a: Address, amount: u16)
    requires Inside(a, |bytes|)
    ensures var at := a.segment * 16 + a.offset;
      AddAt(bytes, Linear(a), amount) == WithWord(bytes, at, Wrap16(Word(bytes[at], bytes[at + 1]) + amount))
  {
  }

  lemma PatchedNext(bytes: seq<u8>, entries: seq<Address>, i: nat, amount: u16)
    requires i < |entries| && Inside(entries[i], |bytes|)
    ensures AllInside(entries[i..], |bytes|) ==>
        AllInside(entries[i + 1..], |bytes|) &&
        Patched(bytes, entries[i..], amount) == Patched(AddAt(bytes, Linear(entries[i]), amount), entries[i + 1..], amount)
  {
    assert entries[i..][1..] == entries[i + 1..];
  }

  lemma PatchedNone(bytes: seq<u8>, amount: u16)
    ensures Patched(bytes, [], amount) == bytes
  {
  }

  method WriteU16(bytes: array<u8>, at: nat, value: u16)
    requires at + 2 <= bytes.Length
    modifies bytes
    ensures bytes[..] == WithWord(old(bytes[..]), at, value)
  {
    bytes[at] := value % 0x100;
    bytes[at + 1] := value / 0x100;
  }

  predicate Relocatable(image: Image) {
    image.format == Mz && AllInside(image.relocations, |image.bytes|)
  }

  /** Patches a copy of the module; the image itself is left alone. */
  method ApplyRelocations(image: Image, segment: u16) returns (r: Result<Image, LoadError>)
    ensures image.format == Com ==> r == Err(NotRelocatable)
    ensures image.format == Mz && !Relocatable(image) ==> r == Err(RelocationOutside)
    ensures Relocatable(image) ==> r == Ok(image.(bytes := Patched(image.bytes, image.relocations, segment)))
  {
    hide WordAt, Word, WithWord, AddAt, Patched, AllInside, Inside, Linear;
    if image.format != Mz {
      return Err(NotRelocatable);
    }
    var n := |image.bytes|;
    var bytes := new u8[n](i requires 0 <= i < n => image.bytes[i]);
    assert bytes[..] == image.bytes;
    var relocations := image.relocations;
    assert relocations[0..] == relocations;
    InsidePrefix(relocations, 0, n);
    for i := 0 to |relocations|
      invariant AllInside(relocations[..i], n)
      invariant AllInside(relocations, n) ==>
          AllInside(relocations[i..], n) && Patched(bytes[..], relocations[i..], segment) == Patched(image.bytes, relocations, segment)
    {
      var address := relocations[i];
      var offset := address.segment * 16 + address.offset;
      InsidePrefix(relocations, i, n);
      InsideIff(address, n);
      if offset > n || n - offset < 2 {
        return Err(RelocationOutside);
      }
      ghost var was := bytes[..];
      var value := Wrap16(Word(bytes[offset], bytes[offset + 1]) + segment);
      WriteU16(bytes, offset, value);
      AddAtIs(was, address, segment);
      PatchedNext(was, relocations, i, segment);
    }
    assert relocations[..|relocations|] == relocations;
    assert relocations[|relocations|..] == [];
    PatchedNone(bytes[..], segment);
    return Ok(image.(bytes := bytes[..]));
  }

  /** A parsed MZ image can be relocated to any segment. */
  lemma ParsedIsRelocatable(file: seq<u8>)
    requires Loaded(file).Ok?
    ensures Loaded(file).value.format == Mz ==> Relocatable(Loaded(file).value)
  {
  }

  // ---------- where the program starts ----------

  /** The entry point of a header lies before the declared end of the file. */
  predicate EntryInside(h: Header) {
    SizeFieldsValid(h) && HeaderSize(h) + 16 * h.cs + h.ip < DeclaredSize(h)
  }

  /**
   * The loader checks the offset of the entry point and not its segment: the entry of an accepted MZ file
   * lies in the module exactly when its header words say so, and always when the segment is 0.
   */
  lemma EntryInsideIff(file: seq<u8>)
    requires Loaded(file).Ok?
    ensures Loaded(file).value.format == Mz ==>
        && Readable(file) && Loaded(file).value == ModuleOf(file)
        && (EntryOffset(Loaded(file).value) < |Loaded(file).value.bytes| <==> EntryInside(HeaderOf(file)))
        && (HeaderOf(file).cs == 0 ==> EntryInside(HeaderOf(file)))
    ensures Loaded(file).value.format == Com ==> EntryOffset(Loaded(file).value) < |Loaded(file).value.bytes|
  {
    hide WordAt, Entries, AllInside;
  }
}
