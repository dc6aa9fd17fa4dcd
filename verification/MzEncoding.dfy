/** Writing an image as an MZ file, and reading it back (src/loader/binary_loader.cpp). */
module MzEncoding {
  import opened Outcome
  import opened Words
  import opened BinaryLoader

  function WordBytes(words: seq<u16>): (r: seq<u8>)
    ensures |r| == 2 * |words|
  {
    if words == [] then [] else [words[0] % 0x100, words[0] / 0x100] + WordBytes(words[1..])
  }

  function TableWords(entries: seq<Address>): (r: seq<u16>)
    ensures |r| == 2 * |entries|
  {
    if entries == [] then [] else [entries[0].offset, entries[0].segment] + TableWords(entries[1..])
  }

  function FileSize(image: Image): nat {
    image.headerParagraphs * 16 + |image.bytes|
  }

  /** The image has a header large enough for its table, and its size can be written in pages. */
  predicate Encodable(image: Image) {
    && Relocatable(image)
    && |image.relocations| <= 0xFFFF
    && image.entry.offset < |image.bytes|
    && MINIMUM_HEADER + 4 * |image.relocations| <= image.headerParagraphs * 16
    && FileSize(image) <= 0xFFFF * 512
  }

  /** The bytes used in the last page; a full page is written as 0 or as 512. */
  predicate LastPageOf(image: Image, last: u16) {
    last == FileSize(image) % 512 || (FileSize(image) % 512 == 0 && last == 512)
  }

  /** The four header words the loader never looks at, and the gap behind the table. */
  datatype Unread = Unread(minimum: u16, maximum: u16, checksum: u16, overlay: u16, gap: seq<u8>)

  predicate GapFits(image: Image, unread: Unread) {
    MINIMUM_HEADER + 4 * |image.relocations| + |unread.gap| == image.headerParagraphs * 16
  }

  function HeaderWords(image: Image, last: u16, unread: Unread): (r: seq<u16>)
    requires Encodable(image)
    ensures |r| == 14
  {
    [0x5A4D, last, (FileSize(image) + 511) / 512, |image.relocations|, image.headerParagraphs,
     unread.minimum, unread.maximum, image.stack.segment, image.stack.offset, unread.checksum,
     image.entry.offset, image.entry.segment, MINIMUM_HEADER, unread.overlay]
  }

  function Encode(image: Image, last: u16, unread: Unread): seq<u8>
    requires Encodable(image)
  {
    WordBytes(HeaderWords(image, last, unread)) + WordBytes(TableWords(image.relocations)) + unread.gap + image.bytes
  }

  // ---------- reading back ----------

  lemma {:induction false} WordBytesAt(words: seq<u16>, i: nat)
    requires i < |words|
    ensures WordAt(WordBytes(words), 2 * i) == words[i]
  {
    var b := WordBytes(words);
    if i == 0 {
      assert b[0] == words[0] % 0x100 && b[1] == words[0] / 0x100;
    } else {
      WordBytesAt(words[1..], i - 1);
      assert b[2 * i] == WordBytes(words[1..])[2 * (i - 1)] && b[2 * i + 1] == WordBytes(words[1..])[2 * (i - 1) + 1];
    }
  }

  lemma {:induction false} TableWordsAt(entries: seq<Address>, i: nat)
    requires i < |entries|
    ensures TableWords(entries)[2 * i] == entries[i].offset && TableWords(entries)[2 * i + 1] == entries[i].segment
  {
    if i != 0 {
      TableWordsAt(entries[1..], i - 1);
    }
  }

  lemma WordBehind(before: seq<u8>, bytes: seq<u8>, after: seq<u8>, at: nat)
    requires at + 2 <= |bytes|
    ensures WordAt(before + bytes + after, |before| + at) == WordAt(bytes, at)
  {
  }

  lemma HeaderReads(image: Image, last: u16, unread: Unread, file: seq<u8>)
    requires Encodable(image) && Encode(image, last, unread) <= file
    ensures MINIMUM_HEADER <= |file| && file[0] == 0x4D && file[1] == 0x5A
    ensures HeaderOf(file) == Header(last, (FileSize(image) + 511) / 512, |image.relocations|, image.headerParagraphs,
                                     image.stack.segment, image.stack.offset, image.entry.offset, image.entry.segment,
                                     MINIMUM_HEADER)
  {
    hide Word, WordBytes, TableWords;
    var words := HeaderWords(image, last, unread);
    var b := WordBytes(words);
    assert |b| == 28 && b == file[..28];
    forall i: nat | i < 14
      ensures WordAt(file, 2 * i) == words[i]
    {
      WordBytesAt(words, i);
    }
    assert WordAt(file, 2 * 0) == 0x5A4D && WordAt(file, 2 * 1) == last && WordAt(file, 2 * 2) == words[2];
    assert WordAt(file, 2 * 3) == words[3] && WordAt(file, 2 * 4) == words[4];
    assert WordAt(file, 2 * 7) == words[7] && WordAt(file, 2 * 8) == words[8];
    assert WordAt(file, 2 * 10) == words[10] && WordAt(file, 2 * 11) == words[11] && WordAt(file, 2 * 12) == words[12];
    MagicBytes(file[0], file[1]);
  }

  lemma MagicBytes(low: u8, high: u8)
    ensures Word(low, high) == 0x5A4D <==> low == 0x4D && high == 0x5A
  {
  }

  lemma TableReads(image: Image, last: u16, unread: Unread, tail: seq<u8>, file: seq<u8>)
    requires Encodable(image) && file == Encode(image, last, unread) + tail
    ensures Entries(file, MINIMUM_HEADER, |image.relocations|) == image.relocations
  {
    hide Word, WordBytes, TableWords, WordAt;
    var header, table := WordBytes(HeaderWords(image, last, unread)), TableWords(image.relocations);
    var n := |image.relocations|;
    var rest := unread.gap + image.bytes + tail;
    assert file == header + WordBytes(table) + rest;
    forall i: nat | i < n
      ensures Entries(file, MINIMUM_HEADER, n)[i] == image.relocations[i]
    {
      TableWordsAt(image.relocations, i);
      WordBytesAt(table, 2 * i);
      WordBytesAt(table, 2 * i + 1);
      WordBehind(header, WordBytes(table), rest, 4 * i);
      WordBehind(header, WordBytes(table), rest, 4 * i + 2);
    }
  }

  lemma PagesGiveSize(size: nat, last: nat)
    requires 0 < size && (last == size % 512 || (size % 512 == 0 && last == 512))
    ensures var pages := (size + 511) / 512;
      pages > 0 && (pages - 1) * 512 + (if last == 0 then 512 else last) == size
  {
  }

  /**
   * An encoded image is read back, whatever the unread fields hold and whatever follows the declared size.
   * The one exception is a file of exactly one page whose size is written as a full page of 0 bytes.
   */
  lemma RoundTrip(image: Image, last: u16, unread: Unread, tail: seq<u8>)
    requires Encodable(image) && LastPageOf(image, last) && GapFits(image, unread)
    ensures Loaded(Encode(image, last, unread) + tail)
         == if FileSize(image) == 512 && last == 0 then Err(SizeFieldsInvalid) else Ok(image)
  {
    hide Word, WordAt, WordBytes, TableWords, HeaderOf, TableEntry, HeaderWords, Inside, Linear;
    var file := Encode(image, last, unread) + tail;
    var size := FileSize(image);
    HeaderReads(image, last, unread, file);
    PagesGiveSize(size, last);
    var h := HeaderOf(file);
    if !(size == 512 && last == 0) {
      assert SizeFieldsValid(h) && DeclaredSize(h) == size && HeaderSize(h) == size - |image.bytes|;
      assert |file| == size + |tail|;
      assert file[HeaderSize(h)..DeclaredSize(h)] == image.bytes;
      TableReads(image, last, unread, tail, file);
      assert ModuleOf(file) == image;
    }
  }

  /** Only the offset of the entry point is checked: this image is accepted though it starts outside its one byte. */
  lemma EntrySegmentUnchecked() returns (file: seq<u8>)
    ensures Loaded(file).Ok?
    ensures var image := Loaded(file).value;
      image.format == Mz && EntryOffset(image) >= |image.bytes|
  {
    var image := OutsideEntry();
    var unread := Unread(0, 0, 0, 0, Zeros(4));
    OutsideEntryEncodable(unread);
    hide *;
    RoundTrip(image, 33, unread, []);
    file := Encode(image, 33, unread) + [];
  }

  function OutsideEntry(): Image {
    Image(Mz, [0x90], Address(1, 0), Address(0, 0), 2, [])
  }

  lemma OutsideEntryEncodable(unread: Unread)
    requires |unread.gap| == 4
    ensures var image := OutsideEntry();
      && Encodable(image) && LastPageOf(image, 33) && GapFits(image, unread) && FileSize(image) == 33
      && image.format == Mz && EntryOffset(image) >= |image.bytes|
  {
  }
}
