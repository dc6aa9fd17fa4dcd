/**
 * The emitters (src/backend/elf_writer.cpp): they fill a zeroed byte array in place. Each is proved to
 * leave exactly the image of an action list in it.
 */
module ElfWriter {
  import opened Words
  import opened X86
  import opened ElfImage

  // ---------- writing into the array ----------

  /** Little-endian writes of 2, 4 and 8 bytes. */
  method WriteField(image: array<u8>, offset: nat, value: nat, width: nat)
    requires offset + width <= image.Length
    modifies image
    ensures image[..] == Patched(old(image[..]), offset, Le(value, width))
  {
    ghost var bytes := Le(value, width);
    var rest := value;
    for index := 0 to width
      invariant bytes[index..] == Le(rest, width - index)
      invariant image[..] == Patched(old(image[..]), offset, bytes[..index])
    {
      assert Le(rest, width - index)[1..] == Le(rest / 0x100, width - index - 1);
      assert bytes[index] == bytes[index..][0] == rest % 0x100;
      assert bytes[index + 1..] == bytes[index..][1..];
      image[offset + index] := rest % 0x100;
      rest := rest / 0x100;
      PatchedNext(old(image[..]), image[..], offset, bytes, index);
    }
    assert bytes[..width] == bytes;
  }

  lemma PatchedNext(s: seq<u8>, r: seq<u8>, offset: nat, bytes: seq<u8>, index: nat)
    requires offset + |bytes| <= |s| && index < |bytes|
    requires r == Patched(s, offset, bytes[..index])[offset + index := bytes[index]]
    ensures r == Patched(s, offset, bytes[..index + 1])
  {
  }

  /** std::copy of a string into the array. */
  method Copy(image: array<u8>, offset: nat, bytes: seq<u8>)
    requires offset + |bytes| <= image.Length
    modifies image
    ensures image[..] == Patched(old(image[..]), offset, bytes)
  {
    ghost var before := image[..];
    assert before == Patched(before, offset, bytes[..0]);
    for index := 0 to |bytes|
      invariant image[..] == Patched(before, offset, bytes[..index])
    {
      hide Patched;
      ghost var s := image[..];
      image[offset + index] := bytes[index];
      assert image[..] == s[offset + index := bytes[index]];
      PatchedNext(before, image[..], offset, bytes, index);
    }
    assert bytes[..|bytes|] == bytes;
  }

  // ---------- the header ----------

  /** The first bound bytes are those of the header; the rest is still zero. */
  ghost predicate HeaderTo(s: seq<u8>, size: nat, bound: nat) {
    bound <= HEADER_SIZE <= |s| && forall k :: 0 <= k < |s| ==> s[k] == if k < bound then HeaderByte(k, size) else 0
  }

  lemma HeaderStep(s: seq<u8>, size: nat, bound: nat, at: nat, value: nat, width: nat)
    requires HeaderTo(s, size, bound) && bound <= at && at + width <= HEADER_SIZE
    requires forall k :: bound <= k < at ==> HeaderByte(k, size) == 0
    requires forall k :: at <= k < at + width ==> HeaderByte(k, size) == Le(value, width)[k - at]
    ensures HeaderTo(Patched(s, at, Le(value, width)), size, at + width)
  {
    hide Le, HeaderByte;
    var r := Patched(s, at, Le(value, width));
    forall k | 0 <= k < |r|
      ensures r[k] == if k < at + width then HeaderByte(k, size) else 0
    {
      if at <= k < at + width {
        assert r[k] == Le(value, width)[k - at];
      } else {
        assert r[k] == s[k];
      }
    }
  }

  /** One header field, in the order of the source. */
  method HeaderField(image: array<u8>, ghost size: nat, ghost bound: nat, at: nat, value: nat, width: nat)
    requires HEADER_SIZE <= image.Length && HeaderTo(image[..], size, bound) && bound <= at && at + width <= HEADER_SIZE
    requires forall k :: bound <= k < at ==> HeaderByte(k, size) == 0
    requires forall k :: at <= k < at + width ==> HeaderByte(k, size) == Le(value, width)[k - at]
    modifies image
    ensures HeaderTo(image[..], size, at + width)
  {
    HeaderStep(image[..], size, bound, at, value, width);
    WriteField(image, at, value, width);
  }

  method EmitElfHeader(image: array<u8>)
    requires HEADER_SIZE <= image.Length && image[..] == Zeros(image.Length)
    modifies image
    ensures image[..] == Header(image.Length) + Zeros(image.Length - HEADER_SIZE)
  {
    image[0], image[1], image[2], image[3] := 0x7f, 0x45, 0x4c, 0x46;
    image[4], image[5], image[6] := 2, 1, 1;
    EmitFileHeader(image);
    EmitProgramHeader(image);
    assert image[..] == Header(image.Length) + Zeros(image.Length - HEADER_SIZE);
  }

  /** The fields of the file header after its identification. */
  method EmitFileHeader(image: array<u8>)
    requires HEADER_SIZE <= image.Length && HeaderTo(image[..], image.Length, 7)
    modifies image
    ensures HeaderTo(image[..], image.Length, 58)
  {
    hide Le, HeaderTo;
    var size := image.Length;
    HeaderField(image, size, 7, 16, 2, 2);
    HeaderField(image, size, 18, 18, 62, 2);
    HeaderField(image, size, 20, 20, 1, 4);
    HeaderField(image, size, 24, 24, BASE + HEADER_SIZE, 8);
    HeaderField(image, size, 32, 32, 64, 8);
    HeaderField(image, size, 40, 52, 64, 2);
    HeaderField(image, size, 54, 54, 56, 2);
    HeaderField(image, size, 56, 56, 1, 2);
  }

  /** The one program header: a readable, executable segment that is the whole file. */
  method EmitProgramHeader(image: array<u8>)
    requires HEADER_SIZE <= image.Length && HeaderTo(image[..], image.Length, 58)
    modifies image
    ensures HeaderTo(image[..], image.Length, HEADER_SIZE)
  {
    hide Le, HeaderTo;
    var size := image.Length;
    HeaderField(image, size, 58, 64, 1, 4);
    HeaderField(image, size, 68, 68, 5, 4);
    HeaderField(image, size, 72, 72, 0, 8);
    HeaderField(image, size, 80, 80, BASE, 8);
    HeaderField(image, size, 88, 88, BASE, 8);
    HeaderField(image, size, 96, 96, size, 8);
    HeaderField(image, size, 104, 104, size, 8);
    HeaderField(image, size, 112, 112, 0x1000, 8);
  }

  // ---------- code blocks ----------

  /** Byte k of a 32-bit value, as the source shifts it out. */
  function ByteOf(value: int, k: nat): u8
    requires k < 4
  {
    var x := Wrap32(value);
    (match k case 0 => x case 1 => x / 0x100 case 2 => x / 0x1_0000 case _ => x / 0x100_0000) % 0x100
  }

  lemma LeBytes(value: int)
    ensures Le(Wrap32(value), 4) == [ByteOf(value, 0), ByteOf(value, 1), ByteOf(value, 2), ByteOf(value, 3)]
  {
    var x := Wrap32(value);
    assert Le(x, 4) == [x % 0x100] + Le(x / 0x100, 3);
    assert Le(x / 0x100, 3) == [x / 0x100 % 0x100] + Le(x / 0x100 / 0x100, 2);
    assert Le(x / 0x100 / 0x100, 2) == [x / 0x100 / 0x100 % 0x100] + Le(x / 0x100 / 0x100 / 0x100, 1);
    assert Le(x / 0x100 / 0x100 / 0x100, 1) == [x / 0x100 / 0x100 / 0x100 % 0x100] + Le(x / 0x100 / 0x100 / 0x100 / 0x100, 0);
  }

  lemma MovBytes(r: Register, value: int)
    ensures Encode(MovImm(r, Wrap32(value))) == [MovOpcode(r), ByteOf(value, 0), ByteOf(value, 1), ByteOf(value, 2), ByteOf(value, 3)]
  {
    hide Le;
    LeBytes(value);
  }

  lemma LeaBytes(r: Register, d: int)
    ensures Encode(LeaRip(r, d)) == [0x48, 0x8d, if r == ESI then 0x35 else 0x3d, ByteOf(d, 0), ByteOf(d, 1), ByteOf(d, 2), ByteOf(d, 3)]
  {
    hide Le;
    LeBytes(d);
  }

  lemma SmallBytes(value: u8)
    ensures ByteOf(value, 0) == value && ByteOf(value, 1) == 0 && ByteOf(value, 2) == 0 && ByteOf(value, 3) == 0
  {
  }

  lemma AssembleTwo(i: Instr, j: Instr)
    ensures Assemble([i, j]) == Encode(i) + Encode(j)
  {
    hide Encode;
    assert [i, j][1..] == [j] && [j][1..] == [];
    assert Assemble([j]) == Encode(j) + Assemble([]);
  }

  lemma AssembleFour(i: Instr, j: Instr, k: Instr, l: Instr)
    ensures Assemble([i, j, k, l]) == Encode(i) + Encode(j) + Encode(k) + Encode(l)
  {
    hide Encode;
    assert [i, j, k, l][1..] == [j, k, l] && [j, k, l][1..] == [k, l];
    assert Assemble([j, k, l]) == Encode(j) + Assemble([k, l]);
    AssembleTwo(k, l);
  }

  /** The 24 bytes of a write or a read block, row by row. */
  function TransferCode(number: u8, fd: u32, displacement: int, count: nat): (code: seq<u8>)
    ensures |code| == 24
  {
    [0xb8, number, 0, 0, 0] +
    [0xbf, ByteOf(fd, 0), ByteOf(fd, 1), ByteOf(fd, 2), ByteOf(fd, 3)] +
    [0x48, 0x8d, 0x35, ByteOf(displacement, 0), ByteOf(displacement, 1), ByteOf(displacement, 2), ByteOf(displacement, 3)] +
    [0xba, ByteOf(count, 0), ByteOf(count, 1), ByteOf(count, 2), ByteOf(count, 3)] +
    [0x0f, 0x05]
  }

  lemma TransferBytes(a: Action, c: nat, p: nat, number: u8, fd: u32, count: nat)
    requires (a.Write? && number == 1 && fd == a.fd && count == |a.payload|) || (a.Read? && number == 0 && fd == a.fd && count == a.maxBytes)
    ensures Block(a, c, p) == TransferCode(number, fd, p - (c + 17), count)
  {
    hide Encode, ByteOf, Assemble;
    AssembleFour(MovImm(EAX, number), MovImm(EDI, fd), LeaRip(ESI, p - (c + 17)), MovImm(EDX, Wrap32(count)));
    SysCallBytes();
    SmallBytes(number);
    MovBytes(EAX, number);
    MovBytes(EDI, fd);
    LeaBytes(ESI, p - (c + 17));
    MovBytes(EDX, count);
    assert Assemble([]) == [];
  }

  lemma SysCallBytes()
    ensures Encode(SysCall) == [0x0f, 0x05] && Encode(MovRdiRax) == [0x48, 0x89, 0xc7]
    ensures Assemble([]) == [] && Assemble([MovRdiRax]) == [0x48, 0x89, 0xc7]
  {
    assert Assemble([MovRdiRax]) == Encode(MovRdiRax) + Assemble([]);
  }

  /** The 24 bytes of an open block. */
  function OpenCode(displacement: int, flags: u32, mode: u32): (code: seq<u8>)
    ensures |code| == 24
  {
    [0xb8, 2, 0, 0, 0] +
    [0x48, 0x8d, 0x3d, ByteOf(displacement, 0), ByteOf(displacement, 1), ByteOf(displacement, 2), ByteOf(displacement, 3)] +
    [0xbe, ByteOf(flags, 0), ByteOf(flags, 1), ByteOf(flags, 2), ByteOf(flags, 3)] +
    [0xba, ByteOf(mode, 0), ByteOf(mode, 1), ByteOf(mode, 2), ByteOf(mode, 3)] +
    [0x0f, 0x05]
  }

  const FD_MOVE: seq<u8> := [0x48, 0x89, 0xc7]

  lemma OpenBytes(a: Action, c: nat, p: nat)
    requires a.Open?
    ensures Block(a, c, p) == OpenCode(p - (c + 12), a.flags, a.mode) + FD_MOVE
  {
    hide Encode, ByteOf, Assemble;
    AssembleFour(MovImm(EAX, 2), LeaRip(EDI, p - (c + 12)), MovImm(ESI, a.flags), MovImm(EDX, a.mode));
    SysCallBytes();
    SmallBytes(2);
    MovBytes(EAX, 2);
    LeaBytes(EDI, p - (c + 12));
    MovBytes(ESI, a.flags);
    MovBytes(EDX, a.mode);
  }

  function CloseCode(fd: u32): (code: seq<u8>)
    ensures |code| == 12
  {
    [0xb8, 3, 0, 0, 0] + [0xbf, ByteOf(fd, 0), ByteOf(fd, 1), ByteOf(fd, 2), ByteOf(fd, 3)] + [0x0f, 0x05]
  }

  lemma CloseBytes(fd: u32, c: nat, p: nat)
    ensures Block(Close(fd), c, p) == CloseCode(fd)
  {
    hide Encode, ByteOf, Assemble;
    AssembleTwo(MovImm(EAX, 3), MovImm(EDI, fd));
    SysCallBytes();
    SmallBytes(3);
    MovBytes(EAX, 3);
    MovBytes(EDI, fd);
  }

  function ExitCode(code: u8): (bytes: seq<u8>)
    ensures |bytes| == 12
  {
    [0xb8, 0x3c, 0, 0, 0] + [0xbf, code, 0, 0, 0] + [0x0f, 0x05]
  }

  lemma ExitBytes(code: u8)
    ensures ExitBlock(code) == ExitCode(code)
  {
    hide Encode, ByteOf, Assemble;
    AssembleTwo(MovImm(EAX, 60), MovImm(EDI, code));
    SysCallBytes();
    SmallBytes(60);
    SmallBytes(code);
    MovBytes(EAX, 60);
    MovBytes(EDI, code);
  }

  method EmitWriteBlock(image: array<u8>, c: nat, p: nat, payload: seq<u8>, fd: u32)
    requires c + 24 <= p && p + |payload| <= image.Length
    modifies image
    ensures |Block(Write(payload, fd), c, p)| == 24
    ensures image[..] == Patched(Patched(old(image[..]), c, Block(Write(payload, fd), c, p)), p, payload)
  {
    hide Block, TransferCode;
    TransferBytes(Write(payload, fd), c, p, 1, fd, |payload|);
    Copy(image, c, TransferCode(1, fd, p - (c + 17), |payload|));
    Copy(image, p, payload);
  }

  method EmitReadBlock(image: array<u8>, c: nat, p: nat, fd: u32, maxBytes: u32)
    requires c + 24 <= image.Length
    modifies image
    ensures |Block(Read(fd, maxBytes), c, p)| == 24
    ensures image[..] == Patched(old(image[..]), c, Block(Read(fd, maxBytes), c, p))
  {
    hide Block, TransferCode;
    TransferBytes(Read(fd, maxBytes), c, p, 0, fd, maxBytes);
    Copy(image, c, TransferCode(0, fd, p - (c + 17), maxBytes));
  }

  method EmitOpenBlock(image: array<u8>, c: nat, p: nat, filename: seq<u8>, flags: u32, mode: u32)
    requires c + 24 <= p && p + |filename| + 1 <= image.Length
    modifies image
    ensures image[..] == Patched(Patched(old(image[..]), c, OpenCode(p - (c + 12), flags, mode)), p, filename + [0])
  {
    hide OpenCode;
    Copy(image, c, OpenCode(p - (c + 12), flags, mode));
    ghost var coded := image[..];
    Copy(image, p, filename);
    image[p + |filename|] := 0;
    PatchedSnoc(coded, p, filename, 0);
  }

  lemma PatchedSnoc(s: seq<u8>, p: nat, bytes: seq<u8>, b: u8)
    requires p + |bytes| + 1 <= |s|
    ensures Patched(s, p, bytes)[p + |bytes| := b] == Patched(s, p, bytes + [b])
  {
  }

  method EmitCloseBlock(image: array<u8>, c: nat, ghost p: nat, fd: u32)
    requires c + 12 <= image.Length
    modifies image
    ensures |Block(Close(fd), c, p)| == 12
    ensures image[..] == Patched(old(image[..]), c, Block(Close(fd), c, p))
  {
    hide Block, CloseCode;
    CloseBytes(fd, c, p);
    Copy(image, c, CloseCode(fd));
  }

  method EmitFdMove(image: array<u8>, c: nat)
    requires c + 3 <= image.Length
    modifies image
    ensures image[..] == Patched(old(image[..]), c, FD_MOVE)
  {
    Copy(image, c, FD_MOVE);
  }

  // ---------- the image while it is filled ----------

  lemma {:induction false} LengthsSnoc(done: seq<Action>, a: Action)
    ensures CodeLength(done + [a]) == CodeLength(done) + CodeSize(a)
    ensures PayloadLength(done + [a]) == PayloadLength(done) + PayloadSize(a)
    decreases |done|
  {
    if done == [] {
      assert [a][1..] == [];
    } else {
      assert (done + [a])[1..] == done[1..] + [a];
      LengthsSnoc(done[1..], a);
    }
  }

  lemma {:induction false} CodeSnoc(done: seq<Action>, a: Action, c: nat, p: nat)
    ensures Code(done + [a], c, p) == Code(done, c, p) + Block(a, c + CodeLength(done), p + PayloadLength(done))
    decreases |done|
  {
    hide Block;
    if done == [] {
      assert [a][1..] == [];
      assert Code([a], c, p) == Block(a, c, p) + Code([], c + CodeSize(a), p + PayloadSize(a));
    } else {
      var rest, c', p' := done[1..], c + CodeSize(done[0]), p + PayloadSize(done[0]);
      assert (done + [a])[1..] == rest + [a];
      CodeSnoc(rest, a, c', p');
      assert Code(done + [a], c, p) == Block(done[0], c, p) + Code(rest + [a], c', p');
      Associative(Block(done[0], c, p), Code(rest, c', p'), Block(a, c' + CodeLength(rest), p' + PayloadLength(rest)));
    }
  }

  lemma Associative(a: seq<u8>, b: seq<u8>, c: seq<u8>)
    ensures (a + b) + c == a + (b + c)
  {
  }

  lemma {:induction false} PayloadsSnoc(done: seq<Action>, a: Action)
    ensures Payloads(done + [a]) == Payloads(done) + Payload(a)
    decreases |done|
  {
    hide Payload;
    if done == [] {
      assert [a][1..] == [];
      assert Payloads([a]) == Payload(a) + Payloads([]);
    } else {
      assert (done + [a])[1..] == done[1..] + [a];
      PayloadsSnoc(done[1..], a);
    }
  }

  /** The image once some actions are emitted, with m code bytes and n payload bytes still zero. */
  ghost function Partial(size: nat, done: seq<Action>, start: nat, m: nat, n: nat): seq<u8> {
    Header(size) + Code(done, HEADER_SIZE, start) + Zeros(m) + Payloads(done) + Zeros(n)
  }

  lemma PatchBetween(before: seq<u8>, m: nat, after: seq<u8>, bytes: seq<u8>)
    requires |bytes| <= m
    ensures Patched(before + Zeros(m) + after, |before|, bytes) == before + bytes + Zeros(m - |bytes|) + after
  {
  }

  lemma PartialStep(size: nat, done: seq<Action>, a: Action, start: nat, m: nat, n: nat)
    requires CodeSize(a) <= m && PayloadSize(a) <= n && HEADER_SIZE + CodeLength(done) + m == start
    ensures var c, p := HEADER_SIZE + CodeLength(done), start + PayloadLength(done);
      && |Block(a, c, p)| == CodeSize(a)
      && |Partial(size, done, start, m, n)| == p + n
      && Patched(Patched(Partial(size, done, start, m, n), c, Block(a, c, p)), p, Payload(a))
        == Partial(size, done + [a], start, m - CodeSize(a), n - PayloadSize(a))
  {
    hide Header, Block, Code, Payload, Payloads, Patched, Zeros, CodeSize, PayloadSize, CodeLength, PayloadLength;
    var c, p := HEADER_SIZE + CodeLength(done), start + PayloadLength(done);
    var header, code, block, payloads, payload := Header(size), Code(done, HEADER_SIZE, start), Block(a, c, p), Payloads(done), Payload(a);
    BlockSize(a, c, p);
    CodeSizes(done, HEADER_SIZE, start);
    CodeSnoc(done, a, HEADER_SIZE, start);
    PayloadsSnoc(done, a);
    PayloadSizes(done, a);
    PatchTwice(header, code, m, payloads, n, block, payload);
  }

  lemma PayloadSizes(done: seq<Action>, a: Action)
    ensures |Payload(a)| == PayloadSize(a) && |Payloads(done)| == PayloadLength(done)
  {
  }

  lemma PatchTwice(header: seq<u8>, code: seq<u8>, m: nat, payloads: seq<u8>, n: nat, block: seq<u8>, payload: seq<u8>)
    requires |block| <= m && |payload| <= n
    ensures var s := header + code + Zeros(m) + payloads + Zeros(n);
      Patched(Patched(s, |header| + |code|, block), |header| + |code| + m + |payloads|, payload)
        == header + (code + block) + Zeros(m - |block|) + (payloads + payload) + Zeros(n - |payload|)
  {
    var s := header + code + Zeros(m) + payloads + Zeros(n);
    assert s == (header + code) + Zeros(m) + (payloads + Zeros(n));
    PatchBetween(header + code, m, payloads + Zeros(n), block);
    var t := header + code + block + Zeros(m - |block|) + payloads;
    assert Patched(s, |header| + |code|, block) == t + Zeros(n) + [];
    PatchBetween(t, n, [], payload);
    assert t + payload + Zeros(n - |payload|) + []
      == header + (code + block) + Zeros(m - |block|) + (payloads + payload) + Zeros(n - |payload|);
  }

  lemma ExitStep(size: nat, actions: seq<Action>, exitCode: u8)
    requires size == ImageSize(actions)
    ensures var start := PayloadStart(actions); var c := HEADER_SIZE + CodeLength(actions);
      && |ExitBlock(exitCode)| == EXIT_SIZE
      && |Partial(size, actions, start, EXIT_SIZE, 0)| == size
      && Patched(Partial(size, actions, start, EXIT_SIZE, 0), c, ExitBlock(exitCode)) == Image(actions, exitCode)
  {
    hide Header, ExitBlock, Code, Payloads;
    var start := PayloadStart(actions);
    var header, code, payloads := Header(size), Code(actions, HEADER_SIZE, start), Payloads(actions);
    CodeSizes(actions, HEADER_SIZE, start);
    ExitSize(exitCode);
    assert |payloads| == PayloadLength(actions);
    assert Partial(size, actions, start, EXIT_SIZE, 0) == (header + code) + Zeros(EXIT_SIZE) + payloads;
    PatchBetween(header + code, EXIT_SIZE, payloads, ExitBlock(exitCode));
  }

  // ---------- whole programs ----------

  /** The block of one action, with the move after an open. */
  method EmitAction(image: array<u8>, c: nat, p: nat, a: Action)
    requires c + CodeSize(a) <= p && p + PayloadSize(a) <= image.Length
    requires a.Read? ==> image[p..p + a.maxBytes] == Zeros(a.maxBytes)
    modifies image
    ensures |Block(a, c, p)| == CodeSize(a)
    ensures image[..] == Patched(Patched(old(image[..]), c, Block(a, c, p)), p, Payload(a))
  {
    hide Block, OpenCode, Patched;
    ghost var before := image[..];
    BlockSize(a, c, p);
    match a {
      case Write(payload, fd) =>
        EmitWriteBlock(image, c, p, payload, fd);
      case Read(fd, maxBytes) =>
        PatchZeros(before, c, Block(a, c, p), p, maxBytes);
        EmitReadBlock(image, c, p, fd, maxBytes);
      case Open(filename, flags, mode) =>
        OpenBytes(a, c, p);
        PatchPieces(before, c, p, OpenCode(p - (c + 12), flags, mode), FD_MOVE, filename + [0]);
        EmitOpenBlock(image, c, p, filename, flags, mode);
        EmitFdMove(image, c + 24);
      case Close(fd) =>
        PatchZeros(before, c, Block(a, c, p), p, 0);
        EmitCloseBlock(image, c, p, fd);
    }
  }

  /** Patching in zeros where zeros are changes nothing. */
  lemma PatchZeros(s: seq<u8>, c: nat, block: seq<u8>, p: nat, n: nat)
    requires c + |block| <= p && p + n <= |s| && s[p..p + n] == Zeros(n)
    ensures Patched(Patched(s, c, block), p, Zeros(n)) == Patched(s, c, block)
    ensures n == 0 ==> Zeros(n) == []
  {
    var t := Patched(s, c, block);
    assert t[p..p + n] == s[p..p + n];
    assert t == t[..p] + t[p..p + n] + t[p + n..];
  }

  lemma PatchPieces(s: seq<u8>, c: nat, p: nat, head: seq<u8>, tail: seq<u8>, payload: seq<u8>)
    requires c + |head| + |tail| <= p && p + |payload| <= |s|
    ensures Patched(Patched(Patched(s, c, head), p, payload), c + |head|, tail) == Patched(Patched(s, c, head + tail), p, payload)
  {
    hide Patched;
    var some := Patched(Patched(Patched(s, c, head), p, payload), c + |head|, tail);
    var other := Patched(Patched(s, c, head + tail), p, payload);
    forall k | 0 <= k < |s|
      ensures some[k] == other[k]
    {
      PatchedAt(s, c, head, k);
      PatchedAt(Patched(s, c, head), p, payload, k);
      PatchedAt(Patched(Patched(s, c, head), p, payload), c + |head|, tail, k);
      PatchedAt(s, c, head + tail, k);
      PatchedAt(Patched(s, c, head + tail), p, payload, k);
    }
  }

  lemma PatchedAt(s: seq<u8>, at: nat, bytes: seq<u8>, k: nat)
    requires at + |bytes| <= |s| && k < |s|
    ensures Patched(s, at, bytes)[k] == if at <= k < at + |bytes| then bytes[k - at] else s[k]
  {
  }

  /** The first k actions are emitted, and the two cursors stand behind them. */
  ghost predicate Emitted(s: seq<u8>, actions: seq<Action>, k: nat, c: nat, p: nat) {
    && k <= |actions|
    && c == HEADER_SIZE + CodeLength(actions[..k])
    && p == PayloadStart(actions) + PayloadLength(actions[..k])
    && c + CodeLength(actions[k..]) + EXIT_SIZE == PayloadStart(actions)
    && p + PayloadLength(actions[k..]) == ImageSize(actions)
    && s == Partial(ImageSize(actions), actions[..k], PayloadStart(actions), CodeLength(actions[k..]) + EXIT_SIZE, PayloadLength(actions[k..]))
  }

  lemma EmittedNone(actions: seq<Action>)
    ensures Emitted(Header(ImageSize(actions)) + Zeros(ImageSize(actions) - HEADER_SIZE), actions, 0, HEADER_SIZE, PayloadStart(actions))
  {
    hide Header, Partial, Zeros;
    assert actions[..0] == [] && actions[0..] == actions;
    PartialStart(ImageSize(actions), PayloadStart(actions), CodeLength(actions) + EXIT_SIZE, PayloadLength(actions));
  }

  /** What emitting the next action needs, and that it advances both cursors. */
  lemma EmittedNext(s: seq<u8>, actions: seq<Action>, k: nat, c: nat, p: nat)
    requires Emitted(s, actions, k, c, p) && k < |actions|
    ensures var a := actions[k];
      && c + CodeSize(a) <= p && p + PayloadSize(a) <= |s| && |s| == ImageSize(actions)
      && s[p..p + PayloadSize(a)] == Zeros(PayloadSize(a))
      && |Block(a, c, p)| == CodeSize(a)
      && Emitted(Patched(Patched(s, c, Block(a, c, p)), p, Payload(a)), actions, k + 1, c + CodeSize(a), p + PayloadSize(a))
  {
    hide Partial, Block, Payload, Patched, Zeros;
    var a, size, start := actions[k], ImageSize(actions), PayloadStart(actions);
    var m, n := CodeLength(actions[k..]) + EXIT_SIZE, PayloadLength(actions[k..]);
    assert actions[k..][1..] == actions[k + 1..];
    assert actions[..k + 1] == actions[..k] + [a];
    LengthsSnoc(actions[..k], a);
    PartialZeros(size, actions[..k], start, m, n, PayloadSize(a));
    PartialStep(size, actions[..k], a, start, m, n);
  }

  /** The exit block completes the image. */
  lemma EmittedAll(s: seq<u8>, actions: seq<Action>, c: nat, p: nat, exitCode: u8)
    requires Emitted(s, actions, |actions|, c, p)
    ensures c + EXIT_SIZE <= |s| && Patched(s, c, ExitCode(exitCode)) == Image(actions, exitCode)
  {
    hide Partial, Patched, ExitCode, Image;
    assert actions[..|actions|] == actions && actions[|actions|..] == [];
    ExitStep(ImageSize(actions), actions, exitCode);
    ExitBytes(exitCode);
  }

  method EmitActionProgram(actions: seq<Action>, exitCode: u8) returns (image: array<u8>)
    ensures fresh(image) && image[..] == Image(actions, exitCode)
  {
    hide Image, Header, Partial, Block, Payload, Patched, Zeros;
    var codeSize, totalPayload := ProgramSizes(actions);
    var payloadStart := HEADER_SIZE + codeSize;
    image := NewImage(payloadStart + totalPayload);
    EmitElfHeader(image);
    EmittedNone(actions);
    var currentCode: nat, currentPayload: nat := HEADER_SIZE, payloadStart;
    for index := 0 to |actions|
      invariant Emitted(image[..], actions, index, currentCode, currentPayload)
    {
      var action := actions[index];
      EmittedNext(image[..], actions, index, currentCode, currentPayload);
      EmitAction(image, currentCode, currentPayload, action);
      currentCode := currentCode + CodeSize(action);
      currentPayload := currentPayload + PayloadSize(action);
    }
    EmittedAll(image[..], actions, currentCode, currentPayload, exitCode);
    Copy(image, currentCode, ExitCode(exitCode));
  }

  /** The first loop: the sizes of code and payload. */
  method ProgramSizes(actions: seq<Action>) returns (codeSize: nat, totalPayload: nat)
    ensures codeSize == CodeLength(actions) + EXIT_SIZE && totalPayload == PayloadLength(actions)
  {
    codeSize, totalPayload := EXIT_SIZE, 0;
    for index := 0 to |actions|
      invariant codeSize == EXIT_SIZE + CodeLength(actions[..index])
      invariant totalPayload == PayloadLength(actions[..index])
    {
      LengthsSnoc(actions[..index], actions[index]);
      assert actions[..index + 1] == actions[..index] + [actions[index]];
      codeSize := codeSize + CodeSize(actions[index]);
      totalPayload := totalPayload + PayloadSize(actions[index]);
    }
    assert actions[..|actions|] == actions;
  }

  /** A zeroed array. */
  method NewImage(size: nat) returns (image: array<u8>)
    ensures fresh(image) && image.Length == size && image[..] == Zeros(size)
  {
    image := new u8[size](_ => 0);
  }

  // ---------- the other entry points ----------

  datatype WriteCall = WriteCall(payload: seq<u8>, fd: u32)
  datatype ReadCall = ReadCall(fd: u32, maxBytes: u32)

  /** The action list of writes followed by reads. */
  function Transfers(outputs: seq<WriteCall>, inputs: seq<ReadCall>): (actions: seq<Action>)
    ensures |actions| == |outputs| + |inputs|
    ensures forall i :: 0 <= i < |outputs| ==> actions[i] == Write(outputs[i].payload, outputs[i].fd)
    ensures forall i :: |outputs| <= i < |actions| ==> actions[i] == Read(inputs[i - |outputs|].fd, inputs[i - |outputs|].maxBytes)
  {
    if inputs == [] then
      if outputs == [] then []
      else
        var last := outputs[|outputs| - 1];
        Transfers(outputs[..|outputs| - 1], []) + [Write(last.payload, last.fd)]
    else
      var last := inputs[|inputs| - 1];
      Transfers(outputs, inputs[..|inputs| - 1]) + [Read(last.fd, last.maxBytes)]
  }

  lemma {:induction false} TransfersCode(actions: seq<Action>)
    requires forall i :: 0 <= i < |actions| ==> actions[i].Write? || actions[i].Read?
    ensures CodeLength(actions) == 24 * |actions|
    ensures PayloadStart(actions) == HEADER_SIZE + 24 * |actions| + EXIT_SIZE
    ensures ImageSize(actions) == PayloadStart(actions) + PayloadLength(actions)
    decreases |actions|
  {
    if actions != [] {
      TransfersCode(actions[1..]);
    }
  }

  /** The two payload loops. */
  method TransferPayload(outputs: seq<WriteCall>, inputs: seq<ReadCall>) returns (total: nat)
    ensures total == PayloadLength(Transfers(outputs, inputs))
  {
    ghost var actions := Transfers(outputs, inputs);
    total := 0;
    for i := 0 to |outputs|
      invariant total == PayloadLength(actions[..i])
    {
      LengthsSnoc(actions[..i], actions[i]);
      assert actions[..i + 1] == actions[..i] + [actions[i]];
      total := total + |outputs[i].payload|;
    }
    for j := 0 to |inputs|
      invariant total == PayloadLength(actions[..|outputs| + j])
    {
      LengthsSnoc(actions[..|outputs| + j], actions[|outputs| + j]);
      assert actions[..|outputs| + j + 1] == actions[..|outputs| + j] + [actions[|outputs| + j]];
      total := total + inputs[j].maxBytes;
    }
    assert actions[..|outputs| + |inputs|] == actions;
  }

  /** Writes, then inputs: byte for byte the image of the corresponding action list. */
  method EmitSyscallProgram(outputs: seq<WriteCall>, inputs: seq<ReadCall>, exitCode: u8) returns (image: array<u8>)
    ensures fresh(image) && image[..] == Image(Transfers(outputs, inputs), exitCode)
  {
    hide Image, Header, Partial, Block, Payload, Patched, Zeros, Emitted;
    hide Transfers, ImageSize, PayloadStart, CodeLength, PayloadLength;
    ghost var actions := Transfers(outputs, inputs);
    TransfersCode(actions);
    var codeSize := 24 * |outputs| + 24 * |inputs| + EXIT_SIZE;
    var payloadStart := HEADER_SIZE + codeSize;
    var totalPayload := TransferPayload(outputs, inputs);
    image := NewImage(payloadStart + totalPayload);
    EmitElfHeader(image);
    EmittedNone(actions);
    var currentCode: nat, currentPayload: nat := HEADER_SIZE, payloadStart;
    for i := 0 to |outputs|
      invariant Emitted(image[..], actions, i, currentCode, currentPayload)
    {
      EmittedNext(image[..], actions, i, currentCode, currentPayload);
      EmitAction(image, currentCode, currentPayload, Write(outputs[i].payload, outputs[i].fd));
      currentCode := currentCode + 24;
      currentPayload := currentPayload + |outputs[i].payload|;
    }
    for j := 0 to |inputs|
      invariant Emitted(image[..], actions, |outputs| + j, currentCode, currentPayload)
    {
      EmittedNext(image[..], actions, |outputs| + j, currentCode, currentPayload);
      EmitAction(image, currentCode, currentPayload, Read(inputs[j].fd, inputs[j].maxBytes));
      currentCode := currentCode + 24;
      currentPayload := currentPayload + inputs[j].maxBytes;
    }
    EmittedAll(image[..], actions, currentCode, currentPayload, exitCode);
    Copy(image, currentCode, ExitCode(exitCode));
  }

  method EmitMultiWriteExit(outputs: seq<WriteCall>, exitCode: u8) returns (image: array<u8>)
    ensures fresh(image) && image[..] == Image(Transfers(outputs, []), exitCode)
  {
    image := EmitSyscallProgram(outputs, [], exitCode);
  }

  /** The image of an exit alone, written field by field. */
  method EmitExit(exitCode: u8) returns (image: array<u8>)
    ensures fresh(image) && image[..] == Image([], exitCode)
  {
    image := NewImage(HEADER_SIZE + EXIT_SIZE);
    EmitElfHeader(image);
    EmittedNone([]);
    assert image[..] == Header(132) + Zeros(12);
    image[120], image[121] := 0xb8, 0x3c;
    image[125], image[126] := 0xbf, exitCode;
    image[130], image[131] := 0x0f, 0x05;
    assert image[..] == Patched(Header(132) + Zeros(12), 120, ExitCode(exitCode));
    EmittedAll(Header(132) + Zeros(12), [], 120, 132, exitCode);
  }

  /** One write to standard output; an empty payload needs no write at all. */
  method EmitWriteExit(payload: seq<u8>, exitCode: u8) returns (image: array<u8>)
    ensures fresh(image)
    ensures image[..] == Image(if payload == [] then [] else [Write(payload, 1)], exitCode)
  {
    if payload == [] {
      image := EmitExit(exitCode);
    } else {
      image := EmitMultiWriteExit([WriteCall(payload, 1)], exitCode);
      assert Transfers([WriteCall(payload, 1)], []) == [Write(payload, 1)];
    }
  }

  lemma PartialStart(size: nat, start: nat, m: nat, n: nat)
    requires size == HEADER_SIZE + m + n
    ensures Header(size) + Zeros(size - HEADER_SIZE) == Partial(size, [], start, m, n)
  {
    hide Header;
    assert Zeros(m + n) == Zeros(m) + Zeros(n);
    assert Header(size) + Code([], HEADER_SIZE, start) == Header(size);
  }

  /** The payload bytes to come are zero. */
  lemma PartialZeros(size: nat, done: seq<Action>, start: nat, m: nat, n: nat, k: nat)
    requires HEADER_SIZE + CodeLength(done) + m == start && k <= n
    ensures |Partial(size, done, start, m, n)| == start + PayloadLength(done) + n
    ensures Partial(size, done, start, m, n)[start + PayloadLength(done)..start + PayloadLength(done) + k] == Zeros(k)
  {
    hide Header, Code, Payloads;
    CodeSizes(done, HEADER_SIZE, start);
    assert |Payloads(done)| == PayloadLength(done);
    var before := Header(size) + Code(done, HEADER_SIZE, start) + Zeros(m) + Payloads(done);
    assert (before + Zeros(n))[|before|..|before| + k] == Zeros(k);
  }
}
