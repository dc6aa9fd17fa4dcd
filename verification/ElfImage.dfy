/**
 * What the ELF back end emits (src/backend/elf_writer.cpp), as byte strings: a header, one code block per
 * action, an exit block, then the payload, path or buffer of each action.
 */
module ElfImage {
  import opened Words
  import opened Outcome
  import opened X86

  datatype Action =
    | Write(payload: seq<u8>, fd: u32)
    | Read(fd: u32, maxBytes: u32)
    | Open(filename: seq<u8>, flags: u32, mode: u32)
    | Close(fd: u32)

  const BASE: nat := 0x40_0000
  const HEADER_SIZE: nat := 120
  const EXIT_SIZE: nat := 12

  function PayloadSize(a: Action): nat {
    match a
    case Write(payload, _) => |payload|
    case Read(_, maxBytes) => maxBytes
    case Open(filename, _, _) => |filename| + 1
    case Close(_) => 0
  }

  /** The size of a code block, with the move that follows an open. */
  function CodeSize(a: Action): nat {
    match a
    case Write(_, _) => 24
    case Read(_, _) => 24
    case Open(_, _, _) => 27
    case Close(_) => 12
  }

  function CodeLength(actions: seq<Action>): nat {
    if actions == [] then 0 else CodeSize(actions[0]) + CodeLength(actions[1..])
  }

  function PayloadLength(actions: seq<Action>): nat {
    if actions == [] then 0 else PayloadSize(actions[0]) + PayloadLength(actions[1..])
  }

  function PayloadStart(actions: seq<Action>): nat {
    HEADER_SIZE + CodeLength(actions) + EXIT_SIZE
  }

  function ImageSize(actions: seq<Action>): nat {
    PayloadStart(actions) + PayloadLength(actions)
  }

  // ---------- code ----------

  /** The instructions that set up a system call, for code at c and payload at p. */
  function Setup(a: Action, c: nat, p: nat): seq<Instr> {
    match a
    case Write(payload, fd) => [MovImm(EAX, 1), MovImm(EDI, fd), LeaRip(ESI, p - (c + 17)), MovImm(EDX, Wrap32(|payload|))]
    case Read(fd, maxBytes) => [MovImm(EAX, 0), MovImm(EDI, fd), LeaRip(ESI, p - (c + 17)), MovImm(EDX, maxBytes)]
    case Open(_, flags, mode) => [MovImm(EAX, 2), LeaRip(EDI, p - (c + 12)), MovImm(ESI, flags), MovImm(EDX, mode)]
    case Close(fd) => [MovImm(EAX, 3), MovImm(EDI, fd)]
  }

  /** What follows the system call: the result of an open is moved to RDI. */
  function Tail(a: Action): seq<Instr> {
    if a.Open? then [MovRdiRax] else []
  }

  function Block(a: Action, c: nat, p: nat): seq<u8> {
    Assemble(Setup(a, c, p)) + Encode(SysCall) + Assemble(Tail(a))
  }

  function Code(actions: seq<Action>, c: nat, p: nat): seq<u8>
    decreases |actions|
  {
    if actions == [] then []
    else Block(actions[0], c, p) + Code(actions[1..], c + CodeSize(actions[0]), p + PayloadSize(actions[0]))
  }

  function ExitBlock(code: u8): seq<u8> {
    Assemble([MovImm(EAX, 60), MovImm(EDI, code)]) + Encode(SysCall)
  }

  // ---------- payload ----------

  function Payload(a: Action): (s: seq<u8>)
    ensures |s| == PayloadSize(a)
  {
    match a
    case Write(payload, _) => payload
    case Read(_, maxBytes) => Zeros(maxBytes)
    case Open(filename, _, _) => filename + [0]
    case Close(_) => []
  }

  function Payloads(actions: seq<Action>): (s: seq<u8>)
    ensures |s| == PayloadLength(actions)
  {
    if actions == [] then [] else Payload(actions[0]) + Payloads(actions[1..])
  }

  // ---------- header ----------

  /** The bytes of the ELF header and the one program header of an image of a given size. */
  function HeaderByte(k: nat, size: nat): u8 {
    if k < 7 then
      (match k case 0 => 0x7f case 1 => 0x45 case 2 => 0x4c case 3 => 0x46 case 4 => 2 case _ => 1)
    else if 16 <= k < 18 then Le(2, 2)[k - 16]
    else if 18 <= k < 20 then Le(62, 2)[k - 18]
    else if 20 <= k < 24 then Le(1, 4)[k - 20]
    else if 24 <= k < 32 then Le(BASE + HEADER_SIZE, 8)[k - 24]
    else if 32 <= k < 40 then Le(64, 8)[k - 32]
    else if 52 <= k < 54 then Le(64, 2)[k - 52]
    else if 54 <= k < 56 then Le(56, 2)[k - 54]
    else if 56 <= k < 58 then Le(1, 2)[k - 56]
    else if 64 <= k < 68 then Le(1, 4)[k - 64]
    else if 68 <= k < 72 then Le(5, 4)[k - 68]
    else if 72 <= k < 80 then Le(0, 8)[k - 72]
    else if 80 <= k < 88 then Le(BASE, 8)[k - 80]
    else if 88 <= k < 96 then Le(BASE, 8)[k - 88]
    else if 96 <= k < 104 then Le(size, 8)[k - 96]
    else if 104 <= k < 112 then Le(size, 8)[k - 104]
    else if 112 <= k < 120 then Le(0x1000, 8)[k - 112]
    else 0
  }

  function Header(size: nat): (s: seq<u8>)
    ensures |s| == HEADER_SIZE
  {
    seq(HEADER_SIZE, k requires 0 <= k => HeaderByte(k, size))
  }

  function Image(actions: seq<Action>, exitCode: u8): seq<u8> {
    Header(ImageSize(actions)) + Code(actions, HEADER_SIZE, PayloadStart(actions)) + ExitBlock(exitCode) + Payloads(actions)
  }

  lemma BlockSize(a: Action, c: nat, p: nat)
    ensures |Block(a, c, p)| == CodeSize(a)
    ensures |Assemble(Setup(a, c, p))| == CodeSize(a) - 2 - if a.Open? then 3 else 0
  {
    var setup := Setup(a, c, p);
    assert Assemble(setup) == Encode(setup[0]) + Assemble(setup[1..]);
    assert setup[1..] == [setup[1]] + setup[2..];
    assert Assemble(setup[1..]) == Encode(setup[1]) + Assemble(setup[2..]);
    if !a.Close? {
      assert setup[2..] == [setup[2], setup[3]] && setup[2..][1..] == [setup[3]] && [setup[3]][1..] == [];
      assert Assemble([setup[3]]) == Encode(setup[3]) + Assemble([]);
      assert Assemble(setup[2..]) == Encode(setup[2]) + Assemble([setup[3]]);
    } else {
      assert setup[2..] == [];
    }
    if a.Open? {
      assert Assemble([MovRdiRax]) == Encode(MovRdiRax) + Assemble([]);
    }
  }

  lemma {:induction false} CodeSizes(actions: seq<Action>, c: nat, p: nat)
    ensures |Code(actions, c, p)| == CodeLength(actions)
    decreases |actions|
  {
    if actions != [] {
      BlockSize(actions[0], c, p);
      CodeSizes(actions[1..], c + CodeSize(actions[0]), p + PayloadSize(actions[0]));
    }
  }

  lemma ExitSize(code: u8)
    ensures |ExitBlock(code)| == EXIT_SIZE
  {
    var instrs := [MovImm(EAX, 60), MovImm(EDI, code)];
    assert instrs[1..] == [MovImm(EDI, code)] && [MovImm(EDI, code)][1..] == [];
    assert Assemble([MovImm(EDI, code)]) == Encode(MovImm(EDI, code)) + Assemble([]);
    assert Assemble(instrs) == Encode(MovImm(EAX, 60)) + Assemble([MovImm(EDI, code)]);
  }

  lemma ImageSizes(actions: seq<Action>, exitCode: u8)
    ensures |Image(actions, exitCode)| == ImageSize(actions)
  {
    CodeSizes(actions, HEADER_SIZE, PayloadStart(actions));
    ExitSize(exitCode);
  }
}
