/** Emitted images do what their actions say: loading, running and layout. */
module ElfExecution {
  import opened Words
  import opened Outcome
  import opened X86
  import opened ElfImage

  // ---------- the events of an action list ----------

  /** The path the kernel sees: the file name up to its first NUL. */
  function PathOf(filename: seq<u8>): seq<u8> {
    if filename == [] || filename[0] == 0 then [] else [filename[0]] + PathOf(filename[1..])
  }

  lemma {:induction false} PathIsName(filename: seq<u8>)
    ensures PathOf(filename) == filename <==> 0 !in filename
    ensures PathOf(filename) <= filename
    decreases |filename|
  {
    if filename != [] && filename[0] != 0 {
      PathIsName(filename[1..]);
      assert filename == [filename[0]] + filename[1..];
    }
  }

  lemma {:induction false} StoredPath(filename: seq<u8>, rest: seq<u8>)
    ensures CString(filename + [0] + rest) == Some(PathOf(filename))
    decreases |filename|
  {
    var bytes := filename + [0] + rest;
    if filename != [] && filename[0] != 0 {
      StoredPath(filename[1..], rest);
      assert bytes[1..] == filename[1..] + [0] + rest;
    }
  }

  /** The event an action whose payload lies at p asks for, with its literal descriptor. */
  function EventOf(a: Action, p: nat): Event {
    match a
    case Write(payload, fd) => Wrote(fd, payload)
    case Read(fd, maxBytes) => DidRead(fd, BASE + p, maxBytes)
    case Open(filename, flags, mode) => Opened(PathOf(filename), flags, mode)
    case Close(fd) => Closed(fd)
  }

  function Events(actions: seq<Action>, p: nat): seq<Event> {
    if actions == [] then [] else [EventOf(actions[0], p)] + Events(actions[1..], p + PayloadSize(actions[0]))
  }

  function Steps(actions: seq<Action>): nat {
    if actions == [] then 3
    else (match actions[0] case Write(_, _) => 5 case Read(_, _) => 5 case Open(_, _, _) => 6 case Close(_) => 3) + Steps(actions[1..])
  }

  // ---------- one action ----------

  /** The processor when the system call of an action is reached. */
  lemma SetupExecutes(a: Action, c: nat, p: nat, cpu: Cpu)
    requires cpu.rip == BASE + c && BASE + p < 0x1_0000_0000_0000_0000
    ensures var after := ExecuteAll(cpu, Setup(a, c, p));
      && after.rip == BASE + c + |Assemble(Setup(a, c, p))| && after.rax != 60
      && match a
         case Write(payload, fd) => after.rax == 1 && after.rdi == fd && after.rsi == BASE + p && after.rdx == Wrap32(|payload|)
         case Read(fd, maxBytes) => after.rax == 0 && after.rdi == fd && after.rsi == BASE + p && after.rdx == maxBytes
         case Open(_, flags, mode) => after.rax == 2 && after.rdi == BASE + p && after.rsi == flags && after.rdx == mode
         case Close(fd) => after.rax == 3 && after.rdi == fd
  {
    hide Encode, Assemble;
    BlockSize(a, c, p);
    var setup := Setup(a, c, p);
    var c1 := Execute(cpu, setup[0]);
    var c2 := Execute(c1, setup[1]);
    assert ExecuteAll(cpu, setup) == ExecuteAll(c1, setup[1..]);
    assert setup[1..][0] == setup[1] && setup[1..][1..] == setup[2..];
    assert ExecuteAll(c1, setup[1..]) == ExecuteAll(c2, setup[2..]);
    if a.Close? {
      assert setup[2..] == [];
    } else {
      var c3 := Execute(c2, setup[2]);
      assert setup[2..][0] == setup[2] && setup[2..][1..] == [setup[3]] && [setup[3]][1..] == [];
      assert ExecuteAll(c2, setup[2..]) == ExecuteAll(c3, [setup[3]]);
      assert ExecuteAll(c3, [setup[3]]) == Execute(c3, setup[3]);
    }
  }

  lemma SetupPlain(a: Action, c: nat, p: nat)
    requires c <= p < 0x8000_0000
    ensures AllPlain(Setup(a, c, p)) && AllPlain(Tail(a))
    ensures |Setup(a, c, p)| + 1 + |Tail(a)| == StepsOf(a)
  {
    var setup := Setup(a, c, p);
    assert setup[1..] == [setup[1]] + setup[2..];
    if !a.Close? {
      assert setup[1..][1..] == setup[2..] && setup[2..] == [setup[2], setup[3]];
      assert setup[2..][1..] == [setup[3]] && [setup[3]][1..] == [];
      assert AllPlain([setup[3]]);
      assert AllPlain(setup[2..]);
    } else {
      assert setup[1..][1..] == [];
    }
    assert AllPlain(setup[1..]);
  }

  /** The request made when the system call is reached is the action's event. */
  lemma SetupRequests(m: Machine, a: Action, p: nat)
    requires m.base == BASE && |m.mem| < 0x8000_0000 && Holds(m.mem, p, Payload(a))
    requires match a
      case Write(payload, fd) => m.cpu.rax == 1 && m.cpu.rdi == fd && m.cpu.rsi == BASE + p && m.cpu.rdx == Wrap32(|payload|)
      case Read(fd, maxBytes) => m.cpu.rax == 0 && m.cpu.rdi == fd && m.cpu.rsi == BASE + p && m.cpu.rdx == maxBytes
      case Open(_, flags, mode) => m.cpu.rax == 2 && m.cpu.rdi == BASE + p && m.cpu.rsi == flags && m.cpu.rdx == mode
      case Close(fd) => m.cpu.rax == 3 && m.cpu.rdi == fd
    ensures Request(m) == Some(EventOf(a, p))
  {
    if a.Open? {
      var rest := m.mem[p + |a.filename| + 1..];
      assert m.mem[p..] == a.filename + [0] + rest;
      StoredPath(a.filename, rest);
    }
  }

  /** A machine at code offset c with the given bytes there and the payload of an action at p. */
  ghost predicate At(m: Machine, c: nat, code: seq<u8>, p: nat, payload: seq<u8>) {
    && m.base == BASE && m.cpu.rip == BASE + c && |m.mem| < 0x8000_0000 && c + |code| <= p <= |m.mem|
    && Holds(m.mem, c, code) && Holds(m.mem, p, payload)
  }

  /** The code before p and the bytes from q on are as they were. */
  ghost predicate KeepsAround(mem: seq<u8>, after: seq<u8>, p: nat, q: nat) {
    p <= q <= |mem| && |after| == |mem| && after[..p] == mem[..p] && after[q..] == mem[q..]
  }

  lemma AnswerKeeps(m: Machine, a: Action, p: nat, reply: Reply)
    requires m.base == BASE && Holds(m.mem, p, Payload(a))
    ensures var after := Answered(m, EventOf(a, p), reply);
      KeepsAround(m.mem, after.mem, p, p + PayloadSize(a)) && after.base == BASE && after.cpu.rip == m.cpu.rip + 2
  {
    if a.Read? {
      var n := if |reply.stored| < a.maxBytes then |reply.stored| else a.maxBytes;
      var after := Patched(m.mem, p, reply.stored[..n]);
      assert after[..p] == m.mem[..p];
      assert after[p + a.maxBytes..] == m.mem[p + a.maxBytes..];
    }
  }

  function StepsOf(a: Action): nat {
    |Setup(a, 0, 0)| + 1 + |Tail(a)|
  }

  /** Running up to the system call of an action and through it. */
  lemma RunThroughCall(m: Machine, a: Action, c: nat, p: nat, kernel: Kernel, trace: seq<Event>, fuel: nat) returns (after: Machine)
    requires At(m, c, Assemble(Setup(a, c, p)) + Encode(SysCall), p, Payload(a)) && |Setup(a, c, p)| + 1 <= fuel
    ensures Run(m, kernel, trace, fuel) == Run(after, kernel, trace + [EventOf(a, p)], fuel - |Setup(a, c, p)| - 1)
    ensures after.base == BASE && after.cpu.rip == BASE + c + |Assemble(Setup(a, c, p))| + 2
    ensures KeepsAround(m.mem, after.mem, p, p + PayloadSize(a))
  {
    hide Run, ExecuteAll, Encode, Assemble, Setup, Request, Answered, Holds, AllPlain, KeepsAround;
    var setup, e := Setup(a, c, p), EventOf(a, p);
    HoldsSplit(m.mem, c, Assemble(setup), Encode(SysCall));
    SetupPlain(a, c, p);
    RunStraight(m, setup, kernel, trace, fuel);
    SetupExecutes(a, c, p, m.cpu);
    var ready := m.(cpu := ExecuteAll(m.cpu, setup));
    SetupRequests(ready, a, p);
    RunCall(ready, e, kernel, trace, fuel - |setup|);
    after := Answered(ready, e, kernel(trace + [e]));
    AnswerKeeps(ready, a, p, kernel(trace + [e]));
  }

  /** Running the block of an action performs its event and reaches the end of the block. */
  lemma RunBlock(m: Machine, a: Action, c: nat, p: nat, kernel: Kernel, trace: seq<Event>, fuel: nat) returns (after: Machine)
    requires At(m, c, Block(a, c, p), p, Payload(a)) && StepsOf(a) <= fuel
    ensures Run(m, kernel, trace, fuel) == Run(after, kernel, trace + [EventOf(a, p)], fuel - StepsOf(a))
    ensures after.base == BASE && after.cpu.rip == BASE + c + CodeSize(a)
    ensures KeepsAround(m.mem, after.mem, p, p + PayloadSize(a))
  {
    hide Run, ExecuteAll, Encode, Assemble, Setup, Holds;
    var head := Assemble(Setup(a, c, p)) + Encode(SysCall);
    BlockSize(a, c, p);
    assert |head| == |Assemble(Setup(a, c, p))| + 2 by { DecodeEncode(SysCall, []); }
    HoldsSplit(m.mem, c, head, Assemble(Tail(a)));
    SetupPlain(a, c, p);
    var answered := RunThroughCall(m, a, c, p, kernel, trace, fuel);
    KeptParts(m.mem, answered.mem, p, p + PayloadSize(a));
    HeldBefore(m.mem, answered.mem, p, c + |head|, Assemble(Tail(a)));
    RunTail(answered, a, kernel, trace + [EventOf(a, p)], fuel - |Setup(a, c, p)| - 1);
    after := answered.(cpu := ExecuteAll(answered.cpu, Tail(a)));
  }

  lemma KeptParts(mem: seq<u8>, after: seq<u8>, p: nat, q: nat)
    requires KeepsAround(mem, after, p, q)
    ensures p <= q <= |mem| && |after| == |mem| && after[..p] == mem[..p] && after[q..] == mem[q..]
  {
  }

  lemma StepsSplit(actions: seq<Action>)
    requires actions != []
    ensures Steps(actions) == StepsOf(actions[0]) + Steps(actions[1..])
  {
  }

  lemma HeldBefore(mem: seq<u8>, after: seq<u8>, p: nat, at: nat, bytes: seq<u8>)
    requires Holds(mem, at, bytes) && at + |bytes| <= p <= |mem| && |after| == |mem| && after[..p] == mem[..p]
    ensures Holds(after, at, bytes)
  {
    assert after[at..at + |bytes|] == after[..p][at..at + |bytes|];
    assert mem[at..at + |bytes|] == mem[..p][at..at + |bytes|];
  }

  lemma HeldBeyond(mem: seq<u8>, after: seq<u8>, q: nat, bytes: seq<u8>)
    requires Holds(mem, q, bytes) && |after| == |mem| && after[q..] == mem[q..]
    ensures Holds(after, q, bytes)
  {
    assert after[q..q + |bytes|] == after[q..][..|bytes|];
    assert mem[q..q + |bytes|] == mem[q..][..|bytes|];
  }

  lemma RunTail(m: Machine, a: Action, kernel: Kernel, trace: seq<Event>, fuel: nat)
    requires m.base <= m.cpu.rip && Holds(m.mem, m.cpu.rip - m.base, Assemble(Tail(a))) && |Tail(a)| <= fuel
    ensures Run(m, kernel, trace, fuel) == Run(m.(cpu := ExecuteAll(m.cpu, Tail(a))), kernel, trace, fuel - |Tail(a)|)
    ensures ExecuteAll(m.cpu, Tail(a)).rip == m.cpu.rip + if a.Open? then 3 else 0
  {
    hide Run, Encode, Assemble, Holds;
    assert AllPlain(Tail(a));
    RunStraight(m, Tail(a), kernel, trace, fuel);
    assert Tail(a) == [] || (Tail(a)[0] == MovRdiRax && Tail(a)[1..] == []);
  }

  lemma RunExitBlock(m: Machine, exitCode: u8, c: nat, kernel: Kernel, trace: seq<Event>, fuel: nat)
    requires m.base == BASE && m.cpu.rip == BASE + c && Holds(m.mem, c, ExitBlock(exitCode)) && 3 <= fuel
    ensures Run(m, kernel, trace, fuel) == Exited(trace, exitCode)
  {
    hide Run, Encode, Assemble, Holds, Request;
    var instrs := [MovImm(EAX, 60), MovImm(EDI, exitCode)];
    HoldsSplit(m.mem, c, Assemble(instrs), Encode(SysCall));
    ExitExecutes(m.cpu, exitCode);
    RunStraight(m, instrs, kernel, trace, fuel);
    RunExit(m.(cpu := ExecuteAll(m.cpu, instrs)), kernel, trace, fuel - 2);
  }

  lemma ExitExecutes(cpu: Cpu, exitCode: u8)
    ensures var instrs := [MovImm(EAX, 60), MovImm(EDI, exitCode)];
      var after := ExecuteAll(cpu, instrs);
      AllPlain(instrs) && |Assemble(instrs)| == 10 && after.rax == 60 && after.rdi == exitCode && after.rip == cpu.rip + 10
  {
    var instrs := [MovImm(EAX, 60), MovImm(EDI, exitCode)];
    ExitSize(exitCode);
    assert instrs[1..] == [MovImm(EDI, exitCode)] && [MovImm(EDI, exitCode)][1..] == [];
    assert AllPlain([MovImm(EDI, exitCode)]);
    var c1 := Execute(cpu, instrs[0]);
    assert ExecuteAll(cpu, instrs) == ExecuteAll(c1, [MovImm(EDI, exitCode)]);
    assert ExecuteAll(c1, [MovImm(EDI, exitCode)]) == Execute(c1, MovImm(EDI, exitCode));
  }

  // ---------- all actions ----------

  lemma CodeFirst(actions: seq<Action>, exitCode: u8, c: nat, p: nat)
    requires actions != []
    ensures Code(actions, c, p) + ExitBlock(exitCode)
      == Block(actions[0], c, p) + (Code(actions[1..], c + CodeSize(actions[0]), p + PayloadSize(actions[0])) + ExitBlock(exitCode))
  {
    hide Block, ExitBlock;
  }

  lemma PayloadsFirst(actions: seq<Action>)
    requires actions != []
    ensures Payloads(actions) == Payload(actions[0]) + Payloads(actions[1..])
    ensures |Payload(actions[0])| == PayloadSize(actions[0])
  {
  }

  lemma HeldBound(mem: seq<u8>, at: nat, bytes: seq<u8>)
    requires Holds(mem, at, bytes)
    ensures at + |bytes| <= |mem|
  {
  }

  lemma AtFirst(m: Machine, actions: seq<Action>, exitCode: u8, c: nat, p: nat)
    requires actions != [] && At(m, c, Code(actions, c, p) + ExitBlock(exitCode), p, Payloads(actions))
    ensures var a, rest := actions[0], actions[1..];
      var c', p' := c + CodeSize(a), p + PayloadSize(a);
      var more := Code(rest, c', p') + ExitBlock(exitCode);
      && At(m, c, Block(a, c, p), p, Payload(a))
      && c' + |more| <= p && p' <= |m.mem|
      && Holds(m.mem, c', more) && Holds(m.mem, p', Payloads(rest))
  {
    hide Block, ExitBlock, Payload, Holds, Code, Payloads;
    var a, rest := actions[0], actions[1..];
    var c', p' := c + CodeSize(a), p + PayloadSize(a);
    var more := Code(rest, c', p') + ExitBlock(exitCode);
    BlockSize(a, c, p);
    CodeFirst(actions, exitCode, c, p);
    PayloadsFirst(actions);
    HeldBound(m.mem, p, Payloads(actions));
    HoldsSplit(m.mem, c, Block(a, c, p), more);
    HoldsSplit(m.mem, p, Payload(a), Payloads(rest));
  }

  lemma EventsAppended(actions: seq<Action>, p: nat, trace: seq<Event>)
    ensures actions == [] ==> trace + Events(actions, p) == trace
    ensures actions != [] ==>
        trace + Events(actions, p) == trace + [EventOf(actions[0], p)] + Events(actions[1..], p + PayloadSize(actions[0]))
  {
  }

  lemma {:induction false} RunActions(m: Machine, actions: seq<Action>, exitCode: u8, c: nat, p: nat, kernel: Kernel, trace: seq<Event>, fuel: nat)
    requires At(m, c, Code(actions, c, p) + ExitBlock(exitCode), p, Payloads(actions)) && Steps(actions) <= fuel
    ensures Run(m, kernel, trace, fuel) == Exited(trace + Events(actions, p), exitCode)
    decreases |actions|
  {
    hide Run, Holds, KeepsAround, Block, ExitBlock, StepsOf, Events, EventOf;
    EventsAppended(actions, p, trace);
    if actions == [] {
      assert Code(actions, c, p) + ExitBlock(exitCode) == ExitBlock(exitCode);
      RunExitBlock(m, exitCode, c, kernel, trace, fuel);
    } else {
      hide Code, Payloads, Payload;
      var a, rest := actions[0], actions[1..];
      var c', p' := c + CodeSize(a), p + PayloadSize(a);
      var more := Code(rest, c', p') + ExitBlock(exitCode);
      AtFirst(m, actions, exitCode, c, p);
      StepsSplit(actions);
      var after := RunBlock(m, a, c, p, kernel, trace, fuel);
      KeptParts(m.mem, after.mem, p, p');
      HeldBefore(m.mem, after.mem, p, c', more);
      HeldBeyond(m.mem, after.mem, p', Payloads(rest));
      RunActions(after, rest, exitCode, c', p', kernel, trace + [EventOf(a, p)], fuel - StepsOf(a));
    }
  }

  // ---------- loading and running an image ----------

  /**
   * Every field of the file header and of the program header, as the ELF format names them, and zeros in
   * between: identification; an executable for x86-64, version 1, entered at 400078h; one program header at
   * 64; a readable and executable segment that is the whole file at 400000h, aligned to pages.
   */
  lemma HeaderFields(size: nat, rest: seq<u8>)
    requires size < 0x1_0000_0000_0000_0000
    ensures var bytes := Header(size) + rest;
      && bytes[..7] == [0x7f, 0x45, 0x4c, 0x46, 2, 1, 1]
      && Field(bytes, 16, 2) == 2 && Field(bytes, 18, 2) == 62 && Field(bytes, 20, 4) == 1
      && Field(bytes, 24, 8) == 0x40_0078 && Field(bytes, 32, 8) == 64
      && Field(bytes, 52, 2) == 64 && Field(bytes, 54, 2) == 56 && Field(bytes, 56, 2) == 1
      && Field(bytes, 64, 4) == 1 && Field(bytes, 68, 4) == 5
      && Field(bytes, 72, 8) == 0 && Field(bytes, 80, 8) == 0x40_0000 && Field(bytes, 88, 8) == 0x40_0000
      && Field(bytes, 96, 8) == size && Field(bytes, 104, 8) == size && Field(bytes, 112, 8) == 0x1000
    ensures forall k :: 7 <= k < 16 || 40 <= k < 52 || 58 <= k < 64 ==> Header(size)[k] == 0
  {
    FileFields(size, rest);
    SegmentFields(size, rest);
    hide Le, FromLe, Field;
  }

  lemma FileFields(size: nat, rest: seq<u8>)
    requires size < 0x1_0000_0000_0000_0000
    ensures var bytes := Header(size) + rest;
      && Field(bytes, 16, 2) == 2 && Field(bytes, 18, 2) == 62 && Field(bytes, 20, 4) == 1
      && Field(bytes, 24, 8) == 0x40_0078 && Field(bytes, 32, 8) == 64
      && Field(bytes, 52, 2) == 64 && Field(bytes, 54, 2) == 56 && Field(bytes, 56, 2) == 1
  {
    hide Le, FromLe, Field;
    var bytes := Header(size) + rest;
    FieldIs(bytes, 16, 2, 2);
    FieldIs(bytes, 18, 62, 2);
    FieldIs(bytes, 20, 1, 4);
    FieldIs(bytes, 24, BASE + HEADER_SIZE, 8);
    FieldIs(bytes, 32, 64, 8);
    FieldIs(bytes, 52, 64, 2);
    FieldIs(bytes, 54, 56, 2);
    FieldIs(bytes, 56, 1, 2);
  }

  lemma SegmentFields(size: nat, rest: seq<u8>)
    requires size < 0x1_0000_0000_0000_0000
    ensures var bytes := Header(size) + rest;
      && Field(bytes, 64, 4) == 1 && Field(bytes, 68, 4) == 5
      && Field(bytes, 72, 8) == 0 && Field(bytes, 80, 8) == 0x40_0000 && Field(bytes, 88, 8) == 0x40_0000
      && Field(bytes, 96, 8) == size && Field(bytes, 104, 8) == size && Field(bytes, 112, 8) == 0x1000
  {
    hide Le, FromLe, Field;
    var bytes := Header(size) + rest;
    FieldIs(bytes, 64, 1, 4);
    FieldIs(bytes, 68, 5, 4);
    FieldIs(bytes, 72, 0, 8);
    FieldIs(bytes, 80, BASE, 8);
    FieldIs(bytes, 88, BASE, 8);
    FieldIs(bytes, 96, size, 8);
    FieldIs(bytes, 104, size, 8);
    FieldIs(bytes, 112, 0x1000, 8);
  }

  /** A field whose bytes are those of a value reads as that value. */
  lemma FieldIs(bytes: seq<u8>, at: nat, value: u64, width: nat)
    requires at + width <= |bytes| && (width == 8 || (width == 4 && value < 0x1_0000_0000) || (width == 2 && value < 0x1_0000))
    requires forall j :: at <= j < at + width ==> bytes[j] == Le(value, width)[j - at]
    ensures Field(bytes, at, width) == value
  {
    assert bytes[at..at + width] == Le(value, width);
    if width == 8 {
      LeRoundTrip8(value);
    } else if width == 4 {
      LeRoundTrip4(value);
    } else {
      assert Pow256(2) == 0x100 * (0x100 * Pow256(0));
      LeRoundTrip(value, 2);
    }
  }

  /** The loader maps an emitted image whole, at its base, and enters it behind the headers. */
  lemma ImageLoads(actions: seq<Action>, exitCode: u8, cpu: Cpu)
    requires ImageSize(actions) < 0x1_0000_0000_0000_0000
    ensures Load(Image(actions, exitCode), cpu)
      == Some(Machine(cpu.(rip := BASE + HEADER_SIZE), BASE, Image(actions, exitCode)))
  {
    hide Header, Field, Code, ExitBlock, Payloads, Le;
    var bytes := Image(actions, exitCode);
    var rest := Code(actions, HEADER_SIZE, PayloadStart(actions)) + ExitBlock(exitCode) + Payloads(actions);
    ImageSizes(actions, exitCode);
    assert bytes == Header(ImageSize(actions)) + rest;
    HeaderFields(ImageSize(actions), rest);
    assert bytes[0..0 + |bytes|] == bytes;
  }

  /**
   * The emitted image, loaded and run from its entry point with any registers and against any kernel,
   * performs exactly the system calls of the action list and then exits with the given code.
   */
  lemma ImageRuns(actions: seq<Action>, exitCode: u8, cpu: Cpu, kernel: Kernel, fuel: nat)
    requires ImageSize(actions) < 0x8000_0000 && Steps(actions) <= fuel
    ensures var loaded := Load(Image(actions, exitCode), cpu);
      loaded.Some? && Run(loaded.value, kernel, [], fuel) == Exited(Events(actions, PayloadStart(actions)), exitCode)
  {
    hide Run, Header, ExitBlock, Code, Load;
    ImageLoads(actions, exitCode, cpu);
    var m := Load(Image(actions, exitCode), cpu).value;
    var p := PayloadStart(actions);
    var header, code := Header(ImageSize(actions)), Code(actions, HEADER_SIZE, p) + ExitBlock(exitCode);
    CodeSizes(actions, HEADER_SIZE, p);
    ExitSize(exitCode);
    ImageSizes(actions, exitCode);
    assert m.mem == header + (code + Payloads(actions));
    assert Holds(m.mem, 0, header + (code + Payloads(actions)));
    HoldsSplit(m.mem, 0, header, code + Payloads(actions));
    HoldsSplit(m.mem, HEADER_SIZE, code, Payloads(actions));
    RunActions(m, actions, exitCode, HEADER_SIZE, p, kernel, [], fuel);
    assert [] + Events(actions, p) == Events(actions, p);
  }

  // ---------- layout ----------

  function Flatten(parts: seq<seq<u8>>): seq<u8> {
    if parts == [] then [] else parts[0] + Flatten(parts[1..])
  }

  /** Where the part with a given number begins. */
  function Offset(parts: seq<seq<u8>>, k: nat): nat
    requires k <= |parts|
    decreases |parts|
  {
    if k == 0 then 0 else |parts[0]| + Offset(parts[1..], k - 1)
  }

  function Blocks(actions: seq<Action>, c: nat, p: nat): (parts: seq<seq<u8>>)
    ensures |parts| == |actions|
    decreases |actions|
  {
    if actions == [] then []
    else [Block(actions[0], c, p)] + Blocks(actions[1..], c + CodeSize(actions[0]), p + PayloadSize(actions[0]))
  }

  function PayloadParts(actions: seq<Action>): (parts: seq<seq<u8>>)
    ensures |parts| == |actions|
    ensures forall k :: 0 <= k < |actions| ==> parts[k] == Payload(actions[k])
  {
    if actions == [] then [] else [Payload(actions[0])] + PayloadParts(actions[1..])
  }

  /** Header, code blocks, exit block and payloads, one part each. */
  function Parts(actions: seq<Action>, exitCode: u8): seq<seq<u8>> {
    [Header(ImageSize(actions))] + Blocks(actions, HEADER_SIZE, PayloadStart(actions)) + [ExitBlock(exitCode)] + PayloadParts(actions)
  }

  lemma {:induction false} FlattenConcat(a: seq<seq<u8>>, b: seq<seq<u8>>)
    ensures Flatten(a + b) == Flatten(a) + Flatten(b)
    decreases |a|
  {
    if a == [] {
      assert a + b == b;
    } else {
      assert (a + b)[1..] == a[1..] + b;
      FlattenConcat(a[1..], b);
    }
  }

  lemma FlattenOne(a: seq<u8>)
    ensures Flatten([a]) == a
  {
    assert Flatten([a]) == a + Flatten([]);
  }

  lemma {:induction false} FlattenBlocks(actions: seq<Action>, c: nat, p: nat)
    ensures Flatten(Blocks(actions, c, p)) == Code(actions, c, p)
    decreases |actions|
  {
    if actions != [] {
      FlattenBlocks(actions[1..], c + CodeSize(actions[0]), p + PayloadSize(actions[0]));
    }
  }

  lemma {:induction false} FlattenPayloads(actions: seq<Action>)
    ensures Flatten(PayloadParts(actions)) == Payloads(actions)
    decreases |actions|
  {
    if actions != [] {
      FlattenPayloads(actions[1..]);
    }
  }

  /** The parts laid end to end are the image. */
  lemma PartsTile(actions: seq<Action>, exitCode: u8)
    ensures Flatten(Parts(actions, exitCode)) == Image(actions, exitCode)
  {
    hide Header, ExitBlock, Code, Blocks, PayloadParts, Payloads, Flatten;
    var header, blocks := Header(ImageSize(actions)), Blocks(actions, HEADER_SIZE, PayloadStart(actions));
    FlattenConcat([header] + blocks + [ExitBlock(exitCode)], PayloadParts(actions));
    FlattenConcat([header] + blocks, [ExitBlock(exitCode)]);
    FlattenConcat([header], blocks);
    FlattenOne(header);
    FlattenOne(ExitBlock(exitCode));
    FlattenBlocks(actions, HEADER_SIZE, PayloadStart(actions));
    FlattenPayloads(actions);
  }

  /** Each part lies at its offset; different parts do not overlap. */
  lemma {:induction false} PartAt(parts: seq<seq<u8>>, k: nat)
    requires k < |parts|
    ensures Holds(Flatten(parts), Offset(parts, k), parts[k])
    ensures Offset(parts, k + 1) == Offset(parts, k) + |parts[k]|
    decreases |parts|
  {
    if k != 0 {
      PartAt(parts[1..], k - 1);
      var rest := Flatten(parts[1..]);
      var at := Offset(parts[1..], k - 1);
      assert Flatten(parts)[|parts[0]| + at..|parts[0]| + at + |parts[k]|] == rest[at..at + |parts[k]|];
    }
  }

  lemma {:induction false} PartsDisjoint(parts: seq<seq<u8>>, i: nat, j: nat)
    requires i < j <= |parts|
    ensures Offset(parts, i) + |parts[i]| <= Offset(parts, j)
    decreases j
  {
    PartAt(parts, i);
    if i + 1 < j {
      PartsDisjoint(parts, i, j - 1);
      PartAt(parts, j - 1);
    }
  }

  lemma {:induction false} OffsetEnd(parts: seq<seq<u8>>)
    ensures Offset(parts, |parts|) == |Flatten(parts)|
    decreases |parts|
  {
    if parts != [] {
      OffsetEnd(parts[1..]);
    }
  }

  lemma {:induction false} OffsetConcat(a: seq<seq<u8>>, b: seq<seq<u8>>, k: nat)
    requires k <= |a| + |b|
    ensures Offset(a + b, k) == if k <= |a| then Offset(a, k) else |Flatten(a)| + Offset(b, k - |a|)
    decreases |a|
  {
    if a == [] {
      assert a + b == b;
    } else if k != 0 {
      assert (a + b)[1..] == a[1..] + b;
      OffsetConcat(a[1..], b, k - 1);
      OffsetEnd(a);
    }
  }

  lemma {:induction false} BlockPlace(actions: seq<Action>, c: nat, p: nat, i: nat)
    requires i < |actions|
    ensures Blocks(actions, c, p)[i] == Block(actions[i], c + Offset(Blocks(actions, c, p), i), p + Offset(PayloadParts(actions), i))
    decreases |actions|
  {
    hide Block, Payload, Blocks, PayloadParts, Offset;
    var c', p' := c + CodeSize(actions[0]), p + PayloadSize(actions[0]);
    BlockSize(actions[0], c, p);
    PartsFirst(actions, c, p);
    OffsetFirst(Block(actions[0], c, p), Blocks(actions[1..], c', p'), i);
    OffsetFirst(Payload(actions[0]), PayloadParts(actions[1..]), i);
    PayloadsFirst(actions);
    if i != 0 {
      BlockPlace(actions[1..], c', p', i - 1);
    }
  }

  lemma PartsFirst(actions: seq<Action>, c: nat, p: nat)
    requires actions != []
    ensures Blocks(actions, c, p) == [Block(actions[0], c, p)] + Blocks(actions[1..], c + CodeSize(actions[0]), p + PayloadSize(actions[0]))
    ensures PayloadParts(actions) == [Payload(actions[0])] + PayloadParts(actions[1..])
  {
  }

  lemma OffsetFirst(first: seq<u8>, rest: seq<seq<u8>>, i: nat)
    requires i <= |rest| + 1
    ensures Offset([first] + rest, i) == if i == 0 then 0 else |first| + Offset(rest, i - 1)
  {
    assert ([first] + rest)[1..] == rest;
  }

  /** The block of an action addresses the region that holds the payload of that action. */
  lemma BlockAddressesPayload(actions: seq<Action>, exitCode: u8, i: nat)
    requires i < |actions|
    ensures var parts := Parts(actions, exitCode); var n := |actions|;
      && |parts| == 2 * n + 2
      && parts[1 + i] == Block(actions[i], Offset(parts, 1 + i), Offset(parts, n + 2 + i))
      && parts[n + 2 + i] == Payload(actions[i])
  {
    hide Flatten, Block, Payload, Header, ExitBlock;
    var n, c, p := |actions|, HEADER_SIZE, PayloadStart(actions);
    var header, blocks, exit, payloads := [Header(ImageSize(actions))], Blocks(actions, c, p), [ExitBlock(exitCode)], PayloadParts(actions);
    FlattenOne(header[0]);
    FlattenOne(exit[0]);
    FlattenConcat(header + blocks, exit);
    FlattenConcat(header, blocks);
    FlattenBlocks(actions, c, p);
    CodeSizes(actions, c, p);
    ExitSize(exitCode);
    OffsetConcat(header + blocks + exit, payloads, n + 2 + i);
    OffsetConcat(header + blocks + exit, payloads, 1 + i);
    OffsetConcat(header + blocks, exit, 1 + i);
    OffsetConcat(header, blocks, 1 + i);
    OffsetEnd(header + blocks + exit);
    PlaceCases(header, blocks, i);
    BlockPlace(actions, c, p, i);
    var parts := Parts(actions, exitCode);
    assert Offset(parts, 1 + i) == c + Offset(blocks, i);
    assert Offset(parts, n + 2 + i) == p + Offset(payloads, i);
  }

  /** The place of a block behind the header. */
  lemma PlaceCases(header: seq<seq<u8>>, blocks: seq<seq<u8>>, i: nat)
    requires |header| == 1 && i < |blocks|
    ensures Offset(header + blocks, 1 + i) == |header[0]| + Offset(blocks, i)
  {
    assert (header + blocks)[1..] == blocks;
  }
}
