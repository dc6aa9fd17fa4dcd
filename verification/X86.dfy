/**
 * The part of x86-64 that emitted executables use: the instruction forms, a loader for their single
 * segment, and an interpreter against an arbitrary kernel.
 */
module X86 {
  import opened Words
  import opened Outcome

  datatype Register = EAX | EDI | ESI | EDX

  datatype Instr =
    | MovImm(reg: Register, imm: u32)     // mov r32, imm32 (clears the upper half)
    | LeaRip(reg: Register, disp: int)    // lea r64, [rip + disp32], only RSI and RDI
    | MovRdiRax                           // mov rdi, rax
    | SysCall

  predicate ValidInstr(i: Instr) {
    i.LeaRip? ==> (i.reg == ESI || i.reg == EDI) && -0x8000_0000 <= i.disp < 0x8000_0000
  }

  function MovOpcode(r: Register): u8 {
    match r
    case EAX => 0xb8
    case EDI => 0xbf
    case ESI => 0xbe
    case EDX => 0xba
  }

  function Wrap32(x: int): u32 {
    x % 0x1_0000_0000
  }

  function Signed32(x: u32): int {
    if x < 0x8000_0000 then x else x - 0x1_0000_0000
  }

  function Encode(i: Instr): seq<u8> {
    match i
    case MovImm(reg, imm) => [MovOpcode(reg)] + Le(imm, 4)
    case LeaRip(reg, disp) => [0x48, 0x8d, if reg == ESI then 0x35 else 0x3d] + Le(Wrap32(disp), 4)
    case MovRdiRax => [0x48, 0x89, 0xc7]
    case SysCall => [0x0f, 0x05]
  }

  function Size(i: Instr): nat {
    match i
    case MovImm(_, _) => 5
    case LeaRip(_, _) => 7
    case MovRdiRax => 3
    case SysCall => 2
  }

  function Read32(bytes: seq<u8>): u32
    requires |bytes| == 4
  {
    (bytes[0] as int) + 0x100 * (bytes[1] as int) + 0x1_0000 * (bytes[2] as int) + 0x100_0000 * (bytes[3] as int)
  }

  /** The instruction that starts a byte string, if it is one of the forms. */
  function DecodeInstr(bytes: seq<u8>): Option<Instr> {
    if |bytes| >= 5 && bytes[0] == 0xb8 then Some(MovImm(EAX, Read32(bytes[1..5])))
    else if |bytes| >= 5 && bytes[0] == 0xbf then Some(MovImm(EDI, Read32(bytes[1..5])))
    else if |bytes| >= 5 && bytes[0] == 0xbe then Some(MovImm(ESI, Read32(bytes[1..5])))
    else if |bytes| >= 5 && bytes[0] == 0xba then Some(MovImm(EDX, Read32(bytes[1..5])))
    else if |bytes| >= 7 && bytes[0] == 0x48 && bytes[1] == 0x8d && bytes[2] == 0x35 then
      Some(LeaRip(ESI, Signed32(Read32(bytes[3..7]))))
    else if |bytes| >= 7 && bytes[0] == 0x48 && bytes[1] == 0x8d && bytes[2] == 0x3d then
      Some(LeaRip(EDI, Signed32(Read32(bytes[3..7]))))
    else if |bytes| >= 3 && bytes[0] == 0x48 && bytes[1] == 0x89 && bytes[2] == 0xc7 then Some(MovRdiRax)
    else if |bytes| >= 2 && bytes[0] == 0x0f && bytes[1] == 0x05 then Some(SysCall)
    else None
  }

  lemma Read32Le(x: u32)
    ensures Read32(Le(x, 4)) == x
  {
    assert Le(x, 4) == [x % 0x100] + Le(x / 0x100, 3);
    assert Le(x / 0x100, 3) == [x / 0x100 % 0x100] + Le(x / 0x100 / 0x100, 2);
    assert Le(x / 0x100 / 0x100, 2) == [x / 0x100 / 0x100 % 0x100] + Le(x / 0x100 / 0x100 / 0x100, 1);
    assert Le(x / 0x100 / 0x100 / 0x100, 1) == [x / 0x100 / 0x100 / 0x100 % 0x100] + Le(x / 0x100 / 0x100 / 0x100 / 0x100, 0);
  }

  /** Decoding undoes encoding, whatever follows. */
  lemma DecodeEncode(i: Instr, rest: seq<u8>)
    requires ValidInstr(i)
    ensures |Encode(i)| == Size(i)
    ensures DecodeInstr(Encode(i) + rest) == Some(i)
  {
    var bytes := Encode(i) + rest;
    match i
    case MovImm(reg, imm) =>
      Read32Le(imm);
      assert bytes[1..5] == Le(imm, 4);
    case LeaRip(reg, disp) =>
      Read32Le(Wrap32(disp));
      assert bytes[3..7] == Le(Wrap32(disp), 4);
    case MovRdiRax =>
    case SysCall =>
  }

  function Assemble(instrs: seq<Instr>): seq<u8> {
    if instrs == [] then [] else Encode(instrs[0]) + Assemble(instrs[1..])
  }

  // ---------- machine ----------

  datatype Cpu = Cpu(rax: u64, rdi: u64, rsi: u64, rdx: u64, rip: nat)

  /** A processor and one mapped segment. */
  datatype Machine = Machine(cpu: Cpu, base: nat, mem: seq<u8>)

  function SetRegister(c: Cpu, r: Register, value: u64): Cpu {
    match r
    case EAX => c.(rax := value)
    case EDI => c.(rdi := value)
    case ESI => c.(rsi := value)
    case EDX => c.(rdx := value)
  }

  /** The effect of an instruction other than a system call. */
  function Execute(c: Cpu, i: Instr): Cpu {
    var next := c.rip + Size(i);
    match i
    case MovImm(reg, imm) => SetRegister(c, reg, imm).(rip := next)
    case LeaRip(reg, disp) => SetRegister(c, reg, (next + disp) % 0x1_0000_0000_0000_0000).(rip := next)
    case MovRdiRax => c.(rdi := c.rax, rip := next)
    case SysCall => c
  }

  datatype Event =
    | Wrote(fd: u32, data: seq<u8>)
    | DidRead(fd: u32, address: nat, count: nat)
    | Opened(path: seq<u8>, flags: u32, mode: u32)
    | Closed(fd: u32)

  /** What a kernel answers: the result register, and for a read the bytes it stores. */
  datatype Reply = Reply(rax: u64, stored: seq<u8>)

  /** A kernel answers the last event of a history as it likes. */
  type Kernel = seq<Event> -> Reply

  datatype RunResult = Exited(trace: seq<Event>, code: u8) | Stuck | Running

  predicate Mapped(m: Machine, address: nat, count: nat) {
    m.base <= address && address + count <= m.base + |m.mem|
  }

  function Bytes(m: Machine, address: nat, count: nat): seq<u8>
    requires Mapped(m, address, count)
  {
    m.mem[address - m.base..address - m.base + count]
  }

  /** The bytes before the first NUL, if there is one. */
  function CString(bytes: seq<u8>): Option<seq<u8>> {
    if bytes == [] then None
    else if bytes[0] == 0 then Some([])
    else
      var rest := CString(bytes[1..]);
      if rest.None? then None else Some([bytes[0]] + rest.value)
  }

  /** Overwrites bytes at a place inside a string. */
  function Patched(s: seq<u8>, at: nat, bytes: seq<u8>): (r: seq<u8>)
    requires at + |bytes| <= |s|
    ensures |r| == |s|
  {
    s[..at] + bytes + s[at + |bytes|..]
  }

  function Low32(x: u64): u32 {
    x % 0x1_0000_0000
  }

  /** The event a system call other than exit asks for; None when an address or a number is bad. */
  function Request(m: Machine): Option<Event> {
    var c := m.cpu;
    if c.rax == 0 && Mapped(m, c.rsi, c.rdx) then Some(DidRead(Low32(c.rdi), c.rsi, c.rdx))
    else if c.rax == 1 && Mapped(m, c.rsi, c.rdx) then Some(Wrote(Low32(c.rdi), Bytes(m, c.rsi, c.rdx)))
    else if c.rax == 2 && Mapped(m, c.rdi, 0) then
      var path := CString(m.mem[c.rdi - m.base..]);
      if path.None? then None else Some(Opened(path.value, Low32(c.rsi), Low32(c.rdx)))
    else if c.rax == 3 then Some(Closed(Low32(c.rdi)))
    else None
  }

  /** The machine after the kernel has answered; a read stores at most as many bytes as asked for. */
  function Answered(m: Machine, e: Event, reply: Reply): Machine {
    var after := m.(cpu := m.cpu.(rax := reply.rax, rip := m.cpu.rip + 2));
    if e.DidRead? && Mapped(m, e.address, e.count) then
      var n := if |reply.stored| < e.count then |reply.stored| else e.count;
      after.(mem := Patched(m.mem, e.address - m.base, reply.stored[..n]))
    else after
  }

  /** Runs for at most fuel instructions. */
  function Run(m: Machine, kernel: Kernel, trace: seq<Event>, fuel: nat): RunResult
    decreases fuel
  {
    if fuel == 0 then Running
    else if !Mapped(m, m.cpu.rip, 0) then Stuck
    else
      var i := DecodeInstr(m.mem[m.cpu.rip - m.base..]);
      if i.None? then Stuck
      else if i.value != SysCall then Run(m.(cpu := Execute(m.cpu, i.value)), kernel, trace, fuel - 1)
      else if m.cpu.rax == 60 then Exited(trace, m.cpu.rdi % 0x100)
      else
        var e := Request(m);
        if e.None? then Stuck
        else Run(Answered(m, e.value, kernel(trace + [e.value])), kernel, trace + [e.value], fuel - 1)
  }

  /** The memory of a machine holds bytes at an offset into its segment. */
  predicate Holds(mem: seq<u8>, at: nat, bytes: seq<u8>) {
    at + |bytes| <= |mem| && mem[at..at + |bytes|] == bytes
  }

  lemma HoldsSplit(mem: seq<u8>, at: nat, a: seq<u8>, b: seq<u8>)
    ensures Holds(mem, at, a + b) <==> Holds(mem, at, a) && Holds(mem, at + |a|, b)
  {
    if at + |a + b| <= |mem| {
      var first, second := mem[at..at + |a|], mem[at + |a|..at + |a| + |b|];
      assert mem[at..at + |a + b|] == first + second;
      assert (first + second)[..|a|] == first && (first + second)[|a|..] == second;
      assert (a + b)[..|a|] == a && (a + b)[|a|..] == b;
    }
  }

  function ExecuteAll(c: Cpu, instrs: seq<Instr>): Cpu
    decreases |instrs|
  {
    if instrs == [] then c else ExecuteAll(Execute(c, instrs[0]), instrs[1..])
  }

  lemma FetchHeld(m: Machine, i: Instr)
    requires ValidInstr(i) && m.base <= m.cpu.rip && Holds(m.mem, m.cpu.rip - m.base, Encode(i))
    ensures Mapped(m, m.cpu.rip, 0) && DecodeInstr(m.mem[m.cpu.rip - m.base..]) == Some(i)
  {
    var at := m.cpu.rip - m.base;
    DecodeEncode(i, m.mem[at + |Encode(i)|..]);
    assert m.mem[at..] == Encode(i) + m.mem[at + |Encode(i)|..];
  }

  predicate AllPlain(instrs: seq<Instr>) {
    instrs != [] ==> ValidInstr(instrs[0]) && instrs[0] != SysCall && AllPlain(instrs[1..])
  }

  lemma RunOne(m: Machine, i: Instr, kernel: Kernel, trace: seq<Event>, fuel: nat)
    requires ValidInstr(i) && i != SysCall && 1 <= fuel
    requires m.base <= m.cpu.rip && Holds(m.mem, m.cpu.rip - m.base, Encode(i))
    ensures Run(m, kernel, trace, fuel) == Run(m.(cpu := Execute(m.cpu, i)), kernel, trace, fuel - 1)
    ensures Execute(m.cpu, i).rip == m.cpu.rip + |Encode(i)|
  {
    hide Encode, DecodeInstr, Holds, Request, Answered;
    FetchHeld(m, i);
    DecodeEncode(i, []);
  }

  /** A machine whose code is a straight run of instructions executes all of it. */
  lemma {:induction false} RunStraight(m: Machine, instrs: seq<Instr>, kernel: Kernel, trace: seq<Event>, fuel: nat)
    requires AllPlain(instrs) && |instrs| <= fuel
    requires m.base <= m.cpu.rip && Holds(m.mem, m.cpu.rip - m.base, Assemble(instrs))
    ensures Run(m, kernel, trace, fuel) == Run(m.(cpu := ExecuteAll(m.cpu, instrs)), kernel, trace, fuel - |instrs|)
    decreases |instrs|
  {
    hide Run, Execute, Encode, Holds;
    if instrs != [] {
      HoldsSplit(m.mem, m.cpu.rip - m.base, Encode(instrs[0]), Assemble(instrs[1..]));
      RunOne(m, instrs[0], kernel, trace, fuel);
      RunStraight(m.(cpu := Execute(m.cpu, instrs[0])), instrs[1..], kernel, trace, fuel - 1);
    }
  }

  /** A system call that asks for an event performs it and goes on with the kernel's answer. */
  lemma RunCall(m: Machine, e: Event, kernel: Kernel, trace: seq<Event>, fuel: nat)
    requires m.base <= m.cpu.rip && Holds(m.mem, m.cpu.rip - m.base, Encode(SysCall))
    requires 1 <= fuel && m.cpu.rax != 60 && Request(m) == Some(e)
    ensures Run(m, kernel, trace, fuel) == Run(Answered(m, e, kernel(trace + [e])), kernel, trace + [e], fuel - 1)
  {
    FetchHeld(m, SysCall);
  }

  lemma RunExit(m: Machine, kernel: Kernel, trace: seq<Event>, fuel: nat)
    requires m.base <= m.cpu.rip && Holds(m.mem, m.cpu.rip - m.base, Encode(SysCall))
    requires 1 <= fuel && m.cpu.rax == 60
    ensures Run(m, kernel, trace, fuel) == Exited(trace, m.cpu.rdi % 0x100)
  {
    FetchHeld(m, SysCall);
  }

  // ---------- loader ----------

  function Field(bytes: seq<u8>, at: nat, width: nat): nat
    requires at + width <= |bytes|
  {
    FromLe(bytes[at..at + width])
  }

  /** Maps the one loadable segment of a 64-bit little-endian executable, and starts at its entry point. */
  function Load(bytes: seq<u8>, cpu: Cpu): Option<Machine> {
    if |bytes| < 64 || bytes[..7] != [0x7f, 0x45, 0x4c, 0x46, 2, 1, 1] then None
    else if Field(bytes, 16, 2) != 2 || Field(bytes, 18, 2) != 62 || Field(bytes, 20, 4) != 1 then None
    else if Field(bytes, 52, 2) != 64 || Field(bytes, 54, 2) != 56 || Field(bytes, 56, 2) != 1 then None
    else
      var headers := Field(bytes, 32, 8);
      if headers + 56 > |bytes| || Field(bytes, headers, 4) != 1 || Field(bytes, headers + 4, 4) != 5 then None
      else
        var offset, size := Field(bytes, headers + 8, 8), Field(bytes, headers + 32, 8);
        var base, align := Field(bytes, headers + 16, 8), Field(bytes, headers + 48, 8);
        if offset + size > |bytes| || Field(bytes, headers + 40, 8) != size then None
        else if align == 0 || base % align != offset % align then None
        else Some(Machine(cpu.(rip := Field(bytes, 24, 8)), base, bytes[offset..offset + size]))
  }
}
