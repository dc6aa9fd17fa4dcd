/**
 * The string operations of emitted programs (src/compiler/branching_compiler.cpp): the loops the compiler
 * generates and the runtime helpers they call. Addresses are the bare SI and DI words.
 */
module StringLoops {
  import opened Words
  import D = InstructionDecoder

  /** The generated array has this many bytes: its size is printed in hexadecimal digits without a prefix. */
  const MEMORY: nat := 100_000

  datatype StringOp = Movsb | Movsw | Cmpsb | Cmpsw | Stosb | Stosw | Lodsb | Lodsw | Scasb | Scasw

  datatype State = State(ax: u16, cx: u16, si: u16, di: u16, flags: u32, mem: seq<u8>)

  predicate Sized(s: State) {
    |s.mem| == MEMORY
  }

  // ---------- runtime helpers ----------

  predicate DirectionDown(flags: u32) {
    flags / 0x400 % 2 == 1
  }

  predicate ZeroFlag(flags: u32) {
    flags / 0x40 % 2 == 1
  }

  /** df_step. */
  function Step(flags: u32, d: int): int {
    if DirectionDown(flags) then -d else d
  }

  /** update_flags_cmp: every other flag, the direction flag among them, is cleared. */
  function ComparedFlags(a: u16, b: u16, isByte: bool): u32 {
    if isByte then
      var x, y := a % 0x100, b % 0x100;
      (if x == y then 0x40 else 0) + (if (x - y) % 0x100 >= 0x80 then 0x80 else 0) + (if x < y then 1 else 0)
    else
      (if a == b then 0x40 else 0) + (if Wrap16(a - b) >= 0x8000 then 0x8000 else 0) + (if a < b then 1 else 0)
  }

  /** The bit that holds the sign: bit 7 after a byte comparison, bit 15 after a word comparison. */
  function SignBit(isByte: bool): nat {
    if isByte then 7 else 15
  }

  /** Only three bits may be set: carry iff below, zero iff equal, sign iff the difference is negative. */
  ghost predicate ComparisonFlags(flags: u32, a: u16, b: u16, isByte: bool) {
    var x, y := if isByte then a % 0x100 else a, if isByte then b % 0x100 else b;
    && (Bit(flags, 0) <==> x < y)
    && (Bit(flags, 6) <==> x == y)
    && (Bit(flags, SignBit(isByte)) <==> (if isByte then Signed8((x - y) % 0x100) else Signed16(Wrap16(x - y))) < 0)
    && forall i: nat :: i != 0 && i != 6 && i != SignBit(isByte) ==> !Bit(flags, i)
  }

  function BitValue(b: bool): nat {
    if b then 1 else 0
  }

  /** The bits of a carry, a zero and a sign flag put together. */
  lemma FlagBits(carry: bool, zero: bool, sign: bool, isByte: bool, i: nat)
    ensures var flags := BitValue(carry) + 0x40 * BitValue(zero) + (if isByte then 0x80 else 0x8000) * BitValue(sign);
      Bit(flags, i) <==> if i == 0 then carry else if i == 6 then zero else i == SignBit(isByte) && sign
  {
    var shift: nat := SignBit(isByte) - 7;
    var high := BitValue(sign) * Pow2(shift);
    var low := BitValue(zero) + 2 * high;
    Pow2Of8();
    assert Pow2(0) == 1 && Pow2(5) == 32;
    if i > 0 {
      ShiftedBit(low, 5, i - 1);
      if i >= 7 {
        ShiftedBit(BitValue(sign), shift, i - 7);
        ZeroHasNoBit(i - 7);
        if i > SignBit(isByte) {
          ZeroHasNoBit(i - SignBit(isByte) - 1);
        }
      }
    }
  }

  /** What update_flags_cmp computes says of the operands what a comparison should. */
  lemma ComparedFlagsMean(a: u16, b: u16, isByte: bool)
    ensures ComparisonFlags(ComparedFlags(a, b, isByte), a, b, isByte)
  {
    var x, y := if isByte then a % 0x100 else a, if isByte then b % 0x100 else b;
    var sign := (if isByte then Signed8((x - y) % 0x100) else Signed16(Wrap16(x - y))) < 0;
    var flags := ComparedFlags(a, b, isByte);
    assert flags == BitValue(x < y) + 0x40 * BitValue(x == y) + (if isByte then 0x80 else 0x8000) * BitValue(sign);
    hide ComparedFlags;
    forall i: nat
      ensures Bit(flags, i) <==> if i == 0 then x < y else if i == 6 then x == y else i == SignBit(isByte) && sign
    {
      FlagBits(x < y, x == y, sign, isByte, i);
    }
  }

  // ---------- one iteration ----------

  function AdvanceSi(s: State, d: int): State {
    s.(si := Wrap16(s.si + Step(s.flags, d)))
  }

  function AdvanceDi(s: State, d: int): State {
    s.(di := Wrap16(s.di + Step(s.flags, d)))
  }

  function Body(op: StringOp, s: State): (r: State)
    requires Sized(s)
    ensures Sized(r) && r.cx == s.cx
  {
    match op
    case Movsb => AdvanceDi(AdvanceSi(s.(mem := s.mem[s.di := s.mem[s.si]]), 1), 1)
    case Movsw =>
      var v := WordAt(s.mem, s.si);
      AdvanceDi(AdvanceSi(s.(mem := s.mem[s.di := v % 0x100][s.di + 1 := v / 0x100]), 2), 2)
    case Stosb => AdvanceDi(s.(mem := s.mem[s.di := s.ax % 0x100]), 1)
    case Stosw => AdvanceDi(s.(mem := s.mem[s.di := s.ax % 0x100][s.di + 1 := s.ax / 0x100]), 2)
    case Lodsb => AdvanceSi(s.(ax := s.ax / 0x100 * 0x100 + s.mem[s.si]), 1)
    case Lodsw => AdvanceSi(s.(ax := WordAt(s.mem, s.si)), 2)
    case Cmpsb => AdvanceDi(AdvanceSi(s.(flags := ComparedFlags(s.mem[s.si], s.mem[s.di], true)), 1), 1)
    case Cmpsw => AdvanceDi(AdvanceSi(s.(flags := ComparedFlags(WordAt(s.mem, s.si), WordAt(s.mem, s.di), false)), 2), 2)
    case Scasb => AdvanceDi(s.(flags := ComparedFlags(s.ax % 0x100, s.mem[s.di], true)), 1)
    case Scasw => AdvanceDi(s.(flags := ComparedFlags(s.ax, WordAt(s.mem, s.di), false)), 2)
  }

  /** The break tests of the generated loop. */
  predicate Breaks(rep: D.RepPrefix, flags: u32) {
    (rep == D.Repe && !ZeroFlag(flags)) || (rep == D.Repne && ZeroFlag(flags))
  }

  /** The generated loop, or the body alone without a repeat prefix. */
  function Execute(op: StringOp, rep: D.RepPrefix, s: State): (r: State)
    requires Sized(s)
    ensures Sized(r)
    decreases s.cx
  {
    if rep == D.NoRep then Body(op, s)
    else if s.cx == 0 then s
    else
      var after := Body(op, s.(cx := s.cx - 1));
      if Breaks(rep, after.flags) then after else Execute(op, rep, after)
  }

  lemma ExecuteUnfolds(op: StringOp, rep: D.RepPrefix, s: State)
    requires Sized(s)
    ensures rep == D.NoRep ==> Execute(op, rep, s) == Body(op, s)
    ensures rep != D.NoRep && s.cx == 0 ==> Execute(op, rep, s) == s
    ensures rep != D.NoRep && s.cx > 0 ==>
        var after := Body(op, s.(cx := s.cx - 1));
        Execute(op, rep, s) == if Breaks(rep, after.flags) then after else Execute(op, rep, after)
  {
    hide Body, Breaks;
  }

  // ---------- the runtime the generated code works on ----------

  class Runtime {
    const regs: array<u16>
    const mem: array<u8>
    var flags: u32

    ghost predicate Valid()
      reads this
    {
      regs.Length == 20 && mem.Length == MEMORY
    }

    constructor ()
      ensures Valid() && fresh(regs) && fresh(mem) && mem.Length == 100_000
      ensures flags == 0 && (forall i :: 0 <= i < 20 ==> regs[i] == 0) && mem[..] == Zeros(MEMORY)
    {
      regs := new u16[20](_ => 0);
      mem := new u8[MEMORY](_ => 0);
      flags := 0;
    }

    ghost function Now(): (s: State)
      requires Valid()
      reads this, regs, mem
      ensures Sized(s)
    {
      State(regs[0], regs[1], regs[6], regs[7], flags, mem[..])
    }

    method UpdateFlagsCmp(a: u16, b: u16, isByte: bool)
      modifies this
      ensures ComparisonFlags(flags, a, b, isByte)
      ensures flags == ComparedFlags(a, b, isByte)
    {
      ComparedFlagsMean(a, b, isByte);
      hide ComparisonFlags;
      if isByte {
        var x, y := a % 0x100, b % 0x100;
        var r := (x - y) % 0x100;
        flags := (if x == y then 0x40 else 0) + (if r >= 0x80 then 0x80 else 0) + (if x < y then 1 else 0);
      } else {
        var r := Wrap16(a - b);
        flags := (if a == b then 0x40 else 0) + (if r >= 0x8000 then 0x8000 else 0) + (if a < b then 1 else 0);
      }
    }

    method StepSi(d: int)
      requires Valid()
      modifies regs
      ensures Now() == AdvanceSi(old(Now()), d)
      ensures forall i :: 0 <= i < 20 && i != 6 ==> regs[i] == old(regs[i])
    {
      regs[6] := Wrap16(regs[6] + Step(flags, d));
    }

    method StepDi(d: int)
      requires Valid()
      modifies regs
      ensures Now() == AdvanceDi(old(Now()), d)
      ensures forall i :: 0 <= i < 20 && i != 7 ==> regs[i] == old(regs[i])
    {
      regs[7] := Wrap16(regs[7] + Step(flags, d));
    }

    /** The generated body of a string operation. */
    method RunBody(op: StringOp)
      requires Valid()
      modifies this, regs, mem
      ensures Valid() && Now() == Body(op, old(Now()))
      ensures forall i :: 0 <= i < 20 && i != 0 && i != 6 && i != 7 ==> regs[i] == old(regs[i])
    {
      hide ComparedFlags, Step, Sized;
      match op {
        case Movsb =>
          mem[regs[7]] := mem[regs[6]];
          StepSi(1);
          StepDi(1);
        case Movsw =>
          var v := Word(mem[regs[6]], mem[regs[6] + 1]);
          mem[regs[7]] := v % 0x100;
          mem[regs[7] + 1] := v / 0x100;
          StepSi(2);
          StepDi(2);
        case Stosb =>
          mem[regs[7]] := regs[0] % 0x100;
          StepDi(1);
        case Stosw =>
          mem[regs[7]] := regs[0] % 0x100;
          mem[regs[7] + 1] := regs[0] / 0x100;
          StepDi(2);
        case Lodsb =>
          regs[0] := regs[0] / 0x100 * 0x100 + mem[regs[6]];
          StepSi(1);
        case Lodsw =>
          regs[0] := Word(mem[regs[6]], mem[regs[6] + 1]);
          StepSi(2);
        case Cmpsb =>
          UpdateFlagsCmp(mem[regs[6]], mem[regs[7]], true);
          StepSi(1);
          StepDi(1);
        case Cmpsw =>
          var a := Word(mem[regs[6]], mem[regs[6] + 1]);
          var b := Word(mem[regs[7]], mem[regs[7] + 1]);
          UpdateFlagsCmp(a, b, false);
          StepSi(2);
          StepDi(2);
        case Scasb =>
          UpdateFlagsCmp(regs[0] % 0x100, mem[regs[7]], true);
          StepDi(1);
        case Scasw =>
          var b := Word(mem[regs[7]], mem[regs[7] + 1]);
          UpdateFlagsCmp(regs[0], b, false);
          StepDi(2);
      }
    }

    /** The generated statement: a while loop over CX with its break test. */
    method Run(op: StringOp, rep: D.RepPrefix)
      requires Valid()
      modifies this, regs, mem
      ensures Valid() && Now() == Execute(op, rep, old(Now()))
      ensures forall i :: 0 <= i < 20 && i != 0 && i != 1 && i != 6 && i != 7 ==> regs[i] == old(regs[i])
    {
      hide Body, Breaks, Execute;
      ExecuteUnfolds(op, rep, Now());
      if rep == D.NoRep {
        RunBody(op);
        return;
      }
      while regs[1] > 0
        invariant Valid()
        invariant Execute(op, rep, Now()) == Execute(op, rep, old(Now()))
        invariant forall i :: 0 <= i < 20 && i != 0 && i != 1 && i != 6 && i != 7 ==> regs[i] == old(regs[i])
        decreases regs[1]
      {
        ghost var before := Now();
        ExecuteUnfolds(op, rep, before);
        regs[1] := regs[1] - 1;
        assert Now() == before.(cx := before.cx - 1);
        RunBody(op);
        if Breaks(rep, flags) {
          return;
        }
      }
      ExecuteUnfolds(op, rep, Now());
    }
  }
}
