/** What the generated comparing and scanning loops compute: CMPSB, CMPSW, SCASB and SCASW. */
module StringComparisons {
  import opened Words
  import opened StringLoops
  import opened StringTheorems
  import D = InstructionDecoder

  predicate Compares(op: StringOp) {
    op == Cmpsb || op == Cmpsw || op == Scasb || op == Scasw
  }

  /** What is compared with the destination: the source element, or the accumulator. */
  function LeftOf(op: StringOp, s: State): u16
    requires Sized(s)
  {
    match op
    case Cmpsb => s.mem[s.si]
    case Cmpsw => WordAt(s.mem, s.si)
    case Scasb => s.ax % 0x100
    case _ => s.ax
  }

  function RightOf(op: StringOp, s: State): u16
    requires Sized(s)
  {
    if Width(op) == 1 then s.mem[s.di] else WordAt(s.mem, s.di)
  }

  function SourceStride(op: StringOp): nat {
    match op case Cmpsb => 1 case Cmpsw => 2 case _ => 0
  }

  /** n elements further on; addresses wrap. */
  function Moved(op: StringOp, s: State, n: nat): (t: State)
    requires Sized(s)
    ensures Sized(t)
  {
    s.(si := Wrap16(s.si + SourceStride(op) * n), di := Wrap16(s.di + Width(op) * n))
  }

  /** The two elements of comparison n are the same. */
  predicate SameAt(op: StringOp, s: State, n: nat)
    requires Sized(s)
  {
    LeftOf(op, Moved(op, s, n)) == RightOf(op, Moved(op, s, n))
  }

  function FlagsAt(op: StringOp, s: State, n: nat): u32
    requires Sized(s)
  {
    ComparedFlags(LeftOf(op, Moved(op, s, n)), RightOf(op, Moved(op, s, n)), Width(op) == 1)
  }

  predicate StopsAt(op: StringOp, rep: D.RepPrefix, s: State, n: nat)
    requires Sized(s)
  {
    (rep == D.Repe && !SameAt(op, s, n)) || (rep == D.Repne && SameAt(op, s, n))
  }

  /** The state after comparison n. */
  function EndedAt(op: StringOp, s: State, n: nat): State
    requires Sized(s) && n < s.cx
  {
    Moved(op, s, n + 1).(cx := s.cx - n - 1, flags := FlagsAt(op, s, n))
  }

  // ---------- one comparison ----------

  lemma ComparesOne(op: StringOp, s: State)
    requires Sized(s) && Compares(op)
    ensures Body(op, s) == Moved(op, s, 1).(flags := FlagsAt(op, s, 0))
  {
    hide ComparedFlags, WordAt, LeftOf, RightOf;
    NotMoved(op, s);
    BodyCompares(op, s);
    hide Body;
    FlagsClearDirection(LeftOf(op, s), RightOf(op, s), Width(op) == 1);
  }

  lemma NotMoved(op: StringOp, s: State)
    requires Sized(s)
    ensures Moved(op, s, 0) == s
  {
  }

  /** The body compares first, and then steps by the flags of the comparison. */
  lemma BodyCompares(op: StringOp, s: State)
    requires Sized(s) && Compares(op)
    ensures var f := ComparedFlags(LeftOf(op, s), RightOf(op, s), Width(op) == 1);
      Body(op, s) == s.(flags := f, di := Wrap16(s.di + Step(f, Width(op))),
                        si := if SourceStride(op) > 0 then Wrap16(s.si + Step(f, Width(op))) else s.si)
  {
    hide ComparedFlags, WordAt, Step, Wrap16;
  }

  lemma FlagsClearDirection(a: u16, b: u16, isByte: bool)
    ensures !DirectionDown(ComparedFlags(a, b, isByte))
  {
  }

  lemma ZeroIffSame(op: StringOp, s: State, n: nat)
    requires Sized(s) && Compares(op)
    ensures ZeroFlag(FlagsAt(op, s, n)) <==> SameAt(op, s, n)
  {
    var t := Moved(op, s, n);
    hide Moved, WordAt;
    FlagsZero(LeftOf(op, t), RightOf(op, t), Width(op) == 1);
  }

  lemma FlagsZero(a: u16, b: u16, isByte: bool)
    ensures ZeroFlag(ComparedFlags(a, b, isByte)) <==> if isByte then a % 0x100 == b % 0x100 else a == b
  {
  }

  /** Comparison n of a state one comparison later is comparison n + 1. */
  lemma MovedOn(op: StringOp, s: State, t: State, n: nat)
    requires Sized(s) && Compares(op) && t == Moved(op, s, 1).(cx := t.cx, flags := t.flags)
    ensures Moved(op, t, n) == Moved(op, s, n + 1).(cx := t.cx, flags := t.flags)
    ensures SameAt(op, t, n) <==> SameAt(op, s, n + 1)
    ensures FlagsAt(op, t, n) == FlagsAt(op, s, n + 1)
  {
    hide Moved, ComparedFlags, LeftOf, RightOf;
    MovedFurther(op, s, t, n);
    SameElements(op, Moved(op, t, n), Moved(op, s, n + 1));
  }

  lemma MovedFurther(op: StringOp, s: State, t: State, n: nat)
    requires Sized(s) && t == Moved(op, s, 1).(cx := t.cx, flags := t.flags)
    ensures Moved(op, t, n) == Moved(op, s, n + 1).(cx := t.cx, flags := t.flags)
  {
    hide Wrap16;
    WrapStrides(s.si, SourceStride(op), n);
    WrapStrides(s.di, Width(op), n);
  }

  lemma SameElements(op: StringOp, s: State, t: State)
    requires Sized(s) && Sized(t) && s == t.(cx := s.cx, flags := s.flags)
    ensures LeftOf(op, s) == LeftOf(op, t) && RightOf(op, s) == RightOf(op, t)
  {
  }

  lemma WrapStrides(a: u16, d: nat, n: nat)
    requires d <= 2
    ensures Wrap16(Wrap16(a + d * 1) + d * n) == Wrap16(a + d * (n + 1))
  {
    WrapSum(a + d, d * n);
    assert a + d + d * n == a + d * (n + 1);
  }

  // ---------- the loop ----------

  /** The loop ends with the first comparison that stops it, or with the last of CX. */
  lemma {:induction false} CompareEnds(op: StringOp, rep: D.RepPrefix, s: State, k: nat)
    requires Sized(s) && Compares(op) && rep != D.NoRep && k < s.cx
    requires forall n :: 0 <= n < k ==> !StopsAt(op, rep, s, n)
    requires StopsAt(op, rep, s, k) || k == s.cx - 1
    ensures Execute(op, rep, s) == EndedAt(op, s, k)
    decreases k
  {
    hide Execute, Body, Moved, SameAt, FlagsAt, ComparedFlags, Sized, ZeroFlag;
    StillSized(s);
    var c := s.(cx := s.cx - 1);
    var t := Body(op, c);
    ExecuteUnfolds(op, rep, s);
    ComparesOne(op, c);
    WithoutCx(op, s, c);
    ZeroIffSame(op, s, 0);
    if k == 0 {
      if !Breaks(rep, t.flags) {
        ExecuteUnfolds(op, rep, t);
      }
    } else {
      assert !StopsAt(op, rep, s, 0);
      forall n | 0 <= n < k - 1
        ensures !StopsAt(op, rep, t, n)
      {
        MovedOn(op, s, t, n);
        assert !StopsAt(op, rep, s, n + 1);
      }
      MovedOn(op, s, t, k - 1);
      MovedOn(op, s, t, k);
      CompareEnds(op, rep, t, k - 1);
    }
  }

  lemma StillSized(s: State)
    requires Sized(s)
    ensures s.cx > 0 ==> Sized(s.(cx := s.cx - 1))
  {
  }

  lemma WithoutCx(op: StringOp, s: State, c: State)
    requires Sized(s) && c == s.(cx := c.cx) && Compares(op)
    ensures Moved(op, c, 1) == Moved(op, s, 1).(cx := c.cx) && FlagsAt(op, c, 0) == FlagsAt(op, s, 0)
  {
    hide ComparedFlags, WordAt;
    SameElements(op, Moved(op, c, 0), Moved(op, s, 0));
  }

  /** The comparison the loop ends with. */
  function Stop(op: StringOp, rep: D.RepPrefix, s: State, n: nat): (k: nat)
    requires Sized(s) && n < s.cx
    ensures n <= k < s.cx && (StopsAt(op, rep, s, k) || k == s.cx - 1)
    ensures forall i :: n <= i < k ==> !StopsAt(op, rep, s, i)
    decreases s.cx - n
  {
    if StopsAt(op, rep, s, n) || n == s.cx - 1 then n else Stop(op, rep, s, n + 1)
  }

  /** Over every state: where a repeated comparison ends, and with what. */
  lemma RepeatedCompare(op: StringOp, rep: D.RepPrefix, s: State)
    requires Sized(s) && Compares(op) && rep != D.NoRep
    ensures Execute(op, rep, s) == if s.cx == 0 then s else EndedAt(op, s, Stop(op, rep, s, 0))
  {
    hide EndedAt, StopsAt, Execute;
    if s.cx == 0 {
      ExecuteUnfolds(op, rep, s);
    } else {
      CompareEnds(op, rep, s, Stop(op, rep, s, 0));
    }
  }

  // ---------- behind the prefix F3h ----------

  /** As decoded, the loop uses up CX whatever it compares; the flags are those of the last comparison. */
  lemma RepRunsOut(op: StringOp, s: State)
    requires Sized(s) && Compares(op) && s.cx > 0
    ensures Execute(op, D.Rep, s) == Moved(op, s, s.cx).(cx := 0, flags := FlagsAt(op, s, s.cx - 1))
  {
    hide Execute, Moved, FlagsAt, SameAt;
    CompareEnds(op, D.Rep, s, s.cx - 1);
  }

  /** All elements compared before the last are the same. */
  ghost predicate SameBeforeLast(op: StringOp, s: State)
    requires Sized(s)
  {
    forall n :: 0 <= n < s.cx - 1 ==> SameAt(op, s, n)
  }

  /**
   * F3h is decoded as REP and never as REPE, so no comparison or scan stops at a difference. It agrees with
   * the REPE loop exactly when there is none before the last comparison.
   */
  lemma RepIsRepeIff(op: StringOp, s: State)
    requires Sized(s) && Compares(op)
    ensures Execute(op, D.Rep, s) == Execute(op, D.Repe, s) <==> SameBeforeLast(op, s)
  {
    hide Execute, Moved, FlagsAt, SameAt, Compares;
    RepeatedCompare(op, D.Repe, s);
    if s.cx == 0 {
      ExecuteUnfolds(op, D.Rep, s);
    } else {
      RepRunsOut(op, s);
      var k := Stop(op, D.Repe, s, 0);
      assert k < s.cx - 1 ==> StopsAt(op, D.Repe, s, k) && !SameAt(op, s, k);
      forall n | 0 <= n < k
        ensures SameAt(op, s, n)
      {
        assert !StopsAt(op, D.Repe, s, n);
      }
      assert k == s.cx - 1 <==> SameBeforeLast(op, s);
      assert EndedAt(op, s, k).cx == s.cx - k - 1;
    }
  }

  // ---------- scanning for an element ----------

  /** REPNE stops right behind the first match, with zero set; CX counts what is left. */
  lemma ScanFinds(op: StringOp, s: State, k: nat)
    requires Sized(s) && Compares(op) && k < s.cx && SameAt(op, s, k)
    requires forall n :: 0 <= n < k ==> !SameAt(op, s, n)
    ensures var r := Execute(op, D.Repne, s);
      ZeroFlag(r.flags) && r == Moved(op, s, k + 1).(cx := s.cx - k - 1, flags := r.flags)
  {
    hide Execute, Moved, FlagsAt, SameAt;
    CompareEnds(op, D.Repne, s, k);
    ZeroIffSame(op, s, k);
  }

  /** Without a match it uses up CX and leaves zero clear. */
  lemma ScanMisses(op: StringOp, s: State)
    requires Sized(s) && Compares(op) && s.cx > 0
    requires forall n :: 0 <= n < s.cx ==> !SameAt(op, s, n)
    ensures var r := Execute(op, D.Repne, s);
      !ZeroFlag(r.flags) && r == Moved(op, s, s.cx).(cx := 0, flags := r.flags)
  {
    hide Execute, Moved, FlagsAt, SameAt;
    CompareEnds(op, D.Repne, s, s.cx - 1);
    ZeroIffSame(op, s, s.cx - 1);
  }

  // ---------- the direction flag ----------

  /** A comparison clears the direction flag before the pointers move: no flag ever influences it, and it never goes down. */
  lemma ComparesIgnoreDirection(op: StringOp, s: State, flags: u32, rep: D.RepPrefix)
    requires Sized(s) && Compares(op) && (s.cx > 0 || rep == D.NoRep)
    ensures Execute(op, rep, s.(flags := flags)) == Execute(op, rep, s)
    ensures rep == D.NoRep ==> Execute(op, rep, s) == Moved(op, s, 1).(flags := FlagsAt(op, s, 0))
  {
    hide Execute, Body, Moved, FlagsAt, ComparedFlags;
    var f := s.(flags := flags);
    ExecuteUnfolds(op, rep, s);
    ExecuteUnfolds(op, rep, f);
    if rep == D.NoRep {
      SameBody(op, s, flags);
      ComparesOne(op, s);
    } else {
      SameBody(op, s.(cx := s.cx - 1), flags);
    }
  }

  lemma SameBody(op: StringOp, s: State, flags: u32)
    requires Sized(s) && Compares(op)
    ensures Body(op, s.(flags := flags)) == Body(op, s)
  {
    hide ComparedFlags, WordAt;
  }
}
