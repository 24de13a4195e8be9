/** The slow label of a putc site, told by the original program: where its branches go when it is run. */
module PutcSlow {
  import opened Memory
  import opened Options
  import opened X86
  import opened Putc

  // ---- the bytes of a site ----

  /** The prologue as a compiler emits it for the registers r1, r2 and rX. */
  predicate PutcBytes(t: seq<byte>, i: int, r1: nat, r2: nat, rx: nat)
    requires 0 <= i && i + 20 < |t|
  {
    && t[i] == 0x8b && t[i + 1] == 0x40 + 8 * r1 + rx && t[i + 2] == 0x0c
    && t[i + 3] == 0x8d && t[i + 4] == 0x40 + 8 * r2 + r1 && t[i + 5] == 0xff
    && t[i + 6] == 0x89 && t[i + 7] == 0x40 + 8 * r2 + rx && t[i + 8] == 0x0c
    && t[i + 9] == 0x85 && t[i + 10] == 0xc0 + 8 * r1 + r1
    && (t[i + 11] == 0x7f || t[i + 11] == 0x7e)
  }

  /** A prologue is matched exactly when it is one for some registers, any but esp as the stream. */
  lemma {:induction false} PrologueIff(t: seq<byte>, i: int)
    requires 0 <= i && i + 20 < |t|
    ensures Prologue(t, i) <==> exists r1, r2, rx :: IsPutc(t, i, r1, r2, rx)
  {
    if Prologue(t, i) {
      FieldsOf(t[i + 1]);
      FieldsOf(t[i + 4]);
      FieldsOf(t[i + 7]);
      FieldsOf(t[i + 10]);
      assert IsPutc(t, i, Reg(t[i + 1]), Reg(t[i + 4]), Rm(t[i + 1]));
    }
    if r1, r2, rx :| IsPutc(t, i, r1, r2, rx) {
      FieldsIn(1, r1, rx);
      FieldsIn(1, r2, r1);
      FieldsIn(1, r2, rx);
      FieldsIn(3, r1, r1);
    }
  }

  predicate IsPutc(t: seq<byte>, i: int, r1: int, r2: int, rx: int)
    requires 0 <= i && i + 20 < |t|
  {
    0 <= r1 < 8 && 0 <= r2 < 8 && 0 <= rx < 8 && rx != 4 && PutcBytes(t, i, r1, r2, rx)
  }

  lemma {:induction false} FieldsOf(b: byte)
    ensures b == 64 * Mod(b) + 8 * Reg(b) + Rm(b) && Mod(b) < 4 && Reg(b) < 8 && Rm(b) < 8
  {
  }

  lemma {:induction false} FieldsIn(mod: nat, reg: nat, rm: nat)
    requires mod < 4 && reg < 8 && rm < 8
    ensures var b := 64 * mod + 8 * reg + rm; Mod(b) == mod && Reg(b) == reg && Rm(b) == rm
  {
    var b := 64 * mod + 8 * reg + rm;
    DivModUnique(b, 64, mod, 8 * reg + rm);
    DivModUnique(b, 8, 8 * mod + reg, rm);
    DivModUnique(8 * mod + reg, 8, mod, reg);
  }

  /** `b` is the two's complement byte of `d`. */
  predicate Rel8(b: byte, d: int) { -128 <= d < 128 && b == if d < 0 then d + 256 else d }

  /** The branch to `x` in one of the five tails of the macro: jle; or jg and then je, cmp al,10 and je, a
    * compare with a word of memory and jle, or a compare of eax with a constant and jle. */
  predicate BranchesTo(t: seq<byte>, i: int, x: int)
    requires 0 <= i && i + 20 < |t|
  {
    || (t[i + 11] == 0x7e && Rel8(t[i + 12], x - (i + 13)))
    || (t[i + 11] == 0x7f && t[i + 13] == 0x74 && Rel8(t[i + 14], x - (i + 15)))
    || (t[i + 11] == 0x7f && t[i + 13] == 0x3c && t[i + 14] == 0x0a && t[i + 15] == 0x74 &&
        Rel8(t[i + 16], x - (i + 17)))
    || (t[i + 11] == 0x7f && t[i + 13] == 0x3b && t[i + 16] == 0x7e && Rel8(t[i + 17], x - (i + 18)))
    || (t[i + 11] == 0x7f && t[i + 13] == 0x3d && t[i + 18] == 0x7e && Rel8(t[i + 19], x - (i + 20)))
  }

  lemma {:induction false} LabelIff(t: seq<byte>, i: int, x: int)
    requires 0 <= i && i + 20 < |t| && (t[i + 11] == 0x7f || t[i + 11] == 0x7e)
    ensures Label(t, i) == Some(x) <==> BranchesTo(t, i, x)
  {
  }

  /** A site is a prologue with a tail that branches, within the section and a byte's reach, to a load of the
    * character: mov edi,imm32 or movsx edi,al. */
  lemma {:induction false} SiteIff(t: seq<byte>, i: int)
    requires 0 <= i && i + 20 < |t|
    ensures Site(t, i) <==>
              && (exists r1, r2, rx :: IsPutc(t, i, r1, r2, rx))
              && (exists x :: BranchesTo(t, i, x) && Loads(t, i, x))
  {
    hide Prologue, Label;
    PrologueIff(t, i);
    if exists r1, r2, rx :: IsPutc(t, i, r1, r2, rx) {
      if x :| Label(t, i) == Some(x) { LabelIff(t, i, x); }
      if x :| BranchesTo(t, i, x) && Loads(t, i, x) { LabelIff(t, i, x); }
    }
  }

  /** `x` is in the section and in reach of a jump at `i`, and the character is loaded there. */
  predicate Loads(t: seq<byte>, i: int, x: int) {
    0 <= x && x + 2 <= |t| && -128 <= x - (i + 13) <= 127 && (t[x] == 0xbf || (t[x] == 0x0f && t[x + 1] == 0xbe))
  }

  // ---- running the original ----

  /** The four bytes at `p` as a signed word. */
  function Word(t: seq<byte>, p: nat): int
    requires p + 3 < |t|
  {
    S32(t[p], t[p + 1], t[p + 2], t[p + 3])
  }

  /** What the comparison between the jg and its jle or je says about the state. */
  predicate CheckHolds(t: seq<byte>, i: int, s: Cpu)
    requires 0 <= i && i + 20 < |t|
  {
    if t[i + 13] == 0x74 then s.zf
    else if t[i + 13] == 0x3c then s.regs[0] % 0x100 == 0x0a
    else if t[i + 13] == 0x3b then
      Signed(s.regs[t[i + 14] / 8 % 8] % 0x1_0000_0000, 0x1_0000_0000) <=
      Signed(Load32(s.mem, Wrap(s.regs[t[i + 14] % 8] + S8(t[i + 15]))), 0x1_0000_0000)
    else Signed(s.regs[0] % 0x1_0000_0000, 0x1_0000_0000) <= Word(t, i + 14)
  }

  /** The first instruction after the check. */
  function PastCheck(t: seq<byte>, i: int): int
    requires 0 <= i && i + 20 < |t|
  {
    if t[i + 13] == 0x74 then i + 15 else if t[i + 13] == 0x3c then i + 17
    else if t[i + 13] == 0x3b then i + 18 else i + 20
  }

  /** A compare with memory is the three bytes that the matcher takes it for. */
  predicate ThreeByteCompare(t: seq<byte>, i: int)
    requires 0 <= i && i + 20 < |t|
  {
    t[i + 11] == 0x7f && t[i + 13] == 0x3b ==> t[i + 14] / 64 == 1 && t[i + 14] % 8 != 4
  }

  lemma {:induction false} Steps(t: seq<byte>, s: Cpu, d: Decoded)
    requires s.rip >= 0 && Fetch(t, s.rip) == Some(d)
    ensures InsnOk(d.insn) && Step(t, s) == Some(Exec(s, d.insn, d.len))
  {
    hide Fetch, Exec;
    FetchOk(t, s.rip);
  }

  lemma {:induction false} TwoSteps(t: seq<byte>, s: Cpu, a: Cpu, b: Cpu)
    requires Step(t, s) == Some(a) && Step(t, a) == Some(b)
    ensures Run(t, s, 1) == Some(a) && Run(t, s, 2) == Some(b)
  {
    hide Step;
    assert Run(t, a, 1) == Some(b);
  }

  /** The decision itself. */
  lemma {:induction false} DecisionInsn(t: seq<byte>, i: int)
    requires 0 <= i && i + 20 < |t|
    ensures t[i + 11] == 0x7e ==> Fetch(t, i + 11) == Some(Decoded(Jle(S8(t[i + 12])), 2))
    ensures t[i + 11] == 0x7f ==> Fetch(t, i + 11) == Some(Decoded(Jg(S8(t[i + 12])), 2))
  {
    hide OperandAt, FetchModRm;
  }

  lemma {:induction false} ShortInsns(t: seq<byte>, p: nat)
    requires p + 1 < |t|
    ensures t[p] == 0x74 ==> Fetch(t, p) == Some(Decoded(Je(S8(t[p + 1])), 2))
    ensures t[p] == 0x7e ==> Fetch(t, p) == Some(Decoded(Jle(S8(t[p + 1])), 2))
    ensures t[p] == 0x3c ==> Fetch(t, p) == Some(Decoded(CompareImm(1, t[p + 1]), 2))
    ensures t[p] == 0x3d && p + 4 < |t| ==>
              Fetch(t, p) == Some(Decoded(CompareImm(4, U32(t[p + 1], t[p + 2], t[p + 3], t[p + 4])), 5))
  {
    hide OperandAt, FetchModRm;
  }

  lemma {:induction false} CompareInsn(t: seq<byte>, p: nat)
    requires p + 2 < |t| && t[p] == 0x3b && t[p + 1] / 64 == 1 && t[p + 1] % 8 != 4
    ensures Fetch(t, p) ==
            Some(Decoded(Compare(t[p + 1] / 8 % 8, InMem(t[p + 1] % 8, None, S8(t[p + 2]))), 3))
  {
    hide FetchModRm;
  }

  /** After the jg falls through: the check's own branch goes to the label or past it. */
  lemma {:induction false} CheckRuns(t: seq<byte>, i: int, s: Cpu) returns (n: nat, o: Cpu)
    requires 0 <= i && i + 20 < |t| && t[i + 11] == 0x7f && Label(t, i).Some? && ThreeByteCompare(t, i)
    requires s.rip == i + 13
    ensures 1 <= n <= 2 && Run(t, s, n) == Some(o) && o.regs == s.regs && o.mem == s.mem
    ensures o.rip == if CheckHolds(t, i, s) then Label(t, i).value else PastCheck(t, i)
  {
    hide Fetch, Step, Run, Compared, OperandAt;
    if t[i + 13] == 0x74 {
      n := 1;
      o := JeRuns(t, i, s);
    } else if t[i + 13] == 0x3c {
      n := 2;
      o := CharRuns(t, i, s);
    } else if t[i + 13] == 0x3b {
      n := 2;
      o := WordRuns(t, i, s);
    } else {
      n := 2;
      o := ConstRuns(t, i, s);
    }
  }

  lemma {:induction false} JeRuns(t: seq<byte>, i: int, s: Cpu) returns (o: Cpu)
    requires 0 <= i && i + 20 < |t| && t[i + 13] == 0x74 && s.rip == i + 13
    ensures Run(t, s, 1) == Some(o) && o.regs == s.regs && o.mem == s.mem
    ensures o.rip == if s.zf then i + 15 + S8(t[i + 14]) else i + 15
  {
    ShortInsns(t, i + 13);
    hide Fetch;
    o := Step(t, s).value;
    assert Run(t, o, 0) == Some(o);
  }

  lemma {:induction false} CharRuns(t: seq<byte>, i: int, s: Cpu) returns (o: Cpu)
    requires 0 <= i && i + 20 < |t| && t[i + 13] == 0x3c && t[i + 14] == 0x0a && t[i + 15] == 0x74 && s.rip == i + 13
    ensures Run(t, s, 2) == Some(o) && o.regs == s.regs && o.mem == s.mem
    ensures o.rip == if s.regs[0] % 0x100 == 0x0a then i + 17 + S8(t[i + 16]) else i + 17
  {
    ShortInsns(t, i + 13);
    ShortInsns(t, i + 15);
    hide Fetch;
    Steps(t, s, Decoded(CompareImm(1, 0x0a), 2));
    var a := Step(t, s).value;
    ComparedOrders(s.(rip := i + 15), s.regs[0] % 0x100, 0x0a, 0x100);
    o := Step(t, a).value;
    TwoSteps(t, s, a, o);
  }

  lemma {:induction false} WordRuns(t: seq<byte>, i: int, s: Cpu) returns (o: Cpu)
    requires 0 <= i && i + 20 < |t| && t[i + 13] == 0x3b && t[i + 14] / 64 == 1 && t[i + 14] % 8 != 4
    requires t[i + 16] == 0x7e && s.rip == i + 13
    ensures Run(t, s, 2) == Some(o) && o.regs == s.regs && o.mem == s.mem
    ensures o.rip == if Signed(s.regs[t[i + 14] / 8 % 8] % 0x1_0000_0000, 0x1_0000_0000) <=
                        Signed(Load32(s.mem, Wrap(s.regs[t[i + 14] % 8] + S8(t[i + 15]))), 0x1_0000_0000)
                     then i + 18 + S8(t[i + 17]) else i + 18
  {
    CompareInsn(t, i + 13);
    ShortInsns(t, i + 16);
    hide Fetch, Load32, Compared, Signed;
    var x, v := s.regs[t[i + 14] / 8 % 8] % 0x1_0000_0000, Load32(s.mem, Wrap(s.regs[t[i + 14] % 8] + S8(t[i + 15])));
    Steps(t, s, Decoded(Compare(t[i + 14] / 8 % 8, InMem(t[i + 14] % 8, None, S8(t[i + 15]))), 3));
    var a := Step(t, s).value;
    assert a == Compared(s.(rip := i + 16), x, v, 0x1_0000_0000);
    ComparedKeeps(s.(rip := i + 16), x, v, 0x1_0000_0000);
    ComparedOrders(s.(rip := i + 16), x, v, 0x1_0000_0000);
    o := Step(t, a).value;
    TwoSteps(t, s, a, o);
  }

  lemma {:induction false} ComparedKeeps(c: Cpu, a: int, b: int, range: int)
    requires range > 0
    ensures var d := Compared(c, a, b, range); d.rip == c.rip && d.regs == c.regs && d.mem == c.mem
  {
  }

  lemma {:induction false} ConstWord(t: seq<byte>, p: nat)
    requires p + 3 < |t|
    ensures var u := U32(t[p], t[p + 1], t[p + 2], t[p + 3]);
            0 <= u < 0x1_0000_0000 && u % 0x1_0000_0000 == u && Signed(u, 0x1_0000_0000) == Word(t, p)
  {
  }

  lemma {:induction false} ConstRuns(t: seq<byte>, i: int, s: Cpu) returns (o: Cpu)
    requires 0 <= i && i + 20 < |t| && t[i + 13] == 0x3d && t[i + 18] == 0x7e && s.rip == i + 13
    ensures Run(t, s, 2) == Some(o) && o.regs == s.regs && o.mem == s.mem
    ensures o.rip == if Signed(s.regs[0] % 0x1_0000_0000, 0x1_0000_0000) <= Word(t, i + 14)
                     then i + 20 + S8(t[i + 19]) else i + 20
  {
    ShortInsns(t, i + 13);
    ShortInsns(t, i + 18);
    ConstWord(t, i + 14);
    hide Fetch, Compared, U32, S32, Word, Signed;
    var u := U32(t[i + 14], t[i + 15], t[i + 16], t[i + 17]);
    Steps(t, s, Decoded(CompareImm(4, u), 5));
    var a := Step(t, s).value;
    assert a == Compared(s.(rip := i + 18), s.regs[0] % 0x1_0000_0000, u, 0x1_0000_0000);
    ComparedKeeps(s.(rip := i + 18), s.regs[0] % 0x1_0000_0000, u, 0x1_0000_0000);
    ComparedOrders(s.(rip := i + 18), s.regs[0] % 0x1_0000_0000, u, 0x1_0000_0000);
    o := Step(t, a).value;
    TwoSteps(t, s, a, o);
  }

  /** The original goes to its slow label: its jle is taken, or its jg is not and the check holds. */
  predicate GoesSlow(t: seq<byte>, i: int, s: Cpu)
    requires 0 <= i && i + 20 < |t|
  {
    TakesJle(s) && (t[i + 11] == 0x7f ==> CheckHolds(t, i, s))
  }

  /** Where the original goes otherwise: past the jle, where the jg leads, or past the check. */
  function FastTarget(t: seq<byte>, i: int, s: Cpu): int
    requires 0 <= i && i + 20 < |t|
  {
    if t[i + 11] == 0x7e then i + 13 else if TakesJle(s) then PastCheck(t, i) else i + 13 + S8(t[i + 12])
  }

  /** The original text, run from its decision on: one to three instructions that leave registers and memory
    * alone lead to the label exactly when it goes slow. */
  lemma {:induction false} DecisionRuns(t: seq<byte>, i: int, s: Cpu) returns (n: nat, o: Cpu)
    requires 0 <= i && i + 20 < |t| && (t[i + 11] == 0x7f || t[i + 11] == 0x7e) && Label(t, i).Some?
    requires ThreeByteCompare(t, i) && s.rip == i + 11
    ensures 1 <= n <= 3 && Run(t, s, n) == Some(o) && o.regs == s.regs && o.mem == s.mem
    ensures o.rip == if GoesSlow(t, i, s) then Label(t, i).value else FastTarget(t, i, s)
  {
    DecisionInsn(t, i);
    hide Fetch, Run, CheckHolds, PastCheck;
    var a := Step(t, s).value;
    OneStep(t, s, a);
    if t[i + 11] == 0x7e || !TakesJle(s) {
      n, o := 1, a;
    } else {
      assert a == s.(rip := i + 13);
      var k;
      k, o := CheckRuns(t, i, a);
      CheckFlags(t, i, s, a);
      n := 1 + k;
      RunAppend(t, s, 1, k);
    }
  }

  lemma {:induction false} OneStep(t: seq<byte>, s: Cpu, a: Cpu)
    requires Step(t, s) == Some(a)
    ensures Run(t, s, 1) == Some(a)
  {
    hide Step;
    assert Run(t, a, 0) == Some(a);
  }

  /** The check looks at registers, memory and the zero flag only. */
  lemma {:induction false} CheckFlags(t: seq<byte>, i: int, s: Cpu, a: Cpu)
    requires 0 <= i && i + 20 < |t| && a == s.(rip := a.rip)
    ensures CheckHolds(t, i, a) == CheckHolds(t, i, s)
  {
    hide Load32;
  }

  /** From the first byte of a site, whenever the original takes its slow path, the rewritten text is at the
    * same label with the same registers after seven instructions, and unlike the original it has not
    * written the stream's count. */
  lemma {:induction false} SlowPathKept(t: seq<byte>, i: int, s: Cpu) returns (n: nat, o: Cpu, q: Cpu)
    requires i in Chosen(t, |t|) && s.rip == i && Reg(t[i + 1]) != 4 && ThreeByteCompare(t, i)
    requires Run(t, s, 4).Some? && GoesSlow(t, i, Run(t, s, 4).value)
    ensures 5 <= n <= 7 && Run(t, s, n) == Some(o) && Run(Pass(t, 0), s, 7) == Some(q)
    ensures q.rip == o.rip && q.regs == o.regs && q.mem == s.mem
  {
    hide Run, Pass, Picks, GoesSlow, FastTarget, Label;
    var p := RewrittenSiteRuns(t, i, s);
    q := p;
    var d, k := Run(t, s, 4).value, 0;
    ChosenDecides(t, i);
    k, o := DecisionRuns(t, i, d);
    n := 4 + k;
    RunAppend(t, s, 4, k);
  }

  lemma {:induction false} ChosenDecides(t: seq<byte>, i: int)
    requires i in Chosen(t, |t|)
    ensures 0 <= i && i + 20 < |t| && (t[i + 11] == 0x7f || t[i + 11] == 0x7e) && Label(t, i).Some?
  {
    hide Label;
  }

  /** A compare that the matcher takes for three bytes and the processor does not: with a register operand the
    * next instruction is one byte before the matched jle, with a SIB byte one byte after it. */
  lemma {:induction false} CompareMismatch(t: seq<byte>, i: int, s: Cpu)
    requires 0 <= i && i + 20 < |t| && t[i + 13] == 0x3b && s.rip == i + 13
    ensures t[i + 14] / 64 == 3 ==> Run(t, s, 1).Some? && Run(t, s, 1).value.rip == i + 15
    ensures t[i + 14] / 64 == 1 && t[i + 14] % 8 == 4 ==> Run(t, s, 1).Some? && Run(t, s, 1).value.rip == i + 17
  {
    hide Compared, ReadOperand;
    if t[i + 14] / 64 == 3 || (t[i + 14] / 64 == 1 && t[i + 14] % 8 == 4) {
      var (o, n) := OperandAt(t, 0, i + 14).value;
      FetchCompare(t, i + 13);
      hide Fetch;
      Steps(t, s, Decoded(Compare(Reg(t[i + 14]), o), 1 + n));
      var a := Step(t, s).value;
      ComparedKeeps(s.(rip := i + 14 + n), s.regs[Reg(t[i + 14])] % 0x1_0000_0000, ReadOperand(s, false, o),
                    0x1_0000_0000);
      OneStep(t, s, a);
    }
  }

  lemma {:induction false} FetchCompare(t: seq<byte>, p: nat)
    requires p + 1 < |t| && t[p] == 0x3b && OperandAt(t, 0, p + 1).Some?
    ensures var (o, n) := OperandAt(t, 0, p + 1).value; Fetch(t, p) == Some(Decoded(Compare(Reg(t[p + 1]), o), 1 + n))
  {
    hide OperandAt, FetchModRm;
  }

  // ---- the final text, byte by byte ----

  /** The pass changes, for each site that it rewrites, the three bytes of the store and the two of the
    * decision, and no other byte. */
  lemma {:induction false} PassBytes(t: seq<byte>, x: int)
    requires 0 <= x < |t|
    ensures (forall i :: i in Chosen(t, |t|) ==> x !in {i + 6, i + 7, i + 8, i + 11, i + 12}) ==>
              Pass(t, 0)[x] == t[x]
    ensures forall i :: i in Chosen(t, |t|) && i + 6 <= x <= i + 8 ==> Pass(t, 0)[x] == 0x90
    ensures forall i :: i in Chosen(t, |t|) && x == i + 11 ==> Pass(t, 0)[x] == 0xeb
    ensures forall i :: i in Chosen(t, |t|) && x == i + 12 ==>
              Label(t, i).Some? && Rel8(Pass(t, 0)[x], Label(t, i).value - (i + 13))
  {
    PassIsPatchAll(t);
    hide Pass, Picks, Prologue, Label, PatchAll;
    var s := Chosen(t, |t|);
    assert x - 6 in s || x - 7 in s || x - 8 in s || x - 11 in s || x - 12 in s ||
           Pass(t, 0)[x] == t[x];
    forall i | i in s
      ensures i + 6 <= x <= i + 8 ==> Pass(t, 0)[x] == 0x90
      ensures x == i + 11 ==> Pass(t, 0)[x] == 0xeb
      ensures x == i + 12 ==> Label(t, i).Some? && Rel8(Pass(t, 0)[x], Label(t, i).value - (i + 13))
    {
      SiteBytes(t, s, i);
    }
  }
}
