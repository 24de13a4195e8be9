/** A fragment of x86-64: the encodings of sections 2.1.3 (ModR/M and SIB) and 2.2.1 (REX) of the
  * Intel SDM Volume 2 that the rewriters match and produce, and what each instruction does. */
module X86 {
  import opened Memory
  import opened Options

  function Mod(b: byte): nat { b / 64 }
  function Reg(b: byte): nat { b / 8 % 8 }
  function Rm(b: byte): nat { b % 8 }

  /** A byte read as int8_t, four bytes read as int32_t. */
  function S8(b: byte): int { if b < 128 then b else b - 256 }

  function U32(b0: byte, b1: byte, b2: byte, b3: byte): nat {
    b0 + 0x100 * b1 + 0x1_0000 * b2 + 0x100_0000 * b3
  }

  function S32(b0: byte, b1: byte, b2: byte, b3: byte): int {
    var u := U32(b0, b1, b2, b3);
    if u < 0x8000_0000 then u else u - 0x1_0000_0000
  }

  function BitW(rex: byte): bool { rex / 8 % 2 == 1 }
  function BitR(rex: byte): nat { rex / 4 % 2 }
  function BitX(rex: byte): nat { rex / 2 % 2 }
  function BitB(rex: byte): nat { rex % 2 }

  // ---- decoding ----

  datatype Operand = InReg(r: nat) | InMem(base: nat, index: Option<(nat, nat)>, disp: int)

  datatype Insn =
    | Load(wide: bool, dst: nat, src: Operand)
    | Lea(wide: bool, dst: nat, addr: Operand)
    | StoreReg(wide: bool, to: Operand, from: nat)
    | TestSelf(wide: bool, r: nat)
    | Compare(r: nat, src: Operand)
    | CompareImm(bytes: nat, imm: nat)
    | Je(disp: int)
    | Jle(disp: int)
    | Jg(disp: int)
    | Jmp(disp: int)
    | Nop

  datatype Decoded = Decoded(insn: Insn, len: nat)

  predicate HasRex(t: seq<byte>, p: nat) { p < |t| && t[p] / 16 == 4 }

  function RexAt(t: seq<byte>, p: nat): byte { if HasRex(t, p) then t[p] else 0 }

  function OpcodeAt(t: seq<byte>, p: nat): nat { if HasRex(t, p) then p + 1 else p }

  /** The register-or-memory operand whose ModR/M byte is at `m`, and the bytes it takes up; only
    * register operands and [base + index*scale + disp8] are covered. */
  function OperandAt(t: seq<byte>, rex: byte, m: nat): Option<(Operand, nat)> {
    if m >= |t| then None
    else if Mod(t[m]) == 3 then Some((InReg(Rm(t[m]) + 8 * BitB(rex)), 1))
    else if Mod(t[m]) != 1 then None
    else if Rm(t[m]) == 4 then
      if m + 2 >= |t| then None
      else
        var index := Reg(t[m + 1]) + 8 * BitX(rex);
        Some((InMem(Rm(t[m + 1]) + 8 * BitB(rex), if index == 4 then None else Some((index, Mod(t[m + 1]))),
                    S8(t[m + 2])), 3))
    else if m + 1 >= |t| then None
    else Some((InMem(Rm(t[m]) + 8 * BitB(rex), None, S8(t[m + 1])), 2))
  }

  function ModRmInsn(op: byte, wide: bool, reg: nat, o: Operand): Option<Insn> {
    if op == 0x8b then Some(Load(wide, reg, o))
    else if op == 0x8d && o.InMem? then Some(Lea(wide, reg, o))
    else if op == 0x89 then Some(StoreReg(wide, o, reg))
    else if op == 0x85 && o == InReg(reg) then Some(TestSelf(wide, reg))
    else None
  }

  function FetchModRm(t: seq<byte>, p: nat): Option<Decoded> {
    var rex, q := RexAt(t, p), OpcodeAt(t, p);
    if q >= |t| then None
    else
      match OperandAt(t, rex, q + 1)
      case None => None
      case Some((o, n)) =>
        match ModRmInsn(t[q], BitW(rex), Reg(t[q + 1]) + 8 * BitR(rex), o)
        case None => None
        case Some(insn) => Some(Decoded(insn, q + 1 + n - p))
  }

  function FetchBranch(t: seq<byte>, p: nat): Option<Decoded> {
    if p >= |t| then None
    else if t[p] == 0x90 then Some(Decoded(Nop, 1))
    else if p + 1 >= |t| then None
    else if t[p] == 0x3b then
      (match OperandAt(t, 0, p + 1)
       case None => None
       case Some((o, n)) => Some(Decoded(Compare(Reg(t[p + 1]), o), 1 + n)))
    else if t[p] == 0x3c then Some(Decoded(CompareImm(1, t[p + 1]), 2))
    else if t[p] == 0x3d && p + 4 < |t| then
      Some(Decoded(CompareImm(4, U32(t[p + 1], t[p + 2], t[p + 3], t[p + 4])), 5))
    else if t[p] == 0x74 then Some(Decoded(Je(S8(t[p + 1])), 2))
    else if t[p] == 0x7e then Some(Decoded(Jle(S8(t[p + 1])), 2))
    else if t[p] == 0x7f then Some(Decoded(Jg(S8(t[p + 1])), 2))
    else if t[p] == 0xeb then Some(Decoded(Jmp(S8(t[p + 1])), 2))
    else if t[p] == 0xe9 && p + 4 < |t| then Some(Decoded(Jmp(S32(t[p + 1], t[p + 2], t[p + 3], t[p + 4])), 5))
    else if t[p] == 0x0f && p + 5 < |t| && t[p + 1] == 0x8e then
      Some(Decoded(Jle(S32(t[p + 2], t[p + 3], t[p + 4], t[p + 5])), 6))
    else if t[p] == 0x0f && p + 5 < |t| && t[p + 1] == 0x8f then
      Some(Decoded(Jg(S32(t[p + 2], t[p + 3], t[p + 4], t[p + 5])), 6))
    else None
  }

  predicate IsModRmOpcode(op: byte) { op == 0x8b || op == 0x8d || op == 0x89 || op == 0x85 }

  /** The instruction at offset `p` of the code, if it belongs to the fragment. */
  function Fetch(t: seq<byte>, p: nat): Option<Decoded> {
    if OpcodeAt(t, p) < |t| && IsModRmOpcode(t[OpcodeAt(t, p)]) then FetchModRm(t, p) else FetchBranch(t, p)
  }

  // ---- execution ----

  type Regs = r: seq<u64> | |r| == 16 witness [0, 0, 0, 0, 0, 0, 0, 0, 0, 0, 0, 0, 0, 0, 0, 0]

  /** `rip` is an offset from the start of the code, which data accesses do not touch. */
  datatype Cpu = Cpu(rip: int, regs: Regs, zf: bool, sf: bool, of: bool, mem: Mem)

  function Scale(ss: nat): int { if ss == 0 then 1 else if ss == 1 then 2 else if ss == 2 then 4 else 8 }

  function Effective(regs: Regs, o: Operand): u64
    requires o.InMem? && o.base < 16 && (o.index.Some? ==> o.index.value.0 < 16)
  {
    var scaled := if o.index.None? then 0 else Scale(o.index.value.1) * regs[o.index.value.0];
    Wrap(regs[o.base] + scaled + o.disp)
  }

  predicate OperandOk(o: Operand) {
    match o
    case InReg(r) => r < 16
    case InMem(b, i, _) => b < 16 && (i.Some? ==> i.value.0 < 16)
  }

  function Narrow(wide: bool, v: u64): u64 { if wide then v else v % 0x1_0000_0000 }

  function ReadOperand(c: Cpu, wide: bool, o: Operand): u64
    requires OperandOk(o)
  {
    match o
    case InReg(r) => Narrow(wide, c.regs[r])
    case InMem(_, _, _) => if wide then Load64(c.mem, Effective(c.regs, o)) else Load32(c.mem, Effective(c.regs, o))
  }

  function WriteReg(c: Cpu, r: nat, v: u64): Cpu
    requires r < 16
  {
    c.(regs := c.regs[r := v])
  }

  predicate TakesJle(c: Cpu) { c.zf || c.sf != c.of }

  predicate InsnOk(insn: Insn) {
    match insn
    case Load(_, d, s) => d < 16 && OperandOk(s)
    case Lea(_, d, a) => d < 16 && a.InMem? && OperandOk(a)
    case StoreReg(_, d, s) => s < 16 && OperandOk(d)
    case TestSelf(_, r) => r < 16
    case Compare(r, s) => r < 16 && OperandOk(s)
    case _ => true
  }

  /** A value below `range` read as a signed one. */
  function Signed(v: int, range: int): int { if v < range / 2 then v else v - range }

  /** The flags of a - b. */
  function Compared(c: Cpu, a: int, b: int, range: int): Cpu
    requires range > 0
  {
    var d := Signed(a, range) - Signed(b, range);
    c.(zf := (a - b) % range == 0, sf := (a - b) % range >= range / 2, of := !(-(range / 2) <= d < range / 2))
  }

  /** After a comparison the signed condition is the signed order, and equality is equality. */
  lemma {:induction false} ComparedOrders(c: Cpu, a: int, b: int, range: int)
    requires (range == 0x100 || range == 0x1_0000_0000) && 0 <= a < range && 0 <= b < range
    ensures TakesJle(Compared(c, a, b, range)) <==> Signed(a, range) <= Signed(b, range)
    ensures Compared(c, a, b, range).zf <==> a == b
  {
    if range == 0x100 {
      DivModUnique(a - b, 0x100, if a >= b then 0 else -1, if a >= b then a - b else a - b + 0x100);
    } else {
      DivModUnique(a - b, 0x1_0000_0000, if a >= b then 0 else -1, if a >= b then a - b else a - b + 0x1_0000_0000);
    }
  }

  /** Executing one instruction of length `len`. */
  function Exec(c: Cpu, insn: Insn, len: nat): Cpu
    requires InsnOk(insn)
  {
    var n := c.(rip := c.rip + len);
    match insn
    case Load(wide, d, s) => WriteReg(n, d, ReadOperand(c, wide, s))
    case Lea(wide, d, a) => WriteReg(n, d, Narrow(wide, Effective(c.regs, a)))
    case StoreReg(wide, d, s) =>
      (match d
       case InReg(r) => WriteReg(n, r, Narrow(wide, c.regs[s]))
       case InMem(_, _, _) => n.(mem := Store(c.mem, Effective(c.regs, d), LE(c.regs[s], if wide then 8 else 4))))
    case TestSelf(wide, r) =>
      var v := Narrow(wide, c.regs[r]);
      n.(zf := v == 0, sf := v >= (if wide then TWO63 else 0x8000_0000), of := false)
    case Compare(r, s) => Compared(n, c.regs[r] % 0x1_0000_0000, ReadOperand(c, false, s), 0x1_0000_0000)
    case CompareImm(bytes, imm) =>
      var range := if bytes == 1 then 0x100 else 0x1_0000_0000;
      Compared(n, c.regs[0] % range, imm % range, range)
    case Je(d) => if c.zf then n.(rip := n.rip + d) else n
    case Jle(d) => if TakesJle(c) then n.(rip := n.rip + d) else n
    case Jg(d) => if TakesJle(c) then n else n.(rip := n.rip + d)
    case Jmp(d) => n.(rip := n.rip + d)
    case Nop => n
  }

  lemma {:induction false} FetchOk(t: seq<byte>, p: nat)
    requires Fetch(t, p).Some?
    ensures InsnOk(Fetch(t, p).value.insn)
  {
  }

  function Step(t: seq<byte>, c: Cpu): Option<Cpu> {
    if c.rip < 0 then None
    else
      match Fetch(t, c.rip)
      case None => None
      case Some(d) => FetchOk(t, c.rip); Some(Exec(c, d.insn, d.len))
  }

  function Run(t: seq<byte>, c: Cpu, n: nat): Option<Cpu>
    decreases n
  {
    if n == 0 then Some(c)
    else match Step(t, c) case None => None case Some(c') => Run(t, c', n - 1)
  }

  lemma {:induction false} RunAppend(t: seq<byte>, c: Cpu, a: nat, b: nat)
    requires Run(t, c, a).Some?
    ensures Run(t, c, a + b) == Run(t, Run(t, c, a).value, b)
    decreases a
  {
    hide Step;
    if a > 0 { RunAppend(t, Step(t, c).value, a - 1, b); }
  }

  // ---- frames ----

  predicate SameBytes(t: seq<byte>, f: seq<byte>, lo: int, hi: int) {
    |f| == |t| && 0 <= lo && hi <= |t| && forall x :: lo <= x < hi ==> f[x] == t[x]
  }

  lemma {:induction false} OperandFrame(t: seq<byte>, f: seq<byte>, rex: byte, m: nat)
    requires OperandAt(t, rex, m).Some? && SameBytes(t, f, m, m + OperandAt(t, rex, m).value.1)
    ensures OperandAt(f, rex, m) == OperandAt(t, rex, m)
  {
  }

  lemma {:induction false} FetchModRmFrame(t: seq<byte>, f: seq<byte>, p: nat)
    requires FetchModRm(t, p).Some? && SameBytes(t, f, p, p + FetchModRm(t, p).value.len)
    ensures FetchModRm(f, p) == FetchModRm(t, p)
    ensures OpcodeAt(f, p) == OpcodeAt(t, p) < |t| && f[OpcodeAt(t, p)] == t[OpcodeAt(t, p)]
  {
    hide OperandAt, ModRmInsn;
    var rex, q := RexAt(t, p), OpcodeAt(t, p);
    assert q + 1 < |t| by { OperandInside(t, rex, q + 1); }
    OperandInside(t, rex, q + 1);
    assert f[p] == t[p];
    OperandFrame(t, f, rex, q + 1);
  }

  lemma {:induction false} OperandInside(t: seq<byte>, rex: byte, m: nat)
    requires OperandAt(t, rex, m).Some?
    ensures 1 <= OperandAt(t, rex, m).value.1 && m + OperandAt(t, rex, m).value.1 <= |t|
  {
  }

  /** An instruction is determined by its own bytes. */
  lemma {:induction false} FetchFrame(t: seq<byte>, f: seq<byte>, p: nat)
    requires Fetch(t, p).Some? && SameBytes(t, f, p, p + Fetch(t, p).value.len)
    ensures Fetch(f, p) == Fetch(t, p)
  {
    hide FetchModRm;
    if OpcodeAt(t, p) < |t| && IsModRmOpcode(t[OpcodeAt(t, p)]) {
      FetchModRmFrame(t, f, p);
    } else {
      assert f[p] == t[p];
      assert !HasRex(t, p);
      if t[p] == 0x3b { OperandInside(t, 0, p + 1); OperandFrame(t, f, 0, p + 1); }
    }
  }

  lemma {:induction false} NopAt(t: seq<byte>, p: nat)
    requires p < |t| && t[p] == 0x90
    ensures Fetch(t, p) == Some(Decoded(Nop, 1))
  {
    hide OperandAt, FetchModRm;
  }

  /** A run of one-byte NOPs only advances rip. */
  lemma {:induction false} NopSled(t: seq<byte>, c: Cpu, n: nat)
    requires 0 <= c.rip && c.rip + n <= |t| && forall x :: c.rip <= x < c.rip + n ==> t[x] == 0x90
    ensures Run(t, c, n) == Some(c.(rip := c.rip + n))
    decreases n
  {
    hide Fetch;
    if n > 0 {
      assert t[c.rip] == 0x90;
      NopAt(t, c.rip);
      NopSled(t, c.(rip := c.rip + 1), n - 1);
    }
  }

  // ---- single steps ----

  lemma {:induction false} SameStep(t: seq<byte>, f: seq<byte>, s: Cpu)
    requires s.rip >= 0 && Fetch(t, s.rip).Some? && SameBytes(t, f, s.rip, s.rip + Fetch(t, s.rip).value.len)
    ensures Step(f, s) == Step(t, s)
  {
    hide Fetch, Exec;
    FetchFrame(t, f, s.rip);
  }

  lemma {:induction false} JumpStep(f: seq<byte>, s: Cpu, disp: int, len: nat)
    requires s.rip >= 0 && Fetch(f, s.rip) == Some(Decoded(Jmp(disp), len))
    ensures Run(f, s, 1) == Some(s.(rip := s.rip + len + disp))
  {
    hide Fetch;
    assert Step(f, s) == Some(s.(rip := s.rip + len + disp));
  }

  lemma {:induction false} ShortJump(f: seq<byte>, p: nat)
    requires p + 1 < |f| && f[p] == 0xeb
    ensures Fetch(f, p) == Some(Decoded(Jmp(S8(f[p + 1])), 2))
  {
  }

  lemma {:induction false} NearJump(f: seq<byte>, p: nat)
    requires p + 4 < |f| && f[p] == 0xe9
    ensures Fetch(f, p) == Some(Decoded(Jmp(S32(f[p + 1], f[p + 2], f[p + 3], f[p + 4])), 5))
  {
  }

  lemma {:induction false} StepLoad(t: seq<byte>, s: Cpu)
    requires s.rip >= 0 && Fetch(t, s.rip).Some? && Fetch(t, s.rip).value.insn.Load?
    ensures Step(t, s).Some?
    ensures Step(t, s).value.rip == s.rip + Fetch(t, s.rip).value.len && Step(t, s).value.mem == s.mem
  {
    hide Fetch, ReadOperand;
    FetchOk(t, s.rip);
  }

  lemma {:induction false} StepLea(t: seq<byte>, s: Cpu)
    requires s.rip >= 0 && Fetch(t, s.rip).Some? && Fetch(t, s.rip).value.insn.Lea?
    ensures Step(t, s).Some?
    ensures Step(t, s).value.rip == s.rip + Fetch(t, s.rip).value.len && Step(t, s).value.mem == s.mem
  {
    hide Fetch, Effective;
    FetchOk(t, s.rip);
  }

  /** A store to memory changes memory and rip only. */
  lemma {:induction false} StepStore(t: seq<byte>, s: Cpu)
    requires s.rip >= 0 && Fetch(t, s.rip).Some?
    requires Fetch(t, s.rip).value.insn.StoreReg? && Fetch(t, s.rip).value.insn.to.InMem?
    ensures Step(t, s).Some?
    ensures Step(t, s).value == s.(rip := s.rip + Fetch(t, s.rip).value.len, mem := Step(t, s).value.mem)
  {
    hide Fetch, Effective, Store, LE;
    FetchOk(t, s.rip);
  }

  /** A test does not look at memory. */
  lemma {:induction false} StepTest(t: seq<byte>, s: Cpu, m: Mem)
    requires s.rip >= 0 && Fetch(t, s.rip).Some? && Fetch(t, s.rip).value.insn.TestSelf?
    ensures Step(t, s).Some? && Step(t, s).value.regs == s.regs
    ensures Step(t, s).value.rip == s.rip + Fetch(t, s.rip).value.len
    ensures Step(t, s.(mem := m)) == Some(Step(t, s).value.(mem := m))
  {
    hide Fetch;
    FetchOk(t, s.rip);
  }
}
