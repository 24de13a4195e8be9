/** The rewrite of inlined getc macros: a small instruction decoder, the cluster matcher, the patch,
  * and what the patched bytes do when they run. */
module Getc {
  import opened Memory
  import opened Options
  import opened X86

  // ---- the decoder ----

  /** base is -1 for a register operand. */
  datatype DecOp = DecOp(reg: nat, base: int, disp: int, len: nat)

  /** The operands from the ModR/M byte at `m` on; `len` counts from `m`. */
  function DecOperands(t: seq<byte>, rex: byte, m: nat): Option<DecOp> {
    if m >= |t| then None
    else
      var reg := Reg(t[m]) + 8 * BitR(rex);
      if Mod(t[m]) == 3 then
        (if Rm(t[m]) + 8 * BitB(rex) != reg then None else Some(DecOp(reg, -1, 0, 1)))
      else if Mod(t[m]) != 1 then None
      else if Rm(t[m]) == 4 then
        (if m + 1 >= |t| || Reg(t[m + 1]) != 4 || m + 2 >= |t| then None
         else Some(DecOp(reg, Rm(t[m + 1]) + 8 * BitB(rex), S8(t[m + 2]), 3)))
      else if m + 1 >= |t| then None
      else Some(DecOp(reg, Rm(t[m]) + 8 * BitB(rex), S8(t[m + 1]), 2))
  }

  /** One `[rex] op modrm [sib] disp8` or `[rex] op modrm` (test r,r) instruction at `at`. */
  function Dec(t: seq<byte>, at: nat, opcode: byte): Option<DecOp> {
    var rex, q := RexAt(t, at), OpcodeAt(t, at);
    if q >= |t| || t[q] != opcode then None
    else
      match DecOperands(t, rex, q + 1)
      case None => None
      case Some(d) => Some(d.(len := q + 1 + d.len - at))
  }

  method DecGetcOp(t: array<byte>, at: nat, opcode: byte) returns (out: Option<DecOp>)
    requires at <= t.Length
    ensures out == Dec(t[..], at, opcode)
  {
    var p, rex: byte := at, 0;
    if p < t.Length && t[p] / 16 == 4 { rex := t[p]; p := p + 1; }
    if p >= t.Length || t[p] != opcode { return None; }
    p := p + 1;
    if p >= t.Length { return None; }
    var modrm := t[p];
    p := p + 1;
    var reg, rm := Reg(modrm) + 8 * BitR(rex), Rm(modrm) + 8 * BitB(rex);
    if Mod(modrm) == 3 {
      if rm != reg { return None; }
      return Some(DecOp(reg, -1, 0, p - at));
    }
    if Mod(modrm) != 1 { return None; }
    if Rm(modrm) == 4 {
      if p >= t.Length { return None; }
      var sib := t[p];
      p := p + 1;
      if Reg(sib) != 4 { return None; }
      rm := Rm(sib) + 8 * BitB(rex);
    }
    if p >= t.Length { return None; }
    var disp := S8(t[p]);
    p := p + 1;
    out := Some(DecOp(reg, rm, disp, p - at));
  }

  /** How an instruction of the decoder's shape may be written: an optional REX byte, and for a
    * memory operand an optional SIB byte, given by its scale field. */
  datatype Writing = Writing(rex: Option<byte>, sib: Option<nat>)

  function Prefix(w: Writing): seq<byte> { if w.rex.Some? then [w.rex.value] else [] }

  function RexOf(w: Writing): byte { if w.rex.Some? then w.rex.value else 0 }

  function ModRm(mod: nat, reg: nat, rm: nat): byte
    requires mod < 4 && reg < 8 && rm < 8
  {
    64 * mod + 8 * reg + rm
  }

  predicate Writable(w: Writing, d: DecOp) {
    && (w.rex.Some? ==> w.rex.value / 16 == 4) && (w.sib.Some? ==> w.sib.value < 4)
    && d.reg < 16 && -1 <= d.base < 16 && -128 <= d.disp < 128
    && d.reg / 8 == BitR(RexOf(w))
    && (if d.base == -1 then d.disp == 0 && w.sib.None? && d.reg / 8 == BitB(RexOf(w))
        else d.base / 8 == BitB(RexOf(w)) && (d.base % 8 == 4 ==> w.sib.Some?))
  }

  /** ModR/M, SIB and displacement bytes, as sections 2.1.3 and 2.2.1 of the Intel SDM Volume 2 lay
    * them out. */
  function Operands(w: Writing, d: DecOp): seq<byte>
    requires Writable(w, d)
  {
    if d.base == -1 then [ModRm(3, d.reg % 8, d.reg % 8)]
    else if w.sib.Some? then [ModRm(1, d.reg % 8, 4), ModRm(w.sib.value, 4, d.base % 8), d.disp % 256]
    else [ModRm(1, d.reg % 8, d.base % 8), d.disp % 256]
  }

  function Assemble(opcode: byte, w: Writing, d: DecOp): seq<byte>
    requires Writable(w, d)
  {
    Prefix(w) + [opcode] + Operands(w, d)
  }

  /** `d` is written as the bytes of `t` at `at`, in the way `w`. */
  predicate WrittenAt(t: seq<byte>, at: nat, opcode: byte, w: Writing, d: DecOp) {
    Writable(w, d) && var e := Assemble(opcode, w, d);
    d.len == |e| && at + |e| <= |t| && t[at..at + |e|] == e
  }

  lemma {:induction false} ModRmFields(mod: nat, reg: nat, rm: nat)
    requires mod < 4 && reg < 8 && rm < 8
    ensures var b := ModRm(mod, reg, rm); Mod(b) == mod && Reg(b) == reg && Rm(b) == rm
  {
    var b := ModRm(mod, reg, rm);
    DivModUnique(b, 64, mod, 8 * reg + rm);
    DivModUnique(b, 8, 8 * mod + reg, rm);
    DivModUnique(8 * mod + reg, 8, mod, reg);
  }

  lemma {:induction false} ModRmOf(b: byte)
    ensures Mod(b) < 4 && ModRm(Mod(b), Reg(b), Rm(b)) == b
  {
  }

  lemma {:induction false} OperandsComplete(t: seq<byte>, m: nat, w: Writing, d: DecOp)
    requires Writable(w, d) && m + |Operands(w, d)| <= |t| && t[m..m + |Operands(w, d)|] == Operands(w, d)
    ensures DecOperands(t, RexOf(w), m) == Some(d.(len := |Operands(w, d)|))
  {
    hide Mod, Reg, Rm, ModRm, BitR, BitB;
    var e := Operands(w, d);
    forall i | 0 <= i < |e| ensures t[m + i] == e[i] { assert t[m..m + |e|][i] == t[m + i]; }
    if d.base == -1 {
      ModRmFields(3, d.reg % 8, d.reg % 8);
    } else if w.sib.Some? {
      ModRmFields(1, d.reg % 8, 4);
      ModRmFields(w.sib.value, 4, d.base % 8);
    } else {
      ModRmFields(1, d.reg % 8, d.base % 8);
    }
  }

  /** Complete: every way of writing the instruction is decoded back to it. */
  lemma {:induction false} DecComplete(t: seq<byte>, at: nat, opcode: byte, w: Writing, d: DecOp)
    requires opcode / 16 != 4 && WrittenAt(t, at, opcode, w, d)
    ensures Dec(t, at, opcode) == Some(d)
  {
    hide DecOperands, Operands, Writable;
    var e, k := Assemble(opcode, w, d), |Prefix(w)|;
    forall i | 0 <= i < |e| ensures t[at + i] == e[i] { assert t[at..at + |e|][i] == t[at + i]; }
    assert t[at + k] == opcode;
    assert w.rex.Some? ==> t[at] == w.rex.value && w.rex.value / 16 == 4 by { WritableRex(w, d); }
    assert t[at + k + 1..at + |e|] == Operands(w, d);
    OperandsComplete(t, at + k + 1, w, d);
  }

  lemma {:induction false} WritableRex(w: Writing, d: DecOp)
    requires Writable(w, d)
    ensures w.rex.Some? ==> w.rex.value / 16 == 4
  {
  }

  lemma {:induction false} OperandsSound(t: seq<byte>, rex: Option<byte>, m: nat) returns (w: Writing)
    requires rex.Some? ==> rex.value / 16 == 4
    requires DecOperands(t, RexOf(Writing(rex, None)), m).Some?
    ensures w.rex == rex
    ensures var d := DecOperands(t, RexOf(w), m).value;
            Writable(w, d) && d.len == |Operands(w, d)| && m + d.len <= |t| && t[m..m + d.len] == Operands(w, d)
  {
    hide Mod, Reg, Rm, ModRm;
    var d := DecOperands(t, RexOf(Writing(rex, None)), m).value;
    FieldBounds(t[m]);
    ModRmOf(t[m]);
    if Mod(t[m]) == 1 && Rm(t[m]) == 4 {
      FieldBounds(t[m + 1]);
      ModRmOf(t[m + 1]);
      w := Writing(rex, Some(Mod(t[m + 1])));
    } else {
      w := Writing(rex, None);
    }
    hide DecOperands;
    SliceOf(t, m, Operands(w, d));
  }

  lemma {:induction false} SliceOf(t: seq<byte>, m: nat, e: seq<byte>)
    requires m + |e| <= |t| && forall i :: 0 <= i < |e| ==> e[i] == t[m + i]
    ensures t[m..m + |e|] == e
  {
  }

  lemma {:induction false} FieldBounds(b: byte)
    ensures Mod(b) < 4 && Reg(b) < 8 && Rm(b) < 8
  {
  }

  /** Sound: whatever is decoded is one of the ways of writing exactly that instruction. */
  lemma {:induction false} DecSound(t: seq<byte>, at: nat, opcode: byte) returns (w: Writing)
    requires Dec(t, at, opcode).Some?
    ensures WrittenAt(t, at, opcode, w, Dec(t, at, opcode).value)
  {
    hide DecOperands, Operands, Writable;
    var q := OpcodeAt(t, at);
    w := OperandsSound(t, if HasRex(t, at) then Some(t[at]) else None, q + 1);
    var d := Dec(t, at, opcode).value;
    var n := q + 1 + |Operands(w, DecOperands(t, RexOf(w), q + 1).value)|;
    OperandsLen(w, DecOperands(t, RexOf(w), q + 1).value, d);
    assert t[at..n] == Prefix(w) + [opcode] + t[q + 1..n];
  }

  /** The length field plays no part in how an instruction is written. */
  lemma {:induction false} OperandsLen(w: Writing, d: DecOp, d': DecOp)
    requires Writable(w, d) && d' == d.(len := d'.len)
    ensures Writable(w, d') && Operands(w, d') == Operands(w, d)
  {
  }

  lemma {:induction false} DecIff(t: seq<byte>, at: nat, opcode: byte, d: DecOp)
    requires opcode / 16 != 4
    ensures Dec(t, at, opcode) == Some(d) <==> exists w :: WrittenAt(t, at, opcode, w, d)
  {
    hide Dec, WrittenAt;
    if Dec(t, at, opcode) == Some(d) {
      var w := DecSound(t, at, opcode);
    }
    if w :| WrittenAt(t, at, opcode, w, d) {
      DecComplete(t, at, opcode, w, d);
    }
  }

  // ---- the decoder against the instruction set ----

  /** The memory operand is written with a SIB byte and REX.X is set. */
  predicate IndexedBySib(t: seq<byte>, at: nat) {
    var m := OpcodeAt(t, at) + 1;
    m < |t| && Mod(t[m]) == 1 && Rm(t[m]) == 4 && BitX(RexAt(t, at)) == 1
  }

  /** What the processor executes where the decoder matched: the decoded registers and displacement
    * with the decoded length, plus an index register (r12) exactly when a SIB byte comes with REX.X. */
  lemma {:induction false} DecFetch(t: seq<byte>, at: nat, opcode: byte)
    requires IsModRmOpcode(opcode) && Dec(t, at, opcode).Some?
    requires opcode == 0x85 ==> Dec(t, at, opcode).value.base == -1
    requires opcode == 0x8d ==> Dec(t, at, opcode).value.base != -1
    ensures Fetch(t, at).Some? && Fetch(t, at).value.len == Dec(t, at, opcode).value.len
    ensures var d := Dec(t, at, opcode).value;
            var o := if d.base == -1 then InReg(d.reg)
                     else
                       var index := if IndexedBySib(t, at) then Some((12, Mod(t[OpcodeAt(t, at) + 2]))) else None;
                       InMem(d.base, index, d.disp);
            Some(Fetch(t, at).value.insn) == ModRmInsn(opcode, BitW(RexAt(t, at)), d.reg, o)
  {
    hide Mod, Reg, Rm, BitW, BitR, BitB;
  }

  // ---- clusters ----

  /** A matched getc cluster: where its five instructions are. */
  datatype Cluster = Cluster(load: nat, lea: nat, store: nat, test: nat, jmp: nat, end: nat, jle: bool)

  /** The branch at `p`: its length and whether it is jle (else jg). */
  function BranchAt(t: seq<byte>, p: nat): Option<(nat, bool)> {
    if p + 1 >= |t| then None
    else if t[p] == 0x7e then Some((2, true))
    else if t[p] == 0x7f then Some((2, false))
    else if t[p] == 0x0f && p + 5 < |t| && (t[p + 1] == 0x8e || t[p + 1] == 0x8f) then Some((6, t[p + 1] == 0x8e))
    else None
  }

  /** The store, test and branch that must follow a lea rD,[rL-1] ending at `s`. */
  function RestOfCluster(t: seq<byte>, s: nat, L: nat, D: nat, B: nat): Option<(nat, nat, nat, bool)> {
    match Dec(t, s, 0x89)
    case None => None
    case Some(st) =>
      if st.disp != 8 || st.base != B || st.reg != D then None
      else
        var te := s + st.len;
        match Dec(t, te, 0x85)
        case None => None
        case Some(ts) =>
          if ts.base != -1 || ts.reg != L then None
          else
            var j := te + ts.len;
            match BranchAt(t, j)
            case None => None
            case Some((n, jle)) => Some((te, j, j + n, jle))
  }

  /** The cluster whose lea is at `i` and whose load takes the `k` bytes before it. */
  function MatchK(t: seq<byte>, i: nat, k: nat): Option<Cluster>
    requires k <= i
  {
    match Dec(t, i, 0x8d)
    case None => None
    case Some(lea) =>
      if lea.base < 0 || lea.disp != -1 then None
      else
        match Dec(t, i - k, 0x8b)
        case None => None
        case Some(ld) =>
          if ld.len != k || ld.disp != 8 || ld.base < 0 || ld.reg != lea.base then None
          else
            match RestOfCluster(t, i + lea.len, lea.base, lea.reg, ld.base)
            case None => None
            case Some((te, j, e, jle)) => Some(Cluster(i - k, i, i + lea.len, te, j, e, jle))
  }

  /** Longest load first. */
  function Match(t: seq<byte>, i: nat): Option<Cluster>
    requires 5 <= i
  {
    if MatchK(t, i, 5).Some? then MatchK(t, i, 5)
    else if MatchK(t, i, 4).Some? then MatchK(t, i, 4)
    else MatchK(t, i, 3)
  }

  predicate IsCluster(t: seq<byte>, c: Cluster) {
    c.load <= c.lea && 3 <= c.lea - c.load <= 5 && MatchK(t, c.lea, c.lea - c.load) == Some(c)
  }

  lemma {:induction false} MatchIsCluster(t: seq<byte>, i: nat)
    requires 5 <= i && Match(t, i).Some?
    ensures IsCluster(t, Match(t, i).value) && Match(t, i).value.lea == i
  {
    hide Dec, RestOfCluster;
  }

  // ---- the patch ----

  /** disp + 1 in 32-bit arithmetic, little-endian. */
  function BumpedDisp(t: seq<byte>, p: nat): seq<byte>
    requires p + 4 <= |t|
  {
    LE(Wrap32(S32(t[p], t[p + 1], t[p + 2], t[p + 3]) + 1), 4)
  }

  function Wrap32(x: int): nat { x % 0x1_0000_0000 }

  function Nops(n: nat): (s: seq<byte>)
    ensures |s| == n && forall i :: 0 <= i < n ==> s[i] == 0x90
  {
    seq<byte>(n, i => 0x90)
  }

  /** The bytes that replace the branch: a jump to the same target, or nothing. */
  function NewBranch(t: seq<byte>, c: Cluster): (s: seq<byte>)
    requires c.jmp < c.end <= |t| && (c.end - c.jmp == 2 || c.end - c.jmp == 6)
    ensures |s| == c.end - c.jmp
  {
    if !c.jle then Nops(c.end - c.jmp)
    else if c.end - c.jmp == 2 then [0xeb, t[c.jmp + 1]]
    else [0xe9] + BumpedDisp(t, c.jmp + 2) + [0x90]
  }

  predicate Shape(t: seq<byte>, c: Cluster) {
    && c.load < c.lea < c.store < c.test < c.jmp < c.end <= |t|
    && (c.end - c.jmp == 2 || c.end - c.jmp == 6)
    && c.lea - c.load <= 5 && c.test - c.store <= 5 && c.jmp - c.test <= 3
  }

  function Patch(t: seq<byte>, c: Cluster): (r: seq<byte>)
    requires Shape(t, c)
    ensures |r| == |t|
  {
    t[..c.store] + Nops(c.test - c.store) + t[c.test..c.jmp] + NewBranch(t, c) + t[c.end..]
  }

  lemma {:induction false} DecLen(t: seq<byte>, at: nat, opcode: byte)
    requires Dec(t, at, opcode).Some?
    ensures var d := Dec(t, at, opcode).value;
            2 <= d.len <= 5 && at + d.len <= |t| && (d.base == -1 ==> d.len <= 3) && (d.base != -1 ==> 3 <= d.len)
  {
  }

  lemma {:induction false} ClusterShape(t: seq<byte>, c: Cluster)
    requires IsCluster(t, c)
    ensures Shape(t, c)
  {
    hide Dec;
    DecLen(t, c.lea, 0x8d);
    DecLen(t, c.load, 0x8b);
    DecLen(t, c.store, 0x89);
    DecLen(t, c.test, 0x85);
  }

  // ---- running a cluster ----

  /** The processor executes exactly the five matched instructions. */
  lemma {:induction false} ClusterInsns(t: seq<byte>, c: Cluster)
    requires IsCluster(t, c)
    ensures Fetch(t, c.load).Some? && Fetch(t, c.load).value.len == c.lea - c.load
    ensures Fetch(t, c.load).value.insn.Load? && Fetch(t, c.load).value.insn.src.InMem?
    ensures Fetch(t, c.lea).Some? && Fetch(t, c.lea).value.len == c.store - c.lea && Fetch(t, c.lea).value.insn.Lea?
    ensures Fetch(t, c.store).Some? && Fetch(t, c.store).value.len == c.test - c.store
    ensures Fetch(t, c.store).value.insn.StoreReg? && Fetch(t, c.store).value.insn.to.InMem?
    ensures Fetch(t, c.test).Some? && Fetch(t, c.test).value.len == c.jmp - c.test
              && Fetch(t, c.test).value.insn.TestSelf?
  {
    hide Dec, Fetch, IndexedBySib;
    DecFetch(t, c.load, 0x8b);
    DecFetch(t, c.lea, 0x8d);
    DecFetch(t, c.store, 0x89);
    DecFetch(t, c.test, 0x85);
  }

  /** The displacement of the original branch. */
  function BranchDisp(t: seq<byte>, c: Cluster): int
    requires Shape(t, c)
  {
    if c.end - c.jmp == 2 then S8(t[c.jmp + 1])
    else S32(t[c.jmp + 2], t[c.jmp + 3], t[c.jmp + 4], t[c.jmp + 5])
  }

  lemma {:induction false} ClusterBranch(t: seq<byte>, c: Cluster)
    requires IsCluster(t, c) && Shape(t, c)
    ensures Fetch(t, c.jmp) ==
            Some(Decoded(if c.jle then Jle(BranchDisp(t, c)) else Jg(BranchDisp(t, c)), c.end - c.jmp))
  {
    hide Dec, FetchModRm, S32, S8;
    assert BranchAt(t, c.jmp) == Some((c.end - c.jmp, c.jle));
  }

  /** Where the original goes when the buffer is empty, and where it goes otherwise. */
  function SlowPath(t: seq<byte>, c: Cluster): int
    requires Shape(t, c)
  {
    if c.jle then c.end + BranchDisp(t, c) else c.end
  }

  function FastPath(t: seq<byte>, c: Cluster): int
    requires Shape(t, c)
  {
    if c.jle then c.end else c.end + BranchDisp(t, c)
  }

  /** A near jle whose displacement is the largest int32: the patch adds one to it and wraps. */
  predicate DispOverflows(t: seq<byte>, c: Cluster)
    requires Shape(t, c)
  {
    c.jle && c.end - c.jmp == 6 && BranchDisp(t, c) == 0x7FFF_FFFF
  }

  lemma {:induction false} FourBytes(v: nat)
    requires v < 0x1_0000_0000
    ensures var s := LE(v, 4); U32(s[0], s[1], s[2], s[3]) == v
  {
    var s := LE(v, 4);
    assert Pow256(4) == 0x1_0000_0000;
    FromLEofLE(v, 4);
    assert FromLE(s) == s[0] + 256 * FromLE(s[1..]);
    assert s[1..][1..] == s[2..] && s[2..][1..] == s[3..] && s[3..] == [s[3]];
    assert FromLE(s[1..]) == s[1] + 256 * FromLE(s[2..]);
    assert FromLE(s[2..]) == s[2] + 256 * FromLE(s[3..]);
  }

  lemma {:induction false} U32Bound(b0: byte, b1: byte, b2: byte, b3: byte)
    ensures U32(b0, b1, b2, b3) < 0x1_0000_0000
  {
  }

  lemma {:induction false} BumpedValue(t: seq<byte>, p: nat)
    requires p + 4 <= |t|
    ensures var s, d := BumpedDisp(t, p), S32(t[p], t[p + 1], t[p + 2], t[p + 3]);
            |s| == 4 && S32(s[0], s[1], s[2], s[3]) == if d == 0x7FFF_FFFF then -0x8000_0000 else d + 1
  {
    hide U32, LE;
    var d := S32(t[p], t[p + 1], t[p + 2], t[p + 3]);
    U32Bound(t[p], t[p + 1], t[p + 2], t[p + 3]);
    FourBytes(Wrap32(d + 1));
  }

  /** The rewritten branch sits at c.jmp and, in every state, leads to the slow path (one byte after
    * the wrapped target when the displacement overflows); at most six steps. */
  lemma {:induction false} NewBranchRuns(t: seq<byte>, f: seq<byte>, c: Cluster, s: Cpu)
    requires Shape(t, c) && |f| == |t| && f[c.jmp..c.end] == NewBranch(t, c) && s.rip == c.jmp
    ensures var n := if c.jle then 1 else c.end - c.jmp;
            Run(f, s, n) == Some(s.(rip := if DispOverflows(t, c) then SlowPath(t, c) - 0x1_0000_0000
                else SlowPath(t, c)))
  {
    hide LE, Fetch, S32, Run;
    var b := NewBranch(t, c);
    forall i | 0 <= i < |b| ensures f[c.jmp + i] == b[i] { assert f[c.jmp..c.end][i] == f[c.jmp + i]; }
    if !c.jle {
      NopSled(f, s, c.end - c.jmp);
    } else if c.end - c.jmp == 2 {
      assert f[c.jmp + 0] == b[0] && f[c.jmp + 1] == b[1];
      ShortJump(f, c.jmp);
      JumpStep(f, s, S8(f[c.jmp + 1]), 2);
    } else {
      BumpedValue(t, c.jmp + 2);
      assert f[c.jmp + 0] == b[0] && f[c.jmp + 1] == b[1] && f[c.jmp + 2] == b[2] && f[c.jmp + 3] == b[3]
                && f[c.jmp + 4] == b[4];
      NearJump(f, c.jmp);
      JumpStep(f, s, S32(f[c.jmp + 1], f[c.jmp + 2], f[c.jmp + 3], f[c.jmp + 4]), 5);
    }
  }

  /** Steps from the load to the end of the rewritten branch. */
  function PatchedSteps(c: Cluster): int {
    3 + (c.test - c.store) + if c.jle then 1 else c.end - c.jmp
  }

  /** The cluster's bytes in `f` are the patched ones. */
  predicate CarriesPatch(t: seq<byte>, f: seq<byte>, c: Cluster)
    requires Shape(t, c)
  {
    SameBytes(Patch(t, c), f, c.load, c.end)
  }

  /** What the original does from the load to its branch. */
  lemma {:induction false} OriginalRun(t: seq<byte>, c: Cluster, s: Cpu) returns (a: Cpu, o: Cpu)
    requires IsCluster(t, c) && Shape(t, c) && s.rip == c.load
    ensures Run(t, s, 2) == Some(a) && a.rip == c.store && a.mem == s.mem
    ensures Run(t, s, 4) == Some(o) && o.rip == c.jmp && o.regs == a.regs
    ensures Step(t, a.(rip := c.test)) == Some(o.(mem := s.mem))
    ensures Step(t, o) == Some(o.(rip := if TakesJle(o) then SlowPath(t, c) else FastPath(t, c)))
  {
    hide Fetch, Step, IsCluster, BranchDisp;
    ClusterInsns(t, c);
    StepLoad(t, s);
    var s1 := Step(t, s).value;
    StepLea(t, s1);
    a := Step(t, s1).value;
    assert Run(t, s1, 1) == Some(a) && Run(t, s, 2) == Some(a);
    StepStore(t, a);
    var s3 := Step(t, a).value;
    StepTest(t, s3, s.mem);
    o := Step(t, s3).value;
    assert Run(t, s3, 1) == Some(o) && Run(t, a, 2) == Some(o);
    RunAppend(t, s, 2, 2);
    assert s3.(mem := s.mem) == a.(rip := c.test);
    StepBranch(t, c, o);
  }

  lemma {:induction false} StepBranch(t: seq<byte>, c: Cluster, o: Cpu)
    requires IsCluster(t, c) && Shape(t, c) && o.rip == c.jmp
    ensures Step(t, o) == Some(o.(rip := if TakesJle(o) then SlowPath(t, c) else FastPath(t, c)))
  {
    hide Fetch, IsCluster, BranchDisp;
    ClusterBranch(t, c);
  }

  /** A patched cluster, run from its load in any state: it reaches the original slow path, memory is
    * never written, and registers and flags are those the original has at its branch. */
  lemma {:induction false} PatchedRun(t: seq<byte>, f: seq<byte>, c: Cluster, s: Cpu) returns (o: Cpu)
    requires IsCluster(t, c) && Shape(t, c) && CarriesPatch(t, f, c) && s.rip == c.load
    ensures Run(t, s, 4) == Some(o)
    ensures Step(t, o) == Some(o.(rip := if TakesJle(o) then SlowPath(t, c) else FastPath(t, c)))
    ensures !DispOverflows(t, c) ==> Run(f, s, PatchedSteps(c)) == Some(o.(mem := s.mem, rip := SlowPath(t, c)))
    ensures DispOverflows(t, c) ==>
              Run(f, s, PatchedSteps(c)) == Some(o.(mem := s.mem, rip := SlowPath(t, c) - 0x1_0000_0000))
  {
    hide Fetch, Step, Patch, IsCluster, DispOverflows;
    var a;
    a, o := OriginalRun(t, c, s);
    PatchedPieces(t, f, c);
    ClusterInsns(t, c);
    SameTwoSteps(t, f, c, s);
    NopSled(f, a, c.test - c.store);
    var a' := a.(rip := c.test);
    SameStep(t, f, a');
    var o' := o.(mem := s.mem);
    var n := if c.jle then 1 else c.end - c.jmp;
    NewBranchRuns(t, f, c, o');
    RunAppend(f, s, 2, c.test - c.store + (1 + n));
    RunAppend(f, a, c.test - c.store, 1 + n);
    assert Run(f, a', 1 + n) == Run(f, o', n);
  }

  lemma {:induction false} SameTwoSteps(t: seq<byte>, f: seq<byte>, c: Cluster, s: Cpu)
    requires s.rip == c.load && c.load <= c.lea <= c.store
    requires Fetch(t, c.load).Some? && Fetch(t, c.load).value.len == c.lea - c.load && Fetch(t, c.load).value.insn.Load?
    requires Fetch(t, c.lea).Some? && Fetch(t, c.lea).value.len == c.store - c.lea
    requires SameBytes(t, f, c.load, c.store)
    ensures Run(f, s, 2) == Run(t, s, 2)
  {
    hide Fetch, ReadOperand, Effective;
    SameStep(t, f, s);
    FetchOk(t, c.load);
    var s1 := Step(t, s).value;
    assert s1.rip == c.lea;
    SameStep(t, f, s1);
    assert Run(f, s1, 1) == Run(t, s1, 1) by { hide Step; }
  }

  /** Where the pieces of a patched cluster are. */
  lemma {:induction false} PatchedPieces(t: seq<byte>, f: seq<byte>, c: Cluster)
    requires Shape(t, c) && CarriesPatch(t, f, c)
    ensures SameBytes(t, f, c.load, c.store) && SameBytes(t, f, c.test, c.jmp)
    ensures forall x :: c.store <= x < c.test ==> f[x] == 0x90
    ensures f[c.jmp..c.end] == NewBranch(t, c)
  {
    hide NewBranch;
    var r := Patch(t, c);
    assert forall x :: c.load <= x < c.end ==> f[x] == r[x];
    assert r[c.jmp..c.end] == NewBranch(t, c);
    assert f[c.jmp..c.end] == r[c.jmp..c.end];
  }
}
