/** Which bytes are a getc cluster, told by the instructions that a compiler writes and not by the matcher. */
module GetcClusters {
  import opened Memory
  import opened Options
  import opened X86
  import opened Getc
  import opened GetcPass
  import opened GetcTwoPhase

  /** The instruction is at `at`, in one of the ways of writing it, and takes `len` bytes. */
  ghost predicate Written(t: seq<byte>, at: nat, opcode: byte, reg: nat, base: int, disp: int, len: nat) {
    exists w :: WrittenAt(t, at, opcode, w, DecOp(reg, base, disp, len))
  }

  /** A jle or jg of either length from `c.jmp` to `c.end`. */
  predicate BranchWritten(t: seq<byte>, c: Cluster) {
    || (c.end == c.jmp + 2 && c.end <= |t| && t[c.jmp] == if c.jle then 0x7e else 0x7f)
    || (c.end == c.jmp + 6 && c.end <= |t| && t[c.jmp] == 0x0f && t[c.jmp + 1] == if c.jle then 0x8e else 0x8f)
  }

  /** mov rL,[rB+8]; lea rD,[rL-1]; mov [rB+8],rD; test rL,rL; jle or jg: one after the other. */
  ghost predicate GetcWritten(t: seq<byte>, c: Cluster, L: nat, D: nat, B: nat) {
    && c.load < c.lea < c.store < c.test < c.jmp
    && Written(t, c.load, 0x8b, L, B, 8, c.lea - c.load)
    && Written(t, c.lea, 0x8d, D, L, -1, c.store - c.lea)
    && Written(t, c.store, 0x89, D, B, 8, c.test - c.store)
    && Written(t, c.test, 0x85, L, -1, 0, c.jmp - c.test)
    && BranchWritten(t, c)
  }

  lemma {:induction false} WrittenIff(t: seq<byte>, at: nat, opcode: byte, reg: nat, base: int, disp: int, len: nat)
    requires opcode / 16 != 4
    ensures Written(t, at, opcode, reg, base, disp, len) <==> Dec(t, at, opcode) == Some(DecOp(reg, base, disp, len))
  {
    hide Dec, WrittenAt;
    DecIff(t, at, opcode, DecOp(reg, base, disp, len));
  }

  lemma {:induction false} BranchIff(t: seq<byte>, c: Cluster)
    ensures BranchWritten(t, c) <==> c.jmp <= c.end && BranchAt(t, c.jmp) == Some((c.end - c.jmp, c.jle))
  {
  }

  /** The matcher takes exactly the five instructions for a cluster, for any registers and however the
    * compiler writes each of them. */
  lemma {:induction false} ClusterIff(t: seq<byte>, c: Cluster)
    ensures IsCluster(t, c) <==> exists L, D, B :: GetcWritten(t, c, L, D, B)
  {
    if IsCluster(t, c) { ClusterWritten(t, c); }
    if L, D, B :| GetcWritten(t, c, L, D, B) { WrittenCluster(t, c, L, D, B); }
  }

  lemma {:induction false} ClusterWritten(t: seq<byte>, c: Cluster)
    requires IsCluster(t, c)
    ensures exists L, D, B :: GetcWritten(t, c, L, D, B)
  {
    hide Dec, Written, BranchAt, BranchWritten;
    ClusterShape(t, c);
    var lea, ld := Dec(t, c.lea, 0x8d).value, Dec(t, c.load, 0x8b).value;
    var L, D, B := lea.base, lea.reg, ld.base;
    WrittenIff(t, c.load, 0x8b, L, B, 8, c.lea - c.load);
    WrittenIff(t, c.lea, 0x8d, D, L, -1, c.store - c.lea);
    WrittenIff(t, c.store, 0x89, D, B, 8, c.test - c.store);
    RegisterDisp(t, c.test, 0x85);
    WrittenIff(t, c.test, 0x85, L, -1, 0, c.jmp - c.test);
    BranchIff(t, c);
    assert GetcWritten(t, c, L, D, B);
  }

  lemma {:induction false} RegisterDisp(t: seq<byte>, at: nat, opcode: byte)
    requires Dec(t, at, opcode).Some? && Dec(t, at, opcode).value.base == -1
    ensures Dec(t, at, opcode).value.disp == 0
  {
  }

  lemma {:induction false} WrittenCluster(t: seq<byte>, c: Cluster, L: nat, D: nat, B: nat)
    requires GetcWritten(t, c, L, D, B)
    ensures IsCluster(t, c)
  {
    hide Dec, Written, BranchAt, BranchWritten;
    WrittenIff(t, c.load, 0x8b, L, B, 8, c.lea - c.load);
    WrittenIff(t, c.lea, 0x8d, D, L, -1, c.store - c.lea);
    WrittenIff(t, c.store, 0x89, D, B, 8, c.test - c.store);
    WrittenIff(t, c.test, 0x85, L, -1, 0, c.jmp - c.test);
    BranchIff(t, c);
    DecLen(t, c.load, 0x8b);
  }

  /** The original text's matches are its clusters whose lea is at 5 or later and at least thirteen bytes before
    * the end, of two at one lea the one that starts first. */
  lemma {:induction false} MatchesIff(t: seq<byte>, c: Cluster)
    ensures c in Matches(t, 5) <==>
              && 5 <= c.lea && c.lea + 12 < |t| && IsCluster(t, c)
              && (forall d :: IsCluster(t, d) && d.lea == c.lea ==> c.load <= d.load)
  {
    hide Match, IsCluster, Matches;
    if c in Matches(t, 5) {
      MatchesFrom(t, 5, c);
      MatchIsCluster(t, c.lea);
      forall d | IsCluster(t, d) && d.lea == c.lea ensures c.load <= d.load { LongestFirst(t, d); }
    }
    if 5 <= c.lea && c.lea + 12 < |t| && IsCluster(t, c) &&
       forall d :: IsCluster(t, d) && d.lea == c.lea ==> c.load <= d.load
    {
      LongestFirst(t, c);
      MatchIsCluster(t, c.lea);
      MatchesHas(t, 5, c.lea);
    }
  }

  lemma {:induction false} MatchesFrom(t: seq<byte>, i: nat, c: Cluster)
    requires 5 <= i && c in Matches(t, i)
    ensures i <= c.lea && Matched(t, c.lea) && Match(t, c.lea).value == c
    decreases |t| - i
  {
    hide Match;
    MatchesUnfold(t, i);
    if i + 12 < |t| {
      if Match(t, i).Some? { MatchIsCluster(t, i); }
      if c in Matches(t, i + 1) { MatchesFrom(t, i + 1, c); }
    }
  }
}
