/** The getc scan over a whole section: every rewritten cluster survives the rest of the pass. */
module GetcPass {
  import opened Memory
  import opened Options
  import opened X86
  import opened Getc

  /** The scan from `i` on, matching on the text as patched so far. */
  function Pass(t: seq<byte>, i: nat): (r: seq<byte>)
    requires 5 <= i
    ensures |r| == |t|
    decreases |t| - i
  {
    if i + 12 >= |t| then t
    else
      match Match(t, i)
      case None => Pass(t, i + 1)
      case Some(c) => MatchShape(t, i); Pass(Patch(t, c), i + 1)
  }

  /** The clusters it rewrites, in order. */
  function Found(t: seq<byte>, i: nat): (cs: seq<Cluster>)
    requires 5 <= i
    decreases |t| - i
  {
    if i + 12 >= |t| then []
    else
      match Match(t, i)
      case None => Found(t, i + 1)
      case Some(c) => MatchShape(t, i); [c] + Found(Patch(t, c), i + 1)
  }

  lemma {:induction false} MatchShape(t: seq<byte>, i: nat)
    requires 5 <= i && Match(t, i).Some?
    ensures Shape(t, Match(t, i).value) && IsCluster(t, Match(t, i).value) && Match(t, i).value.lea == i
  {
    MatchIsCluster(t, i);
    ClusterShape(t, Match(t, i).value);
  }

  // ---- bytes that can and cannot occur ----

  predicate PatchByte(b: byte) { b == 0x90 || b == 0xeb || b == 0xe9 }

  /** No byte of a memory-operand instruction of the decoder's shape is one that a patch puts first,
    * and none before the displacement is 8. */
  lemma {:induction false} DecBytes(t: seq<byte>, at: nat, opcode: byte)
    requires opcode in {0x8b, 0x8d, 0x89}
    requires Dec(t, at, opcode).Some? && Dec(t, at, opcode).value.base >= 0
    ensures var n := Dec(t, at, opcode).value.len;
            3 <= n && at + n <= |t| && S8(t[at + n - 1]) == Dec(t, at, opcode).value.disp &&
            forall x :: at <= x < at + n - 1 ==> !PatchByte(t[x]) && t[x] != 8
  {
  }

  lemma {:induction false} TestBytes(t: seq<byte>, at: nat)
    requires Dec(t, at, 0x85).Some? && Dec(t, at, 0x85).value.base == -1
    ensures var n := Dec(t, at, 0x85).value.len;
            at + n <= |t| && forall x :: at <= x < at + n ==> t[x] != 8
  {
  }

  /** From its load to the end of its lea a cluster has none of those bytes; the byte before the lea
    * is 8, and no byte of lea or test is. */
  lemma {:induction false} ClusterBytes(t: seq<byte>, c: Cluster)
    requires IsCluster(t, c) && Shape(t, c)
    ensures t[c.lea - 1] == 8 && c.load + 3 <= c.lea && c.lea + 3 <= c.store
    ensures forall x :: c.load <= x < c.store ==> !PatchByte(t[x])
    ensures forall x :: c.lea <= x < c.store ==> t[x] != 8
    ensures forall x :: c.test <= x < c.jmp ==> t[x] != 8
  {
    hide Dec;
    DecBytes(t, c.load, 0x8b);
    DecBytes(t, c.lea, 0x8d);
    TestBytes(t, c.test);
  }

  /** In a text that carries the patch of `d`, any cluster with a later lea has it after `d`, and
    * shares with `d` at most bytes that the patch left alone. */
  lemma {:induction false} LaterCluster(t0: seq<byte>, t: seq<byte>, d: Cluster, c: Cluster)
    requires IsCluster(t0, d) && Shape(t0, d) && CarriesPatch(t0, t, d)
    requires IsCluster(t, c) && Shape(t, c) && d.lea < c.lea
    ensures d.end <= c.lea
    ensures forall x :: c.load <= x < c.end && d.load <= x < d.end ==> t[x] == t0[x]
  {
    hide IsCluster, Patch;
    PatchedPieces(t0, t, d);
    ClusterBytes(t0, d);
    ClusterBytes(t, c);
    NewBranchBytes(t0, t, d);
    assert d.jmp + 1 <= c.lea - 1 by {
      assert forall y :: d.lea <= y <= d.jmp ==> t[y] != 8;
    }
    LaterStart(t, d, c);
  }

  lemma {:induction false} NewBranchBytes(t0: seq<byte>, t: seq<byte>, d: Cluster)
    requires Shape(t0, d) && |t| == |t0| && t[d.jmp..d.end] == NewBranch(t0, d)
    ensures PatchByte(t[d.jmp])
    ensures d.end - d.jmp == 6 ==> t[d.end - 1] == 0x90
    ensures d.end - d.jmp == 2 ==> t[d.jmp + 1] == 0x90 || t[d.jmp + 1] == t0[d.jmp + 1]
    ensures !d.jle ==> forall x :: d.jmp <= x < d.end ==> t[x] == 0x90
  {
    var b := NewBranch(t0, d);
    forall i | 0 <= i < |b| ensures t[d.jmp + i] == b[i] { assert t[d.jmp..d.end][i] == t[d.jmp + i]; }
  }

  lemma {:induction false} LaterStart(t: seq<byte>, d: Cluster, c: Cluster)
    requires Shape(t, d) && Shape(t, c) && d.jmp + 1 <= c.lea - 1
    requires c.load + 3 <= c.lea && c.lea + 3 <= c.store
    requires forall x :: c.load <= x < c.store ==> !PatchByte(t[x])
    requires PatchByte(t[d.jmp]) && (d.end - d.jmp == 6 ==> t[d.end - 1] == 0x90)
    ensures d.end <= c.lea && d.jmp < c.load
    ensures d.end - d.jmp == 6 ==> d.end <= c.load
  {
    assert !(c.load <= d.jmp < c.store);
    if d.end - d.jmp == 6 {
      var z := d.end - 1;
      assert !(c.load <= z < c.store);
    }
  }

  // ---- frames ----

  lemma {:induction false} DecFrame(t: seq<byte>, f: seq<byte>, at: nat, opcode: byte)
    requires Dec(t, at, opcode).Some? && SameBytes(t, f, at, at + Dec(t, at, opcode).value.len)
    ensures Dec(f, at, opcode) == Dec(t, at, opcode)
  {
    DecLen(t, at, opcode);
    hide Mod, Reg, Rm;
    assert f[at] == t[at] && f[at + 1] == t[at + 1];
  }

  lemma {:induction false} RestFrame(t: seq<byte>, f: seq<byte>, s: nat, L: nat, D: nat, B: nat)
    requires RestOfCluster(t, s, L, D, B).Some? && SameBytes(t, f, s, RestOfCluster(t, s, L, D, B).value.2)
    ensures RestOfCluster(f, s, L, D, B) == RestOfCluster(t, s, L, D, B)
  {
    hide Dec;
    var st := Dec(t, s, 0x89).value;
    DecLen(t, s, 0x89);
    DecLen(t, s + st.len, 0x85);
    DecFrame(t, f, s, 0x89);
    DecFrame(t, f, s + st.len, 0x85);
  }

  /** A cluster is determined by its own bytes. */
  lemma {:induction false} ClusterFrame(t: seq<byte>, f: seq<byte>, c: Cluster)
    requires IsCluster(t, c) && Shape(t, c) && SameBytes(t, f, c.load, c.end)
    ensures IsCluster(f, c)
  {
    hide Dec, RestOfCluster;
    var lea, ld := Dec(t, c.lea, 0x8d).value, Dec(t, c.load, 0x8b).value;
    DecLen(t, c.lea, 0x8d);
    DecLen(t, c.load, 0x8b);
    DecFrame(t, f, c.lea, 0x8d);
    DecFrame(t, f, c.load, 0x8b);
    RestFrame(t, f, c.store, lea.base, lea.reg, ld.base);
  }

  lemma {:induction false} PatchBytes(t: seq<byte>, c: Cluster)
    requires Shape(t, c)
    ensures forall x :: 0 <= x < |t| && !(c.store <= x < c.test || c.jmp <= x < c.end) ==> Patch(t, c)[x] == t[x]
  {
    hide NewBranch;
  }

  lemma {:induction false} PatchSame(t: seq<byte>, f: seq<byte>, c: Cluster)
    requires Shape(t, c) && SameBytes(t, f, c.load, c.end)
    ensures SameBytes(Patch(t, c), Patch(f, c), c.load, c.end)
  {
    assert NewBranch(t, c) == NewBranch(f, c);
    hide NewBranch;
  }

  // ---- the invariant of the scan ----

  predicate Touched(c: Cluster, x: int) { c.store <= x < c.test || c.jmp <= x < c.end }

  /** `t` is the original text `t0` with the clusters `ds` of `t0` rewritten, in ascending order: each
    * carries its patch, and no byte outside their stores and branches has changed. */
  ghost predicate Rewritten(t0: seq<byte>, t: seq<byte>, ds: seq<Cluster>) {
    && |t| == |t0|
    && (forall k :: 0 <= k < |ds| ==> Shape(t0, ds[k]) && IsCluster(t0, ds[k]) && CarriesPatch(t0, t, ds[k]))
    && (forall j, k :: 0 <= j < k < |ds| ==> ds[j].end <= ds[k].lea)
    && (forall x :: 0 <= x < |t| && t[x] != t0[x] ==> exists k :: 0 <= k < |ds| && Touched(ds[k], x))
  }

  predicate Below(ds: seq<Cluster>, i: nat) { forall k :: 0 <= k < |ds| ==> ds[k].lea < i }

  lemma {:induction false} NextReached(t0: seq<byte>, t: seq<byte>, ds: seq<Cluster>, i: nat, c: Cluster)
    requires Rewritten(t0, t, ds) && Below(ds, i) && IsCluster(t, c) && Shape(t, c) && c.lea == i
    ensures Rewritten(t0, Patch(t, c), ds + [c]) && Below(ds + [c], i + 1)
  {
    hide IsCluster, Patch, CarriesPatch;
    forall k | 0 <= k < |ds|
      ensures ds[k].end <= c.lea
      ensures forall x :: c.load <= x < c.end && ds[k].load <= x < ds[k].end ==> t[x] == t0[x]
    {
      LaterCluster(t0, t, ds[k], c);
    }
    assert SameBytes(t, t0, c.load, c.end) by {
      assert forall k, x :: 0 <= k < |ds| && Touched(ds[k], x) ==> ds[k].load <= x < ds[k].end;
    }
    ClusterFrame(t, t0, c);
    var f := Patch(t, c);
    NewCarries(t0, t, c);
    PatchBytes(t, c);
    forall k | 0 <= k < |ds| ensures CarriesPatch(t0, f, ds[k]) { StillCarries(t0, t, ds[k], c); }
    var es := ds + [c];
    forall x | 0 <= x < |f| && f[x] != t0[x] ensures exists k :: 0 <= k < |es| && Touched(es[k], x) {
      if Touched(c, x) {
        assert Touched(es[|ds|], x);
      } else {
        var k :| 0 <= k < |ds| && Touched(ds[k], x);
        assert Touched(es[k], x);
      }
    }
  }

  lemma {:induction false} NewCarries(t0: seq<byte>, t: seq<byte>, c: Cluster)
    requires Shape(t, c) && SameBytes(t, t0, c.load, c.end)
    ensures CarriesPatch(t0, Patch(t, c), c)
  {
    hide Patch;
    PatchSame(t, t0, c);
  }

  lemma {:induction false} StillCarries(t0: seq<byte>, t: seq<byte>, d: Cluster, c: Cluster)
    requires Shape(t0, d) && CarriesPatch(t0, t, d) && Shape(t, c) && d.end <= c.lea
    ensures CarriesPatch(t0, Patch(t, c), d)
  {
    PatchBytes(t, c);
    hide Patch;
  }

  lemma {:induction false} PassUnfold(t: seq<byte>, i: nat)
    requires 5 <= i
    ensures i + 12 >= |t| ==> Pass(t, i) == t && Found(t, i) == []
    ensures i + 12 < |t| && Match(t, i).None? ==> Pass(t, i) == Pass(t, i + 1) && Found(t, i) == Found(t, i + 1)
    ensures i + 12 < |t| && Match(t, i).Some? ==>
              var c := Match(t, i).value;
              Shape(t, c) && Pass(t, i) == Pass(Patch(t, c), i + 1) && Found(t, i) == [c] + Found(Patch(t, c), i + 1)
  {
    hide Match, Patch;
    if i + 12 < |t| && Match(t, i).Some? { MatchShape(t, i); }
  }

  lemma {:induction false} PassRewrites(t0: seq<byte>, t: seq<byte>, ds: seq<Cluster>, i: nat)
    requires 5 <= i && Rewritten(t0, t, ds) && Below(ds, i)
    ensures Rewritten(t0, Pass(t, i), ds + Found(t, i))
    decreases |t| - i
  {
    hide Match, Patch, Rewritten, Pass, Found;
    PassUnfold(t, i);
    if i + 12 >= |t| {
      assert ds + [] == ds;
    } else if Match(t, i).None? {
      PassRewrites(t0, t, ds, i + 1);
    } else {
      var c := Match(t, i).value;
      MatchShape(t, i);
      NextReached(t0, t, ds, i, c);
      PassRewrites(t0, Patch(t, c), ds + [c], i + 1);
      assert ds + [c] + Found(Patch(t, c), i + 1) == ds + Found(t, i);
    }
  }

  /** The whole pass: what it rewrote are clusters of the original text, each still carries its patch
    * in the final text, and nothing else changed. */
  lemma {:induction false} PassMeaning(t: seq<byte>)
    ensures Rewritten(t, Pass(t, 5), Found(t, 5))
  {
    hide Pass, Found;
    assert Rewritten(t, t, []);
    PassRewrites(t, t, [], 5);
    assert [] + Found(t, 5) == Found(t, 5);
  }

  /** Every cluster the pass rewrote, run in the final text from its load and from any state, ends on
    * the slow path of the original cluster with memory untouched, and with the registers and flags
    * that the original text gives at that cluster's branch. */
  lemma {:induction false} PassForcesSlowPath(t: seq<byte>, k: nat, s: Cpu) returns (o: Cpu)
    requires k < |Found(t, 5)| && s.rip == Found(t, 5)[k].load
    ensures var c := Found(t, 5)[k];
            && Shape(t, c) && IsCluster(t, c) && Run(t, s, 4) == Some(o)
            && Step(t, o) == Some(o.(rip := if TakesJle(o) then SlowPath(t, c) else FastPath(t, c)))
            && (Run(Pass(t, 5), s, PatchedSteps(c)) == Some(o.(mem := s.mem, rip := SlowPath(t, c)))
                <==> !DispOverflows(t, c))
  {
    hide Pass, Found, IsCluster, Run, Step, DispOverflows;
    PassMeaning(t);
    var c := Found(t, 5)[k];
    o := PatchedRun(t, Pass(t, 5), c, s);
  }

  // ---- the scan as it runs ----

  method PatchGetcMacros(text: array<byte>) returns (patched: nat)
    modifies text
    ensures text[..] == Pass(old(text[..]), 5) && patched == |Found(old(text[..]), 5)|
  {
    hide Match, Patch;
    patched := 0;
    var i := 5;
    ghost var t0 := text[..];
    while i + 12 < text.Length
      invariant 5 <= i
      invariant Pass(t0, 5) == Pass(text[..], i)
      invariant |Found(t0, 5)| == patched + |Found(text[..], i)|
    {
      var m := MatchCluster(text, i);
      if m.Some? {
        MatchShape(text[..], i);
        Rewrite(text, m.value);
        patched := patched + 1;
      }
      i := i + 1;
    }
  }

  method MatchCluster(text: array<byte>, i: nat) returns (m: Option<Cluster>)
    requires 5 <= i && i + 12 < text.Length
    ensures m == Match(text[..], i)
  {
    hide Dec;
    if text[i] != 0x8d && text[i] / 16 != 4 {
      NoLea(text[..], i);
      return None;
    }
    var lea := DecGetcOp(text, i, 0x8d);
    if lea.None? || lea.value.base < 0 || lea.value.disp != -1 { return None; }
    var k := 5;
    while k >= 3
      invariant 2 <= k <= 5
      invariant forall j :: k < j <= 5 ==> MatchK(text[..], i, j).None?
    {
      m := TryLoad(text, i, k, lea.value);
      if m.Some? { return; }
      k := k - 1;
    }
    m := None;
  }

  lemma {:induction false} NoLea(t: seq<byte>, i: nat)
    requires 5 <= i < |t| && t[i] != 0x8d && t[i] / 16 != 4
    ensures Match(t, i).None?
  {
    assert Dec(t, i, 0x8d).None?;
  }

  method TryLoad(text: array<byte>, i: nat, k: nat, lea: DecOp) returns (m: Option<Cluster>)
    requires 3 <= k <= i < text.Length && Dec(text[..], i, 0x8d) == Some(lea) && lea.base >= 0 && lea.disp == -1
    ensures m == MatchK(text[..], i, k)
  {
    hide Dec;
    var ld := DecGetcOp(text, i - k, 0x8b);
    if ld.None? || ld.value.len != k || ld.value.disp != 8 || ld.value.base < 0 || ld.value.reg != lea.base {
      return None;
    }
    DecLen(text[..], i, 0x8d);
    var leaEnd := i + lea.len;
    var st := DecGetcOp(text, leaEnd, 0x89);
    if st.None? || st.value.disp != 8 || st.value.base != ld.value.base || st.value.reg != lea.reg { return None; }
    DecLen(text[..], leaEnd, 0x89);
    var stEnd := leaEnd + st.value.len;
    var ts := DecGetcOp(text, stEnd, 0x85);
    if ts.None? || ts.value.base != -1 || ts.value.reg != lea.base { return None; }
    var jmp := stEnd + ts.value.len;
    if jmp + 1 >= text.Length { return None; }
    if text[jmp] == 0x7e {
      m := Some(Cluster(i - k, i, leaEnd, stEnd, jmp, jmp + 2, true));
    } else if text[jmp] == 0x7f {
      m := Some(Cluster(i - k, i, leaEnd, stEnd, jmp, jmp + 2, false));
    } else if text[jmp] == 0x0f && jmp + 5 < text.Length && (text[jmp + 1] == 0x8e || text[jmp + 1] == 0x8f) {
      m := Some(Cluster(i - k, i, leaEnd, stEnd, jmp, jmp + 6, text[jmp + 1] == 0x8e));
    } else {
      m := None;
    }
  }

  method Fill(text: array<byte>, lo: nat, hi: nat)
    requires lo <= hi <= text.Length
    modifies text
    ensures text[..] == old(text[..lo]) + Nops(hi - lo) + old(text[hi..])
  {
    var x := lo;
    while x < hi
      invariant lo <= x <= hi
      invariant forall y :: 0 <= y < text.Length ==> text[y] == if lo <= y < x then 0x90 else old(text[y])
    {
      text[x] := 0x90;
      x := x + 1;
    }
  }

  /** 0f 8e d0 d1 d2 d3 becomes e9 (d+1) 90. */
  method RewriteNear(text: array<byte>, p: nat)
    requires p + 6 <= text.Length
    modifies text
    ensures text[..] == old(text[..p]) + ([0xe9] + BumpedDisp(old(text[..]), p + 2) + [0x90]) + old(text[p + 6..])
  {
    var disp := S32(text[p + 2], text[p + 3], text[p + 4], text[p + 5]) + 1;
    var b := LE(Wrap32(disp), 4);
    assert b == BumpedDisp(text[..], p + 2);
    hide LE, S32, BumpedDisp;
    text[p] := 0xe9;
    text[p + 1], text[p + 2], text[p + 3], text[p + 4] := b[0], b[1], b[2], b[3];
    text[p + 5] := 0x90;
    assert [0xe9] + b + [0x90] == [0xe9, b[0], b[1], b[2], b[3], 0x90];
  }

  method RewriteBranch(text: array<byte>, c: Cluster)
    requires Shape(text[..], c)
    modifies text
    ensures text[..] == old(text[..c.jmp]) + NewBranch(old(text[..]), c) + old(text[c.end..])
  {
    hide BumpedDisp;
    if !c.jle {
      Fill(text, c.jmp, c.end);
    } else if c.end - c.jmp == 2 {
      text[c.jmp] := 0xeb;
    } else {
      RewriteNear(text, c.jmp);
    }
  }

  lemma {:induction false} SameNewBranch(t: seq<byte>, f: seq<byte>, c: Cluster)
    requires Shape(t, c) && SameBytes(t, f, c.jmp, c.end)
    ensures NewBranch(t, c) == NewBranch(f, c)
  {
    hide LE, S32;
  }

  method Rewrite(text: array<byte>, c: Cluster)
    requires Shape(text[..], c)
    modifies text
    ensures text[..] == Patch(old(text[..]), c)
  {
    hide NewBranch, Patch;
    ghost var t := text[..];
    Fill(text, c.store, c.test);
    ghost var t1 := text[..];
    assert t[..c.store] == old(text[..c.store]) && t[c.test..] == old(text[c.test..]);
    SameNewBranch(t, t1, c);
    label filled:
    RewriteBranch(text, c);
    assert t1[..c.jmp] == old@filled(text[..c.jmp]) && t1[c.end..] == old@filled(text[c.end..]);
    PatchPieces(t, t1, c);
  }

  lemma {:induction false} PatchPieces(t: seq<byte>, t1: seq<byte>, c: Cluster)
    requires Shape(t, c) && t1 == t[..c.store] + Nops(c.test - c.store) + t[c.test..]
    ensures t1[..c.jmp] + NewBranch(t, c) + t1[c.end..] == Patch(t, c)
  {
    hide NewBranch;
    assert t1[..c.jmp] == t[..c.store] + Nops(c.test - c.store) + t[c.test..c.jmp];
    assert t1[c.end..] == t[c.end..];
  }
}
