/** The getc scan leaves no cluster that it could find: a second pass over its result changes nothing. */
module GetcAgain {
  import opened Memory
  import opened Options
  import opened X86
  import opened Getc
  import opened GetcPass

  /** Where the byte 8 can stand after a cluster's lea: the displacement of its store, or past the
    * opcode of its branch. */
  lemma {:induction false} EightsAfterLea(f: seq<byte>, c: Cluster, y: nat)
    requires IsCluster(f, c) && Shape(f, c) && c.lea <= y < c.end && f[y] == 8
    ensures y == c.test - 1 || y >= c.end - (if c.end - c.jmp == 2 then 1 else 4)
  {
    ClusterBytes(f, c);
    StoreBytes(f, c);
    BranchBytes(f, c);
  }

  lemma {:induction false} StoreBytes(f: seq<byte>, c: Cluster)
    requires IsCluster(f, c) && Shape(f, c)
    ensures forall x :: c.store <= x < c.test - 1 ==> f[x] != 8
  {
    hide Dec;
    DecBytes(f, c.store, 0x89);
  }

  lemma {:induction false} BranchBytes(f: seq<byte>, c: Cluster)
    requires IsCluster(f, c) && Shape(f, c)
    ensures f[c.jmp] != 8 && (c.end - c.jmp == 6 ==> f[c.jmp + 1] != 8)
  {
    hide Dec;
  }

  /** A lea cannot start where the test of a cluster does. */
  lemma {:induction false} LeaIsNotTest(f: seq<byte>, at: nat)
    requires Dec(f, at, 0x8d).Some?
    ensures Dec(f, at, 0x85).None?
  {
  }

  lemma {:induction false} ClusterDecodes(f: seq<byte>, c: Cluster)
    requires IsCluster(f, c) && Shape(f, c)
    ensures Dec(f, c.lea, 0x8d).Some? && Dec(f, c.lea, 0x8d).value.len == c.store - c.lea
    ensures Dec(f, c.store, 0x89).Some? && Dec(f, c.test, 0x85).Some?
  {
    hide Dec;
  }

  /** In a text that carries the patch of `d`, any cluster with an earlier lea ends before the bytes
    * that the patch wrote. */
  lemma {:induction false} EarlierCluster(t0: seq<byte>, f: seq<byte>, d: Cluster, c: Cluster)
    requires IsCluster(t0, d) && Shape(t0, d) && CarriesPatch(t0, f, d)
    requires IsCluster(f, c) && Shape(f, c) && c.lea < d.lea
    ensures c.end <= d.store
  {
    hide IsCluster, CarriesPatch, Dec;
    KeepsLea(t0, f, d);
    ClusterDecodes(f, c);
    LeaIsNotTest(f, d.lea);
    if d.lea - 1 < c.end {
      EightsAfterLea(f, c, d.lea - 1);
    }
  }

  /** A patched cluster keeps its lea and the byte 8 before it. */
  lemma {:induction false} KeepsLea(t0: seq<byte>, f: seq<byte>, d: Cluster)
    requires IsCluster(t0, d) && Shape(t0, d) && CarriesPatch(t0, f, d)
    ensures d.lea + 3 <= d.store && f[d.lea - 1] == 8 && f[d.store] == 0x90
    ensures Dec(f, d.lea, 0x8d).Some? && Dec(f, d.lea, 0x8d).value.len == d.store - d.lea
  {
    hide IsCluster, CarriesPatch, Dec, NewBranch;
    PatchedPieces(t0, f, d);
    ClusterBytes(t0, d);
    ClusterDecodes(t0, d);
    DecFrame(t0, f, d.lea, 0x8d);
  }

  lemma {:induction false} ClusterMatches(t: seq<byte>, c: Cluster)
    requires IsCluster(t, c) && 5 <= c.lea
    ensures Match(t, c.lea).Some?
  {
    hide MatchK;
  }

  /** The clusters found from `i` on have their lea there. */
  lemma {:induction false} FoundAbove(t: seq<byte>, i: nat)
    requires 5 <= i
    ensures forall k :: 0 <= k < |Found(t, i)| ==> Found(t, i)[k].lea >= i
    decreases |t| - i
  {
    hide Match, Patch, Pass, Found;
    PassUnfold(t, i);
    if i + 12 < |t| {
      if Match(t, i).Some? {
        MatchShape(t, i);
        FoundAbove(Patch(t, Match(t, i).value), i + 1);
      } else {
        FoundAbove(t, i + 1);
      }
    }
  }

  lemma {:induction false} NothingYet(t: seq<byte>)
    ensures Rewritten(t, t, []) && Below([], 5)
  {
  }

  /** A position passed over stays without a match: later rewrites are all beyond what would be its
    * cluster. */
  lemma {:induction false} StaysUnmatched(t: seq<byte>, f: seq<byte>, ds: seq<Cluster>, i: nat)
    requires 5 <= i && Rewritten(t, f, ds) && (forall k :: 0 <= k < |ds| ==> ds[k].lea > i)
    requires Match(t, i).None?
    ensures Match(f, i).None?
  {
    hide Match, IsCluster, CarriesPatch;
    if Match(f, i).Some? {
      MatchShape(f, i);
      var c := Match(f, i).value;
      forall k | 0 <= k < |ds| ensures c.end <= ds[k].store { EarlierCluster(t, f, ds[k], c); }
      assert SameBytes(f, t, c.load, c.end) by {
        assert forall x :: c.load <= x < c.end ==> f[x] == t[x];
      }
      ClusterFrame(f, t, c);
      ClusterMatches(t, c);
      assert false;
    }
  }

  /** A rewritten position has lost its store. */
  lemma {:induction false} PatchedUnmatched(t: seq<byte>, f: seq<byte>, d: Cluster)
    requires 5 <= d.lea && IsCluster(t, d) && Shape(t, d) && CarriesPatch(t, f, d)
    ensures Match(f, d.lea).None?
  {
    hide Match, IsCluster, CarriesPatch, Dec;
    if Match(f, d.lea).Some? {
      MatchShape(f, d.lea);
      var c := Match(f, d.lea).value;
      KeepsLea(t, f, d);
      ClusterDecodes(f, c);
      NopIsNoStore(f, d.store);
      assert false;
    }
  }

  lemma {:induction false} NopIsNoStore(f: seq<byte>, at: nat)
    requires at < |f| && f[at] == 0x90
    ensures Dec(f, at, 0x89).None?
  {
  }

  /** After the scan from `i`, no position from `i` on matches. */
  lemma {:induction false} NoneLeft(t: seq<byte>, i: nat, j: nat)
    requires 5 <= i <= j && j + 12 < |t|
    ensures Match(Pass(t, i), j).None?
    decreases j - i
  {
    hide Match, Patch, Pass, Found, Rewritten;
    PassUnfold(t, i);
    var after := if Match(t, i).None? then t else Patch(t, Match(t, i).value);
    if i < j {
      NoneLeft(after, i + 1, j);
    } else if Match(t, i).None? {
      NothingYet(t);
      PassRewrites(t, t, [], i + 1);
      assert [] + Found(t, i + 1) == Found(t, i + 1);
      FoundAbove(t, i + 1);
      StaysUnmatched(t, Pass(t, i), Found(t, i + 1), i);
    } else {
      RewrittenUnmatched(t, i);
    }
  }

  lemma {:induction false} RewrittenUnmatched(t: seq<byte>, i: nat)
    requires 5 <= i && i + 12 < |t| && Match(t, i).Some?
    ensures Match(Pass(t, i), i).None?
  {
    hide Match, Patch, Pass, Found, Rewritten, IsCluster, Shape, CarriesPatch;
    PassUnfold(t, i);
    var d := Match(t, i).value;
    MatchShape(t, i);
    NothingYet(t);
    NextReached(t, t, [], i, d);
    assert [] + [d] == [d];
    PassRewrites(t, Patch(t, d), [d], i + 1);
    FirstCarries(t, Pass(t, i), [d] + Found(Patch(t, d), i + 1));
    PatchedUnmatched(t, Pass(t, i), d);
  }

  lemma {:induction false} FirstCarries(t: seq<byte>, f: seq<byte>, ds: seq<Cluster>)
    requires ds != [] && Rewritten(t, f, ds)
    ensures Shape(t, ds[0]) && CarriesPatch(t, f, ds[0])
  {
  }

  lemma {:induction false} Idle(f: seq<byte>, i: nat)
    requires 5 <= i && forall j :: i <= j && j + 12 < |f| ==> Match(f, j).None?
    ensures Pass(f, i) == f && Found(f, i) == []
    decreases |f| - i
  {
    hide Match, Patch, Pass, Found;
    PassUnfold(f, i);
    if i + 12 < |f| { Idle(f, i + 1); }
  }

  /** The pass leaves no cluster that the scan could find, so running it again changes nothing. */
  lemma {:induction false} SecondPassIdle(t: seq<byte>)
    ensures forall j :: 5 <= j && j + 12 < |t| ==> Match(Pass(t, 5), j).None?
    ensures Pass(Pass(t, 5), 5) == Pass(t, 5) && Found(Pass(t, 5), 5) == []
  {
    hide Match, Pass, Found;
    forall j | 5 <= j && j + 12 < |t| ensures Match(Pass(t, 5), j).None? { NoneLeft(t, 5, j); }
    Idle(Pass(t, 5), 5);
  }
}
