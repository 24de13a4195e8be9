/** The in-place getc scan against "find every cluster of the original text, then rewrite them". */
module GetcTwoPhase {
  import opened Memory
  import opened Options
  import opened X86
  import opened Getc
  import opened GetcPass
  import opened GetcAgain

  /** The clusters that the scan would find in a text that does not change under it. */
  function Matches(t: seq<byte>, i: nat): (cs: seq<Cluster>)
    requires 5 <= i
    decreases |t| - i
  {
    if i + 12 >= |t| then []
    else
      match Match(t, i)
      case None => Matches(t, i + 1)
      case Some(c) => [c] + Matches(t, i + 1)
  }

  predicate Matched(t: seq<byte>, p: int) { 5 <= p && p + 12 < |t| && Match(t, p).Some? }

  /** The load of `c` starts in the branch of `d` after its opcode, and the branch is not a short jle,
    * whose displacement the rewrite keeps. */
  predicate Clash(d: Cluster, c: Cluster) {
    d.jmp < c.load < d.end && !(d.jle && d.end - d.jmp == 2)
  }

  ghost predicate NoClash(t: seq<byte>) {
    forall p, q :: Matched(t, p) && Matched(t, q) && p < q ==> !Clash(Match(t, p).value, Match(t, q).value)
  }

  // ---- two clusters of one text ----

  lemma {:induction false} LoadBytes(t: seq<byte>, at: nat)
    requires Dec(t, at, 0x8b).Some? && Dec(t, at, 0x8b).value.base >= 0
    ensures var n := Dec(t, at, 0x8b).value.len;
            3 <= n && at + n <= |t| &&
            forall x :: at <= x < at + n - 1 ==> t[x] != 0x0f && (t[x] == 0x7e || t[x] == 0x7f ==>
                x > at && t[x - 1] == 0x8b)
  {
  }

  lemma {:induction false} TestEnds(t: seq<byte>, at: nat)
    requires Dec(t, at, 0x85).Some? && Dec(t, at, 0x85).value.base == -1
    ensures var n := Dec(t, at, 0x85).value.len; n >= 2 && at + n <= |t| && t[at + n - 1] != 0x8b
  {
  }

  lemma {:induction false} BranchOpcode(t: seq<byte>, d: Cluster)
    requires IsCluster(t, d) && Shape(t, d)
    ensures t[d.jmp] == 0x7e || t[d.jmp] == 0x7f || t[d.jmp] == 0x0f
    ensures t[d.jmp - 1] != 0x8b
  {
    hide Dec;
    TestEnds(t, d.test);
  }

  lemma {:induction false} LoadOf(t: seq<byte>, c: Cluster)
    requires IsCluster(t, c) && Shape(t, c)
    ensures forall x :: c.load <= x < c.lea - 1 ==>
              t[x] != 0x0f && (t[x] == 0x7e || t[x] == 0x7f ==> x > c.load && t[x - 1] == 0x8b)
  {
    hide Dec;
    LoadBytes(t, c.load);
  }

  /** Of two clusters of one text, the later one starts after the branch opcode of the earlier one. */
  lemma {:induction false} LaterInOriginal(t: seq<byte>, d: Cluster, c: Cluster)
    requires IsCluster(t, d) && Shape(t, d) && IsCluster(t, c) && Shape(t, c) && d.lea < c.lea
    ensures d.jmp < c.load
  {
    hide IsCluster, Dec;
    ClusterBytes(t, c);
    ClusterDecodes(t, d);
    ClusterDecodes(t, c);
    LeaIsNotTest(t, c.lea);
    if c.lea - 1 < d.end { EightsAfterLea(t, d, c.lea - 1); }
    assert d.jmp < c.lea - 1;
    BranchOpcode(t, d);
    LoadOf(t, c);
  }

  // ---- no clash: the scan finds exactly the matches ----

  /** An earlier rewrite that does not clash leaves the later cluster alone. */
  lemma {:induction false} Untouched(t0: seq<byte>, t: seq<byte>, d: Cluster, c: Cluster)
    requires IsCluster(t0, d) && Shape(t0, d) && CarriesPatch(t0, t, d)
    requires IsCluster(t0, c) && Shape(t0, c) && d.lea < c.lea && !Clash(d, c)
    ensures forall x :: c.load <= x < c.end && Touched(d, x) ==> t[x] == t0[x]
  {
    hide IsCluster, Patch, CarriesPatch;
    LaterInOriginal(t0, d, c);
    if c.load < d.end {
      PatchedPieces(t0, t, d);
      KeptDisplacement(t0, t, d);
    }
  }

  lemma {:induction false} KeptDisplacement(t0: seq<byte>, t: seq<byte>, d: Cluster)
    requires Shape(t0, d) && |t| == |t0| && t[d.jmp..d.end] == NewBranch(t0, d) && d.jle && d.end - d.jmp == 2
    ensures t[d.jmp + 1] == t0[d.jmp + 1]
  {
    assert t[d.jmp..d.end][1] == t[d.jmp + 1];
  }

  /** The match at a position starts no later than any cluster there. */
  lemma {:induction false} LongestFirst(t: seq<byte>, c: Cluster)
    requires IsCluster(t, c) && 5 <= c.lea
    ensures Match(t, c.lea).Some?
    ensures var m := Match(t, c.lea).value; m.lea == c.lea && m.load <= c.load && (m.load == c.load ==> m == c)
  {
    hide MatchK;
    MatchIsCluster(t, c.lea);
    var i := c.lea;
    MatchStarts(t, i, 5);
    MatchStarts(t, i, 4);
    MatchStarts(t, i, 3);
    MatchStarts(t, i, i - c.load);
  }

  lemma {:induction false} MatchStarts(t: seq<byte>, i: nat, k: nat)
    requires k <= i
    ensures MatchK(t, i, k).Some? ==> MatchK(t, i, k).value.load == i - k && MatchK(t, i, k).value.lea == i
  {
    hide Dec, RestOfCluster;
  }

  /** What is known of the rewritten clusters part-way through the scan. */
  ghost predicate AllMatched(t0: seq<byte>, ds: seq<Cluster>) {
    forall k :: 0 <= k < |ds| ==> Matched(t0, ds[k].lea) && Match(t0, ds[k].lea).value == ds[k]
  }

  lemma {:induction false} SameCluster(t0: seq<byte>, t: seq<byte>, ds: seq<Cluster>, i: nat, c: Cluster)
    requires NoClash(t0) && Rewritten(t0, t, ds) && Below(ds, i) && AllMatched(t0, ds)
    requires Matched(t0, i) && Match(t0, i).value == c
    ensures IsCluster(t, c) && Shape(t, c) && c.lea == i
  {
    hide Match, IsCluster, CarriesPatch, Clash;
    MatchShape(t0, i);
    forall k | 0 <= k < |ds|
      ensures forall x :: c.load <= x < c.end && Touched(ds[k], x) ==> t[x] == t0[x]
    {
      assert Matched(t0, ds[k].lea) && !Clash(Match(t0, ds[k].lea).value, Match(t0, i).value);
      Untouched(t0, t, ds[k], c);
    }
    assert SameBytes(t0, t, c.load, c.end);
    ClusterFrame(t0, t, c);
  }

  /** Part-way through the scan, the next decision is the one the original text gives. */
  lemma {:induction false} SameMatch(t0: seq<byte>, t: seq<byte>, ds: seq<Cluster>, i: nat)
    requires NoClash(t0) && Rewritten(t0, t, ds) && Below(ds, i) && AllMatched(t0, ds) && 5 <= i && i + 12 < |t0|
    ensures Match(t, i) == Match(t0, i)
  {
    hide Match, IsCluster, CarriesPatch, Clash;
    if Match(t, i).Some? {
      var c := Match(t, i).value;
      MatchShape(t, i);
      NextReached(t0, t, ds, i, c);
      assert (ds + [c])[|ds|] == c;
      LongestFirst(t0, c);
    }
    if Match(t0, i).Some? {
      var c0 := Match(t0, i).value;
      SameCluster(t0, t, ds, i, c0);
      LongestFirst(t, c0);
      var c := Match(t, i).value;
      assert c.load == c0.load;
    }
  }

  lemma {:induction false} ScanFinds(t0: seq<byte>, t: seq<byte>, ds: seq<Cluster>, i: nat)
    requires NoClash(t0) && Rewritten(t0, t, ds) && Below(ds, i) && AllMatched(t0, ds) && 5 <= i
    ensures Found(t, i) == Matches(t0, i)
    decreases |t| - i
  {
    hide Match, Patch, Pass, Found, Rewritten, NoClash, Matches, IsCluster, Shape;
    PassUnfold(t, i);
    MatchesUnfold(t0, i);
    SameLength(t0, t, ds);
    if i + 12 < |t| {
      SameMatch(t0, t, ds, i);
      if Match(t, i).None? {
        ScanFinds(t0, t, ds, i + 1);
      } else {
        var c := Match(t, i).value;
        MatchShape(t, i);
        NextReached(t0, t, ds, i, c);
        ScanFinds(t0, Patch(t, c), ds + [c], i + 1);
      }
    }
  }

  lemma {:induction false} MatchesUnfold(t: seq<byte>, i: nat)
    requires 5 <= i
    ensures i + 12 >= |t| ==> Matches(t, i) == []
    ensures i + 12 < |t| && Match(t, i).None? ==> Matches(t, i) == Matches(t, i + 1)
    ensures i + 12 < |t| && Match(t, i).Some? ==> Matches(t, i) == [Match(t, i).value] + Matches(t, i + 1)
  {
    hide Match;
  }

  lemma {:induction false} SameLength(t0: seq<byte>, t: seq<byte>, ds: seq<Cluster>)
    requires Rewritten(t0, t, ds)
    ensures |t| == |t0|
  {
  }

  // ---- a clash: one of the two is lost ----

  lemma {:induction false} NotBoth(t0: seq<byte>, f: seq<byte>, d: Cluster, c: Cluster)
    requires IsCluster(t0, d) && Shape(t0, d) && CarriesPatch(t0, f, d)
    requires IsCluster(t0, c) && Shape(t0, c) && CarriesPatch(t0, f, c)
    ensures !Clash(d, c)
  {
    hide IsCluster, CarriesPatch;
    PatchedPieces(t0, f, d);
    PatchedPieces(t0, f, c);
    NewBranchBytes(t0, f, d);
    ClusterBytes(t0, c);
    hide NewBranch;
    var z := d.end - 1;
    assert !(c.load <= z < c.store && f[z] == 0x90);
  }

  lemma {:induction false} MatchesHas(t: seq<byte>, i: nat, p: int)
    requires 5 <= i <= p && Matched(t, p)
    ensures Match(t, p).value in Matches(t, i)
    decreases |t| - i
  {
    hide Match;
    if i < p {
      MatchesHas(t, i + 1, p);
    }
  }

  /** The in-place scan rewrites exactly the clusters that the original text has, each once, exactly
    * when no two of them clash. */
  lemma {:induction false} FoundIsMatchesIff(t: seq<byte>)
    ensures Found(t, 5) == Matches(t, 5) <==> NoClash(t)
  {
    hide Match, Pass, Found, Matches, Rewritten, Clash;
    NothingYet(t);
    if NoClash(t) { ScanFinds(t, t, [], 5); }
    if Found(t, 5) == Matches(t, 5) {
      PassMeaning(t);
      forall p, q | Matched(t, p) && Matched(t, q) && p < q
        ensures !Clash(Match(t, p).value, Match(t, q).value)
      {
        MatchesHas(t, 5, p);
        MatchesHas(t, 5, q);
        var d, c := Match(t, p).value, Match(t, q).value;
        RewrittenHas(t, Pass(t, 5), Found(t, 5), d);
        RewrittenHas(t, Pass(t, 5), Found(t, 5), c);
        NotBoth(t, Pass(t, 5), d, c);
      }
    }
  }

  lemma {:induction false} RewrittenHas(t0: seq<byte>, f: seq<byte>, ds: seq<Cluster>, c: Cluster)
    requires Rewritten(t0, f, ds) && c in ds
    ensures Shape(t0, c) && IsCluster(t0, c) && CarriesPatch(t0, f, c)
  {
    hide IsCluster, CarriesPatch, Shape;
    var k :| 0 <= k < |ds| && ds[k] == c;
  }

  /** Without clashes the pass is the two-phase one: every cluster of the original text carries its
    * patch in the result, and no other byte changed. */
  lemma {:induction false} PassIsTwoPhase(t: seq<byte>)
    requires NoClash(t)
    ensures Rewritten(t, Pass(t, 5), Matches(t, 5))
  {
    hide Pass, Found, Matches, Rewritten, NoClash;
    FoundIsMatchesIff(t);
    PassMeaning(t);
  }

  // ---- texts ----

  /** mov eax,[rcx+8]; lea edx,[rax-1]; mov [rcx+8],edx; test eax,eax, not preceded by a longer load. */
  predicate ClusterStart(t: seq<byte>, i: nat) {
    && 2 <= i && i + 11 <= |t| && t[i - 2] == 0 && t[i - 1] == 0
    && t[i] == 0x8b && t[i + 1] == 0x41 && t[i + 2] == 0x08 && t[i + 3] == 0x8d && t[i + 4] == 0x50 && t[i + 5] == 0xff
    && t[i + 6] == 0x89 && t[i + 7] == 0x51 && t[i + 8] == 0x08 && t[i + 9] == 0x85 && t[i + 10] == 0xc0
  }

  lemma {:induction false} StartMatches(t: seq<byte>, i: nat, n: nat, jle: bool)
    requires ClusterStart(t, i) && BranchAt(t, i + 11) == Some((n, jle))
    ensures Match(t, i + 3) == Some(Cluster(i, i + 3, i + 6, i + 9, i + 11, i + 11 + n, jle))
  {
    StartDecodes(t, i);
    hide Dec, BranchAt, MatchK;
    StartsWith(t, i, n, jle);
    assert MatchK(t, i + 3, 5).None? && MatchK(t, i + 3, 4).None? by { NoLoad(t, i + 3, 5); NoLoad(t, i + 3, 4); }
  }

  lemma {:induction false} NoLoad(t: seq<byte>, i: nat, k: nat)
    requires k <= i && Dec(t, i - k, 0x8b).None?
    ensures MatchK(t, i, k).None?
  {
    hide Dec, RestOfCluster;
  }

  lemma {:induction false} StartsWith(t: seq<byte>, i: nat, n: nat, jle: bool)
    requires ClusterStart(t, i) && BranchAt(t, i + 11) == Some((n, jle))
    ensures MatchK(t, i + 3, 3) == Some(Cluster(i, i + 3, i + 6, i + 9, i + 11, i + 11 + n, jle))
  {
    StartDecodes(t, i);
    hide Dec, BranchAt;
    assert RestOfCluster(t, i + 6, 0, 2, 1) == Some((i + 9, i + 11, i + 11 + n, jle));
  }

  lemma {:induction false} StartDecodes(t: seq<byte>, i: nat)
    requires ClusterStart(t, i)
    ensures Dec(t, i + 3, 0x8d) == Some(DecOp(2, 0, -1, 3))
    ensures Dec(t, i - 2, 0x8b).None? && Dec(t, i - 1, 0x8b).None? && Dec(t, i, 0x8b) == Some(DecOp(0, 1, 8, 3))
    ensures Dec(t, i + 6, 0x89) == Some(DecOp(2, 1, 8, 3)) && Dec(t, i + 9, 0x85) == Some(DecOp(0, -1, 0, 2))
  {
  }

  /** The first cluster that the pass rewrites in a text that starts with one. */
  lemma {:induction false} FirstFound(t: seq<byte>, n: nat, jle: bool)
    requires ClusterStart(t, 3) && 18 < |t| && BranchAt(t, 14) == Some((n, jle))
    ensures Found(t, 5) != [] && Found(t, 5)[0] == Cluster(3, 6, 9, 12, 14, 14 + n, jle)
  {
    NoLea(t, 5);
    StartMatches(t, 3, n, jle);
    hide Match, Patch, Pass, Found, BranchAt;
    PassUnfold(t, 5);
    PassUnfold(t, 6);
  }

  /** A near jle with the largest displacement is rewritten, and overflows. */
  lemma {:induction false} OverflowIsRewritten() returns (t: seq<byte>)
    ensures Found(t, 5) != [] && Shape(t, Found(t, 5)[0]) && DispOverflows(t, Found(t, 5)[0])
  {
    t := START + [0x0f, 0x8e, 0xff, 0xff, 0xff, 0x7f];
    StartText(t);
    assert t[14] == 0x0f && t[15] == 0x8e && t[16] == 0xff && t[17] == 0xff && t[18] == 0xff && t[19] == 0x7f;
    FirstFound(t, 6, true);
    hide Found;
  }

  const START: seq<byte> := [0, 0, 0, 0x8b, 0x41, 0x08, 0x8d, 0x50, 0xff, 0x89, 0x51, 0x08, 0x85, 0xc0]

  lemma {:induction false} StartText(t: seq<byte>)
    requires START <= t
    ensures ClusterStart(t, 3)
  {
    assert t[..14] == START;
    assert forall x :: 0 <= x < 14 ==> t[x] == START[x];
  }

  /** A short jg whose displacement byte is the opcode of the next cluster's load. */
  predicate ClashText(t: seq<byte>) {
    && ClusterStart(t, 3) && 40 <= |t| && t[14] == 0x7f
    && t[15] == 0x8b && t[16] == 0x41 && t[17] == 0x08 && t[18] == 0x8d && t[19] == 0x50 && t[20] == 0xff
    && t[21] == 0x89 && t[22] == 0x51 && t[23] == 0x08 && t[24] == 0x85 && t[25] == 0xc0 && t[26] == 0x7e
  }

  /** The original text has both clusters; the scan rewrites the first and thereby destroys the second. */
  lemma {:induction false} ClashLosesCluster(t: seq<byte>)
    requires ClashText(t)
    ensures Matched(t, 6) && Matched(t, 18) && Clash(Match(t, 6).value, Match(t, 18).value)
    ensures Found(t, 5) != Matches(t, 5)
  {
    StartMatches(t, 3, 2, false);
    SecondMatches(t);
    hide Match, Found, Matches;
    FoundIsMatchesIff(t);
  }

  lemma {:induction false} SecondMatches(t: seq<byte>)
    requires ClashText(t)
    ensures Match(t, 18) == Some(Cluster(15, 18, 21, 24, 26, 28, true))
  {
    SecondDecodes(t);
    hide Dec;
    assert RestOfCluster(t, 21, 0, 2, 1) == Some((24, 26, 28, true));
  }

  lemma {:induction false} SecondDecodes(t: seq<byte>)
    requires ClashText(t)
    ensures Dec(t, 18, 0x8d) == Some(DecOp(2, 0, -1, 3))
    ensures Dec(t, 13, 0x8b).None? && Dec(t, 14, 0x8b).None? && Dec(t, 15, 0x8b) == Some(DecOp(0, 1, 8, 3))
    ensures Dec(t, 21, 0x89) == Some(DecOp(2, 1, 8, 3)) && Dec(t, 24, 0x85) == Some(DecOp(0, -1, 0, 2))
  {
  }

  lemma {:induction false} ClashTextExists() returns (t: seq<byte>)
    ensures ClashText(t)
  {
    t := START + [0x7f] + START[3..] + [0x7e] + seq(13, x => 0);
    StartText(t);
    assert t[15..26] == START[3..];
    assert forall x :: 15 <= x < 26 ==> t[x] == START[x - 12];
  }
}
