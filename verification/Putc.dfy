/** The in-place rewrite of inlined putc macros: one forward scan that patches while it matches. */
module Putc {
  import opened Memory
  import opened Options
  import opened X86

  predicate InScan(t: seq<byte>, i: int) { 0 <= i && i + 20 < |t| }

  /** mov r1,[rX+12]; lea r2,[r1-1]; mov [rX+12],r2; test r1,r1; then jg or jle. */
  predicate Prologue(t: seq<byte>, i: int)
    requires InScan(t, i)
  {
    && t[i] == 0x8b && Mod(t[i + 1]) == 1 && Rm(t[i + 1]) != 4 && t[i + 2] == 0x0c
    && t[i + 3] == 0x8d && Mod(t[i + 4]) == 1 && Rm(t[i + 4]) == Reg(t[i + 1]) && t[i + 5] == 0xff
    && t[i + 6] == 0x89 && Mod(t[i + 7]) == 1 && Reg(t[i + 7]) == Reg(t[i + 4])
    && Rm(t[i + 7]) == Rm(t[i + 1]) && t[i + 8] == 0x0c
    && t[i + 9] == 0x85 && Mod(t[i + 10]) == 3 && Reg(t[i + 10]) == Reg(t[i + 1]) && Rm(t[i + 10]) == Reg(t[i + 1])
    && (t[i + 11] == 0x7f || t[i + 11] == 0x7e)
  }

  /** The site's slow label: the jle target itself, or the target of the check after the jg. */
  function Label(t: seq<byte>, i: int): Option<int>
    requires InScan(t, i)
  {
    var p := i + 13;
    if t[i + 11] == 0x7e then Some(p + S8(t[i + 12]))
    else if t[p] == 0x74 then Some(p + 2 + S8(t[p + 1]))
    else if t[p] == 0x3c && t[p + 1] == 0x0a && t[p + 2] == 0x74 then Some(p + 4 + S8(t[p + 3]))
    else if t[p] == 0x3b && t[p + 3] == 0x7e then Some(p + 5 + S8(t[p + 4]))
    else if t[p] == 0x3d && t[p + 5] == 0x7e then Some(p + 7 + S8(t[p + 6]))
    else None
  }

  /** A matched prologue whose label lies in the section and in reach of a rel8 jump. */
  predicate Candidate(t: seq<byte>, i: int)
    requires InScan(t, i)
  {
    && Prologue(t, i) && Label(t, i).Some?
    && 0 <= Label(t, i).value && Label(t, i).value + 2 <= |t|
    && -128 <= Label(t, i).value - (i + 13) < 128
  }

  /** Two bytes that load the character argument of __swbuf: mov edi,imm32 or movsx edi,al. */
  predicate LoadsChar(b0: byte, b1: byte) { b0 == 0xbf || (b0 == 0x0f && b1 == 0xbe) }

  predicate LabelOk(t: seq<byte>, s: int)
    requires 0 <= s && s + 2 <= |t|
  {
    LoadsChar(t[s], t[s + 1])
  }

  predicate Site(t: seq<byte>, i: int)
    requires InScan(t, i)
  {
    Candidate(t, i) && LabelOk(t, Label(t, i).value)
  }

  function Rel(t: seq<byte>, i: int): byte
    requires InScan(t, i) && Candidate(t, i)
  {
    (Label(t, i).value - (i + 13)) % 256
  }

  function Patch(t: seq<byte>, i: int, rel: byte): (r: seq<byte>)
    requires InScan(t, i)
    ensures |r| == |t|
  {
    t[i + 6 := 0x90][i + 7 := 0x90][i + 8 := 0x90][i + 11 := 0xeb][i + 12 := rel]
  }

  /** The scan from position `i` on, each decision taken on the text as patched so far. */
  function Pass(t: seq<byte>, i: nat): (r: seq<byte>)
    ensures |r| == |t|
    decreases |t| - i
  {
    if !InScan(t, i) then t
    else if Site(t, i) then Pass(Patch(t, i, Rel(t, i)), i + 1)
    else Pass(t, i + 1)
  }

  // ---- patching a set of candidates of the original text at once ----

  predicate Candidates(t: seq<byte>, s: set<int>) {
    forall j :: j in s ==> InScan(t, j) && Candidate(t, j)
  }

  function ByteAt(t: seq<byte>, s: set<int>, x: int): byte
    requires Candidates(t, s) && 0 <= x < |t|
  {
    if x - 6 in s || x - 7 in s || x - 8 in s then 0x90
    else if x - 11 in s then 0xeb
    else if x - 12 in s then Rel(t, x - 12)
    else t[x]
  }

  function PatchAll(t: seq<byte>, s: set<int>): (r: seq<byte>)
    requires Candidates(t, s)
    ensures |r| == |t| && forall x :: 0 <= x < |t| ==> r[x] == ByteAt(t, s, x)
  {
    seq<byte>(|t|, x requires 0 <= x < |t| && Candidates(t, s) => ByteAt(t, s, x))
  }

  ghost function Sites(t: seq<byte>): (s: set<int>)
    ensures Candidates(t, s)
  {
    set i | 0 <= i < |t| && InScan(t, i) && Site(t, i)
  }

  // ---- why rewrites cannot disturb one another ----

  /** Two matched prologues share at most the displacement byte of the first. */
  lemma {:induction false} ProloguesApart(t: seq<byte>, j: int, i: int)
    requires InScan(t, j) && InScan(t, i) && j < i && Prologue(t, j) && Prologue(t, i)
    ensures j + 12 <= i
  {
  }

  /** When they do share it, the first is a jle, whose displacement the patch keeps. */
  lemma {:induction false} SharedByteKept(t: seq<byte>, j: int)
    requires InScan(t, j) && InScan(t, j + 12) && Candidate(t, j) && Prologue(t, j + 12)
    ensures t[j + 11] == 0x7e && Rel(t, j) == t[j + 12]
  {
    hide Label, Rel;
    CheckAfterJg(t, j);
    NoCheckByte(t, j + 12, 1);
    JleKeepsDisplacement(t, j);
  }

  lemma {:induction false} JleKeepsDisplacement(t: seq<byte>, j: int)
    requires InScan(t, j) && Candidate(t, j) && t[j + 11] == 0x7e
    ensures Rel(t, j) == t[j + 12]
  {
  }

  predicate Near(s: set<int>, i: int) {
    forall j :: j in s && j != i ==> j + 12 <= i || i + 12 <= j
  }

  lemma {:induction false} CandidatesNear(t: seq<byte>, s: set<int>, i: int)
    requires Candidates(t, s) && InScan(t, i) && Prologue(t, i)
    ensures Near(s, i)
  {
    forall j | j in s && j != i ensures j + 12 <= i || i + 12 <= j {
      if j < i { ProloguesApart(t, j, i); } else { ProloguesApart(t, i, j); }
    }
  }

  /** None of the twelve fixed bytes of a prologue can be one of the bytes a patch writes. */
  lemma {:induction false} NotPatchByte(t: seq<byte>, i: int, d: int)
    requires InScan(t, i) && Prologue(t, i) && 0 <= d < 12
    ensures t[i + d] != 0x90 && t[i + d] != 0xeb
  {
  }

  /** Patching other sites neither destroys a prologue ... */
  lemma {:induction false} PrologueSurvives(t: seq<byte>, s: set<int>, i: int)
    requires Candidates(t, s) && InScan(t, i) && i !in s && Prologue(t, i)
    ensures Prologue(PatchAll(t, s), i)
    ensures forall x :: i <= x < i + 18 ==> PatchAll(t, s)[x] == t[x]
  {
    hide Prologue, Rel, Label;
    CandidatesNear(t, s, i);
    if i - 12 in s { SharedByteKept(t, i - 12); }
    var c := PatchAll(t, s);
    forall x | i <= x < i + 18 ensures c[x] == t[x] {
      assert c[x] == ByteAt(t, s, x);
    }
    PrologueFrame(t, c, i);
  }

  lemma {:induction false} PrologueFrame(t: seq<byte>, c: seq<byte>, i: int)
    requires InScan(t, i) && |c| == |t| && forall x :: i <= x < i + 12 ==> c[x] == t[x]
    ensures Prologue(t, i) == Prologue(c, i)
  {
  }

  /** ... nor creates one. */
  lemma {:induction false} NoNewPrologue(t: seq<byte>, s: set<int>, i: int)
    requires Candidates(t, s) && InScan(t, i) && Prologue(PatchAll(t, s), i)
    ensures i !in s && Prologue(t, i)
  {
    hide Prologue, Rel, Label;
    var c := PatchAll(t, s);
    assert i !in s by { assert c[i + 6] == ByteAt(t, s, i + 6); NotPatchByte(c, i, 6); }
    if i - 12 in s { NoPrologueAfterJg(t, s, i); }
    forall x | i <= x < i + 12 ensures c[x] == t[x] {
      assert c[x] == ByteAt(t, s, x);
      NotPatchByte(c, i, x - i);
      if x > i && x - 12 in s {
        assert c[x - 1] == ByteAt(t, s, x - 1);
        NotPatchByte(c, i, x - 1 - i);
      }
    }
    PrologueFrame(t, c, i);
  }

  lemma {:induction false} NoPrologueAfterJg(t: seq<byte>, s: set<int>, i: int)
    requires Candidates(t, s) && InScan(t, i) && Prologue(PatchAll(t, s), i) && i - 12 in s
    ensures Rel(t, i - 12) == t[i]
  {
    hide Prologue, Rel, Label;
    var c, j := PatchAll(t, s), i - 12;
    NotPatchByte(c, i, 0);
    NotPatchByte(c, i, 1);
    assert c[i] == ByteAt(t, s, i) && c[i + 1] == ByteAt(t, s, i + 1);
    assert c[i + 1] == t[i + 1];
    NoCheckByte(c, i, 1);
    CheckAfterJg(t, j);
    JleKeepsDisplacement(t, j);
  }

  /** A candidate is a jle, or its jg is followed by one of the four checks. */
  lemma {:induction false} CheckAfterJg(t: seq<byte>, j: int)
    requires InScan(t, j) && Candidate(t, j)
    ensures t[j + 11] == 0x7e || t[j + 13] in {0x74, 0x3c, 0x3b, 0x3d}
  {
  }

  /** Patching other sites does not move a site's label. */
  lemma {:induction false} LabelStays(t: seq<byte>, s: set<int>, i: int)
    requires Candidates(t, s) && InScan(t, i) && i !in s && Prologue(t, i)
    ensures Label(PatchAll(t, s), i) == Label(t, i)
  {
    hide Prologue, Rel;
    PrologueSurvives(t, s, i);
    CandidatesNear(t, s, i);
    var c := PatchAll(t, s);
    if i + 12 in s {
      NoCheckByte(t, i + 12, 1);
    } else if i + 13 in s {
      NoCheckByte(t, i + 13, 0);
    } else {
      assert c[i + 18] == ByteAt(t, s, i + 18) == t[i + 18];
      assert c[i + 19] == ByteAt(t, s, i + 19) == t[i + 19];
    }
  }

  /** A prologue does not begin, nor continue after its opcode, with one of the checks after a jg. */
  lemma {:induction false} NoCheckByte(t: seq<byte>, i: int, d: int)
    requires InScan(t, i) && Prologue(t, i) && 0 <= d <= 1
    ensures t[i + d] !in {0x74, 0x3c, 0x3b, 0x3d}
  {
  }

  lemma {:induction false} CandidateStays(t: seq<byte>, s: set<int>, i: int)
    requires Candidates(t, s) && InScan(t, i)
    ensures Candidate(PatchAll(t, s), i) <==> i !in s && Candidate(t, i)
    ensures i !in s && Candidate(t, i) ==> Label(PatchAll(t, s), i) == Label(t, i)
  {
    var c := PatchAll(t, s);
    if Prologue(c, i) {
      NoNewPrologue(t, s, i);
      LabelStays(t, s, i);
    } else if i !in s && Prologue(t, i) {
      PrologueSurvives(t, s, i);
    }
  }

  /** A patch can change what a label check sees only at the displacement byte of a rewritten site. */
  lemma {:induction false} LabelBytes(t: seq<byte>, s: set<int>, x: int)
    requires Candidates(t, s) && 0 <= x && x + 2 <= |t|
    ensures LabelOk(PatchAll(t, s), x) ==
            if x - 12 in s then LoadsChar(Rel(t, x - 12), t[x + 1]) else LabelOk(t, x)
  {
    var c := PatchAll(t, s);
    assert c[x] == ByteAt(t, s, x) && c[x + 1] == ByteAt(t, s, x + 1);
    if x - 12 in s {
      CandidatesNear(t, s, x - 12);
      assert c[x] == Rel(t, x - 12) && c[x + 1] == t[x + 1];
    } else {
      LabelBytesElsewhere(t, s, x);
    }
  }

  lemma {:induction false} LabelBytesElsewhere(t: seq<byte>, s: set<int>, x: int)
    requires Candidates(t, s) && 0 <= x && x + 2 <= |t| && x - 12 !in s
    ensures LabelOk(PatchAll(t, s), x) == LabelOk(t, x)
  {
    var c := PatchAll(t, s);
    assert c[x] == ByteAt(t, s, x) && c[x + 1] == ByteAt(t, s, x + 1);
    if c[x] != t[x] {
      var d :| d in {6, 7, 8, 11} && x - d in s;
      assert Prologue(t, x - d);
    } else if c[x + 1] != t[x + 1] {
      var d :| d in {6, 7, 8, 11, 12} && x + 1 - d in s;
      assert Prologue(t, x + 1 - d);
    }
  }

  /** Patching one more candidate in place is patching the larger set. */
  lemma {:induction false} PatchOneMore(t: seq<byte>, s: set<int>, i: int)
    requires Candidates(t, s) && InScan(t, i) && i !in s && Candidate(t, i)
    ensures Candidates(t, s + {i}) && Patch(PatchAll(t, s), i, Rel(t, i)) == PatchAll(t, s + {i})
  {
    hide Prologue, Rel, Label;
    CandidatesNear(t, s, i);
    var a, b := Patch(PatchAll(t, s), i, Rel(t, i)), PatchAll(t, s + {i});
    forall x | 0 <= x < |t| ensures a[x] == b[x] {
      assert b[x] == ByteAt(t, s + {i}, x);
      assert PatchAll(t, s)[x] == ByteAt(t, s, x);
    }
  }

  // ---- the scan against "find every site, then patch them all" ----

  /** The positions below `n` that the in-place scan rewrites. */
  ghost function Chosen(t: seq<byte>, n: nat): (s: set<int>)
    ensures Candidates(t, s) && forall j :: j in s ==> 0 <= j < n
  {
    if n == 0 then {}
    else
      var s := Chosen(t, n - 1);
      if Picks(t, s, n - 1) then s + {n - 1} else s
  }

  /** The scan rewrites position `i` of the text in which `s` has been rewritten. */
  ghost predicate Picks(t: seq<byte>, s: set<int>, i: int)
    requires Candidates(t, s)
    ensures Picks(t, s, i) ==> Candidates(t, {i})
  {
    InScan(t, i) && (CandidateStays(t, s, i); Site(PatchAll(t, s), i))
  }

  lemma {:induction false} ChosenGrows(t: seq<byte>, a: nat, b: nat)
    requires a <= b
    ensures forall j :: j < a ==> (j in Chosen(t, a) <==> j in Chosen(t, b))
    decreases b - a
  {
    hide Site, PatchAll;
    if a < b { ChosenGrows(t, a, b - 1); }
  }

  /** The decision taken at `i`, in terms of the original text. */
  lemma {:induction false} ChosenAt(t: seq<byte>, i: int)
    requires InScan(t, i)
    ensures i in Chosen(t, |t|) <==> Candidate(t, i) && LabelOk(PatchAll(t, Chosen(t, i)), Label(t, i).value)
  {
    hide Candidate, LabelOk, PatchAll, Label;
    CandidateStays(t, Chosen(t, i), i);
    ChosenGrows(t, i + 1, |t|);
  }

  /** Pass(t, 0) patches exactly the chosen positions. */
  lemma {:induction false} PassChoices(t: seq<byte>, n: nat)
    requires n <= |t|
    ensures Pass(t, 0) == Pass(PatchAll(t, Chosen(t, n)), n)
  {
    hide Site, Candidate, Label, ByteAt;
    if n == 0 {
      assert PatchAll(t, {}) == t by { PatchNone(t); }
    } else {
      PassChoices(t, n - 1);
      var s := Chosen(t, n - 1);
      if InScan(t, n - 1) {
        CandidateStays(t, s, n - 1);
        if Site(PatchAll(t, s), n - 1) { PassOne(t, s, n - 1); }
      }
    }
  }

  lemma {:induction false} PatchNone(t: seq<byte>)
    ensures PatchAll(t, {}) == t
  {
  }

  lemma {:induction false} PassOne(t: seq<byte>, s: set<int>, i: int)
    requires Candidates(t, s) && InScan(t, i) && Site(PatchAll(t, s), i)
    ensures i !in s && Candidate(t, i) && Candidates(t, s + {i})
    ensures Patch(PatchAll(t, s), i, Rel(PatchAll(t, s), i)) == PatchAll(t, s + {i})
  {
    hide PatchAll, Prologue, Label, LabelOk;
    CandidateStays(t, s, i);
    PatchOneMore(t, s, i);
  }

  lemma {:induction false} PassIsPatchAll(t: seq<byte>)
    ensures Pass(t, 0) == PatchAll(t, Chosen(t, |t|))
  {
    PassChoices(t, |t|);
  }

  /** Different sets of rewritten candidates give different texts: byte 11 of a site tells. */
  lemma {:induction false} PatchAllInjective(t: seq<byte>, s: set<int>, r: set<int>)
    requires Candidates(t, s) && Candidates(t, r) && PatchAll(t, s) == PatchAll(t, r)
    ensures s == r
  {
    forall i ensures i in s <==> i in r {
      if i in s || i in r {
        PatchShows(t, s, i);
        PatchShows(t, r, i);
      }
    }
  }

  lemma {:induction false} PatchShows(t: seq<byte>, s: set<int>, i: int)
    requires Candidates(t, s) && InScan(t, i) && Candidate(t, i)
    ensures PatchAll(t, s)[i + 11] == if i in s then 0xeb else t[i + 11]
    ensures t[i + 11] != 0xeb
  {
    CandidatesNear(t, s, i);
    NotPatchByte(t, i, 11);
    hide Prologue, Label, Rel;
    assert PatchAll(t, s)[i + 11] == ByteAt(t, s, i + 11);
  }

  /** Candidate `i` has its label on the displacement byte of site `j`, and rewriting `j` changes
    * whether that byte passes the label check. */
  predicate Flips(t: seq<byte>, i: int, j: int)
    requires InScan(t, i) && Candidate(t, i) && InScan(t, j) && Candidate(t, j)
  {
    Label(t, i).value == j + 12 && LoadsChar(Rel(t, j), t[j + 13]) != LoadsChar(t[j + 12], t[j + 13])
  }

  /** No candidate's label sits on a displacement byte that an earlier rewrite changes the check of. */
  ghost predicate LabelsStable(t: seq<byte>) {
    forall i, j :: InScan(t, i) && Candidate(t, i) && j in Sites(t) && j < i ==> !Flips(t, i, j)
  }

  lemma {:induction false} DecisionAgrees(t: seq<byte>, i: int, s: set<int>)
    requires InScan(t, i) && Candidate(t, i) && Candidates(t, s)
    ensures LabelOk(PatchAll(t, s), Label(t, i).value) == LabelOk(t, Label(t, i).value) <==>
            forall j :: j in s ==> !Flips(t, i, j)
  {
    hide Prologue, Rel;
    LabelBytes(t, s, Label(t, i).value);
  }

  ghost function SitesBelow(t: seq<byte>, n: int): (s: set<int>)
    ensures Candidates(t, s)
  {
    set i | i in Sites(t) && i < n
  }

  lemma {:induction false} StableChoices(t: seq<byte>, n: nat)
    requires LabelsStable(t)
    ensures Chosen(t, n) == SitesBelow(t, n)
  {
    hide Candidate, LabelOk, PatchAll, Label, Flips;
    if n > 0 {
      StableChoices(t, n - 1);
      if InScan(t, n - 1) {
        CandidateStays(t, Chosen(t, n - 1), n - 1);
        if Candidate(t, n - 1) { DecisionAgrees(t, n - 1, SitesBelow(t, n - 1)); }
      }
    }
  }

  /** The single in-place pass equals "find all sites in the original text, then patch them all"
    * exactly when no label sits where an earlier rewrite changes the answer. */
  lemma {:induction false} InPlaceIsTwoPhaseIff(t: seq<byte>)
    ensures Pass(t, 0) == PatchAll(t, Sites(t)) <==> LabelsStable(t)
  {
    hide Candidate, LabelOk, PatchAll, Label, Flips, Pass;
    PassIsPatchAll(t);
    if LabelsStable(t) {
      StableChoices(t, |t|);
      assert SitesBelow(t, |t|) == Sites(t);
    }
    if Pass(t, 0) == PatchAll(t, Sites(t)) {
      PatchAllInjective(t, Chosen(t, |t|), Sites(t));
      forall i, j | InScan(t, i) && Candidate(t, i) && j in Sites(t) && j < i ensures !Flips(t, i, j) {
        ChosenGrows(t, i, |t|);
        assert Chosen(t, i) == SitesBelow(t, i) by {
          assert forall k :: k in Chosen(t, i) <==> k in SitesBelow(t, i);
        }
        ChosenAt(t, i);
        DecisionAgrees(t, i, SitesBelow(t, i));
        assert j in SitesBelow(t, i);
      }
    }
  }

  // ---- a second pass ----

  lemma {:induction false} NoSitesNoChoices(t: seq<byte>, n: nat)
    requires Sites(t) == {}
    ensures Chosen(t, n) == {}
  {
    hide Site, PatchAll, ByteAt;
    if n > 0 {
      NoSitesNoChoices(t, n - 1);
      PatchNone(t);
    }
  }

  lemma {:induction false} FirstSiteChosen(t: seq<byte>, n: nat)
    requires Chosen(t, n) == {} && n <= |t|
    ensures forall i :: 0 <= i < n ==> i !in Sites(t)
  {
    hide Site, PatchAll, ByteAt;
    if n > 0 {
      ChosenGrows(t, n - 1, n);
      assert Chosen(t, n - 1) == {};
      FirstSiteChosen(t, n - 1);
      PatchNone(t);
    }
  }

  /** A pass changes nothing exactly when the text has no site. */
  lemma {:induction false} IdleIff(t: seq<byte>)
    ensures Pass(t, 0) == t <==> Sites(t) == {}
  {
    hide Site, PatchAll, ByteAt, Pass, Picks;
    PassIsPatchAll(t);
    PatchNone(t);
    if Sites(t) == {} { NoSitesNoChoices(t, |t|); }
    if Pass(t, 0) == t {
      PatchAllInjective(t, Chosen(t, |t|), {});
      FirstSiteChosen(t, |t|);
      assert forall i :: i in Sites(t) ==> 0 <= i < |t|;
    }
  }

  /** The scan's decision at `i`, read off the original bytes: the label check sees the byte as mapped,
    * or, when the label is the displacement byte of an earlier site that is itself picked, the
    * displacement which that rewrite puts there. */
  predicate Picked(t: seq<byte>, i: int)
    decreases i
  {
    InScan(t, i) && Candidate(t, i) &&
    var x := Label(t, i).value;
    var j := x - 12;
    if j < i && InScan(t, j) && Candidate(t, j) && Picked(t, j) then LoadsChar(Rel(t, j), t[j + 13]) else LabelOk(t, x)
  }

  lemma {:induction false} PickedIff(t: seq<byte>, i: int)
    ensures i in Chosen(t, |t|) <==> Picked(t, i)
    decreases i
  {
    hide Prologue, Rel, Label, Picks, PatchAll;
    if InScan(t, i) && Candidate(t, i) {
      var x := Label(t, i).value;
      ChosenAt(t, i);
      LabelBytes(t, Chosen(t, i), x);
      ChosenGrows(t, i, |t|);
      if x - 12 < i { PickedIff(t, x - 12); }
    }
  }

  /** Candidate `i` is passed over because of its label, and the label is the displacement byte of a
    * later picked site `j` whose rewrite turns it into a character load. */
  predicate Revived(t: seq<byte>, i: int, j: int) {
    && InScan(t, i) && Candidate(t, i) && !Picked(t, i) && i < j && InScan(t, j) && Candidate(t, j) && Picked(t, j)
    && Label(t, i).value == j + 12 && LoadsChar(Rel(t, j), t[j + 13])
  }

  lemma {:induction false} LeftOverSite(t: seq<byte>, i: int)
    requires InScan(t, i) && Candidate(t, i) && i !in Chosen(t, |t|)
    ensures LabelOk(PatchAll(t, Chosen(t, |t|)), Label(t, i).value) <==> Revived(t, i, Label(t, i).value - 12)
  {
    hide Prologue, Picks, Rel, PatchAll, Picked;
    var s, x := Chosen(t, |t|), Label(t, i).value;
    ChosenAt(t, i);
    ChosenGrows(t, i, |t|);
    LabelBytes(t, s, x);
    LabelBytes(t, Chosen(t, i), x);
    PickedIff(t, i);
    PickedIff(t, x - 12);
    assert x - 12 in s && x - 12 != i ==> x - 12 < i || i < x - 12;
  }

  /** Running the pass again changes nothing exactly when no passed-over candidate is revived. */
  lemma {:induction false} SecondPassIdleIff(t: seq<byte>)
    ensures Pass(Pass(t, 0), 0) == Pass(t, 0) <==> forall i, j :: !Revived(t, i, j)
  {
    hide Candidate, LabelOk, PatchAll, Pass, Rel, Label, Picked;
    var s := Chosen(t, |t|);
    PassIsPatchAll(t);
    var f := PatchAll(t, s);
    IdleIff(f);
    if i, j :| Revived(t, i, j) {
      PickedIff(t, i);
      CandidateStays(t, s, i);
      LeftOverSite(t, i);
      assert i in Sites(f);
    }
    if Sites(f) != {} {
      var i :| i in Sites(f);
      CandidateStays(t, s, i);
      LeftOverSite(t, i);
    }
  }

  /** No candidate's label lies inside the rewritten bytes of a picked site. */
  ghost predicate LabelsClear(t: seq<byte>) {
    forall i, j :: InScan(t, i) && Candidate(t, i) && Picked(t, j) ==> !(j + 6 <= Label(t, i).value <= j + 12)
  }

  /** Then the pass is the two-phase one and a second pass changes nothing. */
  lemma {:induction false} CleanLabels(t: seq<byte>)
    requires LabelsClear(t)
    ensures Pass(t, 0) == PatchAll(t, Sites(t)) && Pass(Pass(t, 0), 0) == Pass(t, 0)
  {
    hide Candidate, LabelOk, PatchAll, Pass, Rel, Label, Picked;
    forall j | j in Sites(t) ensures Picked(t, j) { SitePicked(t, j); }
    InPlaceIsTwoPhaseIff(t);
    SecondPassIdleIff(t);
  }

  lemma {:induction false} SitePicked(t: seq<byte>, j: int)
    requires LabelsClear(t) && InScan(t, j) && Site(t, j)
    ensures Picked(t, j)
  {
    hide Prologue, Label, Rel;
    var k := Label(t, j).value - 12;
    assert !Picked(t, k);
  }

  // ---- a text on which the second pass still finds a site ----

  /** mov eax,[rdi+12]; lea ecx,[rax-1]; mov [rdi+12],ecx; test eax,eax. */
  predicate PrologueBytes(t: seq<byte>, i: nat) {
    && i + 11 <= |t| && t[i] == 0x8b && t[i + 1] == 0x47 && t[i + 2] == 0x0c && t[i + 3] == 0x8d && t[i + 4] == 0x48
    && t[i + 5] == 0xff && t[i + 6] == 0x89 && t[i + 7] == 0x4f && t[i + 8] == 0x0c && t[i + 9] == 0x85
        && t[i + 10] == 0xc0
  }

  /** A jle prologue at 20 with label 64, which is the displacement byte of the jg prologue at 52. The
    * label of the latter is the 0xbf at 0, so that its rewrite puts 0xbf at 64 as well. */
  predicate RevivingText(t: seq<byte>) {
    && |t| == 73 && t[0] == 0xbf
    && PrologueBytes(t, 20) && t[31] == 0x7e && t[32] == 0x1f
    && PrologueBytes(t, 52) && t[63] == 0x7f && t[64] == 0x05 && t[65] == 0x74 && t[66] == 0xbd
  }

  lemma {:induction false} SecondPassCanChange(t: seq<byte>)
    requires RevivingText(t)
    ensures Pass(Pass(t, 0), 0) != Pass(t, 0)
  {
    hide Candidate, Label, Rel, Picked, Pass;
    RevivedFirst(t);
    RevivingSecond(t);
    assert Revived(t, 20, 52);
    SecondPassIdleIff(t);
  }

  lemma {:induction false} RevivedFirst(t: seq<byte>)
    requires RevivingText(t)
    ensures InScan(t, 20) && Candidate(t, 20) && Label(t, 20) == Some(64) && !Picked(t, 20)
  {
    assert Prologue(t, 20) && Label(t, 20) == Some(64);
    assert !LabelOk(t, 64);
  }

  lemma {:induction false} RevivingSecond(t: seq<byte>)
    requires RevivingText(t)
    ensures InScan(t, 52) && Candidate(t, 52) && Rel(t, 52) == 0xbf && Picked(t, 52)
  {
    assert Prologue(t, 52) && Label(t, 52) == Some(0);
    assert LabelOk(t, 0);
  }

  /** There is such a text. */
  lemma {:induction false} RevivingTextExists() returns (t: seq<byte>)
    ensures RevivingText(t)
  {
    t := seq(73, x => RevivingByte(x));
  }

  function RevivingByte(x: int): byte {
    if 20 <= x < 31 then PROLOGUE[x - 20] else if 52 <= x < 63 then PROLOGUE[x - 52]
    else if x == 0 then 0xbf else if x == 31 then 0x7e else if x == 32 then 0x1f
    else if x == 63 then 0x7f else if x == 64 then 0x05 else if x == 65 then 0x74 else if x == 66 then 0xbd else 0
  }

  const PROLOGUE: seq<byte> := [0x8b, 0x47, 0x0c, 0x8d, 0x48, 0xff, 0x89, 0x4f, 0x0c, 0x85, 0xc0]

  // ---- a text on which the pass is not the two-phase one ----

  /** A jg prologue at 0 with displacement byte 0xbf and label 33, and a jle prologue at 20 whose label is
    * that displacement byte. */
  predicate FlippingText(t: seq<byte>) {
    && |t| == 41
    && PrologueBytes(t, 0) && t[11] == 0x7f && t[12] == 0xbf && t[13] == 0x74 && t[14] == 0x12
    && PrologueBytes(t, 20) && t[31] == 0x7e && t[32] == 0xeb && t[33] == 0xbf
  }

  /** Both are sites of such a text; the first rewrite replaces the 0xbf, so the in-place scan skips the
    * second. */
  lemma {:induction false} PassCanDiffer(t: seq<byte>)
    requires FlippingText(t)
    ensures Pass(t, 0) != PatchAll(t, Sites(t))
  {
    hide Candidate, Label, Rel, Site, PatchAll, Pass;
    FlippingFirst(t);
    FlippingSecond(t);
    assert 0 in Sites(t);
    InPlaceIsTwoPhaseIff(t);
  }

  lemma {:induction false} FlippingFirst(t: seq<byte>)
    requires FlippingText(t)
    ensures InScan(t, 0) && Candidate(t, 0) && Site(t, 0) && Rel(t, 0) == 20
  {
    assert Prologue(t, 0) && Label(t, 0) == Some(33);
  }

  lemma {:induction false} FlippingSecond(t: seq<byte>)
    requires FlippingText(t)
    ensures InScan(t, 20) && Candidate(t, 20) && Label(t, 20) == Some(12) && t[12] == 0xbf && t[13] == 0x74
  {
    assert Prologue(t, 20) && Label(t, 20) == Some(12);
  }

  /** There is such a text. */
  lemma {:induction false} FlippingTextExists() returns (t: seq<byte>)
    ensures FlippingText(t)
  {
    t := seq(41, x => FlippingByte(x));
  }

  function FlippingByte(x: int): byte {
    if 0 <= x < 11 then PROLOGUE[x] else if 20 <= x < 31 then PROLOGUE[x - 20]
    else if x == 11 then 0x7f else if x == 12 then 0xbf else if x == 13 then 0x74 else if x == 14 then 0x12
    else if x == 31 then 0x7e else if x == 32 then 0xeb else if x == 33 then 0xbf else 0
  }

  // ---- the scan as it runs ----

  datatype Outcome = Skipped | NoLabel | Unresolved | Rewritten

  /** The prologues below `n`, and those of them whose label is found but that are not rewritten. */
  ghost function ProloguesBelow(t: seq<byte>, n: int): set<int> {
    set i | 0 <= i < n && InScan(t, i) && Prologue(t, i)
  }

  ghost function UnresolvedBelow(t: seq<byte>, n: int): set<int> {
    set i | 0 <= i < n && InScan(t, i) && Prologue(t, i) && Label(t, i).Some? && !Picked(t, i)
  }

  method PatchPutcMacros(text: array<byte>) returns (patched: nat, seen: nat, unresolved: nat)
    modifies text
    ensures text[..] == Pass(old(text[..]), 0)
    ensures patched == |Chosen(old(text[..]), text.Length)|
    ensures seen == |ProloguesBelow(old(text[..]), text.Length)|
    ensures unresolved == |UnresolvedBelow(old(text[..]), text.Length)|
  {
    hide Site, Candidate, PatchAll, Rel, Prologue, Label, Picked, Pass, Chosen, ProloguesBelow, UnresolvedBelow;
    ghost var t0 := text[..];
    patched, seen, unresolved := 0, 0, 0;
    var i := 0;
    NoneYet(t0);
    while i + 20 < text.Length
      invariant 0 <= i <= text.Length
      invariant text[..] == PatchAll(t0, Chosen(t0, i))
      invariant patched == |Chosen(t0, i)|
      invariant seen == |ProloguesBelow(t0, i)| && unresolved == |UnresolvedBelow(t0, i)|
    {
      ghost var t := text[..];
      ScanStep(t0, i);
      CountStep(t0, i);
      var outcome := ScanOne(text, i);
      if outcome != Skipped { seen := seen + 1; }
      if outcome == Unresolved { unresolved := unresolved + 1; }
      if outcome == Rewritten { patched := patched + 1; }
      i := i + 1;
    }
    ChosenTail(t0, i);
    CountTail(t0, i);
    PassIsPatchAll(t0);
  }

  lemma {:induction false} NoneYet(t: seq<byte>)
    ensures Chosen(t, 0) == {} && PatchAll(t, {}) == t && ProloguesBelow(t, 0) == {} && UnresolvedBelow(t, 0) == {}
  {
    PatchNone(t);
  }

  /** What the scan decides at `i`, in terms of the original text. */
  lemma {:induction false} ScanStep(t: seq<byte>, i: nat)
    requires InScan(t, i)
    ensures var c := PatchAll(t, Chosen(t, i));
            && (Prologue(c, i) <==> Prologue(t, i)) && (Prologue(t, i) ==> Label(c, i) == Label(t, i))
            && (Site(c, i) <==> Picked(t, i))
            && (Site(c, i) ==> i !in Chosen(t, i) && Candidates(t, Chosen(t, i) + {i}) &&
                               Patch(c, i, Rel(c, i)) == PatchAll(t, Chosen(t, i) + {i}))
            && Chosen(t, i + 1) == (if Site(c, i) then Chosen(t, i) + {i} else Chosen(t, i))
            && |Chosen(t, i + 1)| == |Chosen(t, i)| + (if Site(c, i) then 1 else 0)
            && (Site(c, i) ==> Prologue(c, i) && Label(c, i).Some?)
  {
    var s := Chosen(t, i);
    hide Prologue, Label, Rel, Picked, PatchAll, LabelOk;
    CandidateStays(t, s, i);
    ChosenGrows(t, i + 1, |t|);
    PickedIff(t, i);
    if Prologue(t, i) { PrologueSurvives(t, s, i); LabelStays(t, s, i); }
    if Prologue(PatchAll(t, s), i) { NoNewPrologue(t, s, i); }
    if Site(PatchAll(t, s), i) { PassOne(t, s, i); }
  }

  lemma {:induction false} CountStep(t: seq<byte>, i: nat)
    requires InScan(t, i)
    ensures |ProloguesBelow(t, i + 1)| == |ProloguesBelow(t, i)| + if Prologue(t, i) then 1 else 0
    ensures |UnresolvedBelow(t, i + 1)| ==
            |UnresolvedBelow(t, i)| + if Prologue(t, i) && Label(t, i).Some? && !Picked(t, i) then 1 else 0
  {
    hide Prologue, Label, Picked;
    var p, u := ProloguesBelow(t, i), UnresolvedBelow(t, i);
    assert ProloguesBelow(t, i + 1) == if Prologue(t, i) then p + {i} else p;
    assert UnresolvedBelow(t, i + 1) == if Prologue(t, i) && Label(t, i).Some? && !Picked(t, i) then u + {i} else u;
  }

  lemma {:induction false} CountTail(t: seq<byte>, n: nat)
    requires n <= |t| && !InScan(t, n)
    ensures ProloguesBelow(t, n) == ProloguesBelow(t, |t|) && UnresolvedBelow(t, n) == UnresolvedBelow(t, |t|)
  {
    hide Prologue, Label, Picked;
  }

  /** One iteration of the scan. */
  method ScanOne(text: array<byte>, i: nat) returns (outcome: Outcome)
    requires i + 20 < text.Length
    modifies text
    ensures outcome == if !Prologue(old(text[..]), i) then Skipped else if Label(old(text[..]), i).None? then NoLabel
                       else if Site(old(text[..]), i) then Rewritten else Unresolved
    ensures text[..] == if Site(old(text[..]), i) then Patch(old(text[..]), i, Rel(old(text[..]), i)) else old(text[..])
  {
    hide Prologue, Label, LabelOk;
    var matched := Matches(text, i);
    if !matched { return Skipped; }
    var slow := SlowLabel(text, i);
    if slow.None? { return NoLabel; }
    var x := slow.value;
    if x < 0 || x + 2 > text.Length || !(-128 <= x - (i + 13) < 128) { return Unresolved; }
    LabelRead(text[..], x);
    if !(text[x] == 0xbf || (text[x] == 0x0f && text[x + 1] == 0xbe)) { return Unresolved; }
    Rewrite(text, i, (x - (i + 13)) % 256);
    outcome := Rewritten;
  }

  lemma {:induction false} LabelRead(t: seq<byte>, x: int)
    requires 0 <= x && x + 2 <= |t|
    ensures LabelOk(t, x) == (t[x] == 0xbf || (t[x] == 0x0f && t[x + 1] == 0xbe))
  {
  }

  lemma {:induction false} ChosenTail(t: seq<byte>, n: nat)
    requires n <= |t| && !InScan(t, n)
    ensures Chosen(t, n) == Chosen(t, |t|)
    decreases |t| - n
  {
    hide Site, PatchAll;
    if n < |t| { ChosenTail(t, n + 1); }
  }

  method Matches(text: array<byte>, i: nat) returns (b: bool)
    requires i + 20 < text.Length
    ensures b == Prologue(text[..], i)
  {
    var t := text[..];
    if text[i] != 0x8b { return false; }
    var modrm1 := text[i + 1];
    if Mod(modrm1) != 1 || Rm(modrm1) == 4 || text[i + 2] != 0x0c { return false; }
    var r1, base := Reg(modrm1), Rm(modrm1);
    if text[i + 3] != 0x8d { return false; }
    var modrm2 := text[i + 4];
    if Mod(modrm2) != 1 || Rm(modrm2) != r1 || text[i + 5] != 0xff { return false; }
    var r2 := Reg(modrm2);
    if text[i + 6] != 0x89 { return false; }
    var modrm3 := text[i + 7];
    if Mod(modrm3) != 1 || Reg(modrm3) != r2 || Rm(modrm3) != base || text[i + 8] != 0x0c { return false; }
    if text[i + 9] != 0x85 { return false; }
    var modrm4 := text[i + 10];
    if Mod(modrm4) != 3 || Reg(modrm4) != r1 || Rm(modrm4) != r1 { return false; }
    b := text[i + 11] == 0x7f || text[i + 11] == 0x7e;
  }

  method SlowLabel(text: array<byte>, i: nat) returns (slow: Option<int>)
    requires i + 20 < text.Length
    ensures slow == Label(text[..], i)
  {
    var p := i + 13;
    if text[i + 11] == 0x7e {
      slow := Some(p + S8(text[i + 12]));
    } else if text[p] == 0x74 {
      slow := Some(p + 2 + S8(text[p + 1]));
    } else if text[p] == 0x3c && text[p + 1] == 0x0a && text[p + 2] == 0x74 {
      slow := Some(p + 4 + S8(text[p + 3]));
    } else if text[p] == 0x3b && text[p + 3] == 0x7e {
      slow := Some(p + 5 + S8(text[p + 4]));
    } else if text[p] == 0x3d && text[p + 5] == 0x7e {
      slow := Some(p + 7 + S8(text[p + 6]));
    } else {
      slow := None;
    }
  }

  method Rewrite(text: array<byte>, i: nat, rel: byte)
    requires i + 20 < text.Length
    modifies text
    ensures text[..] == Patch(old(text[..]), i, rel)
  {
    text[i + 6], text[i + 7], text[i + 8] := 0x90, 0x90, 0x90;
    text[i + 11] := 0xeb;
    text[i + 12] := rel;
  }

  // ---- what a rewritten site does ----

  /** The bytes of a rewritten site, whatever else was rewritten. */
  lemma {:induction false} SiteBytes(t: seq<byte>, s: set<int>, i: int)
    requires Candidates(t, s) && i in s
    ensures var f := PatchAll(t, s);
            && SameBytes(t, f, i, i + 6) && SameBytes(t, f, i + 9, i + 11)
            && f[i + 6] == f[i + 7] == f[i + 8] == 0x90 && f[i + 11] == 0xeb && f[i + 12] == Rel(t, i)
  {
    hide Prologue, Rel, Label, ByteAt;
    var f := PatchAll(t, s);
    forall x | i <= x < i + 13
      ensures f[x] == if i + 6 <= x < i + 9 then 0x90 else if x == i + 11 then 0xeb else if x == i + 12 then Rel(t, i)
                else t[x]
    {
      OwnByte(t, s, i, x);
    }
  }

  lemma {:induction false} OwnByte(t: seq<byte>, s: set<int>, i: int, x: int)
    requires Candidates(t, s) && i in s && i <= x < i + 13
    ensures x < |t|
    ensures ByteAt(t, s, x) ==
            if i + 6 <= x < i + 9 then 0x90 else if x == i + 11 then 0xeb else if x == i + 12 then Rel(t, i) else t[x]
  {
    hide Prologue, Rel, Label;
    CandidatesNear(t, s, i);
    OwnMembers(s, i, x);
    if x == i && i - 12 in s { SharedByteKept(t, i - 12); }
  }

  /** Within its own bytes a rewritten site meets no other, except the kept byte of a neighbour. */
  lemma {:induction false} OwnMembers(s: set<int>, i: int, x: int)
    requires i in s && Near(s, i) && i <= x < i + 13
    ensures x - 6 in s <==> x == i + 6
    ensures x - 7 in s <==> x == i + 7
    ensures x - 8 in s <==> x == i + 8
    ensures x - 11 in s <==> x == i + 11
    ensures x - 12 in s ==> x == i + 12 || x == i
  {
  }

  /** The four prologue instructions as the processor decodes them (r1 is not esp, whose encoding in
    * the lea would announce a SIB byte). */
  lemma {:induction false} PrologueInsns(t: seq<byte>, i: int)
    requires InScan(t, i) && Prologue(t, i) && Reg(t[i + 1]) != 4
    ensures Fetch(t, i) == Some(Decoded(Load(false, Reg(t[i + 1]), InMem(Rm(t[i + 1]), None, 12)), 3))
    ensures Fetch(t, i + 3) == Some(Decoded(Lea(false, Reg(t[i + 4]), InMem(Reg(t[i + 1]), None, -1)), 3))
    ensures Fetch(t, i + 6) == Some(Decoded(StoreReg(false, InMem(Rm(t[i + 1]), None, 12), Reg(t[i + 4])), 3))
    ensures Fetch(t, i + 9) == Some(Decoded(TestSelf(false, Reg(t[i + 1])), 2))
  {
    hide Mod, Reg, Rm;
  }

  /** In the final text every rewritten site, run from any state, jumps to its slow label and writes no
    * memory; unless its first register field is 4, it has the registers and flags that the original has
    * at its decision. */
  lemma {:induction false} RewrittenSiteRuns(t: seq<byte>, i: int, s: Cpu) returns (o: Cpu)
    requires i in Chosen(t, |t|) && s.rip == i
    ensures Run(Pass(t, 0), s, if Reg(t[i + 1]) == 4 then 6 else 7) == Some(o)
    ensures o.mem == s.mem && o.rip == Label(t, i).value
    ensures Reg(t[i + 1]) != 4 ==>
              Run(t, s, 4).Some? && var d := Run(t, s, 4).value; d.rip == i + 11 && o == d.(mem := o.mem, rip := o.rip)
  {
    hide Run, Pass, Picks;
    if Reg(t[i + 1]) == 4 {
      o := EspSiteRuns(t, i, s);
    } else {
      var d := PutcSiteRuns(t, i, s);
      o := d.(mem := s.mem, rip := Label(t, i).value);
    }
  }

  /** The first register field of the site is 4: in the lea that announces a SIB byte, so it takes the
    * 0xff for its SIB byte and the first NOP for its displacement. */
  lemma {:induction false} EspSiteRuns(t: seq<byte>, i: int, s: Cpu) returns (o: Cpu)
    requires i in Chosen(t, |t|) && InScan(t, i) && Candidate(t, i) && Reg(t[i + 1]) == 4 && s.rip == i
    ensures Run(Pass(t, 0), s, 6) == Some(o) && o.mem == s.mem && o.rip == Label(t, i).value
  {
    PassIsPatchAll(t);
    hide Pass, Picks, PatchAll, Fetch, Step, Prologue, Label, Mod, Reg, Rm;
    var f := Pass(t, 0);
    SiteBytes(t, Chosen(t, |t|), i);
    EspInsns(t, f, i);
    StepLoad(f, s);
    var s1 := Step(f, s).value;
    StepLea(f, s1);
    var a := Step(f, s1).value;
    NopSled(f, a, 2);
    var a' := a.(rip := i + 9);
    StepTest(f, a', s.mem);
    var o' := Step(f, a').value;
    assert o'.mem == s.mem;
    ShortJump(f, i + 11);
    JumpStep(f, o', S8(f[i + 12]), 2);
    RelReaches(t, i);
    o := o'.(rip := Label(t, i).value);
    SixSteps(f, s, s1, a, a', o');
  }

  lemma {:induction false} EspInsns(t: seq<byte>, f: seq<byte>, i: int)
    requires InScan(t, i) && Prologue(t, i) && Reg(t[i + 1]) == 4 && |f| == |t|
    requires SameBytes(t, f, i, i + 6) && SameBytes(t, f, i + 9, i + 11)
    ensures Fetch(f, i) == Some(Decoded(Load(false, 4, InMem(Rm(t[i + 1]), None, 12)), 3))
    ensures Fetch(f, i + 3) == Some(Decoded(Lea(false, Reg(t[i + 4]), InMem(7, Some((7, 3)), S8(f[i + 6]))), 4))
    ensures Fetch(f, i + 9) == Some(Decoded(TestSelf(false, 4), 2))
  {
    assert f[i + 5] == 0xff && Mod(0xff) == 3 && Reg(0xff) == 7 && Rm(0xff) == 7;
    assert f[i + 10] == t[i + 10] && f[i + 9] == t[i + 9] && f[i + 4] == t[i + 4] && f[i + 3] == t[i + 3];
    hide Mod, Reg, Rm;
  }

  lemma {:induction false} SixSteps(f: seq<byte>, s: Cpu, s1: Cpu, a: Cpu, a': Cpu, o: Cpu)
    requires Step(f, s) == Some(s1) && Step(f, s1) == Some(a) && Run(f, a, 2) == Some(a') && Step(f, a') == Some(o)
    ensures Run(f, s, 6) == Run(f, o, 1)
  {
    hide Step;
    RunAppend(f, a, 2, 2);
    assert Run(f, a', 2) == Run(f, o, 1);
    assert Run(f, s, 6) == Run(f, s1, 5) == Run(f, a, 4);
  }

  /** With that register the matched text is no putc: the lea of the original swallows the opcode of the
    * store, so the processor goes on one byte inside it. */
  lemma {:induction false} EspIsMismatch(t: seq<byte>, i: int, s: Cpu)
    requires InScan(t, i) && Prologue(t, i) && Reg(t[i + 1]) == 4 && s.rip == i
    ensures Run(t, s, 2).Some? && Run(t, s, 2).value.rip == i + 7
  {
    EspInsns(t, t, i);
    hide Fetch, Step, Prologue, Mod, Reg, Rm;
    StepLoad(t, s);
    var s1 := Step(t, s).value;
    StepLea(t, s1);
    assert Run(t, s1, 1) == Step(t, s1);
  }

  /** mov esp,[rdi+12] and the rest of the pattern, with a label that passes the check. */
  const ESP_TEXT: seq<byte> := [
    0x8b, 0x67, 0x0c, 0x8d, 0x4c, 0xff, 0x89, 0x4f, 0x0c, 0x85, 0xe4, 0x7e, 0x07,
    0x00, 0x00, 0x00, 0x00, 0x00, 0x00, 0x00, 0xbf, 0x00]

  /** Such a text is matched and rewritten. */
  lemma {:induction false} EspIsRewritten()
    ensures Reg(ESP_TEXT[1]) == 4 && 0 in Chosen(ESP_TEXT, |ESP_TEXT|)
  {
    hide Picked, Chosen;
    EspPicked(ESP_TEXT);
    PickedIff(ESP_TEXT, 0);
  }

  lemma {:induction false} EspPicked(t: seq<byte>)
    requires t == ESP_TEXT
    ensures Picked(t, 0)
  {
    assert Label(t, 0) == Some(20);
    assert LabelOk(t, 20);
  }

  lemma {:induction false} PutcSiteRuns(t: seq<byte>, i: int, s: Cpu) returns (o: Cpu)
    requires i in Chosen(t, |t|) && InScan(t, i) && Candidate(t, i) && Reg(t[i + 1]) != 4 && s.rip == i
    ensures Run(t, s, 4) == Some(o) && o.rip == i + 11
    ensures Run(Pass(t, 0), s, 7) == Some(o.(mem := s.mem, rip := Label(t, i).value))
  {
    PassIsPatchAll(t);
    hide Pass, Picks, PatchAll, Fetch, Step, Prologue, Label, Mod, Reg, Rm;
    var f := Pass(t, 0);
    PrologueInsns(t, i);
    SiteBytes(t, Chosen(t, |t|), i);
    StepLoad(t, s);
    var s1 := Step(t, s).value;
    StepLea(t, s1);
    var a := Step(t, s1).value;
    StepStore(t, a);
    var s3 := Step(t, a).value;
    StepTest(t, s3, s.mem);
    o := Step(t, s3).value;
    FourSteps(t, s, s1, a, s3, o);
    SameStep(t, f, s);
    SameStep(t, f, s1);
    NopSled(f, a, 3);
    var a' := a.(rip := i + 9);
    SameStep(t, f, a');
    assert s3.(mem := s.mem) == a';
    var o' := o.(mem := s.mem);
    ShortJump(f, i + 11);
    JumpStep(f, o', S8(f[i + 12]), 2);
    RelReaches(t, i);
    SevenSteps(f, s, s1, a, a', o');
  }

  lemma {:induction false} FourSteps(t: seq<byte>, s: Cpu, s1: Cpu, s2: Cpu, s3: Cpu, s4: Cpu)
    requires Step(t, s) == Some(s1) && Step(t, s1) == Some(s2) && Step(t, s2) == Some(s3) && Step(t, s3) == Some(s4)
    ensures Run(t, s, 4) == Some(s4)
  {
    hide Step;
    assert Run(t, s3, 1) == Some(s4) && Run(t, s2, 2) == Some(s4) && Run(t, s1, 3) == Some(s4);
  }

  lemma {:induction false} SevenSteps(f: seq<byte>, s: Cpu, s1: Cpu, a: Cpu, a': Cpu, o: Cpu)
    requires Step(f, s) == Some(s1) && Step(f, s1) == Some(a) && Run(f, a, 3) == Some(a') && Step(f, a') == Some(o)
    ensures Run(f, s, 7) == Run(f, o, 1)
  {
    hide Step;
    RunAppend(f, a, 3, 2);
    assert Run(f, a', 2) == Run(f, o, 1);
    assert Run(f, s, 7) == Run(f, s1, 6) == Run(f, a, 5);
  }

  /** The rel8 written is the distance to the label. */
  lemma {:induction false} RelReaches(t: seq<byte>, i: int)
    requires InScan(t, i) && Candidate(t, i)
    ensures i + 13 + S8(Rel(t, i)) == Label(t, i).value
  {
    hide Prologue, Label;
  }
}
