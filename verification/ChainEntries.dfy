/** Which entries the chained-fixup passes reach: pages, chains and segments in terms of the tables. */
module ChainEntries {
  import opened Memory
  import opened Options
  import opened ChainWalk

  // ---- a chain ----

  /** Bits 51 to 62 of an entry, in strides of four bytes. */
  function Link(v: u64): int { v / 0x8_0000_0000_0000 % 0x1000 * 4 }

  /** The entry after the `i`th is at the place that the `i`th names, and fits before `end`. */
  predicate Follows(es: seq<Entry>, i: nat, end: int)
    requires i + 1 < |es|
  {
    Link(es[i].value) > 0 && es[i + 1].addr == es[i].addr + Link(es[i].value) && es[i + 1].addr + 8 <= end
  }

  predicate Ends(e: Entry, end: int) { Link(e.value) == 0 || e.addr + Link(e.value) + 8 > end }

  /** From `p`, each entry at the place the one before it names, until one names none or a place where
    * eight bytes do not fit before `end`. */
  predicate IsChain(m: Mem, p: int, end: int, es: seq<Entry>) {
    && es != [] && es[0].addr == p
    && (forall i :: 0 <= i < |es| ==> es[i].value == Load64(m, es[i].addr))
    && (forall i :: 0 <= i < |es| - 1 ==> Follows(es, i, end))
    && Ends(es[|es| - 1], end)
  }

  /** The decoded entries are the chain, and there is no other. */
  lemma {:induction false} EntriesIff(m: Mem, p: int, end: int, es: seq<Entry>)
    requires p + 8 <= end
    ensures es == Entries(m, p, end) <==> IsChain(m, p, end, es)
    decreases end - p
  {
    hide Load64, IsChain, Link;
    EntriesUnfold(m, p, end);
    var e := Entry(p, Load64(m, p));
    if Ends(e, end) {
      OnlyOne(m, p, end, es);
    } else {
      var q := p + Link(e.value);
      EntriesIff(m, q, end, Entries(m, q, end));
      ChainCons(m, p, end, Entries(m, q, end));
      if IsChain(m, p, end, es) {
        ChainTail(m, p, end, es);
        EntriesIff(m, q, end, es[1..]);
      }
    }
  }

  lemma {:induction false} EntriesUnfold(m: Mem, p: int, end: int)
    requires p + 8 <= end
    ensures var e := Entry(p, Load64(m, p)); var q := p + Link(e.value);
            Link(e.value) >= 0 &&
            Entries(m, p, end) == if Ends(e, end) then [e] else [e] + Entries(m, q, end)
  {
    hide Load64;
  }

  lemma {:induction false} OnlyOne(m: Mem, p: int, end: int, es: seq<Entry>)
    requires Ends(Entry(p, Load64(m, p)), end)
    ensures IsChain(m, p, end, es) <==> es == [Entry(p, Load64(m, p))]
  {
    hide Load64, Link;
    if IsChain(m, p, end, es) {
      assert !(|es| > 1 && Follows(es, 0, end));
    }
  }

  lemma {:induction false} ChainCons(m: Mem, p: int, end: int, es: seq<Entry>)
    requires var e := Entry(p, Load64(m, p));
             !Ends(e, end) && Link(e.value) >= 0 && IsChain(m, p + Link(e.value), end, es)
    ensures IsChain(m, p, end, [Entry(p, Load64(m, p))] + es)
  {
    hide Load64, Link;
    var all := [Entry(p, Load64(m, p))] + es;
    forall i | 0 <= i < |all| - 1 ensures Follows(all, i, end) {
      if i > 0 { assert Follows(es, i - 1, end); }
    }
  }

  lemma {:induction false} ChainTail(m: Mem, p: int, end: int, es: seq<Entry>)
    requires !Ends(Entry(p, Load64(m, p)), end) && IsChain(m, p, end, es)
    ensures |es| > 1 && es == [Entry(p, Load64(m, p))] + es[1..]
    ensures IsChain(m, p + Link(Load64(m, p)), end, es[1..])
  {
    hide Load64, Link;
    assert es[0] == Entry(p, Load64(m, p)) && |es| > 1;
    var r := es[1..];
    assert Follows(es, 0, end);
    forall i | 0 <= i < |r| - 1 ensures Follows(r, i, end) { assert Follows(es, i + 1, end); }
  }

  // ---- pages ----

  /** The start fits: it is not the mark for none, and eight bytes from it end inside page and segment. */
  predicate StartFits(base: int, segEnd: int, pageSize: u16, start: u16) {
    start != 0xFFFF && start + 8 <= pageSize && base + start + 8 <= segEnd
  }

  /** `e` is on the chain of the page at `base`. */
  ghost predicate OnPage(m: Mem, base: int, segEnd: int, pageSize: u16, start: u16, e: Entry) {
    StartFits(base, segEnd, pageSize, start) &&
    exists es :: IsChain(m, base + start, if base + pageSize < segEnd then base + pageSize else segEnd, es) && e in es
  }

  lemma {:induction false} PageIff(m: Mem, base: int, segEnd: int, pageSize: u16, start: u16, e: Entry)
    ensures e in PageEntries(m, base, segEnd, pageSize, start) <==> OnPage(m, base, segEnd, pageSize, start, e)
  {
    hide Entries, IsChain;
    if StartFits(base, segEnd, pageSize, start) {
      var p, end := base + start, if base + pageSize < segEnd then base + pageSize else segEnd;
      forall es ensures es == Entries(m, p, end) <==> IsChain(m, p, end, es) { EntriesIff(m, p, end, es); }
      assert IsChain(m, p, end, Entries(m, p, end));
    }
  }

  /** `e` is on the chain of page `i`. */
  ghost predicate OnPageAt(m: Mem, base: int, segEnd: int, pageSize: u16, pages: seq<u16>, e: Entry, i: int)
    requires 0 <= i < |pages|
  {
    OnPage(m, base + i * pageSize, segEnd, pageSize, pages[i], e)
  }

  ghost predicate OnPages(m: Mem, base: int, segEnd: int, pageSize: u16, pages: seq<u16>, e: Entry) {
    exists i :: 0 <= i < |pages| && OnPageAt(m, base, segEnd, pageSize, pages, e, i)
  }

  lemma {:induction false} PagesIff(m: Mem, base: int, segEnd: int, pageSize: u16, pages: seq<u16>, e: Entry)
    ensures e in PagesEntries(m, base, segEnd, pageSize, pages) <==> OnPages(m, base, segEnd, pageSize, pages, e)
    decreases |pages|
  {
    hide PageEntries, OnPage, OnPageAt;
    if pages != [] {
      PageIff(m, base, segEnd, pageSize, pages[0], e);
      PagesIff(m, base + pageSize, segEnd, pageSize, pages[1..], e);
      hide OnPages;
      PagesShift(m, base, segEnd, pageSize, pages, e);
    }
  }

  lemma {:induction false} PagesShift(m: Mem, base: int, segEnd: int, pageSize: u16, pages: seq<u16>, e: Entry)
    requires pages != []
    ensures OnPages(m, base, segEnd, pageSize, pages, e) <==>
            || OnPage(m, base, segEnd, pageSize, pages[0], e)
            || OnPages(m, base + pageSize, segEnd, pageSize, pages[1..], e)
  {
    hide OnPage, OnPageAt;
    FirstPage(m, base, segEnd, pageSize, pages, e);
    forall i | 1 <= i < |pages|
      ensures OnPageAt(m, base, segEnd, pageSize, pages, e, i) ==
                OnPageAt(m, base + pageSize, segEnd, pageSize, pages[1..], e, i - 1)
    {
      LaterPage(m, base, segEnd, pageSize, pages, e, i);
    }
    var next, rest := base + pageSize, pages[1..];
    if i :| 0 <= i < |rest| && OnPageAt(m, next, segEnd, pageSize, rest, e, i) {
      assert OnPageAt(m, base, segEnd, pageSize, pages, e, i + 1);
    }
  }

  lemma {:induction false} FirstPage(m: Mem, base: int, segEnd: int, pageSize: u16, pages: seq<u16>, e: Entry)
    requires pages != []
    ensures OnPageAt(m, base, segEnd, pageSize, pages, e, 0) == OnPage(m, base, segEnd, pageSize, pages[0], e)
  {
    hide OnPage;
  }

  lemma {:induction false} LaterPage(m: Mem, base: int, segEnd: int, pageSize: u16, pages: seq<u16>, e: Entry, i: nat)
    requires 1 <= i < |pages|
    ensures OnPageAt(m, base, segEnd, pageSize, pages, e, i) ==
            OnPageAt(m, base + pageSize, segEnd, pageSize, pages[1..], e, i - 1)
  {
    hide OnPage;
    assert base + i * pageSize == base + pageSize + (i - 1) * pageSize && pages[i] == pages[1..][i - 1];
  }

  // ---- images ----

  /** The pass gets to segment `k`: the main image is refused at the first format that is not 2 or 6. */
  predicate Gets(w: Walker, starts: seq<Option<Starts>>, k: nat) {
    w.MainImage? ==>
      forall j :: 0 <= j <= k && j < |starts| && starts[j].Some? ==> starts[j].value.format in {2, 6}
  }

  ghost predicate OnSegment(m: Mem, seg: Segment, s: Starts, e: Entry) {
    OnPages(m, seg.vmaddr, seg.vmaddr + seg.vmsize, s.pageSize, s.pages, e)
  }

  ghost predicate OnImage(w: Walker, m: Mem, segs: seq<Segment>, starts: seq<Option<Starts>>, e: Entry) {
    exists k :: 0 <= k < |segs| && k < |starts| && starts[k].Some? && Gets(w, starts, k) &&
                OnSegment(m, segs[k], starts[k].value, e)
  }

  /** The entries of an image are exactly those on the chain of some page, whose start fits, of some
    * segment that the pass gets to. */
  lemma {:induction false} ImageIff(w: Walker, m: Mem, segs: seq<Segment>, starts: seq<Option<Starts>>, e: Entry)
    ensures e in ImageEntries(w, m, segs, starts) <==> OnImage(w, m, segs, starts, e)
    decreases |segs|
  {
    hide PagesEntries, OnSegment;
    if segs != [] && starts != [] {
      ImageIff(w, m, segs[1..], starts[1..], e);
      GetsShift(w, starts);
      OnImageShift(w, m, segs, starts, e);
      if starts[0].Some? { SegmentIff(m, segs[0], starts[0].value, e); }
    }
  }

  lemma {:induction false} SegmentIff(m: Mem, seg: Segment, s: Starts, e: Entry)
    ensures e in SegmentEntries(m, seg, s) <==> OnSegment(m, seg, s, e)
  {
    hide PagesEntries, OnPages;
    PagesIff(m, seg.vmaddr, seg.vmaddr + seg.vmsize, s.pageSize, s.pages, e);
  }

  lemma {:induction false} GetsShift(w: Walker, starts: seq<Option<Starts>>)
    requires starts != []
    ensures Gets(w, starts, 0) <==> starts[0].None? || Supports(w, starts[0].value.format)
    ensures forall k :: 1 <= k < |starts| ==>
              (Gets(w, starts, k) <==> Gets(w, starts, 0) && Gets(w, starts[1..], k - 1))
  {
    forall k | 1 <= k < |starts| ensures Gets(w, starts, k) <==> Gets(w, starts, 0) && Gets(w, starts[1..], k - 1) {
      assert forall j :: 1 <= j < |starts| ==> starts[j] == starts[1..][j - 1];
      assert forall j :: 0 <= j < |starts[1..]| ==> starts[1..][j] == starts[j + 1];
    }
  }

  lemma {:induction false} OnImageShift(w: Walker, m: Mem, segs: seq<Segment>, starts: seq<Option<Starts>>, e: Entry)
    requires segs != [] && starts != []
    requires forall k :: 1 <= k < |starts| ==>
              (Gets(w, starts, k) <==> Gets(w, starts, 0) && Gets(w, starts[1..], k - 1))
    ensures OnImage(w, m, segs, starts, e) <==>
            Gets(w, starts, 0) &&
            ((starts[0].Some? && OnSegment(m, segs[0], starts[0].value, e)) || OnImage(w, m, segs[1..], starts[1..], e))
  {
    hide OnSegment, Gets;
    if k :| 0 <= k < |segs| && k < |starts| && starts[k].Some? && Gets(w, starts, k) &&
            OnSegment(m, segs[k], starts[k].value, e)
    {
      if k > 0 {
        assert starts[1..][k - 1] == starts[k] && segs[1..][k - 1] == segs[k];
      }
    }
    if Gets(w, starts, 0) && OnImage(w, m, segs[1..], starts[1..], e) {
      var k :| 0 <= k < |segs[1..]| && k < |starts[1..]| && starts[1..][k].Some? && Gets(w, starts[1..], k) &&
               OnSegment(m, segs[1..][k], starts[1..][k].value, e);
      assert starts[k + 1] == starts[1..][k] && segs[k + 1] == segs[1..][k] && Gets(w, starts, k + 1);
    }
  }

  /** Every page whose start fits is walked from that start, at offset 0 too. */
  lemma {:induction false} StartIsEntry(w: Walker, m: Mem, segs: seq<Segment>, starts: seq<Option<Starts>>,
                                        k: nat, i: nat)
    requires k < |segs| && k < |starts| && starts[k].Some? && Gets(w, starts, k) && i < |starts[k].value.pages|
    requires StartFits(segs[k].vmaddr + i * starts[k].value.pageSize, segs[k].vmaddr + segs[k].vmsize,
                       starts[k].value.pageSize, starts[k].value.pages[i])
    ensures var s := starts[k].value;
            var a := segs[k].vmaddr + i * s.pageSize + s.pages[i];
            Entry(a, Load64(m, a)) in ImageEntries(w, m, segs, starts)
  {
    hide ImageEntries, Load64, Entries, Gets;
    var s, seg := starts[k].value, segs[k];
    var base, segEnd := seg.vmaddr + i * s.pageSize, seg.vmaddr + seg.vmsize;
    var p, end := base + s.pages[i], if base + s.pageSize < segEnd then base + s.pageSize else segEnd;
    var e := Entry(p, Load64(m, p));
    EntriesIff(m, p, end, Entries(m, p, end));
    hide IsChain;
    EntriesUnfold(m, p, end);
    assert e == Entries(m, p, end)[0] && e in Entries(m, p, end);
    assert OnPage(m, base, segEnd, s.pageSize, s.pages[i], e);
    assert OnPageAt(m, seg.vmaddr, segEnd, s.pageSize, s.pages, e, i);
    assert OnPages(m, seg.vmaddr, segEnd, s.pageSize, s.pages, e);
    ImageIff(w, m, segs, starts, e);
  }

  /** What the pass leaves in the slot of any entry that it gets to. */
  lemma {:induction false} SlotAfter(w: Walker, m: Mem, segs: seq<Segment>, starts: seq<Option<Starts>>, e: Entry)
    requires SegmentsApart(segs) && ImageWide(m, segs, starts) && OnImage(w, m, segs, starts, e)
    ensures Load64(WalkImage(w, m, segs, starts).1, e.addr) ==
            match w.Fix(e.value) case Some(x) => x case None => Load64(m, e.addr)
  {
    hide WalkImage, ImageEntries, Load64, Walker.Fix, OnImage, ImageWide;
    ImageIff(w, m, segs, starts, e);
    ImageMeaning(w, m, segs, starts);
    var es := ImageEntries(w, m, segs, starts);
    var i :| 0 <= i < |es| && es[i] == e;
  }
}
