/** The memory that the in-place chain walk leaves against the two-phase one: when they are equal. */
module ChainMemory {
  import opened Memory
  import opened Options
  import opened ChainWalk

  /** Every entry that an overwritten neighbour overlaps is a rebase, as mapped. */
  predicate OverlapsRebase(w: Walker, m: Mem, p: int, end: int)
    requires p + 8 <= end
    decreases end - p
  {
    var v := Load64(m, p);
    Stops(v, p, end) ||
    ((Next(v) == 1 && w.Fix(v).Some? ==> !IsBind(Load64(m, p + 4))) && OverlapsRebase(w, m, p + 4 * Next(v), end))
  }

  lemma {:induction false} OverlapsFrame(w: Walker, m: Mem, m': Mem, p: int, end: int)
    requires p + 8 <= end && SameFrom(m, m', p, end)
    ensures OverlapsRebase(w, m, p, end) == OverlapsRebase(w, m', p, end)
    decreases end - p
  {
    hide Load64, Next, Get, Walker.Fix;
    var v := Load64(m, p);
    assert Load64(m', p) == v by { Load64Frame(m, m', p); }
    if !Stops(v, p, end) {
      if Next(v) == 1 { Load64Frame(m, m', p + 4); }
      OverlapsFrame(w, m, m', p + 4 * Next(v), end);
    }
  }

  // ---- the low half of a slot ----

  /** A rebase stores its low half moved by the load base, whatever its high half is. */
  lemma {:induction false} RebaseLowHalf(w: Walker, v: u64)
    requires !IsBind(v)
    ensures w.Fix(v).Some? && w.Fix(v).value % 0x1_0000_0000 == (v % 0x1_0000_0000 + w.loadBase) % 0x1_0000_0000
  {
    OffsetLowHalf(w, v);
    hide Walker.Offset;
    WrapLowHalf(w.Offset(v) + w.loadBase);
    SumLowHalf(w.Offset(v), v, w.loadBase);
  }

  lemma {:induction false} OffsetLowHalf(w: Walker, v: u64)
    ensures w.Offset(v) % 0x1_0000_0000 == v % 0x1_0000_0000
  {
    var low := v % 0x1_0000_0000;
    if w.MainImage? {
      var t, h := v % 0x10_0000_0000, v / 0x10_0000_0000 % 256;
      DivModUnique(t, 0x1_0000_0000, t / 0x1_0000_0000, t % 0x1_0000_0000);
      DivModUnique(v, 0x1_0000_0000, 16 * (v / 0x10_0000_0000) + t / 0x1_0000_0000, t % 0x1_0000_0000);
      DivModUnique(h * 0x800_0000_0000 + t, 0x1_0000_0000, 2048 * h + t / 0x1_0000_0000, low);
    } else {
      var t, h := v % 0x800_0000_0000, v / 0x800_0000_0000 % 256;
      DivModUnique(v, 0x1_0000_0000, 2048 * (v / 0x800_0000_0000) + t / 0x1_0000_0000, t % 0x1_0000_0000);
      DivModUnique(h * 0x800_0000_0000 + t, 0x1_0000_0000, 2048 * h + t / 0x1_0000_0000, low);
    }
  }

  lemma {:induction false} WrapLowHalf(x: nat)
    ensures Wrap(x) % 0x1_0000_0000 == x % 0x1_0000_0000
  {
    var q, r := x / 0x1_0000_0000_0000_0000, x % 0x1_0000_0000_0000_0000;
    DivModUnique(x, 0x1_0000_0000, 0x1_0000_0000 * q + r / 0x1_0000_0000, r % 0x1_0000_0000);
  }

  lemma {:induction false} SumLowHalf(a: nat, b: nat, c: nat)
    requires a % 0x1_0000_0000 == b % 0x1_0000_0000
    ensures (a + c) % 0x1_0000_0000 == (b % 0x1_0000_0000 + c) % 0x1_0000_0000
  {
    var s := b % 0x1_0000_0000 + c;
    DivModUnique(a + c, 0x1_0000_0000, a / 0x1_0000_0000 + s / 0x1_0000_0000, s % 0x1_0000_0000);
  }

  lemma {:induction false} LowHalvesDiffer(x: nat, y: nat, c: nat)
    requires x < 0x1_0000_0000 && y < 0x1_0000_0000 && x != y
    ensures (x + c) % 0x1_0000_0000 != (y + c) % 0x1_0000_0000
  {
  }

  /** The overlapped entry keeps its kind and its `next`, and has the low half of the write before it. */
  lemma {:induction false} OverlappedFields(x: u64, v: u64)
    ensures Overlapped(x, v) % 0x1_0000_0000 == x / 0x1_0000_0000
    ensures Next(Overlapped(x, v)) == Next(v) && IsBind(Overlapped(x, v)) == IsBind(v)
  {
    var u, h := Overlapped(x, v), v / 0x1_0000_0000;
    DivModUnique(u, 0x1_0000_0000, h, x / 0x1_0000_0000);
    HighHalf(u, h);
    HighHalf(v, h);
  }

  lemma {:induction false} HighHalf(v: u64, h: nat)
    requires v / 0x1_0000_0000 == h
    ensures v / 0x8_0000_0000_0000 == h / 0x8_0000 && (v >= TWO63 <==> h >= 0x8000_0000)
  {
    var low := v % 0x1_0000_0000;
    DivModUnique(v, 0x8_0000_0000_0000, h / 0x8_0000, 0x1_0000_0000 * (h % 0x8_0000) + low);
  }

  /** Entries after the first leave the low half of its slot alone. */
  lemma {:induction false} LowHalfFinal(w: Walker, m: Mem, es: seq<Entry>, end: int)
    requires es != [] && w.Fix(es[0].value).Some? && Within(es[1..], es[0].addr + 4, end)
    ensures Load32(Apply(w, m, es), es[0].addr) == w.Fix(es[0].value).value % 0x1_0000_0000
  {
    hide Load32, Load64, Store64, Walker.Fix, Get;
    var a, x := es[0].addr, w.Fix(es[0].value).value;
    var m' := Store64(m, a, x);
    ApplyInside(w, m', es[1..], a + 4, end);
    Load32Frame(m', Apply(w, m', es[1..]), a);
    Load64Store64(m, a, x);
    Load64Halves(m', a);
    DivModUnique(x, 0x1_0000_0000, Load32(m', a + 4), Load32(m', a));
  }

  lemma {:induction false} SomeByteDiffers(m: Mem, m': Mem, a: int) returns (x: int)
    requires Load32(m, a) != Load32(m', a)
    ensures a <= x < a + 4 && Get(m, x) != Get(m', x)
  {
    hide Load32, Get;
    if forall y :: a <= y < a + 4 ==> Get(m', y) == Get(m, y) {
      Load32Frame(m, m', a);
      assert false;
    }
    x :| a <= x < a + 4 && Get(m', x) != Get(m, x);
  }

  // ---- one chain ----

  /** The first overlap whose halves disagree shows in the low half of the overlapped slot. */
  lemma {:induction false} OverlapShows(w: Walker, m: Mem, p: int, end: int) returns (x: int)
    requires p + 12 <= end && Next(Load64(m, p)) == 1 && w.Fix(Load64(m, p)).Some?
    requires !HalvesAgree(w, m, p, Load64(m, p)) && !IsBind(Load64(m, p + 4))
    ensures p <= x < end && Get(Apply(w, m, Reads(w, m, p, end)), x) != Get(Apply(w, m, Entries(m, p, end)), x)
  {
    hide Load64, Store64, Get, Next, Walker.Fix, Load32, Overlapped;
    var v, q, z := Load64(m, p), p + 4, w.Fix(Load64(m, p)).value;
    var m', u := Store64(m, p, z), Load64(m, q);
    OverlapValue(m, p, z);
    OverlappedFields(z, u);
    var rs, es := Reads(w, m', q, end), Entries(m, q, end);
    assert Reads(w, m, p, end) == [Entry(p, v)] + rs && Entries(m, p, end) == [Entry(p, v)] + es;
    assert Reads(w, m, p, end)[1..] == rs && Entries(m, p, end)[1..] == es;
    FirstOfReads(w, m', q, end);
    FirstOfEntries(m, q, end);
    RebaseLowHalf(w, u);
    RebaseLowHalf(w, Overlapped(z, u));
    LowHalfFinal(w, m', rs, end);
    LowHalfFinal(w, m', es, end);
    LowHalvesDiffer(z / 0x1_0000_0000, u % 0x1_0000_0000, w.loadBase);
    x := SomeByteDiffers(Apply(w, m', rs), Apply(w, m', es), q);
  }

  lemma {:induction false} FirstOfReads(w: Walker, m: Mem, p: int, end: int)
    requires p + 8 <= end
    ensures var rs := Reads(w, m, p, end); rs != [] && rs[0] == Entry(p, Load64(m, p)) && Within(rs[1..], p + 4, end)
  {
    hide Load64, Next, Walker.Fix, Put;
    var v := Load64(m, p);
    if !Stops(v, p, end) {
      ReadsWithin(w, Put(m, p, w.Fix(v)), p + 4 * Next(v), end);
      assert Reads(w, m, p, end)[1..] == Reads(w, Put(m, p, w.Fix(v)), p + 4 * Next(v), end);
    }
  }

  lemma {:induction false} FirstOfEntries(m: Mem, p: int, end: int)
    requires p + 8 <= end
    ensures var es := Entries(m, p, end); es != [] && es[0] == Entry(p, Load64(m, p)) && Within(es[1..], p + 4, end)
  {
    hide Load64, Next;
    var v := Load64(m, p);
    if !Stops(v, p, end) {
      EntriesWithin(m, p + 4 * Next(v), end);
      assert Entries(m, p, end)[1..] == Entries(m, p + 4 * Next(v), end);
    }
  }

  lemma {:induction false} ChainDiffers(w: Walker, m: Mem, p: int, end: int) returns (x: int)
    requires p + 8 <= end && OverlapsRebase(w, m, p, end) && !Agreeing(w, m, p, end)
    ensures p <= x < end && Get(Apply(w, m, Reads(w, m, p, end)), x) != Get(Apply(w, m, Entries(m, p, end)), x)
    decreases end - p
  {
    hide Load64, Store64, Get, Next, Walker.Fix;
    var v := Load64(m, p);
    var m', q := Put(m, p, w.Fix(v)), p + 4 * Next(v);
    if HalvesAgree(w, m, p, v) {
      NextIsRead(w, m, p, v);
      EntriesFrame(m, m', q, end);
      AgreeingFrame(w, m, m', q, end);
      OverlapsFrame(w, m, m', q, end);
      x := ChainDiffers(w, m', q, end);
      assert Reads(w, m, p, end)[1..] == Reads(w, m', q, end) && Entries(m, p, end)[1..] == Entries(m, q, end);
    } else {
      x := OverlapShows(w, m, p, end);
    }
  }

  /** Where overlapped entries are rebases, the in-place walk of a chain leaves the memory of the
    * two-phase one exactly when the overlapping halves agree. */
  lemma {:induction false} WalkMemoryIff(w: Walker, m: Mem, base: int, p: int, end: int)
    requires base <= p && p + 8 <= end <= base + 0xFFFF && OverlapsRebase(w, m, p, end)
    ensures Walk(w, m, p, end, 0) == Apply(w, m, Entries(m, p, end)) <==> Agreeing(w, m, p, end)
  {
    hide Walk, Apply, Reads, Entries, Agreeing, OverlapsRebase, Get;
    CapNeverCuts(w, m, base, p, end, 0);
    ReadsOriginalIff(w, m, p, end);
    if !Agreeing(w, m, p, end) { var x := ChainDiffers(w, m, p, end); }
  }

  // ---- pages and segments ----

  predicate PageOverlaps(w: Walker, m: Mem, base: int, segEnd: int, pageSize: u16, start: u16) {
    HasChain(base, segEnd, pageSize, start) ==> OverlapsRebase(w, m, base + start, Min(base + pageSize, segEnd))
  }

  predicate PagesOverlap(w: Walker, m: Mem, base: int, segEnd: int, pageSize: u16, pages: seq<u16>)
    decreases |pages|
  {
    pages == [] || (PageOverlaps(w, m, base, segEnd, pageSize, pages[0]) &&
                    PagesOverlap(w, m, base + pageSize, segEnd, pageSize, pages[1..]))
  }

  lemma {:induction false} PagesOverlapFrame(w: Walker, m: Mem, m': Mem, base: int, segEnd: int, pageSize: u16,
                                             pages: seq<u16>)
    requires SameFrom(m, m', base, segEnd)
    ensures PagesOverlap(w, m, base, segEnd, pageSize, pages) == PagesOverlap(w, m', base, segEnd, pageSize, pages)
    decreases |pages|
  {
    hide OverlapsRebase, Get;
    if pages != [] {
      PagesOverlapFrame(w, m, m', base + pageSize, segEnd, pageSize, pages[1..]);
      if HasChain(base, segEnd, pageSize, pages[0]) {
        OverlapsFrame(w, m, m', base + pages[0], Min(base + pageSize, segEnd));
      }
    }
  }

  lemma {:induction false} PageDiffers(w: Walker, m: Mem, base: int, segEnd: int, pageSize: u16, start: u16)
    returns (x: int)
    requires PageOverlaps(w, m, base, segEnd, pageSize, start) && !PageAgreeing(w, m, base, segEnd, pageSize, start)
    ensures base <= x < Min(base + pageSize, segEnd)
    ensures Get(WalkPage(w, m, base, segEnd, pageSize, start), x) !=
            Get(Apply(w, m, PageEntries(m, base, segEnd, pageSize, start)), x)
  {
    hide Walk, Apply, Reads, Entries, Agreeing, OverlapsRebase, Get;
    var p, end := base + start, Min(base + pageSize, segEnd);
    CapNeverCuts(w, m, base, p, end, 0);
    x := ChainDiffers(w, m, p, end);
  }

  lemma {:induction false} PagesDiffer(w: Walker, m: Mem, base: int, segEnd: int, pageSize: u16, pages: seq<u16>)
    returns (x: int)
    requires PagesOverlap(w, m, base, segEnd, pageSize, pages) && !PagesAgreeing(w, m, base, segEnd, pageSize, pages)
    ensures base <= x < segEnd
    ensures Get(WalkPages(w, m, base, segEnd, pageSize, pages), x) !=
            Get(Apply(w, m, PagesEntries(m, base, segEnd, pageSize, pages)), x)
    decreases |pages|
  {
    hide WalkPage, PageEntries, PageAgreeing, PageOverlaps, Get;
    var m', rest, next := WalkPage(w, m, base, segEnd, pageSize, pages[0]), pages[1..], base + pageSize;
    var es, fs := PageEntries(m, base, segEnd, pageSize, pages[0]), PagesEntries(m, next, segEnd, pageSize, rest);
    ApplyConcat(w, m, es, fs);
    PageElsewhere(w, m, base, segEnd, pageSize, pages[0]);
    PagesFrame(w, m, m', next, segEnd, pageSize, rest);
    PagesOverlapFrame(w, m, m', next, segEnd, pageSize, rest);
    if PageAgreeing(w, m, base, segEnd, pageSize, pages[0]) {
      PageTwoPhase(w, m, base, segEnd, pageSize, pages[0]);
      x := PagesDiffer(w, m', next, segEnd, pageSize, rest);
    } else {
      x := PageDiffers(w, m, base, segEnd, pageSize, pages[0]);
      PagesElsewhere(w, m', next, segEnd, pageSize, rest);
      PagesWithin(m, next, segEnd, pageSize, rest);
      ApplyInside(w, Apply(w, m, es), fs, next, segEnd);
    }
  }

  lemma {:induction false} PageTwoPhase(w: Walker, m: Mem, base: int, segEnd: int, pageSize: u16, start: u16)
    requires PageAgreeing(w, m, base, segEnd, pageSize, start)
    ensures WalkPage(w, m, base, segEnd, pageSize, start) == Apply(w, m, PageEntries(m, base, segEnd, pageSize, start))
  {
    hide WalkPage, PageReads, PageEntries, PageAgreeing, Apply;
    PageWalkReads(w, m, base, segEnd, pageSize, start);
    PageOriginalIff(w, m, base, segEnd, pageSize, start);
  }

  /** Walking pages changes nothing outside them. */
  lemma {:induction false} PagesElsewhere(w: Walker, m: Mem, base: int, segEnd: int, pageSize: u16, pages: seq<u16>)
    ensures forall x :: !(base <= x < segEnd) ==> Get(WalkPages(w, m, base, segEnd, pageSize, pages), x) == Get(m, x)
  {
    hide WalkPages, PagesReads, Get;
    PagesWalkReads(w, m, base, segEnd, pageSize, pages);
    PagesReadsWithin(w, m, base, segEnd, pageSize, pages);
    ApplyInside(w, m, PagesReads(w, m, base, segEnd, pageSize, pages), base, segEnd);
  }

  /** In every chain the main or dylib pass reaches, overlapped entries are rebases. */
  predicate ImageOverlaps(w: Walker, m: Mem, segs: seq<Segment>, starts: seq<Option<Starts>>)
    decreases |segs|
  {
    segs == [] || starts == [] ||
    if starts[0].None? then ImageOverlaps(w, m, segs[1..], starts[1..])
    else Supports(w, starts[0].value.format) ==>
           SegmentOverlaps(w, m, segs[0], starts[0].value) && ImageOverlaps(w, m, segs[1..], starts[1..])
  }

  predicate SegmentOverlaps(w: Walker, m: Mem, seg: Segment, s: Starts) {
    PagesOverlap(w, m, seg.vmaddr, seg.vmaddr + seg.vmsize, s.pageSize, s.pages)
  }

  lemma {:induction false} ImageOverlapsFrame(w: Walker, m: Mem, m': Mem, segs: seq<Segment>,
                                              starts: seq<Option<Starts>>)
    requires SameInSegments(m, m', segs)
    ensures ImageOverlaps(w, m, segs, starts) == ImageOverlaps(w, m', segs, starts)
    decreases |segs|
  {
    hide SameFrom, PagesOverlap, Supports;
    if segs != [] && starts != [] {
      ImageOverlapsFrame(w, m, m', segs[1..], starts[1..]);
      if starts[0].Some? {
        var s := starts[0].value;
        PagesOverlapFrame(w, m, m', segs[0].vmaddr, segs[0].vmaddr + segs[0].vmsize, s.pageSize, s.pages);
      }
    }
  }

  lemma {:induction false} ImageDiffers(w: Walker, m: Mem, segs: seq<Segment>, starts: seq<Option<Starts>>)
    returns (x: int)
    requires SegmentsApart(segs) && ImageOverlaps(w, m, segs, starts) && !ImageAgreeing(w, m, segs, starts)
    ensures Get(WalkImage(w, m, segs, starts).1, x) != Get(Apply(w, m, ImageEntries(w, m, segs, starts)), x)
    decreases |segs|
  {
    hide WalkSegment, SegmentEntries, SegmentAgreeing, SegmentOverlaps, Get, Supports, Apply, SegmentsApart;
    Tail(segs);
    if starts[0].None? {
      x := ImageDiffers(w, m, segs[1..], starts[1..]);
    } else {
      var seg, s := segs[0], starts[0].value;
      var m' := WalkSegment(w, m, seg, s);
      var es, fs := SegmentEntries(m, seg, s), ImageEntries(w, m, segs[1..], starts[1..]);
      ApplyConcat(w, m, es, fs);
      SegmentElsewhere(w, m, seg, s);
      SameElsewhere(m, m', segs);
      ImageFrame(w, m, m', segs[1..], starts[1..]);
      ImageOverlapsFrame(w, m, m', segs[1..], starts[1..]);
      if SegmentAgreeing(w, m, seg, s) {
        SegmentTwoPhase(w, m, seg, s);
        x := ImageDiffers(w, m', segs[1..], starts[1..]);
      } else {
        x := SegmentDiffers(w, m, seg, s);
        ImageInSegments(w, m, segs[1..], starts[1..]);
        KeptInFirst(w, Apply(w, m, es), fs, segs, x);
        ImageReadsInSegments(w, m', segs[1..], starts[1..]);
        ImageWalkReads(w, m', segs[1..], starts[1..]);
        KeptInFirst(w, m', ImageReads(w, m', segs[1..], starts[1..]), segs, x);
      }
    }
  }

  lemma {:induction false} Tail(segs: seq<Segment>)
    requires segs != [] && SegmentsApart(segs)
    ensures SegmentsApart(segs[1..])
  {
  }

  lemma {:induction false} SegmentElsewhere(w: Walker, m: Mem, seg: Segment, s: Starts)
    ensures forall x :: !(seg.vmaddr <= x < seg.vmaddr + seg.vmsize) ==> Get(WalkSegment(w, m, seg, s), x) == Get(m, x)
  {
    hide WalkPages, Get;
    PagesElsewhere(w, m, seg.vmaddr, seg.vmaddr + seg.vmsize, s.pageSize, s.pages);
  }

  lemma {:induction false} SegmentTwoPhase(w: Walker, m: Mem, seg: Segment, s: Starts)
    requires SegmentAgreeing(w, m, seg, s)
    ensures WalkSegment(w, m, seg, s) == Apply(w, m, SegmentEntries(m, seg, s))
  {
    hide WalkPages, PagesEntries, PagesAgreeing, Apply;
    PagesTwoPhase(w, m, seg.vmaddr, seg.vmaddr + seg.vmsize, s.pageSize, s.pages);
  }

  lemma {:induction false} SegmentDiffers(w: Walker, m: Mem, seg: Segment, s: Starts) returns (x: int)
    requires SegmentOverlaps(w, m, seg, s) && !SegmentAgreeing(w, m, seg, s)
    ensures seg.vmaddr <= x < seg.vmaddr + seg.vmsize
    ensures Get(WalkSegment(w, m, seg, s), x) != Get(Apply(w, m, SegmentEntries(m, seg, s)), x)
  {
    hide WalkPages, PagesEntries, PagesAgreeing, PagesOverlap, Apply, Get;
    x := PagesDiffer(w, m, seg.vmaddr, seg.vmaddr + seg.vmsize, s.pageSize, s.pages);
  }

  /** Entries of the other segments leave the first one alone. */
  lemma {:induction false} KeptInFirst(w: Walker, m: Mem, es: seq<Entry>, segs: seq<Segment>, x: int)
    requires segs != [] && SegmentsApart(segs) && InSegments(es, segs[1..])
    requires segs[0].vmaddr <= x < segs[0].vmaddr + segs[0].vmsize
    ensures Get(Apply(w, m, es), x) == Get(m, x)
    decreases |es|
  {
    hide Store64, Walker.Fix, Get, Inside;
    if es != [] {
      assert InSome(es[0], segs[1..]);
      EntryElsewhere(es[0], segs, x);
      KeptInFirst(w, Put(m, es[0].addr, w.Fix(es[0].value)), es[1..], segs, x);
    }
  }

  lemma {:induction false} EntryElsewhere(e: Entry, segs: seq<Segment>, x: int)
    requires segs != [] && SegmentsApart(segs) && InSome(e, segs[1..])
    requires segs[0].vmaddr <= x < segs[0].vmaddr + segs[0].vmsize
    ensures !(e.addr <= x < e.addr + 8)
  {
    var k :| 0 <= k < |segs[1..]| && Inside(e, segs[1..][k]);
    assert Apart(segs[0], segs[k + 1]);
  }

  /** Over an image of disjoint segments in which overlapped entries are rebases: the pass leaves the
    * memory of "decode everything, then write" exactly when the overlapping halves agree everywhere. */
  lemma {:induction false} ImageMemoryIff(w: Walker, m: Mem, segs: seq<Segment>, starts: seq<Option<Starts>>)
    requires SegmentsApart(segs) && ImageOverlaps(w, m, segs, starts)
    ensures WalkImage(w, m, segs, starts).1 == Apply(w, m, ImageEntries(w, m, segs, starts)) <==>
            ImageAgreeing(w, m, segs, starts)
  {
    hide WalkImage, ImageEntries, ImageAgreeing, ImageOverlaps, Apply, Get;
    if ImageAgreeing(w, m, segs, starts) {
      ImageTwoPhase(w, m, segs, starts);
    } else {
      var x := ImageDiffers(w, m, segs, starts);
    }
  }
}
