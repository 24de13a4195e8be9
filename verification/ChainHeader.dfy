/** Reading the chained-fixup tables out of the file, and the two passes from the file on. */
module ChainHeader {
  import opened Memory
  import opened Options
  import opened ChainWalk
  import opened ChainAgree

  function Word16(f: seq<byte>, a: nat): (v: u16)
  {
    FromLEBound(Window(f, a, 2));
    assert Pow256(2) == 0x1_0000;
    FromLE(Window(f, a, 2))
  }

  function Word32(f: seq<byte>, a: nat): (v: u32)
  {
    FromLEBound(Window(f, a, 4));
    assert Pow256(4) == 0x1_0000_0000;
    FromLE(Window(f, a, 4))
  }

  /** dyld_chained_fixups_header. */
  datatype Header = Header(version: u32, startsOff: u32, importsOff: u32, symbolsOff: u32, importsCount: u32)

  function HeaderAt(f: seq<byte>, a: nat): Header {
    Header(Word32(f, a), Word32(f, a + 4), Word32(f, a + 8), Word32(f, a + 12), Word32(f, a + 16))
  }

  function Pages(f: seq<byte>, a: nat, n: nat): (ps: seq<u16>)
    ensures |ps| == n && forall k :: 0 <= k < n ==> ps[k] == Word16(f, a + 2 * k)
  {
    seq<u16>(n, k requires 0 <= k < n => Word16(f, a + 2 * k))
  }

  /** dyld_chained_starts_in_segment: the page starts follow a header of 22 bytes. */
  function StartsAt(f: seq<byte>, a: nat): Starts {
    Starts(Word16(f, a + 4), Word16(f, a + 6), Pages(f, a + 22, Word16(f, a + 20)))
  }

  /** dyld_chained_starts_in_image: a count, then one offset per segment, zero for none. */
  function StartsTable(f: seq<byte>, a: nat): (r: seq<Option<Starts>>)
    ensures |r| == Word32(f, a)
  {
    seq<Option<Starts>>(Word32(f, a), i requires 0 <= i < Word32(f, a) =>
      var o := Word32(f, a + 4 + 4 * i); if o == 0 then None else Some(StartsAt(f, a + o)))
  }

  function Imports(f: seq<byte>, a: nat, n: nat): (r: seq<nat>)
    ensures |r| == n
  {
    seq<nat>(n, i requires 0 <= i < n => Word32(f, a + 4 * i))
  }

  /** The bytes from `a` up to a NUL or the end of the file. */
  function CStringAt(f: seq<byte>, a: nat): (s: seq<byte>)
    ensures forall i :: 0 <= i < |s| ==> s[i] != 0
    decreases if a < |f| then |f| - a else 0
  {
    if a >= |f| || f[a] == 0 then [] else [f[a]] + CStringAt(f, a + 1)
  }

  function LinkerAt(f: seq<byte>, a: nat, resolve: (int, seq<byte>) -> u64, stub: u64): Linker {
    var h := HeaderAt(f, a);
    Linker(Imports(f, a + h.importsOff, h.importsCount), n => CStringAt(f, a + h.symbolsOff + n), resolve, stub)
  }

  /** The dylib pass takes every name to be empty when the header has no symbols. */
  function DylibLinkerAt(f: seq<byte>, a: nat, resolve: (int, seq<byte>) -> u64, stub: u64): Linker {
    var l := LinkerAt(f, a, resolve, stub);
    if HeaderAt(f, a).symbolsOff == 0 then l.(nameAt := n => []) else l
  }

  /** The tables are inside the file and of the one version there is. */
  predicate Readable(f: seq<byte>, off: u32, size: u32) {
    !PastEnd(off, size, |f|) && HeaderAt(f, off).version == 0
  }

  function TableOf(f: seq<byte>, off: u32): seq<Option<Starts>> { StartsTable(f, off + HeaderAt(f, off).startsOff) }

  /** Result and memory of the main pass, given the load base kept from an earlier one. */
  function MainPass(f: seq<byte>, present: bool, off: u32, size: u32, kept: u64, mem: Mem, segs: seq<Segment>,
                    resolve: (int, seq<byte>) -> u64, stub: u64): (int, Mem)
  {
    if !present || size == 0 then (0, mem)
    else if !Readable(f, off, size) then (-1, mem)
    else WalkImage(MainImage(LinkerAt(f, off, resolve, stub), BaseFor(kept, segs)), mem, segs, TableOf(f, off))
  }

  /** Memory after the dylib pass. */
  function DylibPass(f: seq<byte>, off: u32, size: u32, mem: Mem, segs: seq<Segment>, slide: int,
                     resolve: (int, seq<byte>) -> u64, stub: u64): Mem
  {
    if off == 0 || size == 0 || !Readable(f, off, size) then mem
    else WalkImage(Dylib(DylibLinkerAt(f, off, resolve, stub), DylibLoadBase(segs, slide)), mem,
                   SlidSegments(segs, slide), TableOf(f, off)).1
  }

  /** execute_chained_fixups from the file on. */
  method RunMain(p: Process, f: seq<byte>, present: bool, off: u32, size: u32, segs: seq<Segment>,
                 resolve: (int, seq<byte>) -> u64, stub: u64) returns (rc: int)
    modifies p
    ensures (rc, p.mem) == MainPass(f, present, off, size, old(p.loadBase), old(p.mem), segs, resolve, stub)
  {
    hide WalkImage, StartsTable, Word32;
    if !present || size == 0 { return 0; }
    if PastEnd(off, size, |f|) { return -1; }
    var h := HeaderAt(f, off);
    if h.version != 0 { return -1; }
    rc := p.ExecuteChainedFixups(LinkerAt(f, off, resolve, stub), segs, StartsTable(f, off + h.startsOff));
  }

  /** process_dylib_chained_fixups from the file on. */
  method RunDylib(p: Process, f: seq<byte>, off: u32, size: u32, segs: seq<Segment>, slide: int,
                  resolve: (int, seq<byte>) -> u64, stub: u64)
    modifies p
    ensures p.mem == DylibPass(f, off, size, old(p.mem), segs, slide, resolve, stub)
  {
    hide WalkImage, StartsTable, Word32, DylibLoadBase;
    if off == 0 || size == 0 || PastEnd(off, size, |f|) { return; }
    var h := HeaderAt(f, off);
    if h.version != 0 { return; }
    p.ProcessDylibChainedFixups(DylibLinkerAt(f, off, resolve, stub), segs, slide, StartsTable(f, off + h.startsOff));
  }

  /** The entries that the dylib pass reads, and the imports, are ones on which the decoders agree. */
  predicate CommonFile(f: seq<byte>, off: u32, mem: Mem, segs: seq<Segment>, slide: int,
                       resolve: (int, seq<byte>) -> u64, stub: u64)
  {
    var l, slid := LinkerAt(f, off, resolve, stub), SlidSegments(segs, slide);
    && FlatImports(l) && AllSupported(slid, TableOf(f, off))
    && AllCommon(ImageReads(Dylib(l, DylibLoadBase(segs, slide)), mem, slid, TableOf(f, off)))
  }

  /** On one file that has a symbol table, mapped at one place, the two passes leave the same memory, and
    * the main one reports success when the tables can be read. */
  lemma {:induction false} PassesAgree(f: seq<byte>, off: u32, size: u32, kept: u64, mem: Mem, segs: seq<Segment>,
                                       slide: int, resolve: (int, seq<byte>) -> u64, stub: u64)
    requires off != 0 && HeaderAt(f, off).symbolsOff != 0
    requires BaseFor(kept, SlidSegments(segs, slide)) == DylibLoadBase(segs, slide)
    requires size != 0 && Readable(f, off, size) ==> CommonFile(f, off, mem, segs, slide, resolve, stub)
    ensures var r := MainPass(f, true, off, size, kept, mem, SlidSegments(segs, slide), resolve, stub);
            && r.1 == DylibPass(f, off, size, mem, segs, slide, resolve, stub)
            && (r.0 == 0 <==> size == 0 || Readable(f, off, size))
  {
    hide WalkImage, ImageReads, StartsTable, HeaderAt, AllCommon, FlatImports, AllSupported, DylibLoadBase, BaseFor;
    if size != 0 && Readable(f, off, size) {
      WalkersAgree(LinkerAt(f, off, resolve, stub), DylibLoadBase(segs, slide), mem, SlidSegments(segs, slide),
                   TableOf(f, off));
    }
  }

  // ---- the published layout of the starts ----

  function PageBytes(ps: seq<u16>): (s: seq<byte>)
    ensures |s| == 2 * |ps|
  {
    if ps == [] then [] else LE(ps[0], 2) + PageBytes(ps[1..])
  }

  /** A dyld_chained_starts_in_segment as the header lays it out: size, page size, pointer format,
    * segment offset, largest valid pointer, page count, page starts. */
  function StartsBytes(s: Starts, segmentOffset: u64, maxValid: u32): seq<byte> {
    LE(22 + 2 * |s.pages|, 4) + LE(s.pageSize, 2) + LE(s.format, 2) + LE(segmentOffset, 8) + LE(maxValid, 4) +
    LE(|s.pages|, 2) + PageBytes(s.pages)
  }

  /** The bytes `e` are in the file at `a`. */
  predicate Holds(f: seq<byte>, a: nat, e: seq<byte>) { a + |e| <= |f| && f[a..a + |e|] == e }

  lemma {:induction false} HoldsPart(f: seq<byte>, a: nat, x: seq<byte>, y: seq<byte>)
    requires Holds(f, a, x + y)
    ensures Holds(f, a, x) && Holds(f, a + |x|, y)
  {
    assert f[a..a + |x|] == f[a..a + |x + y|][..|x|];
    assert f[a + |x|..a + |x| + |y|] == f[a..a + |x + y|][|x|..];
  }

  lemma {:induction false} Word16Reads(f: seq<byte>, a: nat, v: u16)
    requires Holds(f, a, LE(v, 2))
    ensures Word16(f, a) == v
  {
    hide LE, FromLE;
    WindowInside(f, a, 2);
    assert Pow256(2) == 0x1_0000;
    FromLEofLE(v, 2);
  }

  lemma {:induction false} PagesRead(f: seq<byte>, a: nat, ps: seq<u16>, k: nat)
    requires Holds(f, a, PageBytes(ps)) && k < |ps|
    ensures Word16(f, a + 2 * k) == ps[k]
    decreases k
  {
    hide LE, Word16;
    HoldsPart(f, a, LE(ps[0], 2), PageBytes(ps[1..]));
    if k == 0 { Word16Reads(f, a, ps[0]); } else { PagesRead(f, a + 2, ps[1..], k - 1); }
  }

  /** Starts laid out as published, anywhere in any file, are read back: the page starts are at 22. */
  lemma {:induction false} StartsRoundTrip(f: seq<byte>, a: nat, s: Starts, segmentOffset: u64, maxValid: u32)
    requires |s.pages| < 0x1_0000 && Holds(f, a, StartsBytes(s, segmentOffset, maxValid))
    ensures StartsAt(f, a) == s
  {
    hide LE, Word16, PageBytes, Holds;
    var n := |s.pages|;
    var b0, b1, b2 := LE(22 + 2 * n, 4), LE(s.pageSize, 2), LE(s.format, 2);
    var b3, b4, b5 := LE(segmentOffset, 8), LE(maxValid, 4), LE(n, 2);
    HoldsPart(f, a, b0 + b1 + b2 + b3 + b4 + b5, PageBytes(s.pages));
    HoldsPart(f, a, b0 + b1 + b2 + b3 + b4, b5);
    HoldsPart(f, a, b0 + b1 + b2 + b3, b4);
    HoldsPart(f, a, b0 + b1 + b2, b3);
    HoldsPart(f, a, b0 + b1, b2);
    HoldsPart(f, a, b0, b1);
    Word16Reads(f, a + 4, s.pageSize);
    Word16Reads(f, a + 6, s.format);
    Word16Reads(f, a + 20, n);
    forall k | 0 <= k < n ensures Word16(f, a + 22 + 2 * k) == s.pages[k] { PagesRead(f, a + 22, s.pages, k); }
    assert Pages(f, a + 22, n) == s.pages;
  }

  // ---- the published layout of the whole table, and of the imports ----

  /** One segment's starts with the two fields that the passes ignore. */
  datatype Laid = Laid(starts: Starts, segmentOffset: u64, maxValid: u32)

  function BytesOf(x: Option<Laid>): seq<byte> {
    if x.None? then [] else StartsBytes(x.value.starts, x.value.segmentOffset, x.value.maxValid)
  }

  function Pool(xs: seq<Option<Laid>>): seq<byte> { if xs == [] then [] else BytesOf(xs[0]) + Pool(xs[1..]) }

  /** Where each segment's starts begin when the pool begins at `at`; zero for a segment without. */
  function Offsets(xs: seq<Option<Laid>>, at: nat): (r: seq<nat>)
    ensures |r| == |xs|
  {
    if xs == [] then []
    else [if xs[0].None? then 0 else at] + Offsets(xs[1..], at + |BytesOf(xs[0])|)
  }

  function Words(ws: seq<nat>): (s: seq<byte>)
    ensures |s| == 4 * |ws|
  {
    if ws == [] then [] else LE(ws[0], 4) + Words(ws[1..])
  }

  /** A dyld_chained_starts_in_image: the count, the offsets, then the pool. */
  function TableBytes(xs: seq<Option<Laid>>): seq<byte> {
    LE(|xs|, 4) + Words(Offsets(xs, 4 + 4 * |xs|)) + Pool(xs)
  }

  function StartsOf(xs: seq<Option<Laid>>): (r: seq<Option<Starts>>)
    ensures |r| == |xs|
    ensures forall i :: 0 <= i < |xs| ==> r[i] == if xs[i].None? then None else Some(xs[i].value.starts)
  {
    seq<Option<Starts>>(|xs|, i requires 0 <= i < |xs| => if xs[i].None? then None else Some(xs[i].value.starts))
  }

  lemma {:induction false} Word32Reads(f: seq<byte>, a: nat, v: nat)
    requires v < 0x1_0000_0000 && Holds(f, a, LE(v, 4))
    ensures Word32(f, a) == v
  {
    hide LE, FromLE;
    WindowInside(f, a, 4);
    assert Pow256(4) == 0x1_0000_0000;
    FromLEofLE(v, 4);
  }

  lemma {:induction false} WordsRead(f: seq<byte>, a: nat, ws: seq<nat>, k: nat)
    requires Holds(f, a, Words(ws)) && k < |ws| && ws[k] < 0x1_0000_0000
    ensures Word32(f, a + 4 * k) == ws[k]
    decreases k
  {
    hide LE, Word32;
    HoldsPart(f, a, LE(ws[0], 4), Words(ws[1..]));
    if k == 0 { Word32Reads(f, a, ws[0]); } else { WordsRead(f, a + 4, ws[1..], k - 1); }
  }

  /** Offset k points at segment k's starts in the pool, and is zero exactly for a segment without. */
  lemma {:induction false} PoolHolds(f: seq<byte>, a: nat, at: nat, xs: seq<Option<Laid>>, k: nat)
    requires at > 0 && Holds(f, a + at, Pool(xs)) && k < |xs|
    ensures Offsets(xs, at)[k] <= at + |Pool(xs)|
    ensures Offsets(xs, at)[k] == 0 <==> xs[k].None?
    ensures xs[k].Some? ==> Holds(f, a + Offsets(xs, at)[k], BytesOf(xs[k]))
    decreases k
  {
    hide BytesOf, Holds;
    var n := |BytesOf(xs[0])|;
    assert Pool(xs) == BytesOf(xs[0]) + Pool(xs[1..]);
    HoldsPart(f, a + at, BytesOf(xs[0]), Pool(xs[1..]));
    if k > 0 {
      PoolHolds(f, a, at + n, xs[1..], k - 1);
      assert Offsets(xs, at)[k] == Offsets(xs[1..], at + n)[k - 1];
    }
  }

  /** A table laid out as published, anywhere in any file, is read back segment by segment. */
  lemma {:induction false} TableRoundTrip(f: seq<byte>, a: nat, xs: seq<Option<Laid>>)
    requires Holds(f, a, TableBytes(xs)) && |TableBytes(xs)| < 0x1_0000_0000
    requires forall i :: 0 <= i < |xs| && xs[i].Some? ==> |xs[i].value.starts.pages| < 0x1_0000
    ensures StartsTable(f, a) == StartsOf(xs)
  {
    hide LE, Words, Pool, Offsets, Holds, Word32, StartsAt;
    var n, offs := |xs|, Offsets(xs, 4 + 4 * |xs|);
    HoldsPart(f, a, LE(n, 4) + Words(offs), Pool(xs));
    HoldsPart(f, a, LE(n, 4), Words(offs));
    Word32Reads(f, a, n);
    forall i | 0 <= i < n
      ensures var o := Word32(f, a + 4 + 4 * i);
              (if o == 0 then None else Some(StartsAt(f, a + o))) == StartsOf(xs)[i]
    {
      SegmentRead(f, a, xs, i);
    }
    assert StartsTable(f, a) == StartsOf(xs);
  }

  lemma {:induction false} SegmentRead(f: seq<byte>, a: nat, xs: seq<Option<Laid>>, i: nat)
    requires i < |xs| && |TableBytes(xs)| < 0x1_0000_0000
    requires Holds(f, a + 4, Words(Offsets(xs, 4 + 4 * |xs|))) && Holds(f, a + 4 + 4 * |xs|, Pool(xs))
    requires xs[i].Some? ==> |xs[i].value.starts.pages| < 0x1_0000
    ensures var o := Word32(f, a + 4 + 4 * i);
            (if o == 0 then None else Some(StartsAt(f, a + o))) == StartsOf(xs)[i]
  {
    hide LE, Words, Pool, Offsets, Holds, Word32, StartsAt;
    var at := 4 + 4 * |xs|;
    PoolHolds(f, a, at, xs, i);
    WordsRead(f, a + 4, Offsets(xs, at), i);
    if xs[i].Some? {
      var x := xs[i].value;
      StartsRoundTrip(f, a + Offsets(xs, at)[i], x.starts, x.segmentOffset, x.maxValid);
    }
  }

  /** An import table of 32-bit words is read back. */
  lemma {:induction false} ImportsRoundTrip(f: seq<byte>, a: nat, raws: seq<nat>)
    requires Holds(f, a, Words(raws)) && forall i :: 0 <= i < |raws| ==> raws[i] < 0x1_0000_0000
    ensures Imports(f, a, |raws|) == raws
  {
    hide Word32, Words;
    forall i | 0 <= i < |raws| ensures Word32(f, a + 4 * i) == raws[i] { WordsRead(f, a, raws, i); }
  }

  // ---- the header, and the whole file ----

  function HeaderBytes(h: Header, importsFormat: u32, symbolsFormat: u32): seq<byte> {
    Words([h.version, h.startsOff, h.importsOff, h.symbolsOff, h.importsCount, importsFormat, symbolsFormat])
  }

  /** A header laid out as published is read back field by field. */
  lemma {:induction false} HeaderRoundTrip(f: seq<byte>, a: nat, h: Header, importsFormat: u32, symbolsFormat: u32)
    requires Holds(f, a, HeaderBytes(h, importsFormat, symbolsFormat))
    ensures HeaderAt(f, a) == h
  {
    hide Word32, Words, Holds;
    var ws := [h.version, h.startsOff, h.importsOff, h.symbolsOff, h.importsCount, importsFormat, symbolsFormat];
    WordsRead(f, a, ws, 0);
    WordsRead(f, a, ws, 1);
    WordsRead(f, a, ws, 2);
    WordsRead(f, a, ws, 3);
    WordsRead(f, a, ws, 4);
  }

  lemma {:induction false} CStringReads(f: seq<byte>, a: nat, s: seq<byte>)
    requires Holds(f, a, s + [0]) && forall i :: 0 <= i < |s| ==> s[i] != 0
    ensures CStringAt(f, a) == s
    decreases |s|
  {
    var e := s + [0];
    assert f[a] == f[a..a + |e|][0];
    if s != [] {
      assert f[a + 1..a + |e|] == f[a..a + |e|][1..] == s[1..] + [0];
      CStringReads(f, a + 1, s[1..]);
    }
  }

  /** The name `s`, ended by a NUL, is in the file `n` bytes into the symbols. */
  predicate Named(f: seq<byte>, off: nat, h: Header, n: nat, s: seq<byte>) {
    Holds(f, off + h.symbolsOff + n, s + [0]) && forall i :: 0 <= i < |s| ==> s[i] != 0
  }

  /** A file with header, starts table, import words and names laid out as published: the tables that the
    * passes work from are those, the names looked up are those, and both passes accept the file. */
  lemma {:induction false} FileRoundTrip(f: seq<byte>, off: u32, size: u32, h: Header, importsFormat: u32,
                                         symbolsFormat: u32, xs: seq<Option<Laid>>, raws: seq<nat>,
                                         resolve: (int, seq<byte>) -> u64, stub: u64)
    requires Holds(f, off, HeaderBytes(h, importsFormat, symbolsFormat)) && h.version == 0
    requires Holds(f, off + h.startsOff, TableBytes(xs)) && |TableBytes(xs)| < 0x1_0000_0000
    requires forall i :: 0 <= i < |xs| && xs[i].Some? ==> |xs[i].value.starts.pages| < 0x1_0000
    requires Holds(f, off + h.importsOff, Words(raws)) && |raws| == h.importsCount
    requires forall i :: 0 <= i < |raws| ==> raws[i] < 0x1_0000_0000
    ensures TableOf(f, off) == StartsOf(xs)
    ensures var l, d := LinkerAt(f, off, resolve, stub), DylibLinkerAt(f, off, resolve, stub);
            && l.imports == raws && l.resolve == resolve && l.stub == stub
            && d.imports == raws && d.resolve == resolve && d.stub == stub
            && (forall n: nat, s :: Named(f, off, h, n, s) ==>
                  l.nameAt(n) == s && d.nameAt(n) == if h.symbolsOff == 0 then [] else s)
    ensures Readable(f, off, size) <==> (off + size) % 0x1_0000_0000 <= |f|
  {
    hide Word32, Words, Holds, TableBytes, StartsTable, CStringAt, HeaderAt;
    HeaderRoundTrip(f, off, h, importsFormat, symbolsFormat);
    TableRoundTrip(f, off + h.startsOff, xs);
    ImportsRoundTrip(f, off + h.importsOff, raws);
    var l := LinkerAt(f, off, resolve, stub);
    forall n: nat, s | Named(f, off, h, n, s)
      ensures l.nameAt(n) == s
    {
      CStringReads(f, off + h.symbolsOff + n, s);
    }
  }

  /** When the passes leave memory alone, and what the main one then returns. */
  lemma {:induction false} EarlyReturns(f: seq<byte>, present: bool, off: u32, size: u32, kept: u64, mem: Mem,
                                        segs: seq<Segment>, slide: int, resolve: (int, seq<byte>) -> u64, stub: u64)
    ensures var r := MainPass(f, present, off, size, kept, mem, segs, resolve, stub);
            && (!present || size == 0 ==> r == (0, mem))
            && (present && size != 0 && ((off + size) % 0x1_0000_0000 > |f| || FromLE(Window(f, off, 4)) != 0) ==>
                  r == (-1, mem))
    ensures off == 0 || size == 0 || (off + size) % 0x1_0000_0000 > |f| || FromLE(Window(f, off, 4)) != 0 ==>
              DylibPass(f, off, size, mem, segs, slide, resolve, stub) == mem
  {
    hide WalkImage, FromLE;
  }
}
