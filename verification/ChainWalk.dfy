/** Chained fixups: two in-place chain walkers (main image and dylib) over mapped memory, against the
  * two-phase reading "decode every chain from the original bytes, then write". */
module ChainWalk {
  import opened Memory
  import opened Options
  import opened Symbols

  const MAX_ITERATIONS := 16384
  const PTR_64 := 2
  const PTR_64_OFFSET := 6
  const PTR_START_NONE := 0xFFFF

  /** The import table and the symbol resolver; `resolve` yields 0 when the symbol is not found. */
  datatype Linker = Linker(imports: seq<nat>, nameAt: nat -> seq<byte>, resolve: (int, seq<byte>) -> u64, stub: u64)

  // ---- chain entries ----

  predicate IsBind(v: u64) { v >= TWO63 }

  function Next(v: u64): nat { v / 0x8_0000_0000_0000 % 4096 }

  /** The chain ends at an entry with no successor, or whose successor does not fit before `end`. */
  predicate Stops(v: u64, p: int, end: int) { Next(v) == 0 || p + 4 * Next(v) + 8 > end }

  function ImportName(l: Linker, raw: nat): seq<byte> {
    StripUnderscore(l.nameAt(raw / 512 % 0x80_0000))
  }

  function MainResolve(l: Linker, raw: nat): u64 {
    var lib := raw % 256;
    if lib == 0 || lib >= 0xFB then l.resolve(-1, ImportName(l, raw)) else l.resolve(lib - 1, ImportName(l, raw))
  }

  /** The two implementations: what each stores over an entry, or None when it leaves the slot alone. */
  datatype Walker = MainImage(l: Linker, loadBase: u64) | Dylib(l: Linker, loadBase: u64) {

    function Fix(v: u64): Option<u64> {
      if IsBind(v) then (if MainImage? then MainBind(v) else DylibBind(v))
      else Some(Wrap(Offset(v) + loadBase))
    }

    function Offset(v: u64): nat {
      if MainImage? then v / 0x10_0000_0000 % 256 * 0x800_0000_0000 + v % 0x10_0000_0000
      else v / 0x800_0000_0000 % 256 * 0x800_0000_0000 + v % 0x800_0000_0000
    }

    function MainBind(v: u64): Option<u64> {
      var ordinal, addend := v % 0x100_0000, v / 0x100_0000 % 256;
      if ordinal >= |l.imports| then None
      else
        var addr := MainResolve(l, l.imports[ordinal]);
        Some(Wrap((if addr != 0 then addr else l.stub) + addend))
    }

    function DylibBind(v: u64): Option<u64> {
      var ordinal, addend := v % 0x1_0000, v / 0x1_0000 % 0x1_0000;
      if ordinal >= |l.imports| then None
      else
        var addr := l.resolve(-1, ImportName(l, l.imports[ordinal]));
        if addr != 0 then Some(Wrap(addr + addend)) else Some(l.stub)
    }
  }

  function Put(m: Mem, a: int, o: Option<u64>): Mem {
    if o.Some? then Store64(m, a, o.value) else m
  }

  // ---- one chain ----

  /** The walk as the code runs it: read, overwrite, follow `next`, at most 16384 times. */
  function Walk(w: Walker, m: Mem, p: int, end: int, iter: nat): Mem
    requires p + 8 <= end
    decreases end - p
  {
    if iter >= MAX_ITERATIONS then m
    else
      var v := Load64(m, p);
      var m' := Put(m, p, w.Fix(v));
      if Stops(v, p, end) then m' else Walk(w, m', p + 4 * Next(v), end, iter + 1)
  }

  datatype Entry = Entry(addr: int, value: u64)

  /** All entries of a chain, read from one fixed memory and with no iteration cap. */
  function Entries(m: Mem, p: int, end: int): (es: seq<Entry>)
    requires p + 8 <= end
    decreases end - p
  {
    var v := Load64(m, p);
    [Entry(p, v)] +
    if Stops(v, p, end) then [] else Entries(m, p + 4 * Next(v), end)
  }

  predicate Within(es: seq<Entry>, lo: int, hi: int) {
    forall i :: 0 <= i < |es| ==> lo <= es[i].addr && es[i].addr + 8 <= hi
  }

  lemma {:induction false} EntriesWithin(m: Mem, p: int, end: int)
    requires p + 8 <= end
    ensures Within(Entries(m, p, end), p, end)
    decreases end - p
  {
    hide Load64, Next;
    var v := Load64(m, p);
    if !Stops(v, p, end) { EntriesWithin(m, p + 4 * Next(v), end); }
  }

  function Apply(w: Walker, m: Mem, es: seq<Entry>): Mem
    decreases |es|
  {
    if es == [] then m else Apply(w, Put(m, es[0].addr, w.Fix(es[0].value)), es[1..])
  }

  /** The entries the walk itself reads, each after the writes before it, with no iteration cap. */
  function Reads(w: Walker, m: Mem, p: int, end: int): (es: seq<Entry>)
    requires p + 8 <= end
    decreases end - p
  {
    var v := Load64(m, p);
    [Entry(p, v)] +
    if Stops(v, p, end) then [] else Reads(w, Put(m, p, w.Fix(v)), p + 4 * Next(v), end)
  }

  /** Of the bytes as mapped: wherever an overwritten entry overlaps its successor (`next` is 1), the
    * high half of what is written there equals the low half of the successor. */
  predicate Agreeing(w: Walker, m: Mem, p: int, end: int)
    requires p + 8 <= end
    decreases end - p
  {
    var v := Load64(m, p);
    Stops(v, p, end) || (HalvesAgree(w, m, p, v) && Agreeing(w, m, p + 4 * Next(v), end))
  }

  predicate HalvesAgree(w: Walker, m: Mem, p: int, v: u64) {
    Next(v) == 1 && w.Fix(v).Some? ==> w.Fix(v).value / 0x1_0000_0000 == Load64(m, p + 4) % 0x1_0000_0000
  }

  predicate SameFrom(m: Mem, m': Mem, p: int, end: int) {
    forall x :: p <= x < end ==> Get(m, x) == Get(m', x)
  }

  lemma {:induction false} EntriesFrame(m: Mem, m': Mem, p: int, end: int)
    requires p + 8 <= end && SameFrom(m, m', p, end)
    ensures Entries(m, p, end) == Entries(m', p, end)
    decreases end - p
  {
    hide Load64, Next, Get;
    var v := Load64(m, p);
    assert Load64(m', p) == v by { Load64Frame(m, m', p); }
    if !Stops(v, p, end) { EntriesFrame(m, m', p + 4 * Next(v), end); }
  }

  lemma {:induction false} AgreeingFrame(w: Walker, m: Mem, m': Mem, p: int, end: int)
    requires p + 8 <= end && SameFrom(m, m', p, end)
    ensures Agreeing(w, m, p, end) == Agreeing(w, m', p, end)
    decreases end - p
  {
    hide Load64, Next, Get, Walker.Fix;
    var v := Load64(m, p);
    assert Load64(m', p) == v by { Load64Frame(m, m', p); }
    if !Stops(v, p, end) {
      if Next(v) == 1 { Load64Frame(m, m', p + 4); }
      AgreeingFrame(w, m, m', p + 4 * Next(v), end);
    }
  }

  /** The iteration cap never cuts a chain short, whatever the entries are: a page is at most 65535
    * bytes and every step moves at least four. */
  lemma {:induction false} CapNeverCuts(w: Walker, m: Mem, base: int, p: int, end: int, iter: nat)
    requires p + 8 <= end <= base + 0xFFFF && base + 4 * iter <= p
    ensures Walk(w, m, p, end, iter) == Apply(w, m, Reads(w, m, p, end))
    decreases end - p
  {
    hide Load64, Store64, Next, Walker.Fix;
    var v := Load64(m, p);
    var m' := Put(m, p, w.Fix(v));
    if !Stops(v, p, end) {
      CapNeverCuts(w, m', base, p + 4 * Next(v), end, iter + 1);
      assert Reads(w, m, p, end)[1..] == Reads(w, m', p + 4 * Next(v), end);
    }
  }

  /** The walk reads every entry as it was mapped exactly when the overlapping halves agree. */
  lemma {:induction false} ReadsOriginalIff(w: Walker, m: Mem, p: int, end: int)
    requires p + 8 <= end
    ensures Reads(w, m, p, end) == Entries(m, p, end) <==> Agreeing(w, m, p, end)
    decreases end - p
  {
    hide Load64, Store64, Next, Walker.Fix;
    var v := Load64(m, p);
    if !Stops(v, p, end) {
      var m', q := Put(m, p, w.Fix(v)), p + 4 * Next(v);
      assert Reads(w, m, p, end) == [Entry(p, v)] + Reads(w, m', q, end);
      assert Entries(m, p, end) == [Entry(p, v)] + Entries(m, q, end);
      assert Reads(w, m', q, end) == Reads(w, m, p, end)[1..] && Entries(m, q, end) == Entries(m, p, end)[1..];
      NextIsRead(w, m, p, v);
      if HalvesAgree(w, m, p, v) {
        EntriesFrame(m, m', q, end);
        AgreeingFrame(w, m, m', q, end);
        ReadsOriginalIff(w, m', q, end);
      } else {
        assert Reads(w, m', q, end)[0] == Entry(q, Load64(m', q)) && Entries(m, q, end)[0] == Entry(q, Load64(m, q));
      }
    }
  }

  /** One write seen from the entry after it. */
  lemma {:induction false} NextIsRead(w: Walker, m: Mem, p: int, v: u64)
    requires Next(v) != 0
    ensures var m', q := Put(m, p, w.Fix(v)), p + 4 * Next(v);
            && (HalvesAgree(w, m, p, v) ==> forall x :: q <= x ==> Get(m', x) == Get(m, x))
            && (!HalvesAgree(w, m, p, v) ==> Load64(m', q) != Load64(m, q))
  {
    hide Load64, Store64, Next, Walker.Fix;
    if Next(v) == 1 && w.Fix(v).Some? {
      var x := w.Fix(v).value;
      OverlapReadsOriginalIff(m, p, x);
      if HalvesAgree(w, m, p, v) { SameWordSameBytes(m, Store64(m, p, x), p + 4); }
    }
  }

  lemma {:induction false} SameWordSameBytes(m: Mem, m': Mem, a: int)
    requires Load64(m, a) == Load64(m', a)
    ensures forall x :: a <= x < a + 8 ==> Get(m, x) == Get(m', x)
  {
    var s, s' := Slice(m, a, 8), Slice(m', a, 8);
    LEofFromLE(s);
    LEofFromLE(s');
    hide LE, FromLE, Slice;
    forall x | a <= x < a + 8 ensures Get(m, x) == Get(m', x) { assert s[x - a] == s'[x - a]; }
  }

  /** When they agree the in-place walk is the two-phase one. */
  lemma {:induction false} WalkIsTwoPhase(w: Walker, m: Mem, base: int, p: int, end: int)
    requires base <= p && p + 8 <= end <= base + 0xFFFF
    requires Agreeing(w, m, p, end)
    ensures Walk(w, m, p, end, 0) == Apply(w, m, Entries(m, p, end))
  {
    hide Walk, Apply, Reads, Entries, Agreeing;
    CapNeverCuts(w, m, base, p, end, 0);
    ReadsOriginalIff(w, m, p, end);
  }

  /** No two slots share a byte. */
  predicate Disjoint(es: seq<Entry>) {
    forall i, j :: 0 <= i < j < |es| ==> es[i].addr + 8 <= es[j].addr || es[j].addr + 8 <= es[i].addr
  }

  predicate NextAtLeastTwo(m: Mem, p: int, end: int)
    requires p + 8 <= end
    decreases end - p
  {
    var v := Load64(m, p);
    Stops(v, p, end) || (Next(v) >= 2 && NextAtLeastTwo(m, p + 4 * Next(v), end))
  }

  lemma {:induction false} WideNextSpaces(w: Walker, m: Mem, p: int, end: int)
    requires p + 8 <= end && NextAtLeastTwo(m, p, end)
    ensures Agreeing(w, m, p, end) && Disjoint(Entries(m, p, end))
    decreases end - p
  {
    hide Load64, Next, Walker.Fix;
    var v := Load64(m, p);
    var n := Next(v);
    if !Stops(v, p, end) {
      WideNextSpaces(w, m, p + 4 * n, end);
      var rest := Entries(m, p + 4 * n, end);
      assert Entries(m, p, end) == [Entry(p, v)] + rest;
      EntriesWithin(m, p + 4 * n, end);
    }
  }

  /** What the second phase leaves behind, slot by slot and byte by byte. */
  lemma {:induction false} ApplyMeaning(w: Walker, m: Mem, es: seq<Entry>)
    requires Disjoint(es)
    decreases |es|
    ensures forall i :: 0 <= i < |es| ==>
              Load64(Apply(w, m, es), es[i].addr) ==
              match w.Fix(es[i].value) case Some(x) => x case None => Load64(m, es[i].addr)
    ensures forall x :: (forall i :: 0 <= i < |es| ==> !(es[i].addr <= x < es[i].addr + 8)) ==>
              Get(Apply(w, m, es), x) == Get(m, x)
  {
    hide Load64, Store64, Walker.Fix;
    if es != [] {
      var m', rest := Put(m, es[0].addr, w.Fix(es[0].value)), es[1..];
      ApplyMeaning(w, m', rest);
      Load64AfterPut(m, es[0].addr, w.Fix(es[0].value));
      assert Load64(Apply(w, m', rest), es[0].addr) == Load64(m', es[0].addr) by {
        forall x | es[0].addr <= x < es[0].addr + 8 ensures Get(Apply(w, m', rest), x) == Get(m', x) {
          assert forall i :: 0 <= i < |rest| ==> rest[i] == es[i + 1];
        }
        Load64Frame(m', Apply(w, m', rest), es[0].addr);
      }
      forall i | 1 <= i < |es|
        ensures Load64(Apply(w, m, es), es[i].addr) ==
                match w.Fix(es[i].value) case Some(x) => x case None => Load64(m, es[i].addr)
      {
        assert es[i] == rest[i - 1];
        Load64Frame(m, m', es[i].addr);
      }
      forall x | forall i :: 0 <= i < |es| ==> !(es[i].addr <= x < es[i].addr + 8)
        ensures Get(Apply(w, m, es), x) == Get(m, x)
      {
        forall i | 0 <= i < |rest| ensures !(rest[i].addr <= x < rest[i].addr + 8) { assert rest[i] == es[i + 1]; }
        assert !(es[0].addr <= x < es[0].addr + 8);
      }
    }
  }

  lemma {:induction false} Load64AfterPut(m: Mem, a: int, o: Option<u64>)
    ensures Load64(Put(m, a, o), a) == match o case Some(x) => x case None => Load64(m, a)
  {
    if o.Some? { Load64Store64(m, a, o.value); }
  }

  // ---- `next` of 1: the following entry overlaps the slot just written ----

  /** An entry `v` whose low half has become the high half of a write `x`. */
  function Overlapped(x: u64, v: u64): u64 { x / 0x1_0000_0000 + v / 0x1_0000_0000 * 0x1_0000_0000 }

  lemma {:induction false} OverlapValue(m: Mem, p: int, x: u64)
    ensures Load64(Store64(m, p, x), p + 4) == Overlapped(x, Load64(m, p + 4))
  {
    var m' := Store64(m, p, x);
    Load64Store64(m, p, x);
    Load64Halves(m', p);
    Load64Halves(m', p + 4);
    Load64Halves(m, p + 4);
    Load32Frame(m, m', p + 8);
    hide Load64, Load32, Store64;
    DivModUnique(x, 0x1_0000_0000, Load32(m', p + 4), Load32(m', p));
    DivModUnique(Load64(m, p + 4), 0x1_0000_0000, Load32(m, p + 8), Load32(m, p + 4));
  }

  /** After writing `x` over an entry whose successor starts four bytes on, the walk reads the
    * successor as it was mapped exactly when the high half of `x` equals its low half. */
  lemma {:induction false} OverlapReadsOriginalIff(m: Mem, p: int, x: u64)
    ensures Load64(Store64(m, p, x), p + 4) == Load64(m, p + 4) <==>
              x / 0x1_0000_0000 == Load64(m, p + 4) % 0x1_0000_0000
  {
    OverlapValue(m, p, x);
    hide Load64, Store64;
  }

  /** On every chain whose first entry has `next` 1 and is overwritten: the second entry as the walk
    * reads it has the high half of the first write for its low half; two-phase reads it as mapped. */
  lemma {:induction false} OverlapPair(w: Walker, m: Mem, p: int, end: int, x: u64)
    requires p + 12 <= end && Next(Load64(m, p)) == 1 && w.Fix(Load64(m, p)) == Some(x)
    ensures var v := Load64(m, p + 4);
            && |Reads(w, m, p, end)| >= 2 && Reads(w, m, p, end)[1] == Entry(p + 4, Overlapped(x, v))
            && |Entries(m, p, end)| >= 2 && Entries(m, p, end)[1] == Entry(p + 4, v)
  {
    OverlapValue(m, p, x);
    hide Load64, Store64, Next, Walker.Fix;
    var m' := Store64(m, p, x);
    assert Reads(w, m, p, end) == [Entry(p, Load64(m, p))] + Reads(w, m', p + 4, end);
    assert Reads(w, m', p + 4, end)[0] == Entry(p + 4, Load64(m', p + 4));
    assert Entries(m, p, end) == [Entry(p, Load64(m, p))] + Entries(m, p + 4, end);
    assert Entries(m, p + 4, end)[0] == Entry(p + 4, Load64(m, p + 4));
  }

  /** Twelve bytes, all zero but the seventh, which is 8: two rebase entries with `next` 1. */
  predicate OverlapBytes(m: Mem, p: int) {
    forall x :: p <= x < p + 12 ==> Get(m, x) == if x == p + 6 then 8 else 0
  }

  /** On such a chain, with either walker and any load base b, the second slot gets b plus the high
    * half of b in place and the b + 0x80000 that its entry asks for in two phases: different results
    * at every load base that a user-space image can have. */
  lemma {:induction false} OverlapBreaksTwoPhase(w: Walker, m: Mem, p: int)
    requires OverlapBytes(m, p)
    ensures var a := Load64(Walk(w, m, p, p + 12, 0), p + 4);
            var b := Load64(Apply(w, m, Entries(m, p, p + 12)), p + 4);
            && a == Wrap(w.loadBase + w.loadBase / 0x1_0000_0000)
            && b == Wrap(w.loadBase + 0x8_0000)
            && (a != b <==> w.loadBase / 0x1_0000_0000 != 0x8_0000)
            && (w.loadBase < 0x8000_0000_0000 ==> a != b)
  {
    hide Load64, Store64, Walk, Apply, Entries;
    var m1, h := Store64(m, p, w.loadBase), w.loadBase / 0x1_0000_0000;
    OverlapWalked(w, m, p);
    OverlapApplied(w, m, p);
    Load64Store64(m1, p + 4, Wrap(w.loadBase + h));
    Load64Store64(m1, p + 4, Wrap(w.loadBase + 0x8_0000));
    SumsDiffer(w.loadBase, h);
  }

  lemma {:induction false} OverlapWalked(w: Walker, m: Mem, p: int)
    requires OverlapBytes(m, p)
    ensures Walk(w, m, p, p + 12, 0) ==
            Store64(Store64(m, p, w.loadBase), p + 4, Wrap(w.loadBase + w.loadBase / 0x1_0000_0000))
  {
    hide Load64, Store64, Next, Walker.Fix, Walk, Wrap;
    var h := w.loadBase / 0x1_0000_0000;
    OverlapLoads(m, p);
    OverlapHalf(m, p, w.loadBase);
    OverlapFixes(w, h);
    TwoWalked(w, m, p, p + 12, w.loadBase, Wrap(w.loadBase + h), 0);
  }

  lemma {:induction false} OverlapHalf(m: Mem, p: int, x: u64)
    requires OverlapBytes(m, p)
    ensures Load64(Store64(m, p, x), p + 4) == x / 0x1_0000_0000
  {
    OverlapLoads(m, p);
    OverlapValue(m, p, x);
    hide Load64, Store64;
  }

  lemma {:induction false} TwoWalked(w: Walker, m: Mem, p: int, end: int, x: u64, y: u64, iter: nat)
    requires p + 12 <= end && iter + 1 < MAX_ITERATIONS
    requires Next(Load64(m, p)) == 1 && w.Fix(Load64(m, p)) == Some(x)
    requires var v := Load64(Store64(m, p, x), p + 4); Next(v) == 0 && w.Fix(v) == Some(y)
    ensures Walk(w, m, p, end, iter) == Store64(Store64(m, p, x), p + 4, y)
  {
    hide Load64, Store64, Next, Walker.Fix;
    assert Walk(w, m, p, end, iter) == Walk(w, Store64(m, p, x), p + 4, end, iter + 1);
  }

  lemma {:induction false} TwoApplied(w: Walker, m: Mem, p: int, end: int, x: u64, y: u64)
    requires p + 12 <= end && Next(Load64(m, p)) == 1 && w.Fix(Load64(m, p)) == Some(x)
    requires Next(Load64(m, p + 4)) == 0 && w.Fix(Load64(m, p + 4)) == Some(y)
    ensures Apply(w, m, Entries(m, p, end)) == Store64(Store64(m, p, x), p + 4, y)
  {
    hide Load64, Store64, Next, Walker.Fix;
    var e, d := Entry(p, Load64(m, p)), Entry(p + 4, Load64(m, p + 4));
    assert Entries(m, p + 4, end) == [d];
    assert Entries(m, p, end) == [e, d];
    assert [e, d][1..] == [d];
    assert Apply(w, m, [e, d]) == Apply(w, Store64(m, p, x), [d]);
  }

  lemma {:induction false} OverlapApplied(w: Walker, m: Mem, p: int)
    requires OverlapBytes(m, p)
    ensures Apply(w, m, Entries(m, p, p + 12)) ==
            Store64(Store64(m, p, w.loadBase), p + 4, Wrap(w.loadBase + 0x8_0000))
  {
    OverlapLoads(m, p);
    OverlapFixes(w, 0);
    hide Load64, Store64, Next, Walker.Fix, Apply, Entries;
    TwoApplied(w, m, p, p + 12, w.loadBase, Wrap(w.loadBase + 0x8_0000));
  }

  /** What the two walkers store for the three entries that occur. */
  lemma {:induction false} OverlapFixes(w: Walker, h: nat)
    requires h < 0x1_0000_0000
    ensures w.Fix(0x8_0000_0000_0000) == Some(w.loadBase) && Next(0x8_0000_0000_0000) == 1
    ensures w.Fix(0x8_0000) == Some(Wrap(w.loadBase + 0x8_0000)) && Next(0x8_0000) == 0
    ensures w.Fix(h) == Some(Wrap(w.loadBase + h)) && Next(h) == 0
  {
  }

  lemma {:induction false} SumsDiffer(b: u64, h: nat)
    requires h < 0x1_0000_0000
    ensures Wrap(b + h) == Wrap(b + 0x8_0000) <==> h == 0x8_0000
  {
  }

  lemma {:induction false} OverlapLoads(m: Mem, p: int)
    requires OverlapBytes(m, p)
    ensures Load64(m, p) == 0x8_0000_0000_0000 && Load64(m, p + 4) == 0x8_0000
  {
    hide Load64, Load32;
    Load32Of(m, p);
    Load32Of(m, p + 4);
    Load32Of(m, p + 8);
    Load64Halves(m, p);
    Load64Halves(m, p + 4);
  }

  // ---- all pages of a segment, all segments of an image ----

  type u16 = n: int | 0 <= n < 0x1_0000

  datatype Segment = Segment(vmaddr: u64, vmsize: nat, pagezero: bool)

  /** dyld_chained_starts_in_segment: page size, pointer format and the first entry of each page. */
  datatype Starts = Starts(pageSize: u16, format: u16, pages: seq<u16>)

  function Min(a: int, b: int): int { if a < b then a else b }

  predicate HasChain(base: int, segEnd: int, pageSize: u16, start: u16) {
    start != PTR_START_NONE && base + start + 8 <= Min(base + pageSize, segEnd)
  }

  function WalkPage(w: Walker, m: Mem, base: int, segEnd: int, pageSize: u16, start: u16): Mem {
    if HasChain(base, segEnd, pageSize, start) then Walk(w, m, base + start, Min(base + pageSize, segEnd), 0) else m
  }

  function WalkPages(w: Walker, m: Mem, base: int, segEnd: int, pageSize: u16, pages: seq<u16>): Mem
    decreases |pages|
  {
    if pages == [] then m
    else WalkPages(w, WalkPage(w, m, base, segEnd, pageSize, pages[0]), base + pageSize, segEnd, pageSize, pages[1..])
  }

  function PageEntries(m: Mem, base: int, segEnd: int, pageSize: u16, start: u16): seq<Entry> {
    if HasChain(base, segEnd, pageSize, start) then Entries(m, base + start, Min(base + pageSize, segEnd)) else []
  }

  function PagesEntries(m: Mem, base: int, segEnd: int, pageSize: u16, pages: seq<u16>): seq<Entry>
    decreases |pages|
  {
    if pages == [] then []
    else PageEntries(m, base, segEnd, pageSize, pages[0]) +
         PagesEntries(m, base + pageSize, segEnd, pageSize, pages[1..])
  }

  predicate PageAgreeing(w: Walker, m: Mem, base: int, segEnd: int, pageSize: u16, start: u16) {
    HasChain(base, segEnd, pageSize, start) ==> Agreeing(w, m, base + start, Min(base + pageSize, segEnd))
  }

  predicate PagesAgreeing(w: Walker, m: Mem, base: int, segEnd: int, pageSize: u16, pages: seq<u16>)
    decreases |pages|
  {
    pages == [] || (PageAgreeing(w, m, base, segEnd, pageSize, pages[0]) &&
                    PagesAgreeing(w, m, base + pageSize, segEnd, pageSize, pages[1..]))
  }

  lemma {:induction false} ApplyConcat(w: Walker, m: Mem, es: seq<Entry>, fs: seq<Entry>)
    ensures Apply(w, m, es + fs) == Apply(w, Apply(w, m, es), fs)
    decreases |es|
  {
    hide Put, Walker.Fix;
    if es == [] {
      assert es + fs == fs;
    } else {
      assert (es + fs)[1..] == es[1..] + fs;
      ApplyConcat(w, Put(m, es[0].addr, w.Fix(es[0].value)), es[1..], fs);
    }
  }

  /** Second-phase writes stay inside the range the entries lie in. */
  lemma {:induction false} ApplyInside(w: Walker, m: Mem, es: seq<Entry>, lo: int, hi: int)
    requires Within(es, lo, hi)
    ensures forall x :: !(lo <= x < hi) ==> Get(Apply(w, m, es), x) == Get(m, x)
    decreases |es|
  {
    hide Store64, Walker.Fix;
    if es != [] { ApplyInside(w, Put(m, es[0].addr, w.Fix(es[0].value)), es[1..], lo, hi); }
  }

  lemma {:induction false} PageWithin(m: Mem, base: int, segEnd: int, pageSize: u16, start: u16)
    ensures Within(PageEntries(m, base, segEnd, pageSize, start), base, Min(base + pageSize, segEnd))
  {
    if HasChain(base, segEnd, pageSize, start) { EntriesWithin(m, base + start, Min(base + pageSize, segEnd)); }
  }

  lemma {:induction false} PagesWithin(m: Mem, base: int, segEnd: int, pageSize: u16, pages: seq<u16>)
    ensures Within(PagesEntries(m, base, segEnd, pageSize, pages), base, segEnd)
    decreases |pages|
  {
    hide PageEntries;
    if pages != [] {
      PageWithin(m, base, segEnd, pageSize, pages[0]);
      PagesWithin(m, base + pageSize, segEnd, pageSize, pages[1..]);
    }
  }

  lemma {:induction false} PagesFrame(w: Walker, m: Mem, m': Mem, base: int, segEnd: int, pageSize: u16,
                                      pages: seq<u16>)
    requires SameFrom(m, m', base, segEnd)
    ensures PagesEntries(m, base, segEnd, pageSize, pages) == PagesEntries(m', base, segEnd, pageSize, pages)
    ensures PagesAgreeing(w, m, base, segEnd, pageSize, pages) == PagesAgreeing(w, m', base, segEnd, pageSize, pages)
    decreases |pages|
  {
    hide Entries, Agreeing, Get;
    if pages != [] {
      PagesFrame(w, m, m', base + pageSize, segEnd, pageSize, pages[1..]);
      if HasChain(base, segEnd, pageSize, pages[0]) {
        EntriesFrame(m, m', base + pages[0], Min(base + pageSize, segEnd));
        AgreeingFrame(w, m, m', base + pages[0], Min(base + pageSize, segEnd));
      }
    }
  }

  lemma {:induction false} PagesTwoPhase(w: Walker, m: Mem, base: int, segEnd: int, pageSize: u16, pages: seq<u16>)
    requires PagesAgreeing(w, m, base, segEnd, pageSize, pages)
    ensures WalkPages(w, m, base, segEnd, pageSize, pages) ==
            Apply(w, m, PagesEntries(m, base, segEnd, pageSize, pages))
  {
    hide WalkPages, PagesReads, PagesEntries, PagesAgreeing;
    PagesWalkReads(w, m, base, segEnd, pageSize, pages);
    PagesOriginalIff(w, m, base, segEnd, pageSize, pages);
  }

  /** Only the main image checks the pointer format; the dylib walker reads any format the same way. */
  predicate Supports(w: Walker, format: u16) {
    w.MainImage? ==> format == PTR_64 || format == PTR_64_OFFSET
  }

  function WalkImage(w: Walker, m: Mem, segs: seq<Segment>, starts: seq<Option<Starts>>): (r: (int, Mem))
    decreases |segs|
  {
    if segs == [] || starts == [] then (0, m)
    else if starts[0].None? then WalkImage(w, m, segs[1..], starts[1..])
    else if !Supports(w, starts[0].value.format) then (-1, m)
    else WalkImage(w, WalkSegment(w, m, segs[0], starts[0].value), segs[1..], starts[1..])
  }

  function WalkSegment(w: Walker, m: Mem, seg: Segment, s: Starts): Mem {
    WalkPages(w, m, seg.vmaddr, seg.vmaddr + seg.vmsize, s.pageSize, s.pages)
  }

  function SegmentEntries(m: Mem, seg: Segment, s: Starts): seq<Entry> {
    PagesEntries(m, seg.vmaddr, seg.vmaddr + seg.vmsize, s.pageSize, s.pages)
  }

  predicate SegmentAgreeing(w: Walker, m: Mem, seg: Segment, s: Starts) {
    PagesAgreeing(w, m, seg.vmaddr, seg.vmaddr + seg.vmsize, s.pageSize, s.pages)
  }

  /** Every entry of the image, up to the first segment whose format the walker refuses. */
  function ImageEntries(w: Walker, m: Mem, segs: seq<Segment>, starts: seq<Option<Starts>>): seq<Entry>
    decreases |segs|
  {
    if segs == [] || starts == [] then []
    else if starts[0].None? then ImageEntries(w, m, segs[1..], starts[1..])
    else if !Supports(w, starts[0].value.format) then []
    else SegmentEntries(m, segs[0], starts[0].value) + ImageEntries(w, m, segs[1..], starts[1..])
  }

  predicate ImageAgreeing(w: Walker, m: Mem, segs: seq<Segment>, starts: seq<Option<Starts>>)
    decreases |segs|
  {
    segs == [] || starts == [] ||
    if starts[0].None? then ImageAgreeing(w, m, segs[1..], starts[1..])
    else Supports(w, starts[0].value.format) ==>
           SegmentAgreeing(w, m, segs[0], starts[0].value) && ImageAgreeing(w, m, segs[1..], starts[1..])
  }

  predicate Apart(s: Segment, t: Segment) {
    s.vmaddr + s.vmsize <= t.vmaddr || t.vmaddr + t.vmsize <= s.vmaddr
  }

  predicate SegmentsApart(segs: seq<Segment>) {
    forall i, j :: 0 <= i < j < |segs| ==> Apart(segs[i], segs[j])
  }

  predicate SameInSegments(m: Mem, m': Mem, segs: seq<Segment>) {
    forall i :: 0 <= i < |segs| ==> SameFrom(m, m', segs[i].vmaddr, segs[i].vmaddr + segs[i].vmsize)
  }

  lemma {:induction false} ImageFrame(w: Walker, m: Mem, m': Mem, segs: seq<Segment>, starts: seq<Option<Starts>>)
    requires SameInSegments(m, m', segs)
    ensures ImageEntries(w, m, segs, starts) == ImageEntries(w, m', segs, starts)
    ensures ImageAgreeing(w, m, segs, starts) == ImageAgreeing(w, m', segs, starts)
    decreases |segs|
  {
    hide SameFrom, PagesEntries, PagesAgreeing;
    if segs != [] && starts != [] {
      ImageFrame(w, m, m', segs[1..], starts[1..]);
      if starts[0].Some? {
        PagesFrame(w, m, m', segs[0].vmaddr, segs[0].vmaddr + segs[0].vmsize,
                   starts[0].value.pageSize, starts[0].value.pages);
      }
    }
  }

  /** Over the whole image the in-place pass equals: decode every chain of every page of every
    * segment from the memory as it was mapped, then write. */
  lemma {:induction false} ImageTwoPhase(w: Walker, m: Mem, segs: seq<Segment>, starts: seq<Option<Starts>>)
    requires SegmentsApart(segs) && ImageAgreeing(w, m, segs, starts)
    ensures WalkImage(w, m, segs, starts).1 == Apply(w, m, ImageEntries(w, m, segs, starts))
  {
    hide WalkImage, ImageReads, ImageEntries, ImageAgreeing;
    ImageWalkReads(w, m, segs, starts);
    ImageOriginalIff(w, m, segs, starts);
  }

  /** The pass returns 0 exactly when no segment it reaches has a refused pointer format. */
  lemma {:induction false} ImageResult(w: Walker, m: Mem, segs: seq<Segment>, starts: seq<Option<Starts>>)
    ensures WalkImage(w, m, segs, starts).0 ==
            if w.Dylib? || forall i :: 0 <= i < |segs| && i < |starts| && starts[i].Some? ==>
                 starts[i].value.format in {2, 6}
            then 0 else -1
    decreases |segs|
  {
    hide WalkSegment;
    if segs != [] && starts != [] {
      var m' := if starts[0].Some? then WalkSegment(w, m, segs[0], starts[0].value) else m;
      ImageResult(w, m', segs[1..], starts[1..]);
      assert forall i :: 1 <= i < |starts| ==> starts[i] == starts[1..][i - 1];
      assert forall i :: 0 <= i < |starts[1..]| ==> starts[1..][i] == starts[i + 1];
    }
  }

  // ---- chains whose every followed `next` is at least 2 ----

  predicate PageWide(m: Mem, base: int, segEnd: int, pageSize: u16, start: u16) {
    HasChain(base, segEnd, pageSize, start) ==> NextAtLeastTwo(m, base + start, Min(base + pageSize, segEnd))
  }

  predicate PagesWide(m: Mem, base: int, segEnd: int, pageSize: u16, pages: seq<u16>)
    decreases |pages|
  {
    pages == [] || (PageWide(m, base, segEnd, pageSize, pages[0]) &&
                    PagesWide(m, base + pageSize, segEnd, pageSize, pages[1..]))
  }

  predicate ImageWide(m: Mem, segs: seq<Segment>, starts: seq<Option<Starts>>)
    decreases |segs|
  {
    segs == [] || starts == [] ||
    ((starts[0].Some? ==> PagesWide(m, segs[0].vmaddr, segs[0].vmaddr + segs[0].vmsize,
                                    starts[0].value.pageSize, starts[0].value.pages)) &&
     ImageWide(m, segs[1..], starts[1..]))
  }

  lemma {:induction false} DisjointConcat(es: seq<Entry>, fs: seq<Entry>, lo: int, mid: int, hi: int)
    requires Disjoint(es) && Disjoint(fs) && Within(es, lo, mid) && Within(fs, mid, hi)
    ensures Disjoint(es + fs)
  {
  }

  lemma {:induction false} PagesWideDisjoint(w: Walker, m: Mem, base: int, segEnd: int, pageSize: u16, pages: seq<u16>)
    requires PagesWide(m, base, segEnd, pageSize, pages)
    ensures PagesAgreeing(w, m, base, segEnd, pageSize, pages)
    ensures Disjoint(PagesEntries(m, base, segEnd, pageSize, pages))
    decreases |pages|
  {
    hide Entries, Agreeing, Walker.Fix, NextAtLeastTwo;
    if pages != [] {
      PagesWideDisjoint(w, m, base + pageSize, segEnd, pageSize, pages[1..]);
      if HasChain(base, segEnd, pageSize, pages[0]) {
        WideNextSpaces(w, m, base + pages[0], Min(base + pageSize, segEnd));
      }
      PageWithin(m, base, segEnd, pageSize, pages[0]);
      PagesWithin(m, base + pageSize, segEnd, pageSize, pages[1..]);
      DisjointConcat(PageEntries(m, base, segEnd, pageSize, pages[0]),
                     PagesEntries(m, base + pageSize, segEnd, pageSize, pages[1..]), base, base + pageSize, segEnd);
    }
  }

  predicate Inside(e: Entry, s: Segment) { s.vmaddr <= e.addr && e.addr + 8 <= s.vmaddr + s.vmsize }

  predicate InSegments(es: seq<Entry>, segs: seq<Segment>) {
    forall i :: 0 <= i < |es| ==> InSome(es[i], segs)
  }

  predicate InSome(e: Entry, segs: seq<Segment>) { exists k :: 0 <= k < |segs| && Inside(e, segs[k]) }

  lemma {:induction false} InMoreSegments(es: seq<Entry>, segs: seq<Segment>)
    requires segs != [] && InSegments(es, segs[1..])
    ensures InSegments(es, segs)
  {
    forall i | 0 <= i < |es| ensures InSome(es[i], segs) {
      assert InSome(es[i], segs[1..]);
      var k :| 0 <= k < |segs[1..]| && Inside(es[i], segs[1..][k]);
      assert Inside(es[i], segs[k + 1]);
    }
  }

  lemma {:induction false} ImageInSegments(w: Walker, m: Mem, segs: seq<Segment>, starts: seq<Option<Starts>>)
    ensures InSegments(ImageEntries(w, m, segs, starts), segs)
    decreases |segs|
  {
    hide PagesEntries, Supports;
    if segs != [] && starts != [] {
      ImageInSegments(w, m, segs[1..], starts[1..]);
      InMoreSegments(ImageEntries(w, m, segs[1..], starts[1..]), segs);
      if starts[0].Some? {
        var s := starts[0].value;
        PagesWithin(m, segs[0].vmaddr, segs[0].vmaddr + segs[0].vmsize, s.pageSize, s.pages);
        InFirst(SegmentEntries(m, segs[0], s), segs);
      }
    }
  }

  lemma {:induction false} InFirst(es: seq<Entry>, segs: seq<Segment>)
    requires segs != [] && Within(es, segs[0].vmaddr, segs[0].vmaddr + segs[0].vmsize)
    ensures InSegments(es, segs)
  {
    forall i | 0 <= i < |es| ensures InSome(es[i], segs) {
      assert Inside(es[i], segs[0]);
    }
  }

  lemma {:induction false} ImageWideDisjoint(w: Walker, m: Mem, segs: seq<Segment>, starts: seq<Option<Starts>>)
    requires SegmentsApart(segs) && ImageWide(m, segs, starts)
    ensures ImageAgreeing(w, m, segs, starts) && Disjoint(ImageEntries(w, m, segs, starts))
    decreases |segs|
  {
    hide PagesEntries, PagesAgreeing, PagesWide, Supports;
    if segs != [] && starts != [] {
      ImageWideDisjoint(w, m, segs[1..], starts[1..]);
      if starts[0].Some? {
        var seg, s := segs[0], starts[0].value;
        PagesWideDisjoint(w, m, seg.vmaddr, seg.vmaddr + seg.vmsize, s.pageSize, s.pages);
        PagesWithin(m, seg.vmaddr, seg.vmaddr + seg.vmsize, s.pageSize, s.pages);
        ImageInSegments(w, m, segs[1..], starts[1..]);
        DisjointSegments(SegmentEntries(m, seg, s), ImageEntries(w, m, segs[1..], starts[1..]), segs);
      }
    }
  }

  lemma {:induction false} DisjointSegments(es: seq<Entry>, fs: seq<Entry>, segs: seq<Segment>)
    requires segs != [] && SegmentsApart(segs) && Disjoint(es) && Disjoint(fs)
    requires Within(es, segs[0].vmaddr, segs[0].vmaddr + segs[0].vmsize) && InSegments(fs, segs[1..])
    ensures Disjoint(es + fs)
  {
    forall i, j | 0 <= i < |es| && 0 <= j < |fs|
      ensures es[i].addr + 8 <= fs[j].addr || fs[j].addr + 8 <= es[i].addr
    {
      assert InSome(fs[j], segs[1..]);
      var k :| 0 <= k < |segs[1..]| && Inside(fs[j], segs[1..][k]);
      assert Apart(segs[0], segs[k + 1]);
    }
  }

  /** The result of the whole pass, slot by slot: each slot holds what its original entry asks for, a
    * slot whose import index is out of range keeps its bytes, and every other byte is unchanged. */
  lemma {:induction false} ImageMeaning(w: Walker, m: Mem, segs: seq<Segment>, starts: seq<Option<Starts>>)
    requires SegmentsApart(segs) && ImageWide(m, segs, starts)
    ensures var es := ImageEntries(w, m, segs, starts);
            var m' := WalkImage(w, m, segs, starts).1;
            && (forall i :: 0 <= i < |es| ==>
                  Load64(m', es[i].addr) ==
                  match w.Fix(es[i].value) case Some(x) => x case None => Load64(m, es[i].addr))
            && (forall x :: (forall i :: 0 <= i < |es| ==> !(es[i].addr <= x < es[i].addr + 8)) ==>
                  Get(m', x) == Get(m, x))
  {
    hide WalkImage, ImageEntries, ImageAgreeing, ImageWide, Walker.Fix, Load64, Get;
    ImageWideDisjoint(w, m, segs, starts);
    ImageTwoPhase(w, m, segs, starts);
    ApplyMeaning(w, m, ImageEntries(w, m, segs, starts));
  }

  // ---- the entries as the passes read them, over pages and segments ----

  function PageReads(w: Walker, m: Mem, base: int, segEnd: int, pageSize: u16, start: u16): seq<Entry> {
    if HasChain(base, segEnd, pageSize, start) then Reads(w, m, base + start, Min(base + pageSize, segEnd)) else []
  }

  function PagesReads(w: Walker, m: Mem, base: int, segEnd: int, pageSize: u16, pages: seq<u16>): seq<Entry>
    decreases |pages|
  {
    if pages == [] then []
    else PageReads(w, m, base, segEnd, pageSize, pages[0]) +
         PagesReads(w, WalkPage(w, m, base, segEnd, pageSize, pages[0]), base + pageSize, segEnd, pageSize, pages[1..])
  }

  function SegmentReads(w: Walker, m: Mem, seg: Segment, s: Starts): seq<Entry> {
    PagesReads(w, m, seg.vmaddr, seg.vmaddr + seg.vmsize, s.pageSize, s.pages)
  }

  function ImageReads(w: Walker, m: Mem, segs: seq<Segment>, starts: seq<Option<Starts>>): seq<Entry>
    decreases |segs|
  {
    if segs == [] || starts == [] then []
    else if starts[0].None? then ImageReads(w, m, segs[1..], starts[1..])
    else if !Supports(w, starts[0].value.format) then []
    else SegmentReads(w, m, segs[0], starts[0].value) +
         ImageReads(w, WalkSegment(w, m, segs[0], starts[0].value), segs[1..], starts[1..])
  }

  lemma {:induction false} PageWalkReads(w: Walker, m: Mem, base: int, segEnd: int, pageSize: u16, start: u16)
    ensures WalkPage(w, m, base, segEnd, pageSize, start) ==
            Apply(w, m, PageReads(w, m, base, segEnd, pageSize, start))
  {
    hide Walk, Reads;
    if HasChain(base, segEnd, pageSize, start) {
      CapNeverCuts(w, m, base, base + start, Min(base + pageSize, segEnd), 0);
    }
  }

  lemma {:induction false} PagesWalkReads(w: Walker, m: Mem, base: int, segEnd: int, pageSize: u16, pages: seq<u16>)
    ensures WalkPages(w, m, base, segEnd, pageSize, pages) ==
            Apply(w, m, PagesReads(w, m, base, segEnd, pageSize, pages))
    decreases |pages|
  {
    hide WalkPage, PageReads;
    if pages != [] {
      var m' := WalkPage(w, m, base, segEnd, pageSize, pages[0]);
      PageWalkReads(w, m, base, segEnd, pageSize, pages[0]);
      PagesWalkReads(w, m', base + pageSize, segEnd, pageSize, pages[1..]);
      ApplyConcat(w, m, PageReads(w, m, base, segEnd, pageSize, pages[0]),
                  PagesReads(w, m', base + pageSize, segEnd, pageSize, pages[1..]));
    }
  }

  lemma {:induction false} SegmentWalkReads(w: Walker, m: Mem, seg: Segment, s: Starts)
    ensures WalkSegment(w, m, seg, s) == Apply(w, m, SegmentReads(w, m, seg, s))
  {
    hide WalkPages, PagesReads, Apply;
    PagesWalkReads(w, m, seg.vmaddr, seg.vmaddr + seg.vmsize, s.pageSize, s.pages);
  }

  /** For every image, whatever its chains: the pass is the writes asked for by the entries it reads,
    * none of them cut off by the iteration cap. */
  lemma {:induction false} ImageWalkReads(w: Walker, m: Mem, segs: seq<Segment>, starts: seq<Option<Starts>>)
    ensures WalkImage(w, m, segs, starts).1 == Apply(w, m, ImageReads(w, m, segs, starts))
    decreases |segs|
  {
    hide WalkSegment, SegmentReads, Put, Walker.Fix, Supports;
    if segs != [] && starts != [] {
      if starts[0].None? {
        ImageWalkReads(w, m, segs[1..], starts[1..]);
      } else if Supports(w, starts[0].value.format) {
        var seg, s := segs[0], starts[0].value;
        var m' := WalkSegment(w, m, seg, s);
        SegmentWalkReads(w, m, seg, s);
        ImageWalkReads(w, m', segs[1..], starts[1..]);
        ApplyConcat(w, m, SegmentReads(w, m, seg, s), ImageReads(w, m', segs[1..], starts[1..]));
      }
    }
  }

  lemma {:induction false} ReadsWithin(w: Walker, m: Mem, p: int, end: int)
    requires p + 8 <= end
    ensures Within(Reads(w, m, p, end), p, end)
    decreases end - p
  {
    hide Load64, Next, Walker.Fix, Put;
    var v := Load64(m, p);
    if !Stops(v, p, end) { ReadsWithin(w, Put(m, p, w.Fix(v)), p + 4 * Next(v), end); }
  }

  lemma {:induction false} PageReadsWithin(w: Walker, m: Mem, base: int, segEnd: int, pageSize: u16, start: u16)
    ensures Within(PageReads(w, m, base, segEnd, pageSize, start), base, Min(base + pageSize, segEnd))
  {
    hide Reads;
    if HasChain(base, segEnd, pageSize, start) { ReadsWithin(w, m, base + start, Min(base + pageSize, segEnd)); }
  }

  lemma {:induction false} PagesReadsWithin(w: Walker, m: Mem, base: int, segEnd: int, pageSize: u16, pages: seq<u16>)
    ensures Within(PagesReads(w, m, base, segEnd, pageSize, pages), base, segEnd)
    decreases |pages|
  {
    hide PageReads, WalkPage;
    if pages != [] {
      PageReadsWithin(w, m, base, segEnd, pageSize, pages[0]);
      PagesReadsWithin(w, WalkPage(w, m, base, segEnd, pageSize, pages[0]), base + pageSize, segEnd, pageSize,
          pages[1..]);
    }
  }

  predicate Outside(es: seq<Entry>, lo: int, hi: int) {
    forall i :: 0 <= i < |es| ==> !(lo <= es[i].addr < hi)
  }

  /** Two lists with the same split by address are equal exactly when both parts are. */
  lemma {:induction false} SplitEqual(a: seq<Entry>, b: seq<Entry>, c: seq<Entry>, d: seq<Entry>, lo: int, hi: int)
    requires Within(a, lo, hi) && Within(c, lo, hi) && Outside(b, lo, hi) && Outside(d, lo, hi)
    ensures a + b == c + d <==> a == c && b == d
  {
    if a + b == c + d {
      NotShorter(a, b, c, d, lo, hi);
      NotShorter(c, d, a, b, lo, hi);
      assert a == (a + b)[..|a|] == (c + d)[..|c|] == c;
      assert b == (a + b)[|a|..] == (c + d)[|c|..] == d;
    }
  }

  lemma {:induction false} NotShorter(a: seq<Entry>, b: seq<Entry>, c: seq<Entry>, d: seq<Entry>, lo: int, hi: int)
    requires Within(c, lo, hi) && Outside(b, lo, hi) && a + b == c + d
    ensures |a| >= |c|
  {
    assert b != [] ==> (a + b)[|a|] == b[0];
    assert forall k :: 0 <= k < |c| ==> (c + d)[k] == c[k];
  }

  lemma {:induction false} PagesOriginalIff(w: Walker, m: Mem, base: int, segEnd: int, pageSize: u16, pages: seq<u16>)
    ensures PagesReads(w, m, base, segEnd, pageSize, pages) == PagesEntries(m, base, segEnd, pageSize, pages) <==>
            PagesAgreeing(w, m, base, segEnd, pageSize, pages)
    decreases |pages|
  {
    hide PageReads, PageEntries, PageAgreeing, WalkPage, Get;
    if pages != [] {
      var m', rest := WalkPage(w, m, base, segEnd, pageSize, pages[0]), pages[1..];
      var mid := Min(base + pageSize, segEnd);
      PageReadsWithin(w, m, base, segEnd, pageSize, pages[0]);
      PageWithin(m, base, segEnd, pageSize, pages[0]);
      PageElsewhere(w, m, base, segEnd, pageSize, pages[0]);
      PagesFrame(w, m, m', base + pageSize, segEnd, pageSize, rest);
      PagesOriginalIff(w, m', base + pageSize, segEnd, pageSize, rest);
      PagesReadsWithin(w, m', base + pageSize, segEnd, pageSize, rest);
      PagesWithin(m, base + pageSize, segEnd, pageSize, rest);
      SplitEqual(PageReads(w, m, base, segEnd, pageSize, pages[0]),
                 PagesReads(w, m', base + pageSize, segEnd, pageSize, rest),
                 PageEntries(m, base, segEnd, pageSize, pages[0]),
                 PagesEntries(m, base + pageSize, segEnd, pageSize, rest), base, mid);
      PageOriginalIff(w, m, base, segEnd, pageSize, pages[0]);
    }
  }

  lemma {:induction false} PageOriginalIff(w: Walker, m: Mem, base: int, segEnd: int, pageSize: u16, start: u16)
    ensures PageReads(w, m, base, segEnd, pageSize, start) == PageEntries(m, base, segEnd, pageSize, start) <==>
            PageAgreeing(w, m, base, segEnd, pageSize, start)
  {
    hide Reads, Entries, Agreeing;
    if HasChain(base, segEnd, pageSize, start) {
      ReadsOriginalIff(w, m, base + start, Min(base + pageSize, segEnd));
    }
  }

  /** Walking a page changes nothing outside it. */
  lemma {:induction false} PageElsewhere(w: Walker, m: Mem, base: int, segEnd: int, pageSize: u16, start: u16)
    ensures forall x :: !(base <= x < Min(base + pageSize, segEnd)) ==>
              Get(WalkPage(w, m, base, segEnd, pageSize, start), x) == Get(m, x)
  {
    hide WalkPage, PageReads, Get;
    PageWalkReads(w, m, base, segEnd, pageSize, start);
    PageReadsWithin(w, m, base, segEnd, pageSize, start);
    ApplyInside(w, m, PageReads(w, m, base, segEnd, pageSize, start), base, Min(base + pageSize, segEnd));
  }

  /** Over the whole image: the pass reads every entry of every chain as it was mapped exactly when the
    * overlapping halves agree in every chain it reaches. */
  lemma {:induction false} ImageOriginalIff(w: Walker, m: Mem, segs: seq<Segment>, starts: seq<Option<Starts>>)
    requires SegmentsApart(segs)
    ensures ImageReads(w, m, segs, starts) == ImageEntries(w, m, segs, starts) <==> ImageAgreeing(w, m, segs, starts)
    decreases |segs|
  {
    hide PagesReads, PagesEntries, PagesAgreeing, WalkPages, Get;
    if segs != [] && starts != [] {
      if starts[0].None? {
        ImageOriginalIff(w, m, segs[1..], starts[1..]);
      } else if Supports(w, starts[0].value.format) {
        var seg, s := segs[0], starts[0].value;
        var lo, hi := seg.vmaddr, seg.vmaddr + seg.vmsize;
        var m' := WalkSegment(w, m, seg, s);
        PagesWalkReads(w, m, lo, hi, s.pageSize, s.pages);
        PagesReadsWithin(w, m, lo, hi, s.pageSize, s.pages);
        PagesWithin(m, lo, hi, s.pageSize, s.pages);
        ApplyInside(w, m, SegmentReads(w, m, seg, s), lo, hi);
        SameElsewhere(m, m', segs);
        ImageFrame(w, m, m', segs[1..], starts[1..]);
        ImageOriginalIff(w, m', segs[1..], starts[1..]);
        PagesOriginalIff(w, m, lo, hi, s.pageSize, s.pages);
        ImageReadsInSegments(w, m', segs[1..], starts[1..]);
        ImageInSegments(w, m, segs[1..], starts[1..]);
        OutsideFirst(ImageReads(w, m', segs[1..], starts[1..]), segs);
        OutsideFirst(ImageEntries(w, m, segs[1..], starts[1..]), segs);
        SplitEqual(SegmentReads(w, m, seg, s), ImageReads(w, m', segs[1..], starts[1..]),
                   SegmentEntries(m, seg, s), ImageEntries(w, m, segs[1..], starts[1..]), lo, hi);
      }
    }
  }

  lemma {:induction false} SameElsewhere(m: Mem, m': Mem, segs: seq<Segment>)
    requires segs != [] && SegmentsApart(segs)
    requires forall x :: !(segs[0].vmaddr <= x < segs[0].vmaddr + segs[0].vmsize) ==> Get(m', x) == Get(m, x)
    ensures SameInSegments(m, m', segs[1..])
  {
    forall i | 0 <= i < |segs[1..]|
      ensures SameFrom(m, m', segs[1..][i].vmaddr, segs[1..][i].vmaddr + segs[1..][i].vmsize)
    {
      assert Apart(segs[0], segs[i + 1]);
    }
  }

  lemma {:induction false} OutsideFirst(es: seq<Entry>, segs: seq<Segment>)
    requires segs != [] && SegmentsApart(segs) && InSegments(es, segs[1..])
    ensures Outside(es, segs[0].vmaddr, segs[0].vmaddr + segs[0].vmsize)
  {
    forall i | 0 <= i < |es| ensures !(segs[0].vmaddr <= es[i].addr < segs[0].vmaddr + segs[0].vmsize) {
      assert InSome(es[i], segs[1..]);
      var k :| 0 <= k < |segs[1..]| && Inside(es[i], segs[1..][k]);
      assert Apart(segs[0], segs[k + 1]);
    }
  }

  lemma {:induction false} ImageReadsInSegments(w: Walker, m: Mem, segs: seq<Segment>, starts: seq<Option<Starts>>)
    ensures InSegments(ImageReads(w, m, segs, starts), segs)
    decreases |segs|
  {
    hide PagesReads, Supports, WalkPages;
    if segs != [] && starts != [] {
      var m' := if starts[0].Some? then WalkSegment(w, m, segs[0], starts[0].value) else m;
      ImageReadsInSegments(w, m', segs[1..], starts[1..]);
      InMoreSegments(ImageReads(w, m', segs[1..], starts[1..]), segs);
      if starts[0].Some? {
        var s := starts[0].value;
        PagesReadsWithin(w, m, segs[0].vmaddr, segs[0].vmaddr + segs[0].vmsize, s.pageSize, s.pages);
        InFirst(SegmentReads(w, m, segs[0], s), segs);
      }
    }
  }

  // ---- the passes as they run ----

  /** The process image that the fixup passes rewrite in place. */
  class Process {
    var mem: Mem
    /** The main pass computes its load base once and keeps it for later calls. */
    var loadBase: u64

    constructor (m: Mem)
      ensures mem == m && loadBase == 0
    {
      mem, loadBase := m, 0;
    }

    method WalkChain(w: Walker, start: int, end: int)
      requires start + 8 <= end
      modifies this`mem
      ensures mem == Walk(w, old(mem), start, end, 0)
    {
      hide Load64, Store64, Next, Walker.Fix;
      var chain, iter := start, 0;
      while iter < MAX_ITERATIONS
        invariant chain + 8 <= end && 0 <= iter
        invariant Walk(w, old(mem), start, end, 0) == Walk(w, mem, chain, end, iter)
      {
        var value := Load64(mem, chain);
        var next := Next(value);
        var fixed := w.Fix(value);
        ghost var before := mem;
        if fixed.Some? { mem := Store64(mem, chain, fixed.value); }
        assert mem == Put(before, chain, w.Fix(value));
        if next == 0 { return; }
        chain := chain + 4 * next;
        if chain + 8 > end { return; }
        iter := iter + 1;
      }
    }

    method WalkSegmentPages(w: Walker, seg: Segment, s: Starts)
      modifies this`mem
      ensures mem == WalkSegment(w, old(mem), seg, s)
    {
      hide Walk, HasChain;
      var i := 0;
      var segEnd := seg.vmaddr + seg.vmsize;
      ghost var base := seg.vmaddr;
      while i < |s.pages|
        invariant 0 <= i <= |s.pages| && base == seg.vmaddr + i * s.pageSize
        invariant WalkSegment(w, old(mem), seg, s) == WalkPages(w, mem, base, segEnd, s.pageSize, s.pages[i..])
      {
        var pageBase := seg.vmaddr + i * s.pageSize;
        assert s.pages[i..][1..] == s.pages[i + 1..];
        WalkOnePage(w, pageBase, segEnd, s.pageSize, s.pages[i]);
        base := base + s.pageSize;
        i := i + 1;
      }
    }

    method WalkOnePage(w: Walker, pageBase: int, segEnd: int, pageSize: u16, pageStart: u16)
      modifies this`mem
      ensures mem == WalkPage(w, old(mem), pageBase, segEnd, pageSize, pageStart)
    {
      hide Walk;
      if pageStart == PTR_START_NONE { return; }
      var pageEnd := pageBase + pageSize;
      if pageEnd > segEnd { pageEnd := segEnd; }
      var chain := pageBase + pageStart;
      if chain + 8 > pageEnd { return; }
      WalkChain(w, chain, pageEnd);
    }

    method ExecuteChainedFixups(l: Linker, segs: seq<Segment>, starts: seq<Option<Starts>>) returns (rc: int)
      modifies this
      ensures BaseFor(old(loadBase), segs) == if old(loadBase) != 0 then old(loadBase) else LoadBase(segs)
      ensures (rc, mem) == WalkImage(MainImage(l, BaseFor(old(loadBase), segs)), old(mem), segs, starts)
      ensures loadBase == if ReachesPage(segs, starts) then BaseFor(old(loadBase), segs) else old(loadBase)
    {
      hide WalkSegment;
      var found := FindLoadBase(segs);
      var base := if loadBase != 0 then loadBase else found;
      var w := MainImage(l, base);
      var i := 0;
      while i < |starts| && i < |segs|
        invariant 0 <= i <= |segs| && i <= |starts|
        invariant WalkImage(w, old(mem), segs, starts) == WalkImage(w, mem, segs[i..], starts[i..])
        invariant loadBase == old(loadBase) || loadBase == base
        invariant (if ReachesPage(segs, starts) then base else old(loadBase)) ==
                  (if ReachesPage(segs[i..], starts[i..]) then base else loadBase)
      {
        assert segs[i..][1..] == segs[i + 1..] && starts[i..][1..] == starts[i + 1..];
        if starts[i].Some? {
          var s := starts[i].value;
          if s.format != PTR_64 && s.format != PTR_64_OFFSET { return -1; }
          var any := StartsAny(s.pages);
          if any { loadBase := base; }
          WalkSegmentPages(w, segs[i], s);
        }
        i := i + 1;
      }
      rc := 0;
    }

    method StartsAny(pages: seq<u16>) returns (any: bool)
      ensures any == HasStart(pages)
    {
      for i := 0 to |pages|
        invariant forall k :: 0 <= k < i ==> pages[k] == PTR_START_NONE
      {
        if pages[i] != PTR_START_NONE { return true; }
      }
      any := false;
    }

    /** The dylib pass: static segment addresses and a slide, and no format check. */
    method ProcessDylibChainedFixups(l: Linker, segs: seq<Segment>, slide: int, starts: seq<Option<Starts>>)
      modifies this`mem
      ensures mem == WalkImage(Dylib(l, DylibLoadBase(segs, slide)), old(mem), SlidSegments(segs, slide), starts).1
    {
      hide WalkSegment, DylibLoadBase;
      var loadBase := FindDylibLoadBase(segs, slide);
      var w := Dylib(l, loadBase);
      ghost var slid := SlidSegments(segs, slide);
      var i := 0;
      while i < |starts| && i < |segs|
        invariant 0 <= i <= |segs| && i <= |starts|
        invariant WalkImage(w, old(mem), slid, starts) == WalkImage(w, mem, slid[i..], starts[i..])
      {
        assert slid[i..][1..] == slid[i + 1..] && starts[i..][1..] == starts[i + 1..];
        if starts[i].Some? {
          WalkSegmentPages(w, SlidSegment(segs[i], slide), starts[i].value);
        }
        i := i + 1;
      }
    }

    method FindDylibLoadBase(segs: seq<Segment>, slide: int) returns (b: u64)
      ensures b == DylibLoadBase(segs, slide)
    {
      b := 0;
      var i := 0;
      while i < |segs|
        invariant 0 <= i <= |segs| && b == 0 && FirstSlid(segs, slide) == FirstSlid(segs[i..], slide)
      {
        if !LooksLikePagezero(segs[i]) {
          b := Wrap(segs[i].vmaddr + slide);
          break;
        }
        assert segs[i..][1..] == segs[i + 1..];
        i := i + 1;
      }
      if b == 0 { b := Wrap(slide); }
    }

    method FindLoadBase(segs: seq<Segment>) returns (b: u64)
      ensures b == LoadBase(segs)
    {
      var i := 0;
      while i < |segs|
        invariant 0 <= i <= |segs| && LoadBase(segs) == LoadBase(segs[i..])
      {
        if !segs[i].pagezero { return segs[i].vmaddr; }
        assert segs[i..][1..] == segs[i + 1..];
        i := i + 1;
      }
      b := 0;
    }
  }

  /** Address of the first segment that is not __PAGEZERO. */
  function LoadBase(segs: seq<Segment>): u64 {
    if segs == [] then 0 else if segs[0].pagezero then LoadBase(segs[1..]) else segs[0].vmaddr
  }

  /** It is the first such segment that counts. */
  lemma {:induction false} LoadBaseFirst(segs: seq<Segment>, k: nat)
    requires k <= |segs| && forall j :: 0 <= j < k ==> segs[j].pagezero
    ensures k < |segs| && !segs[k].pagezero ==> LoadBase(segs) == segs[k].vmaddr
    ensures k == |segs| ==> LoadBase(segs) == 0
  {
    if k > 0 { LoadBaseFirst(segs[1..], k - 1); }
  }

  /** The base a main pass uses: the one kept from an earlier pass if there is one. */
  function BaseFor(kept: u64, segs: seq<Segment>): u64 { if kept != 0 then kept else LoadBase(segs) }

  predicate HasStart(pages: seq<u16>) { exists k :: 0 <= k < |pages| && pages[k] != PTR_START_NONE }

  /** The main pass gets as far as a page with a chain. */
  predicate ReachesPage(segs: seq<Segment>, starts: seq<Option<Starts>>)
    decreases |segs|
  {
    segs != [] && starts != [] &&
    if starts[0].None? then ReachesPage(segs[1..], starts[1..])
    else
      (starts[0].value.format == PTR_64 || starts[0].value.format == PTR_64_OFFSET) &&
      (HasStart(starts[0].value.pages) || ReachesPage(segs[1..], starts[1..]))
  }

  /** That is: some segment has a page whose start is not 0xFFFF, and no segment up to it has a format other than
    * 2 or 6. */
  lemma {:induction false} ReachesPageIff(segs: seq<Segment>, starts: seq<Option<Starts>>)
    ensures ReachesPage(segs, starts) <==>
            exists k :: 0 <= k < |segs| && k < |starts| && ReachedAt(starts, k)
    decreases |segs|
  {
    hide ReachedAt;
    if segs != [] && starts != [] {
      ReachesPageIff(segs[1..], starts[1..]);
      FirstReached(starts);
      forall k | 1 <= k < |starts|
        ensures ReachedAt(starts, k) <==>
                  (starts[0].Some? ==> starts[0].value.format in {2, 6}) && ReachedAt(starts[1..], k - 1)
      {
        LaterReached(starts, k);
      }
      if k :| 0 <= k < |segs[1..]| && k < |starts[1..]| && ReachedAt(starts[1..], k) {
        assert ReachedAt(starts, k + 1) <==> (starts[0].Some? ==> starts[0].value.format in {2, 6});
      }
    }
  }

  ghost predicate ReachedAt(starts: seq<Option<Starts>>, k: nat)
    requires k < |starts|
  {
    && starts[k].Some? && (exists i :: 0 <= i < |starts[k].value.pages| && starts[k].value.pages[i] != 0xFFFF)
    && (forall j :: 0 <= j <= k && starts[j].Some? ==> starts[j].value.format in {2, 6})
  }

  lemma {:induction false} FirstReached(starts: seq<Option<Starts>>)
    requires starts != []
    ensures ReachedAt(starts, 0) <==>
              starts[0].Some? && HasStart(starts[0].value.pages) && starts[0].value.format in {2, 6}
  {
  }

  lemma {:induction false} LaterReached(starts: seq<Option<Starts>>, k: nat)
    requires 1 <= k < |starts|
    ensures ReachedAt(starts, k) <==>
              (starts[0].Some? ==> starts[0].value.format in {2, 6}) && ReachedAt(starts[1..], k - 1)
  {
    assert forall j :: 1 <= j < |starts| ==> starts[j] == starts[1..][j - 1];
    assert forall j :: 0 <= j < |starts[1..]| ==> starts[1..][j] == starts[j + 1];
  }

  /** The dylib loader recognises __PAGEZERO by its address and size. */
  predicate LooksLikePagezero(s: Segment) { s.vmaddr == 0 && s.vmsize > 0x8000_0000 }

  function SlidSegment(s: Segment, slide: int): Segment { s.(vmaddr := Wrap(s.vmaddr + slide)) }

  function SlidSegments(segs: seq<Segment>, slide: int): (r: seq<Segment>)
    ensures |r| == |segs| && forall i :: 0 <= i < |segs| ==> r[i] == SlidSegment(segs[i], slide)
  {
    seq(|segs|, i requires 0 <= i < |segs| => SlidSegment(segs[i], slide))
  }

  function FirstSlid(segs: seq<Segment>, slide: int): u64 {
    if segs == [] then 0
    else if LooksLikePagezero(segs[0]) then FirstSlid(segs[1..], slide)
    else Wrap(segs[0].vmaddr + slide)
  }

  function DylibLoadBase(segs: seq<Segment>, slide: int): u64 {
    if FirstSlid(segs, slide) != 0 then FirstSlid(segs, slide) else Wrap(slide)
  }

  lemma {:induction false} DylibBaseFirst(segs: seq<Segment>, slide: int, k: nat)
    requires k <= |segs| && forall j :: 0 <= j < k ==> segs[j].vmaddr == 0 && segs[j].vmsize > 0x8000_0000
    ensures k < |segs| && !(segs[k].vmaddr == 0 && segs[k].vmsize > 0x8000_0000) ==>
              var a := Wrap(segs[k].vmaddr + slide); DylibLoadBase(segs, slide) == if a != 0 then a else Wrap(slide)
    ensures k == |segs| ==> DylibLoadBase(segs, slide) == Wrap(slide)
  {
    hide Wrap;
    if k > 0 { DylibBaseFirst(segs[1..], slide, k - 1); }
  }

  /** Both passes compute the same load base for segments mapped at the same place, when the shape and
    * the name of __PAGEZERO agree, unless that base is zero and the slide is not. */
  lemma {:induction false} LoadBasesAgreeIff(segs: seq<Segment>, slide: int)
    requires forall i :: 0 <= i < |segs| ==> segs[i].pagezero == LooksLikePagezero(segs[i])
    ensures DylibLoadBase(segs, slide) == LoadBase(SlidSegments(segs, slide)) <==>
            LoadBase(SlidSegments(segs, slide)) != 0 || Wrap(slide) == 0
  {
    FirstIsLoadBase(segs, slide);
  }

  lemma {:induction false} FirstIsLoadBase(segs: seq<Segment>, slide: int)
    requires forall i :: 0 <= i < |segs| ==> segs[i].pagezero == LooksLikePagezero(segs[i])
    ensures FirstSlid(segs, slide) == LoadBase(SlidSegments(segs, slide))
    decreases |segs|
  {
    if segs != [] {
      FirstIsLoadBase(segs[1..], slide);
      assert SlidSegments(segs, slide)[1..] == SlidSegments(segs[1..], slide);
    }
  }
}
