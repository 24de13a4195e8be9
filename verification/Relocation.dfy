/** Mapping an image at a slide and rebasing it: the result is the unslid image, shifted. */
module Relocation {
  import opened Memory
  import opened Rebase

  const MAX_SEGMENTS := 32
  const MAX_SECTIONS := 64

  /** A section_64: its address and the fields that are copied as they are. */
  datatype Section = Section(addr: u64, rest: seq<byte>)

  /** The fields of an LC_SEGMENT_64 command that mapping uses. */
  datatype Command =
    Command(pagezero: bool, vmaddr: u64, vmsize: u64, fileoff: u64, filesize: u64, sections: seq<Section>)

  datatype Loaded = Loaded(vmaddr: u64, vmsize: u64, pagezero: bool)

  datatype Space = Space(mem: Mem, segments: seq<Loaded>, sections: seq<Section>)

  function SlidAddr(c: Command, slide: int): u64 {
    if c.pagezero then c.vmaddr else Wrap(c.vmaddr + slide)
  }

  function Zeros(n: nat): (s: seq<byte>)
    ensures |s| == n && forall i :: 0 <= i < n ==> s[i] == 0
  {
    seq<byte>(n, i => 0)
  }

  /** File bytes, then zeros up to vmsize. */
  function Contents(c: Command, file: seq<byte>): (s: seq<byte>)
  {
    Window(file, c.fileoff, c.filesize) +
    Zeros(if c.vmsize > c.filesize then c.vmsize - c.filesize else 0)
  }

  /** map_segment. */
  function Map(sp: Space, c: Command, slide: int, file: seq<byte>): (r: (int, Space)) {
    if |sp.segments| >= MAX_SEGMENTS then (-1, sp)
    else if c.vmsize == 0 then (0, sp)
    else if c.pagezero then (0, sp.(segments := sp.segments + [Loaded(c.vmaddr, c.vmsize, true)]))
    else if c.filesize > 0 && Wrap(c.fileoff + c.filesize) > |file| then (-1, sp)
    else
      var a := SlidAddr(c, slide);
      var (rc, sections) := AddSections(sp.sections, c.sections, slide);
      (rc, Space(Store(sp.mem, a, Contents(c, file)), sp.segments + [Loaded(a, c.vmsize, false)], sections))
  }

  function SlidSection(s: Section, slide: int): Section { s.(addr := Wrap(s.addr + slide)) }

  /** Sections are recorded one by one until the table is full. */
  function AddSections(have: seq<Section>, ss: seq<Section>, slide: int): (int, seq<Section>)
    decreases |ss|
  {
    if ss == [] then (0, have)
    else if |have| >= MAX_SECTIONS then (-1, have)
    else AddSections(have + [SlidSection(ss[0], slide)], ss[1..], slide)
  }

  function SlidSections(ss: seq<Section>, slide: int): (r: seq<Section>)
    ensures |r| == |ss|
  {
    if ss == [] then [] else [SlidSection(ss[0], slide)] + SlidSections(ss[1..], slide)
  }

  /** All of them are recorded when the table has room, and otherwise as many as fit. */
  lemma {:induction false} SectionsRecorded(have: seq<Section>, ss: seq<Section>, slide: int)
    requires |have| <= MAX_SECTIONS
    ensures AddSections(have, ss, slide) ==
            if |have| + |ss| <= MAX_SECTIONS then (0, have + SlidSections(ss, slide))
            else (-1, have + SlidSections(ss, slide)[..MAX_SECTIONS - |have|])
    decreases |ss|
  {
    hide SlidSection;
    if ss == [] {
      assert have + [] == have;
    } else if |have| == MAX_SECTIONS {
      assert SlidSections(ss, slide)[..0] == [] && have + [] == have;
    } else {
      var x, rest, n := SlidSection(ss[0], slide), SlidSections(ss[1..], slide), MAX_SECTIONS - |have|;
      SectionsRecorded(have + [x], ss[1..], slide);
      Regroup(have, [x], rest);
      if |rest| >= n { TakeFront(have, x, rest, n); }
    }
  }

  lemma {:induction false} Regroup<T>(a: seq<T>, b: seq<T>, c: seq<T>)
    ensures a + b + c == a + (b + c)
  {
  }

  lemma {:induction false} TakeFront<T>(a: seq<T>, x: T, r: seq<T>, n: nat)
    requires 1 <= n <= |r|
    ensures a + [x] + r[..n - 1] == a + ([x] + r)[..n]
  {
    assert ([x] + r)[..n] == [x] + r[..n - 1];
  }

  lemma {:induction false} SlidSectionsAt(ss: seq<Section>, slide: int, i: nat)
    requires i < |ss|
    ensures SlidSections(ss, slide)[i] == Section((ss[i].addr + slide) % 0x1_0000_0000_0000_0000, ss[i].rest)
    decreases i
  {
    if i > 0 { SlidSectionsAt(ss[1..], slide, i - 1); }
  }

  /** What one segment command does, in every case: full table, empty segment, __PAGEZERO, a file part past
    * the end of the file, and otherwise each byte of memory, the record made and the sections recorded. */
  lemma {:induction false} MapMeaning(sp: Space, c: Command, slide: int, file: seq<byte>)
    requires |sp.sections| <= 64
    ensures var r := Map(sp, c, slide, file);
            if |sp.segments| >= 32 then r == (-1, sp)
            else if c.vmsize == 0 then r == (0, sp)
            else if c.pagezero then
              r == (0, Space(sp.mem, sp.segments + [Loaded(c.vmaddr, c.vmsize, true)], sp.sections))
            else if c.filesize > 0 && (c.fileoff + c.filesize) % 0x1_0000_0000_0000_0000 > |file| then r == (-1, sp)
            else
              var a := (c.vmaddr + slide) % 0x1_0000_0000_0000_0000;
              && r.1.segments == sp.segments + [Loaded(a, c.vmsize, false)]
              && (forall x :: Get(r.1.mem, x) == MappedByte(sp.mem, c, file, a, x))
              && r.0 == (if |sp.sections| + |c.sections| <= 64 then 0 else -1)
              && |r.1.sections| == (if r.0 == 0 then |sp.sections| + |c.sections| else 64)
              && (forall i :: 0 <= i < |r.1.sections| ==>
                    r.1.sections[i] ==
                      if i < |sp.sections| then sp.sections[i]
                      else SectionAt(c.sections[i - |sp.sections|], slide))
  {
    hide Store, AddSections, SlidSections;
    if |sp.segments| < 32 && c.vmsize > 0 && !c.pagezero {
      SectionsRecorded(sp.sections, c.sections, slide);
      forall i | 0 <= i < |c.sections| ensures SlidSections(c.sections, slide)[i] == SectionAt(c.sections[i], slide) {
        SlidSectionsAt(c.sections, slide, i);
      }
      forall x ensures Get(Store(sp.mem, SlidAddr(c, slide), Contents(c, file)), x) ==
                         MappedByte(sp.mem, c, file, SlidAddr(c, slide), x)
      {
        ContentsByte(sp.mem, c, file, SlidAddr(c, slide), x);
      }
    }
  }

  function SectionAt(s: Section, slide: int): Section {
    Section((s.addr + slide) % 0x1_0000_0000_0000_0000, s.rest)
  }

  /** The byte at `x` once the segment is at `a`: its file part, its zero part, or what was there. */
  function MappedByte(m: Mem, c: Command, file: seq<byte>, a: int, x: int): byte {
    if a <= x < a + c.filesize then if c.fileoff + (x - a) < |file| then file[c.fileoff + (x - a)] else 0
    else if a + c.filesize <= x < a + c.vmsize then 0
    else Get(m, x)
  }

  lemma {:induction false} ContentsByte(m: Mem, c: Command, file: seq<byte>, a: int, x: int)
    ensures Get(Store(m, a, Contents(c, file)), x) == MappedByte(m, c, file, a, x)
  {
  }

  /** All segment commands in order, stopping at the first failure. */
  function MapAll(sp: Space, cs: seq<Command>, slide: int, file: seq<byte>): (int, Space)
    decreases |cs|
  {
    if cs == [] then (0, sp)
    else
      var r := Map(sp, cs[0], slide, file);
      if r.0 != 0 then r else MapAll(r.1, cs[1..], slide, file)
  }

  /** The commands run one after another: after the first ones, the rest continue where they left off, and
    * a failure stops the load with what had been mapped. */
  lemma {:induction false} MapInOrder(sp: Space, cs: seq<Command>, ds: seq<Command>, slide: int, file: seq<byte>)
    ensures MapAll(sp, [], slide, file) == (0, sp)
    ensures cs != [] ==> MapAll(sp, cs[..1], slide, file) == Map(sp, cs[0], slide, file)
    ensures var r := MapAll(sp, cs, slide, file);
            MapAll(sp, cs + ds, slide, file) == if r.0 != 0 then r else MapAll(r.1, ds, slide, file)
    decreases |cs|
  {
    hide Map;
    if cs == [] {
      assert cs + ds == ds;
    } else {
      assert (cs + ds)[1..] == cs[1..] + ds;
      assert cs[..1][1..] == [];
      var r := Map(sp, cs[0], slide, file);
      if r.0 == 0 { MapInOrder(r.1, cs[1..], ds, slide, file); }
    }
  }

  // ---- images that can be loaded ----

  predicate Apart(c: Command, d: Command) { c.vmaddr + c.vmsize <= d.vmaddr || d.vmaddr + d.vmsize <= c.vmaddr }

  predicate CommandOk(c: Command, file: seq<byte>) {
    && c.vmsize > 0 && c.vmaddr + c.vmsize <= TWO64
    && (!c.pagezero ==> c.filesize <= c.vmsize && c.fileoff + c.filesize <= |file|)
  }

  /** Non-empty segments inside the file and the address space, the mapped ones disjoint. */
  predicate WellFormed(cs: seq<Command>, file: seq<byte>) {
    && (forall i :: 0 <= i < |cs| ==> CommandOk(cs[i], file))
    && (forall i, j :: 0 <= i < j < |cs| && !cs[i].pagezero && !cs[j].pagezero ==> Apart(cs[i], cs[j]))
  }

  /** At this slide every mapped segment stays inside the address space. */
  predicate Fits(cs: seq<Command>, slide: int) {
    forall i :: 0 <= i < |cs| && !cs[i].pagezero ==>
      0 <= cs[i].vmaddr + slide && cs[i].vmaddr + cs[i].vmsize + slide <= TWO64
  }

  predicate InSegment(c: Command, slide: int, x: int) {
    !c.pagezero && c.vmaddr + slide <= x < c.vmaddr + slide + c.vmsize
  }

  // ---- mapping ----

  /** Memory after mapping, and the recorded segments. */
  function MappedMem(m: Mem, cs: seq<Command>, slide: int, file: seq<byte>): Mem
    requires forall i :: 0 <= i < |cs| ==> CommandOk(cs[i], file)
    decreases |cs|
  {
    if cs == [] then m
    else
      assert CommandOk(cs[0], file);
      MappedMem(if cs[0].pagezero then m else Store(m, SlidAddr(cs[0], slide), Contents(cs[0], file)), cs[1..],
          slide, file)
  }

  function Addresses(cs: seq<Command>, slide: int): (r: seq<u64>)
    ensures |r| == |cs| && forall i :: 0 <= i < |cs| ==> r[i] == SlidAddr(cs[i], slide)
  {
    if cs == [] then [] else [SlidAddr(cs[0], slide)] + Addresses(cs[1..], slide)
  }

  function Recorded(cs: seq<Command>, slide: int): (r: seq<Loaded>)
    ensures |r| == |cs|
  {
    if cs == [] then [] else [Loaded(SlidAddr(cs[0], slide), cs[0].vmsize, cs[0].pagezero)] + Recorded(cs[1..], slide)
  }

  lemma {:induction false} RecordedAddresses(cs: seq<Command>, slide: int)
    ensures SegmentAddresses(Recorded(cs, slide)) == Addresses(cs, slide)
  {
    hide SlidAddr;
    if cs != [] {
      RecordedAddresses(cs[1..], slide);
      assert SegmentAddresses(Recorded(cs, slide))[1..] == SegmentAddresses(Recorded(cs[1..], slide));
    }
  }

  /** The sections recorded for the commands, in order. */
  function RecordedSections(cs: seq<Command>, slide: int): seq<Section> {
    if cs == [] then []
    else (if cs[0].pagezero then [] else SlidSections(cs[0].sections, slide)) + RecordedSections(cs[1..], slide)
  }

  /** Mapping a well-formed image succeeds and records one segment per command, so segment indices are
    * load-command indices. */
  lemma {:induction false} MapAllSucceeds(sp: Space, cs: seq<Command>, slide: int, file: seq<byte>)
    requires (forall i :: 0 <= i < |cs| ==> CommandOk(cs[i], file)) && |sp.segments| + |cs| <= MAX_SEGMENTS
    requires |sp.sections| + |RecordedSections(cs, slide)| <= MAX_SECTIONS
    ensures MapAll(sp, cs, slide, file) ==
            (0, Space(MappedMem(sp.mem, cs, slide, file), sp.segments + Recorded(cs, slide),
                      sp.sections + RecordedSections(cs, slide)))
    decreases |cs|
  {
    hide Store, Contents, Map, SlidAddr, SlidSections;
    if cs == [] {
      assert sp.segments + [] == sp.segments && sp.sections + [] == sp.sections;
    } else {
      var one := [Loaded(SlidAddr(cs[0], slide), cs[0].vmsize, cs[0].pagezero)];
      var added := if cs[0].pagezero then [] else SlidSections(cs[0].sections, slide);
      assert CommandOk(cs[0], file);
      hide CommandOk, MappedMem;
      MapOne(sp, cs[0], slide, file);
      var sp' := Map(sp, cs[0], slide, file).1;
      MapAllSucceeds(sp', cs[1..], slide, file);
      Regroup(sp.segments, one, Recorded(cs[1..], slide));
      Regroup(sp.sections, added, RecordedSections(cs[1..], slide));
      MappedUnfold(sp.mem, cs, slide, file);
    }
  }

  lemma {:induction false} MappedUnfold(m: Mem, cs: seq<Command>, slide: int, file: seq<byte>)
    requires cs != [] && forall i :: 0 <= i < |cs| ==> CommandOk(cs[i], file)
    ensures MappedMem(m, cs, slide, file) ==
            MappedMem(if cs[0].pagezero then m else Store(m, SlidAddr(cs[0], slide), Contents(cs[0], file)), cs[1..],
                slide, file)
  {
    hide Store, Contents, CommandOk, SlidAddr;
  }

  lemma {:induction false} MapOne(sp: Space, c: Command, slide: int, file: seq<byte>)
    requires CommandOk(c, file) && |sp.segments| < MAX_SEGMENTS
    requires c.pagezero || |sp.sections| + |c.sections| <= MAX_SECTIONS
    ensures Map(sp, c, slide, file) ==
            (0, Space(if c.pagezero then sp.mem else Store(sp.mem, SlidAddr(c, slide), Contents(c, file)),
                      sp.segments + [Loaded(SlidAddr(c, slide), c.vmsize, c.pagezero)],
                      sp.sections + if c.pagezero then [] else SlidSections(c.sections, slide)))
  {
    hide Store, Contents, AddSections, SlidSections;
    if c.pagezero {
      assert sp.sections + [] == sp.sections;
    } else {
      SectionsRecorded(sp.sections, c.sections, slide);
    }
  }

  lemma {:induction false} ContentsLen(c: Command, file: seq<byte>)
    requires CommandOk(c, file) && !c.pagezero
    ensures |Contents(c, file)| == c.vmsize
  {
  }

  lemma {:induction false} SlidIs(cs: seq<Command>, slide: int, k: nat)
    requires k < |cs| && Fits(cs, slide) && !cs[k].pagezero && cs[k].vmsize > 0
    ensures SlidAddr(cs[k], slide) == cs[k].vmaddr + slide
  {
  }

  lemma {:induction false} MappedOutside(m: Mem, cs: seq<Command>, slide: int, file: seq<byte>, x: int)
    requires (forall i :: 0 <= i < |cs| ==> CommandOk(cs[i], file)) && Fits(cs, slide)
    requires forall i :: 0 <= i < |cs| ==> !InSegment(cs[i], slide, x)
    ensures Get(MappedMem(m, cs, slide, file), x) == Get(m, x)
    decreases |cs|
  {
    hide Contents;
    if cs != [] {
      assert CommandOk(cs[0], file) && !InSegment(cs[0], slide, x);
      var m' := if cs[0].pagezero then m else Store(m, SlidAddr(cs[0], slide), Contents(cs[0], file));
      if !cs[0].pagezero {
        SlidIs(cs, slide, 0);
        ContentsLen(cs[0], file);
      }
      TailOk(cs, slide, file);
      MappedOutside(m', cs[1..], slide, file, x);
    }
  }

  lemma {:induction false} TailOk(cs: seq<Command>, slide: int, file: seq<byte>)
    requires cs != [] && (forall i :: 0 <= i < |cs| ==> CommandOk(cs[i], file)) && Fits(cs, slide)
    ensures (forall i :: 0 <= i < |cs[1..]| ==> CommandOk(cs[1..][i], file)) && Fits(cs[1..], slide)
    ensures WellFormed(cs, file) ==> WellFormed(cs[1..], file)
  {
  }

  /** The byte that a segment command puts `o` bytes into its segment. */
  function FileByte(c: Command, file: seq<byte>, o: int): byte
    requires 0 <= o && c.fileoff + c.filesize <= |file|
  {
    if o < c.filesize then file[c.fileoff + o] else 0
  }

  /** Every byte of a mapped segment is its file byte or zero, whatever memory held before. */
  lemma {:induction false} MappedInside(m: Mem, cs: seq<Command>, slide: int, file: seq<byte>, k: nat, o: nat)
    requires WellFormed(cs, file) && Fits(cs, slide) && k < |cs| && !cs[k].pagezero && o < cs[k].vmsize
    ensures CommandOk(cs[k], file)
    ensures Get(MappedMem(m, cs, slide, file), cs[k].vmaddr + slide + o) ==
            if o < cs[k].filesize then file[cs[k].fileoff + o] else 0
  {
    hide MappedMem, Store, SlidAddr;
    MappedContents(m, cs, slide, file, k, o);
  }

  lemma {:induction false} MappedContents(m: Mem, cs: seq<Command>, slide: int, file: seq<byte>, k: nat, o: nat)
    requires WellFormed(cs, file) && Fits(cs, slide) && k < |cs| && !cs[k].pagezero && o < cs[k].vmsize
    ensures o < |Contents(cs[k], file)|
    ensures Get(MappedMem(m, cs, slide, file), cs[k].vmaddr + slide + o) == Contents(cs[k], file)[o]
    decreases |cs|
  {
    hide Contents, Store, SlidAddr;
    ContentsLen(cs[k], file);
    if k > 0 {
      TailOk(cs, slide, file);
      var m' := if cs[0].pagezero then m else Store(m, SlidAddr(cs[0], slide), Contents(cs[0], file));
      MappedUnfold(m, cs, slide, file);
      MappedContents(m', cs[1..], slide, file, k - 1, o);
    } else {
      MappedFirst(m, cs, slide, file, o);
    }
  }

  lemma {:induction false} MappedFirst(m: Mem, cs: seq<Command>, slide: int, file: seq<byte>, o: nat)
    requires WellFormed(cs, file) && Fits(cs, slide) && cs != [] && !cs[0].pagezero && o < cs[0].vmsize
    ensures o < |Contents(cs[0], file)|
    ensures Get(MappedMem(m, cs, slide, file), cs[0].vmaddr + slide + o) == Contents(cs[0], file)[o]
  {
    hide Contents, MappedMem, Store;
    ContentsLen(cs[0], file);
    TailOk(cs, slide, file);
    SlidIs(cs, slide, 0);
    MappedUnfold(m, cs, slide, file);
    var x := cs[0].vmaddr + slide + o;
    forall i | 0 <= i < |cs[1..]| ensures !InSegment(cs[1..][i], slide, x) {
      assert cs[1..][i] == cs[i + 1];
      assert !cs[i + 1].pagezero ==> Apart(cs[0], cs[i + 1]);
    }
    MappedOutside(Store(m, SlidAddr(cs[0], slide), Contents(cs[0], file)), cs[1..], slide, file, x);
  }

  // ---- rebasing disjoint slots ----

  predicate SlotsApart(addrs: seq<int>) {
    forall i, j :: 0 <= i < j < |addrs| ==> addrs[i] + 8 <= addrs[j] || addrs[j] + 8 <= addrs[i]
  }

  predicate InSlot(addrs: seq<int>, x: int) { exists i :: 0 <= i < |addrs| && addrs[i] <= x < addrs[i] + 8 }

  /** Each slot moves by the slide exactly once and nothing else changes. */
  lemma {:induction false} RebaseMeaning(m: Mem, addrs: seq<int>, slide: int)
    requires SlotsApart(addrs)
    ensures forall i :: 0 <= i < |addrs| ==>
              Load64(RebaseAll(m, addrs, slide), addrs[i]) == Wrap(Load64(m, addrs[i]) + slide)
    ensures forall x :: !InSlot(addrs, x) ==> Get(RebaseAll(m, addrs, slide), x) == Get(m, x)
    decreases |addrs|
  {
    hide Load64, Store64;
    if addrs != [] {
      var a, rest, m' := addrs[0], addrs[1..], RebaseAt(m, addrs[0], slide);
      RebaseMeaning(m', rest, slide);
      var f := RebaseAll(m', rest, slide);
      Load64Store64(m, a, Wrap(Load64(m, a) + slide));
      forall x | a <= x < a + 8 ensures !InSlot(rest, x) {
        assert forall i :: 0 <= i < |rest| ==> rest[i] == addrs[i + 1];
      }
      Load64Frame(m', f, a);
      forall i | 1 <= i < |addrs| ensures Load64(f, addrs[i]) == Wrap(Load64(m, addrs[i]) + slide) {
        assert addrs[i] == rest[i - 1];
        Load64Frame(m, m', addrs[i]);
      }
      forall x | !InSlot(addrs, x) ensures Get(f, x) == Get(m, x) {
        assert !InSlot(rest, x) by { assert forall i :: 0 <= i < |rest| ==> rest[i] == addrs[i + 1]; }
        assert !(addrs[0] <= x < addrs[0] + 8);
      }
    }
  }

  // ---- the relocation theorem ----

  /** The slots a rebase stream names, as static addresses in the unslid image. */
  function StaticSlots(cs: seq<Command>, slots: seq<Slot>): (r: seq<int>)
    requires InTable(|cs|, slots)
    ensures |r| == |slots| && forall i :: 0 <= i < |slots| ==> r[i] == cs[slots[i].seg].vmaddr + slots[i].off
  {
    if slots == [] then [] else [cs[slots[0].seg].vmaddr + slots[0].off] + StaticSlots(cs, slots[1..])
  }

  /** Slots lie inside mapped segments, outside __PAGEZERO. */
  predicate SlotsInside(cs: seq<Command>, slots: seq<Slot>) {
    forall i :: 0 <= i < |slots| ==>
      slots[i].seg < |cs| && !cs[slots[i].seg].pagezero && slots[i].off + 8 <= cs[slots[i].seg].vmsize
  }

  function Shifted(addrs: seq<int>, slide: int): (r: seq<int>)
    ensures |r| == |addrs| && forall i :: 0 <= i < |addrs| ==> r[i] == addrs[i] + slide
  {
    if addrs == [] then [] else [addrs[0] + slide] + Shifted(addrs[1..], slide)
  }

  lemma {:induction false} TargetsAreShifted(cs: seq<Command>, slots: seq<Slot>, slide: int)
    requires SlotsInside(cs, slots) && Fits(cs, slide) && InTable(|cs|, slots)
    ensures Targets(Addresses(cs, slide), slots) == Shifted(StaticSlots(cs, slots), slide)
  {
    hide Targets, Addresses, StaticSlots, Shifted;
    forall i | 0 <= i < |slots|
      ensures Targets(Addresses(cs, slide), slots)[i] == Shifted(StaticSlots(cs, slots), slide)[i]
    {
      SlidIs(cs, slide, slots[i].seg);
    }
  }

  /** Mapping at a slide and running the rebase stream, from any prior memory. */
  function Relocated(m: Mem, cs: seq<Command>, slide: int, file: seq<byte>, stream: seq<byte>): Mem
    requires forall i :: 0 <= i < |cs| ==> CommandOk(cs[i], file)
  {
    MainMemory(MappedMem(m, cs, slide, file), Addresses(cs, slide), slide, stream)
  }

  lemma {:induction false} RelocatedUnfold(m: Mem, cs: seq<Command>, slide: int, file: seq<byte>, stream: seq<byte>)
    requires forall i :: 0 <= i < |cs| ==> CommandOk(cs[i], file)
    ensures Relocated(m, cs, slide, file, stream) ==
            MainMemory(MappedMem(m, cs, slide, file), Addresses(cs, slide), slide, stream)
  {
    hide MainMemory, MappedMem, Addresses;
  }

  function SlotsOf(n: nat, stream: seq<byte>): seq<Slot> { MainRun(n, MAIN_START, stream, 0).slots }

  lemma {:induction false} RelocatedIs(m: Mem, cs: seq<Command>, slide: int, file: seq<byte>, stream: seq<byte>)
    requires WellFormed(cs, file) && Fits(cs, slide) && SlotsInside(cs, SlotsOf(|cs|, stream))
    ensures InTable(|cs|, SlotsOf(|cs|, stream))
    ensures Relocated(m, cs, slide, file, stream) ==
            RebaseAll(MappedMem(m, cs, slide, file), Shifted(StaticSlots(cs, SlotsOf(|cs|, stream)), slide), slide)
  {
    hide MainRun, RebaseAll, MappedMem, Targets;
    TargetsAreShifted(cs, SlotsOf(|cs|, stream), slide);
  }

  lemma {:induction false} ShiftedApart(addrs: seq<int>, slide: int)
    requires SlotsApart(addrs)
    ensures SlotsApart(Shifted(addrs, slide))
  {
  }

  /** Hypotheses of the theorem: the image can be loaded, fits at slide `s`, and the stream's rebase
    * slots lie in mapped segments and do not overlap. */
  predicate Relocatable(cs: seq<Command>, s: int, file: seq<byte>, stream: seq<byte>) {
    && WellFormed(cs, file) && Fits(cs, s) && SlotsInside(cs, SlotsOf(|cs|, stream))
    && InTable(|cs|, SlotsOf(|cs|, stream)) && SlotsApart(StaticSlots(cs, SlotsOf(|cs|, stream)))
  }

  lemma {:induction false} RelocatedParts(m: Mem, cs: seq<Command>, s: int, file: seq<byte>, stream: seq<byte>)
    requires Relocatable(cs, s, file, stream)
    ensures var slots := StaticSlots(cs, SlotsOf(|cs|, stream));
            var f, a := Relocated(m, cs, s, file, stream), MappedMem(m, cs, s, file);
            && (forall i :: 0 <= i < |slots| ==> Load64(f, slots[i] + s) == Wrap(Load64(a, slots[i] + s) + s))
            && (forall x :: !InSlot(Shifted(slots, s), x) ==> Get(f, x) == Get(a, x))
  {
    hide Load64, MappedMem, RebaseAll, Relocated, StaticSlots, Shifted, MainRun;
    var slots := StaticSlots(cs, SlotsOf(|cs|, stream));
    RelocatedIs(m, cs, s, file, stream);
    ShiftedApart(slots, s);
    RebaseMeaning(MappedMem(m, cs, s, file), Shifted(slots, s), s);
    forall i | 0 <= i < |slots|
      ensures Load64(Relocated(m, cs, s, file, stream), slots[i] + s) ==
                Wrap(Load64(MappedMem(m, cs, s, file), slots[i] + s) + s)
    {
      assert Shifted(slots, s)[i] == slots[i] + s;
    }
  }

  /** Loading at slide `s` and rebasing gives the slide-0 image shifted by `s`, from any two prior
    * memories: each rebase slot holds its slide-0 value plus `s` modulo 2^64, every other byte of a
    * mapped segment is its slide-0 byte, and no byte outside the shifted segments is written. */
  lemma {:induction false} RelocationTheorem(m: Mem, z: Mem, cs: seq<Command>, s: int, file: seq<byte>,
                                             stream: seq<byte>)
    requires Relocatable(cs, s, file, stream)
    ensures var slots := StaticSlots(cs, SlotsOf(|cs|, stream));
            var f, g := Relocated(m, cs, s, file, stream), Relocated(z, cs, 0, file, stream);
            && (forall i :: 0 <= i < |slots| ==> Load64(f, slots[i] + s) == Wrap(Load64(g, slots[i]) + s))
            && (forall k, x :: 0 <= k < |cs| && InSegment(cs[k], 0, x) && !InSlot(slots, x) ==>
                  Get(f, x + s) == Get(g, x))
            && (forall x :: (forall k :: 0 <= k < |cs| ==> !InSegment(cs[k], s, x)) ==> Get(f, x) == Get(m, x))
  {
    hide Load64, MappedMem, Relocated, StaticSlots, Shifted, MainRun, InSlot, InSegment, Fits, SlotsInside;
    var slots := StaticSlots(cs, SlotsOf(|cs|, stream));
    var f, g := Relocated(m, cs, s, file, stream), Relocated(z, cs, 0, file, stream);
    FitsUnslid(cs, file);
    RelocatedParts(m, cs, s, file, stream);
    RelocatedParts(z, cs, 0, file, stream);
    forall i | 0 <= i < |slots| ensures Load64(f, slots[i] + s) == Wrap(Load64(g, slots[i]) + s) {
      SlotLoads(m, z, cs, s, file, SlotsOf(|cs|, stream), i);
      assert slots[i] + 0 == slots[i];
    }
    forall k, x | 0 <= k < |cs| && InSegment(cs[k], 0, x) && !InSlot(slots, x) ensures Get(f, x + s) == Get(g, x) {
      NotInShifted(slots, s, x);
      NotInShifted(slots, 0, x);
      SameMapped(m, z, cs, s, file, k, x);
    }
    forall x | forall k :: 0 <= k < |cs| ==> !InSegment(cs[k], s, x) ensures Get(f, x) == Get(m, x) {
      MappedOutside(m, cs, s, file, x);
      OutsideSlots(cs, SlotsOf(|cs|, stream), s, x);
    }
  }

  /** The loaded image itself, from any prior memory: outside the rebase slots every byte of a mapped segment
    * is its file byte, or zero past the file part, and a slot whose bytes come from the file holds the
    * file's word plus the slide. */
  lemma {:induction false} LoadedBytes(m: Mem, cs: seq<Command>, s: int, file: seq<byte>, stream: seq<byte>)
    requires Relocatable(cs, s, file, stream)
    ensures forall k :: 0 <= k < |cs| ==> CommandOk(cs[k], file)
    ensures var f, slots := Relocated(m, cs, s, file, stream), SlotsOf(|cs|, stream);
            && (forall k, x :: 0 <= k < |cs| && InSegment(cs[k], s, x) &&
                               !InSlot(Shifted(StaticSlots(cs, slots), s), x) ==>
                  Get(f, x) == FileByte(cs[k], file, x - s - cs[k].vmaddr))
            && (forall i :: 0 <= i < |slots| && slots[i].off + 8 <= cs[slots[i].seg].filesize ==>
                  Load64(f, cs[slots[i].seg].vmaddr + slots[i].off + s) ==
                    Wrap(FromLE(Window(file, cs[slots[i].seg].fileoff + slots[i].off, 8)) + s))
  {
    hide FromLE, MappedMem, Relocated, MainRun, InSlot, Store, Shifted, StaticSlots, Load64;
    var f, slots := Relocated(m, cs, s, file, stream), SlotsOf(|cs|, stream);
    RelocatedParts(m, cs, s, file, stream);
    forall k, x | 0 <= k < |cs| && InSegment(cs[k], s, x) && !InSlot(Shifted(StaticSlots(cs, slots), s), x)
      ensures Get(f, x) == FileByte(cs[k], file, x - s - cs[k].vmaddr)
    {
      MappedInside(m, cs, s, file, k, x - s - cs[k].vmaddr);
    }
    forall i | 0 <= i < |slots| && slots[i].off + 8 <= cs[slots[i].seg].filesize
      ensures Load64(f, cs[slots[i].seg].vmaddr + slots[i].off + s) ==
                Wrap(FromLE(Window(file, cs[slots[i].seg].fileoff + slots[i].off, 8)) + s)
    {
      MappedWord(m, cs, s, file, slots[i].seg, slots[i].off);
    }
  }

  lemma {:induction false} MappedWord(m: Mem, cs: seq<Command>, s: int, file: seq<byte>, k: nat, o: nat)
    requires WellFormed(cs, file) && Fits(cs, s) && k < |cs| && !cs[k].pagezero
    requires o + 8 <= cs[k].filesize && o + 8 <= cs[k].vmsize
    ensures Load64(MappedMem(m, cs, s, file), cs[k].vmaddr + o + s) == FromLE(Window(file, cs[k].fileoff + o, 8))
  {
    hide FromLE, MappedMem;
    var f, a := MappedMem(m, cs, s, file), cs[k].vmaddr + o + s;
    forall j | 0 <= j < 8 ensures Slice(f, a, 8)[j] == Window(file, cs[k].fileoff + o, 8)[j] {
      MappedInside(m, cs, s, file, k, o + j);
    }
    assert Slice(f, a, 8) == Window(file, cs[k].fileoff + o, 8);
  }

  lemma {:induction false} FitsUnslid(cs: seq<Command>, file: seq<byte>)
    requires WellFormed(cs, file)
    ensures Fits(cs, 0)
  {
  }

  lemma {:induction false} SameMapped(m: Mem, z: Mem, cs: seq<Command>, s: int, file: seq<byte>, k: nat, x: int)
    requires WellFormed(cs, file) && Fits(cs, s) && k < |cs| && InSegment(cs[k], 0, x)
    ensures Get(MappedMem(m, cs, s, file), x + s) == Get(MappedMem(z, cs, 0, file), x)
  {
    hide Contents, MappedMem;
    FitsUnslid(cs, file);
    var o := x - cs[k].vmaddr;
    MappedInside(m, cs, s, file, k, o);
    MappedInside(z, cs, 0, file, k, o);
  }

  lemma {:induction false} SlotLoads(m: Mem, z: Mem, cs: seq<Command>, s: int, file: seq<byte>, slots: seq<Slot>,
                                     i: nat)
    requires WellFormed(cs, file) && Fits(cs, s) && SlotsInside(cs, slots) && InTable(|cs|, slots) && i < |slots|
    ensures var a := StaticSlots(cs, slots)[i];
            Load64(MappedMem(m, cs, s, file), a + s) == Load64(MappedMem(z, cs, 0, file), a)
  {
    hide FromLE, MappedMem, StaticSlots;
    var a := StaticSlots(cs, slots)[i];
    var f, g := MappedMem(m, cs, s, file), MappedMem(z, cs, 0, file);
    forall j | 0 <= j < 8 ensures Slice(f, a + s, 8)[j] == Slice(g, a, 8)[j] {
      SameMapped(m, z, cs, s, file, slots[i].seg, a + j);
    }
    assert Slice(f, a + s, 8) == Slice(g, a, 8);
  }

  lemma {:induction false} NotInShifted(slots: seq<int>, s: int, x: int)
    requires !InSlot(slots, x)
    ensures !InSlot(Shifted(slots, s), x + s)
  {
    assert forall i :: 0 <= i < |slots| ==> Shifted(slots, s)[i] == slots[i] + s;
  }

  lemma {:induction false} OutsideSlots(cs: seq<Command>, slots: seq<Slot>, s: int, x: int)
    requires SlotsInside(cs, slots) && InTable(|cs|, slots)
    requires forall k :: 0 <= k < |cs| ==> !InSegment(cs[k], s, x)
    ensures !InSlot(Shifted(StaticSlots(cs, slots), s), x)
  {
    var t := Shifted(StaticSlots(cs, slots), s);
    forall i | 0 <= i < |t| ensures !(t[i] <= x < t[i] + 8) { assert !InSegment(cs[slots[i].seg], s, x); }
  }

  // ---- choosing the slide ----

  predicate Counted(c: Command) { !c.pagezero && c.vmsize > 0 }

  /** Lowest address and highest end of the mapped segments, starting from UINT64_MAX and 0. */
  function Low(cs: seq<Command>): int {
    if cs == [] then TWO64 - 1
    else if Counted(cs[0]) && cs[0].vmaddr < Low(cs[1..]) then cs[0].vmaddr else Low(cs[1..])
  }

  function High(cs: seq<Command>): int {
    if cs == [] then 0
    else if Counted(cs[0]) && Wrap(cs[0].vmaddr + cs[0].vmsize) > High(cs[1..]) then Wrap(cs[0].vmaddr + cs[0].vmsize)
    else High(cs[1..])
  }

  /** The pre-scan over the load commands. */
  method ScanSpan(cs: seq<Command>) returns (lo: int, hi: int)
    ensures lo == Low(cs) && hi == High(cs)
  {
    lo, hi := TWO64 - 1, 0;
    var i := 0;
    SpanRange(cs);
    while i < |cs|
      invariant 0 <= i <= |cs| && 0 <= hi && lo <= TWO64 - 1
      invariant Low(cs) == if lo < Low(cs[i..]) then lo else Low(cs[i..])
      invariant High(cs) == if hi > High(cs[i..]) then hi else High(cs[i..])
    {
      assert cs[i..][1..] == cs[i + 1..];
      if Counted(cs[i]) {
        if cs[i].vmaddr < lo { lo := cs[i].vmaddr; }
        if Wrap(cs[i].vmaddr + cs[i].vmsize) > hi { hi := Wrap(cs[i].vmaddr + cs[i].vmsize); }
      }
      i := i + 1;
    }
  }

  lemma {:induction false} SpanRange(cs: seq<Command>)
    ensures Low(cs) <= TWO64 - 1 && 0 <= High(cs)
  {
    if cs != [] { SpanRange(cs[1..]); }
  }

  /** The span reaches every non-empty segment but __PAGEZERO and goes no further: its ends are ends of
    * segments, the upper one computed in 64 bits. */
  lemma {:induction false} SpanTight(cs: seq<Command>)
    ensures forall k :: 0 <= k < |cs| && !cs[k].pagezero && cs[k].vmsize > 0 ==>
              Low(cs) <= cs[k].vmaddr && (cs[k].vmaddr + cs[k].vmsize) % 0x1_0000_0000_0000_0000 <= High(cs)
    ensures Low(cs) == 0xFFFF_FFFF_FFFF_FFFF ||
            exists k :: 0 <= k < |cs| && !cs[k].pagezero && cs[k].vmsize > 0 && Low(cs) == cs[k].vmaddr
    ensures High(cs) == 0 ||
            exists k :: 0 <= k < |cs| && !cs[k].pagezero && cs[k].vmsize > 0 &&
              High(cs) == (cs[k].vmaddr + cs[k].vmsize) % 0x1_0000_0000_0000_0000
    decreases |cs|
  {
    if cs != [] {
      var ds := cs[1..];
      SpanTight(ds);
      assert forall k :: 0 <= k < |ds| ==> ds[k] == cs[k + 1];
    }
  }

  lemma {:induction false} SpanBounds(cs: seq<Command>, k: nat)
    requires k < |cs| && Counted(cs[k]) && cs[k].vmaddr + cs[k].vmsize < TWO64
    ensures Low(cs) <= cs[k].vmaddr && cs[k].vmaddr + cs[k].vmsize <= High(cs)
    decreases |cs|
  {
    if k > 0 { SpanBounds(cs[1..], k - 1); }
  }

  /** Whatever region the kernel reserved for the span, the slide it gives moves every mapped segment
    * into that region, so the theorem applies and nothing outside the region is written. */
  lemma {:induction false} ReservedRegion(m: Mem, z: Mem, cs: seq<Command>, base: nat, file: seq<byte>,
                                          stream: seq<byte>)
    requires WellFormed(cs, file) && (forall i :: 0 <= i < |cs| && !cs[i].pagezero ==>
              cs[i].vmaddr + cs[i].vmsize < TWO64)
    requires base + (High(cs) - Low(cs)) <= TWO64
    requires SlotsInside(cs, SlotsOf(|cs|, stream)) && InTable(|cs|, SlotsOf(|cs|, stream))
    requires SlotsApart(StaticSlots(cs, SlotsOf(|cs|, stream)))
    ensures var slide := base - Low(cs);
            && Relocatable(cs, slide, file, stream)
            && (forall k, x :: 0 <= k < |cs| && InSegment(cs[k], slide, x) ==> base <= x < base + (High(cs) - Low(cs)))
            && (forall x :: !(base <= x < base + (High(cs) - Low(cs))) ==>
                  Get(Relocated(m, cs, slide, file, stream), x) == Get(m, x))
  {
    hide Low, High, MainRun, StaticSlots, Relocated, MappedMem;
    var slide := base - Low(cs);
    forall k | 0 <= k < |cs| && !cs[k].pagezero
      ensures Low(cs) <= cs[k].vmaddr && cs[k].vmaddr + cs[k].vmsize <= High(cs)
    {
      assert CommandOk(cs[k], file);
      SpanBounds(cs, k);
    }
    RelocationTheorem(m, z, cs, slide, file, stream);
  }

  // ---- mapping as it runs ----

  class Loader {
    var mem: Mem
    var segments: seq<Loaded>
    var sections: seq<Section>

    constructor (m: Mem)
      ensures mem == m && segments == [] && sections == []
    {
      mem, segments, sections := m, [], [];
    }

    function AsSpace(): Space
      reads this
    {
      Space(mem, segments, sections)
    }

    /** map_segment: copy the file part, zero the rest, record the segment and its sections. */
    method MapSegment(c: Command, slide: int, file: seq<byte>) returns (rc: int)
      modifies this
      ensures (rc, AsSpace()) == Map(old(AsSpace()), c, slide, file)
    {
      hide Store;
      if |segments| >= MAX_SEGMENTS { return -1; }
      if c.vmsize == 0 { return 0; }
      if c.pagezero {
        segments := segments + [Loaded(c.vmaddr, c.vmsize, true)];
        return 0;
      }
      var slid := SlidAddr(c, slide);
      if c.filesize > 0 && Wrap(c.fileoff + c.filesize) > |file| { return -1; }
      var bytes := Window(file, c.fileoff, c.filesize);
      var zeros := Zeros(if c.vmsize > c.filesize then c.vmsize - c.filesize else 0);
      StoreConcat(mem, slid, bytes, zeros);
      mem := Store(mem, slid, bytes);
      mem := Store(mem, slid + |bytes|, zeros);
      segments := segments + [Loaded(slid, c.vmsize, false)];
      rc := RecordSections(c.sections, slide);
    }

    method RecordSections(ss: seq<Section>, slide: int) returns (rc: int)
      modifies this`sections
      ensures (rc, sections) == AddSections(old(sections), ss, slide)
    {
      var i := 0;
      while i < |ss|
        invariant 0 <= i <= |ss|
        invariant AddSections(old(sections), ss, slide) == AddSections(sections, ss[i..], slide)
      {
        if |sections| >= MAX_SECTIONS { return -1; }
        assert ss[i..][1..] == ss[i + 1..];
        sections := sections + [SlidSection(ss[i], slide)];
        i := i + 1;
      }
      rc := 0;
    }

    method MapImage(cs: seq<Command>, slide: int, file: seq<byte>) returns (rc: int)
      modifies this
      ensures (rc, AsSpace()) == MapAll(old(AsSpace()), cs, slide, file)
    {
      hide Map;
      var i := 0;
      while i < |cs|
        invariant 0 <= i <= |cs|
        invariant MapAll(old(AsSpace()), cs, slide, file) == MapAll(AsSpace(), cs[i..], slide, file)
      {
        assert cs[i..][1..] == cs[i + 1..];
        rc := MapSegment(cs[i], slide, file);
        if rc != 0 { return; }
        i := i + 1;
      }
      rc := 0;
    }
  }

  /** The addresses that the passes after mapping see. */
  function SegmentAddresses(segments: seq<Loaded>): (r: seq<u64>)
    ensures |r| == |segments| && forall i :: 0 <= i < |segments| ==> r[i] == segments[i].vmaddr
  {
    seq<u64>(|segments|, i requires 0 <= i < |segments| => segments[i].vmaddr)
  }

  /** Room in both tables. */
  predicate TablesHold(cs: seq<Command>, slide: int) {
    |cs| <= MAX_SEGMENTS && |RecordedSections(cs, slide)| <= MAX_SECTIONS
  }

  /** The whole load as it runs: map every segment, then rebase over the segments that were recorded. On
    * a relocatable image the result is the memory that the theorem is about. */
  method LoadImage(m: Mem, cs: seq<Command>, slide: int, file: seq<byte>, off: u32, size: u32)
    returns (rc: int, mem: Mem)
    ensures var (a, sp) := MapAll(Space(m, [], []), cs, slide, file);
            (rc, mem) == if a != 0 then (a, sp.mem) else MainRange(sp.mem, SegmentAddresses(sp.segments), slide,
                file, off, size)
    ensures Relocatable(cs, slide, file, Window(file, off, size)) && TablesHold(cs, slide) &&
            size != 0 && !PastEnd(off, size, |file|) ==>
              && mem == Relocated(m, cs, slide, file, Window(file, off, size))
              && rc == MainRun(|cs|, MAIN_START, Window(file, off, size), 0).rc
              && (forall k, x :: 0 <= k < |cs| && InSegment(cs[k], slide, x) &&
                                 !InSlot(Shifted(StaticSlots(cs, SlotsOf(|cs|, Window(file, off, size))), slide), x) ==>
                    Get(mem, x) == FileByte(cs[k], file, x - slide - cs[k].vmaddr))
  {
    hide Map, MapAll, MainRun, MainMemory, MappedMem, Relocatable, RecordedSections, Window, Relocated, FileByte;
    var loader := new Loader(m);
    rc := loader.MapImage(cs, slide, file);
    if Relocatable(cs, slide, file, Window(file, off, size)) && TablesHold(cs, slide) {
      RelocatableMaps(m, cs, slide, file, Window(file, off, size));
      LoadedBytes(m, cs, slide, file, Window(file, off, size));
      RelocatedUnfold(m, cs, slide, file, Window(file, off, size));
    }
    if rc != 0 { return rc, loader.mem; }
    var pass := new Pass(loader.mem);
    rc := pass.ExecuteRebases(SegmentAddresses(loader.segments), slide, file, off, size);
    mem := pass.mem;
  }

  lemma {:induction false} RelocatableMaps(m: Mem, cs: seq<Command>, slide: int, file: seq<byte>, stream: seq<byte>)
    requires Relocatable(cs, slide, file, stream) && TablesHold(cs, slide)
    ensures forall i :: 0 <= i < |cs| ==> CommandOk(cs[i], file)
    ensures var (rc, sp) := MapAll(Space(m, [], []), cs, slide, file);
            rc == 0 && sp.mem == MappedMem(m, cs, slide, file) && SegmentAddresses(sp.segments) == Addresses(cs, slide)
  {
    hide MapAll, MappedMem, MainRun, RecordedSections, Fits, SlotsInside, InTable, SlotsApart, CommandOk;
    MapsFrom(m, cs, slide, file);
  }

  lemma {:induction false} MapsFrom(m: Mem, cs: seq<Command>, slide: int, file: seq<byte>)
    requires (forall i :: 0 <= i < |cs| ==> CommandOk(cs[i], file)) && TablesHold(cs, slide)
    ensures var (rc, sp) := MapAll(Space(m, [], []), cs, slide, file);
            rc == 0 && sp.mem == MappedMem(m, cs, slide, file) && SegmentAddresses(sp.segments) == Addresses(cs, slide)
  {
    hide MapAll, MappedMem, RecordedSections, CommandOk, SlidAddr;
    MapAllSucceeds(Space(m, [], []), cs, slide, file);
    assert [] + Recorded(cs, slide) == Recorded(cs, slide);
    RecordedAddresses(cs, slide);
  }
}
