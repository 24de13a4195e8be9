/** When the two chain walkers agree with each other, and with the published entry layout. */
module ChainAgree {
  import opened Memory
  import opened Options
  import opened ChainWalk

  /** Bits 16-31 of a bind entry and bits 36-50 of a rebase entry are where the two decoders differ. */
  predicate BindBitsClear(v: u64) { v / 0x1_0000 % 0x1_0000 == 0 }

  predicate RebaseBitsClear(v: u64) { v / 0x10_0000_0000 % 0x8000 == 0 }

  /** Every import resolves to the same address in the library it names and in all of them. */
  predicate FlatImports(l: Linker) {
    forall i :: 0 <= i < |l.imports| ==> MainResolve(l, l.imports[i]) == l.resolve(-1, ImportName(l, l.imports[i]))
  }

  // ---- rebase entries ----

  /** The two rebase formulas agree, for every load base, exactly when bits 36-50 are all zero. */
  lemma {:induction false} RebaseAgreesIff(l: Linker, base: u64, v: u64)
    requires !IsBind(v)
    ensures MainImage(l, base).Fix(v) == Dylib(l, base).Fix(v) <==> RebaseBitsClear(v)
  {
    var low, x := v % 0x10_0000_0000, v / 0x10_0000_0000 % 0x8000;
    assert MainImage(l, base).Offset(v) == x % 256 * 0x800_0000_0000 + low by { MainOffset(v); }
    assert Dylib(l, base).Offset(v) == x * 0x10_0000_0000 + low by { DylibOffset(v); }
    assert x % 256 * 0x800_0000_0000 == x * 0x10_0000_0000 <==> x == 0 by { OnlyZero(x); }
    WrapInjective(x % 256 * 0x800_0000_0000 + low, x * 0x10_0000_0000 + low, base);
  }

  lemma {:induction false} MainOffset(v: u64)
    ensures v / 0x10_0000_0000 % 256 == v / 0x10_0000_0000 % 0x8000 % 256
  {
    var h := v / 0x10_0000_0000;
    DivModUnique(h, 256, 128 * (h / 0x8000) + h % 0x8000 / 256, h % 0x8000 % 256);
  }

  lemma {:induction false} DylibOffset(v: u64)
    requires v < TWO63
    ensures v / 0x800_0000_0000 % 256 * 0x800_0000_0000 + v % 0x800_0000_0000 ==
            v / 0x10_0000_0000 % 0x8000 * 0x10_0000_0000 + v % 0x10_0000_0000
  {
    var low, h := v % 0x10_0000_0000, v / 0x10_0000_0000;
    var q, r := h / 128, h % 128;
    DivModUnique(v, 0x800_0000_0000, q, 0x10_0000_0000 * r + low);
    DivModUnique(h, 0x8000, q / 256, 128 * (q % 256) + r);
  }

  lemma {:induction false} OnlyZero(x: nat)
    requires x < 0x8000
    ensures x % 256 * 128 == x <==> x == 0
  {
  }

  lemma {:induction false} WrapInjective(a: nat, b: nat, base: u64)
    requires a < TWO63 && b < TWO63
    ensures Wrap(a + base) == Wrap(b + base) <==> a == b
  {
  }

  // ---- bind entries ----

  /** The same linker with a resolver that finds every symbol at one address. */
  function Constant(l: Linker, address: u64): Linker {
    l.(resolve := (lib, name) => address)
  }

  /** The bind decoders agree under every such resolver exactly when bits 16-31 are zero, or the
    * entry is out of range for both and is left alone. */
  lemma {:induction false} BindAgreesIff(l: Linker, base: u64, v: u64)
    requires IsBind(v)
    ensures (forall address: u64 ::
               MainImage(Constant(l, address), base).Fix(v) == Dylib(Constant(l, address), base).Fix(v))
            <==> BindBitsClear(v) || v % 0x1_0000 >= |l.imports|
  {
    hide Walker.Fix, BindBitsClear;
    if BindBitsClear(v) || v % 0x1_0000 >= |l.imports| {
      forall address: u64
        ensures MainImage(Constant(l, address), base).Fix(v) == Dylib(Constant(l, address), base).Fix(v)
      {
        BindSame(l, base, v, address);
      }
    } else {
      BindDiffers(l, base, v);
    }
  }

  lemma {:induction false} BindSame(l: Linker, base: u64, v: u64, address: u64)
    requires IsBind(v) && (BindBitsClear(v) || v % 0x1_0000 >= |l.imports|)
    ensures MainImage(Constant(l, address), base).Fix(v) == Dylib(Constant(l, address), base).Fix(v)
  {
    hide ImportName;
    BindFields(v, v % 0x1_0000, v / 0x1_0000 % 256, v / 0x100_0000 % 256);
  }

  /** Where every symbol is at address 1, the two decoders store different words. */
  lemma {:induction false} BindDiffers(l: Linker, base: u64, v: u64)
    requires IsBind(v) && !BindBitsClear(v) && v % 0x1_0000 < |l.imports|
    ensures MainImage(Constant(l, 1), base).Fix(v) != Dylib(Constant(l, 1), base).Fix(v)
  {
    hide ImportName;
    BindFields(v, v % 0x1_0000, v / 0x1_0000 % 256, v / 0x100_0000 % 256);
  }

  lemma {:induction false} BindFields(v: u64, o: nat, b: nat, a: nat)
    requires o == v % 0x1_0000 && b == v / 0x1_0000 % 256 && a == v / 0x100_0000 % 256
    ensures v % 0x100_0000 == o + 0x1_0000 * b
    ensures v / 0x1_0000 % 0x1_0000 == b + 256 * a
  {
    var q1 := v / 0x1_0000;
    var q2 := q1 / 256;
    var q3 := q2 / 256;
    DivModUnique(v, 0x100_0000, q2, 0x1_0000 * b + o);
    DivModUnique(q1, 0x1_0000, q3, 256 * a + b);
  }

  // ---- whole images ----

  /** An entry that both decoders read alike. */
  predicate Common(v: u64) {
    if IsBind(v) then BindBitsClear(v) else RebaseBitsClear(v)
  }

  predicate AllCommon(es: seq<Entry>) { forall i :: 0 <= i < |es| ==> Common(es[i].value) }

  lemma {:induction false} FixAgrees(l: Linker, base: u64, v: u64)
    requires FlatImports(l) && Common(v)
    ensures MainImage(l, base).Fix(v) == Dylib(l, base).Fix(v)
  {
    if IsBind(v) {
      BindFields(v, v % 0x1_0000, v / 0x1_0000 % 256, v / 0x100_0000 % 256);
      hide MainResolve, ImportName;
    } else {
      RebaseAgreesIff(l, base, v);
    }
  }

  lemma {:induction false} CommonConcat(a: seq<Entry>, b: seq<Entry>)
    requires AllCommon(a + b)
    ensures AllCommon(a) && AllCommon(b)
  {
    hide Common;
    assert forall i :: 0 <= i < |a| ==> a[i] == (a + b)[i];
    assert forall i :: 0 <= i < |b| ==> b[i] == (a + b)[|a| + i];
  }

  /** One chain, whatever its `next` fields: the two walks agree when every entry that is read in
    * place is one both decoders read alike. */
  lemma {:induction false} ChainAgrees(l: Linker, base: u64, m: Mem, p: int, end: int, iter: nat)
    requires FlatImports(l) && p + 8 <= end && AllCommon(Reads(Dylib(l, base), m, p, end))
    ensures Walk(MainImage(l, base), m, p, end, iter) == Walk(Dylib(l, base), m, p, end, iter)
    decreases end - p
  {
    hide Load64, Next, Walker.Fix, Put, Common, FlatImports;
    var d, v := Dylib(l, base), Load64(m, p);
    assert Reads(d, m, p, end)[0] == Entry(p, v);
    FixAgrees(l, base, v);
    if !Stops(v, p, end) {
      var m', q := Put(m, p, d.Fix(v)), p + 4 * Next(v);
      CommonConcat([Entry(p, v)], Reads(d, m', q, end));
      ChainAgrees(l, base, m', q, end, iter + 1);
    }
  }

  lemma {:induction false} PagesAgree(l: Linker, base: u64, m: Mem, start: int, segEnd: int, pageSize: u16,
                                      pages: seq<u16>)
    requires FlatImports(l) && AllCommon(PagesReads(Dylib(l, base), m, start, segEnd, pageSize, pages))
    ensures WalkPages(MainImage(l, base), m, start, segEnd, pageSize, pages) ==
            WalkPages(Dylib(l, base), m, start, segEnd, pageSize, pages)
    decreases |pages|
  {
    hide Walk, Reads, AllCommon, FlatImports;
    if pages != [] {
      var d := Dylib(l, base);
      var m' := WalkPage(d, m, start, segEnd, pageSize, pages[0]);
      CommonConcat(PageReads(d, m, start, segEnd, pageSize, pages[0]),
                   PagesReads(d, m', start + pageSize, segEnd, pageSize, pages[1..]));
      if HasChain(start, segEnd, pageSize, pages[0]) {
        ChainAgrees(l, base, m, start + pages[0], Min(start + pageSize, segEnd), 0);
      }
      PagesAgree(l, base, m', start + pageSize, segEnd, pageSize, pages[1..]);
    }
  }

  /** No segment that is reached has a format the main image refuses. */
  predicate AllSupported(segs: seq<Segment>, starts: seq<Option<Starts>>) {
    forall i :: 0 <= i < |starts| && i < |segs| && starts[i].Some? ==>
      starts[i].value.format == PTR_64 || starts[i].value.format == PTR_64_OFFSET
  }

  /** Given the same load base and imports that resolve alike, the two implementations return 0 and
    * leave identical memory on every image, whatever its chains and segments, in which every bind that
    * is read has ordinal below 2^16 and no addend and every rebase has bits 36-50 zero. */
  lemma {:induction false} WalkersAgree(l: Linker, base: u64, m: Mem, segs: seq<Segment>, starts: seq<Option<Starts>>)
    requires FlatImports(l) && AllSupported(segs, starts)
    requires AllCommon(ImageReads(Dylib(l, base), m, segs, starts))
    ensures WalkImage(MainImage(l, base), m, segs, starts) == WalkImage(Dylib(l, base), m, segs, starts)
    ensures WalkImage(MainImage(l, base), m, segs, starts).0 == 0
    decreases |segs|
  {
    hide WalkPages, PagesReads, AllCommon, FlatImports;
    if segs != [] && starts != [] {
      assert forall i :: 0 <= i < |starts[1..]| ==> starts[1..][i] == starts[i + 1];
      if starts[0].None? {
        WalkersAgree(l, base, m, segs[1..], starts[1..]);
      } else {
        var d, seg, s := Dylib(l, base), segs[0], starts[0].value;
        var m' := WalkSegment(d, m, seg, s);
        CommonConcat(SegmentReads(d, m, seg, s), ImageReads(d, m', segs[1..], starts[1..]));
        PagesAgree(l, base, m, seg.vmaddr, seg.vmaddr + seg.vmsize, s.pageSize, s.pages);
        WalkersAgree(l, base, m', segs[1..], starts[1..]);
      }
    }
  }

  // ---- the published layout (dyld_chained_ptr_64_rebase and dyld_chained_ptr_64_bind) ----

  function PackRebase(target: nat, high8: nat, next: nat): (v: u64)
    requires target < 0x10_0000_0000 && high8 < 256 && next < 4096
  {
    target + 0x10_0000_0000 * high8 + 0x8_0000_0000_0000 * next
  }

  function PackBind(ordinal: nat, addend: nat, next: nat): (v: u64)
    requires ordinal < 0x100_0000 && addend < 256 && next < 4096
  {
    ordinal + 0x100_0000 * addend + 0x8_0000_0000_0000 * next + TWO63
  }

  /** PTR_64_OFFSET asks for `high8` in the top byte of the pointer; the code puts it at bit 43. The
    * main walker produces the pointer the layout asks for exactly when `high8` is zero. */
  lemma {:induction false} RebaseLayoutIff(l: Linker, base: u64, target: nat, high8: nat, next: nat)
    requires target < 0x10_0000_0000 && high8 < 256 && next < 4096
    ensures Next(PackRebase(target, high8, next)) == next && !IsBind(PackRebase(target, high8, next))
    ensures MainImage(l, base).Fix(PackRebase(target, high8, next)) ==
            Some(Wrap(high8 * 0x800_0000_0000 + target + base))
    ensures (MainImage(l, base).Fix(PackRebase(target, high8, next)) ==
             Some(Wrap(high8 * 0x100_0000_0000_0000 + target + base))) <==> high8 == 0
  {
    RebaseFields(target, high8, next);
    hide PackRebase, Wrap;
    TopByteDiffers(high8, target + base);
    assert MainImage(l, base).Offset(PackRebase(target, high8, next)) == high8 * 0x800_0000_0000 + target;
  }

  /** PTR_64 targets are addresses in the file, so the word the layout wants is moved by the slide, the
    * difference between the load base and its static address; the code adds the whole load base. The
    * two agree exactly when the static base makes up for it: for `high8` zero, when it is zero. */
  lemma {:induction false} RebaseLayout64Iff(l: Linker, base: u64, staticBase: u64, target: nat, high8: nat, next: nat)
    requires target < 0x10_0000_0000 && high8 < 256 && next < 4096
    ensures var v := PackRebase(target, high8, next);
            var asked := Wrap(high8 * 0x100_0000_0000_0000 + target + (base - staticBase));
            && (MainImage(l, base).Fix(v) == Some(asked) <==> staticBase == high8 * 0xFF_F800_0000_0000)
            && (high8 == 0 ==> (MainImage(l, base).Fix(v) == Some(asked) <==> staticBase == 0))
  {
    RebaseFields(target, high8, next);
    hide PackRebase;
    assert MainImage(l, base).Offset(PackRebase(target, high8, next)) == high8 * 0x800_0000_0000 + target;
    SameModulo(high8 * 0x800_0000_0000 + target + base, high8 * 0xFF_F800_0000_0000, staticBase);
  }

  lemma {:induction false} SameModulo(x: int, d: u64, s: u64)
    ensures Wrap(x) == Wrap(x + d - s) <==> s == d
  {
  }

  lemma {:induction false} RebaseFields(target: nat, high8: nat, next: nat)
    requires target < 0x10_0000_0000 && high8 < 256 && next < 4096
    ensures var v := PackRebase(target, high8, next);
            && v / 0x8_0000_0000_0000 == next && v < TWO63
            && v / 0x10_0000_0000 % 256 == high8 && v % 0x10_0000_0000 == target
  {
    var v := PackRebase(target, high8, next);
    var h := high8 + 0x8000 * next;
    DivModUnique(v, 0x10_0000_0000, h, target);
    DivModUnique(h, 256, 128 * next, high8);
    DivModUnique(v, 0x8_0000_0000_0000, next, 0x10_0000_0000 * high8 + target);
  }

  lemma {:induction false} TopByteDiffers(h: nat, x: nat)
    requires h < 256
    ensures Wrap(h * 0x800_0000_0000 + x) == Wrap(h * 0x100_0000_0000_0000 + x) <==> h == 0
  {
    var a, b := h * 0x800_0000_0000 + x, h * 0x100_0000_0000_0000 + x;
    var d := h * 0xFF_F800_0000_0000;
    assert b - a == d;
    if h != 0 && Wrap(a) == Wrap(b) {
      var k := b / 0x1_0000_0000_0000_0000 - a / 0x1_0000_0000_0000_0000;
      assert d == k * 0x1_0000_0000_0000_0000;
      assert h * 0x1FFF == k * 0x20_0000;
      MultipleOfPow21(h, k);
    }
  }

  lemma {:induction false} MultipleOfPow21(h: nat, k: int)
    requires h < 256 && h * 0x1FFF == k * 0x20_0000
    ensures h == 0
  {
  }

  /** A DYLD_CHAINED_IMPORT word: library, weak flag, offset of the name. */
  function PackImport(lib: nat, weak: nat, nameOff: nat): nat
    requires lib < 256 && weak < 2 && nameOff < 0x80_0000
  {
    lib + 256 * weak + 512 * nameOff
  }

  /** The name without one leading underscore. */
  function HostName(name: seq<byte>): seq<byte> {
    if |name| > 0 && name[0] == 0x5F then name[1..] else name
  }

  lemma {:induction false} ImportFields(l: Linker, lib: nat, weak: nat, nameOff: nat)
    requires lib < 256 && weak < 2 && nameOff < 0x80_0000
    ensures var raw := PackImport(lib, weak, nameOff);
            && ImportName(l, raw) == HostName(l.nameAt(nameOff))
            && MainResolve(l, raw) ==
               l.resolve(if lib == 0 || lib >= 0xFB then -1 else lib - 1, HostName(l.nameAt(nameOff)))
  {
    var raw := PackImport(lib, weak, nameOff);
    DivModUnique(raw, 256, weak + 2 * nameOff, lib);
    DivModUnique(raw, 512, nameOff, lib + 256 * weak);
  }

  /** A bind entry packed as the header says, with the import word that it names: the main walker stores
    * the symbol, looked up in its library or in all of them, or the stub, plus the addend. */
  lemma {:induction false} BindLayout(l: Linker, base: u64, ordinal: nat, addend: nat, next: nat,
                                      lib: nat, weak: nat, nameOff: nat)
    requires ordinal < 0x100_0000 && addend < 256 && next < 4096 && lib < 256 && weak < 2 && nameOff < 0x80_0000
    requires ordinal < |l.imports| ==> l.imports[ordinal] == PackImport(lib, weak, nameOff)
    ensures var v := PackBind(ordinal, addend, next);
            var a := l.resolve(if lib == 0 || lib >= 0xFB then -1 else lib - 1, HostName(l.nameAt(nameOff)));
            && Next(v) == next && IsBind(v)
            && MainImage(l, base).Fix(v) ==
               if ordinal >= |l.imports| then None else Some(Wrap((if a != 0 then a else l.stub) + addend))
  {
    PackedBind(ordinal, addend, next);
    ImportFields(l, lib, weak, nameOff);
    hide PackBind, ImportName, MainResolve, PackImport, HostName;
  }

  lemma {:induction false} PackedBind(ordinal: nat, addend: nat, next: nat)
    requires ordinal < 0x100_0000 && addend < 256 && next < 4096
    ensures var v := PackBind(ordinal, addend, next);
            Next(v) == next && v >= TWO63 && v % 0x100_0000 == ordinal && v / 0x100_0000 % 256 == addend
  {
    var v := PackBind(ordinal, addend, next);
    var h := addend + 0x800_0000 * next + 0x80_0000_0000;
    DivModUnique(v, 0x100_0000, h, ordinal);
    DivModUnique(h, 256, 0x8_0000 * next + 0x8000_0000, addend);
    DivModUnique(v, 0x8_0000_0000_0000, next + 4096, 0x100_0000 * addend + ordinal);
  }

  // ---- the layout that the dylib walker reads ----

  function DylibBindEntry(ordinal: nat, addend: nat, next: nat): (v: u64)
    requires ordinal < 0x1_0000 && addend < 0x1_0000 && next < 4096
  {
    ordinal + 0x1_0000 * addend + 0x8_0000_0000_0000 * next + TWO63
  }

  function DylibRebaseEntry(target: nat, high8: nat, next: nat): (v: u64)
    requires target < 0x800_0000_0000 && high8 < 256 && next < 4096
  {
    target + 0x800_0000_0000 * high8 + 0x8_0000_0000_0000 * next
  }

  /** 16-bit ordinal, 16-bit addend: the dylib walker stores the symbol, looked up in all libraries, plus
    * the addend, or the bare stub. */
  lemma {:induction false} DylibBindLayout(l: Linker, base: u64, ordinal: nat, addend: nat, next: nat,
                                           lib: nat, weak: nat, nameOff: nat)
    requires ordinal < 0x1_0000 && addend < 0x1_0000 && next < 4096 && lib < 256 && weak < 2 && nameOff < 0x80_0000
    requires ordinal < |l.imports| ==> l.imports[ordinal] == PackImport(lib, weak, nameOff)
    ensures var v := DylibBindEntry(ordinal, addend, next);
            var a := l.resolve(-1, HostName(l.nameAt(nameOff)));
            && Next(v) == next && IsBind(v)
            && Dylib(l, base).Fix(v) ==
               if ordinal >= |l.imports| then None else Some(if a != 0 then Wrap(a + addend) else l.stub)
  {
    var v := DylibBindEntry(ordinal, addend, next);
    var h := addend + 0x8_0000_0000 * next + 0x8000_0000_0000;
    DivModUnique(v, 0x1_0000, h, ordinal);
    DivModUnique(h, 0x1_0000, 0x8_0000 * next + 0x8000_0000, addend);
    DivModUnique(v, 0x8_0000_0000_0000, next + 4096, 0x1_0000 * addend + ordinal);
    ImportFields(l, lib, weak, nameOff);
    hide ImportName, MainResolve, PackImport, HostName;
  }

  /** 43-bit target and the eight bits above it, moved by the load base. */
  lemma {:induction false} DylibRebaseLayout(l: Linker, base: u64, target: nat, high8: nat, next: nat)
    requires target < 0x800_0000_0000 && high8 < 256 && next < 4096
    ensures var v := DylibRebaseEntry(target, high8, next);
            && Next(v) == next && !IsBind(v)
            && Dylib(l, base).Fix(v) == Some(Wrap(high8 * 0x800_0000_0000 + target + base))
  {
    var v := DylibRebaseEntry(target, high8, next);
    var h := high8 + 256 * next;
    DivModUnique(v, 0x800_0000_0000, h, target);
    DivModUnique(h, 256, next, high8);
    DivModUnique(v, 0x8_0000_0000_0000, next, 0x800_0000_0000 * high8 + target);
  }
}
