/** The loader's bind passes over a file, and the generator whose bytecode they execute. */
module BindLoader {
  import opened Memory
  import opened Leb
  import opened Symbols
  import opened Bind

  // ---- the generator ----

  /** One requested binding: symbol, dylib ordinal, and where the pointer goes. */
  datatype Entry = Entry(name: seq<byte>, ordinal: int, segment: int, offset: u64)

  function Bytecode(e: Entry): seq<byte> {
    [0x10 + e.ordinal % 16, 0x40] + e.name + [0] + [0x50 + 1, 0x70 + e.segment % 16] + EncodeUleb(e.offset) + [0x90,
        0x00]
  }

  function Concatenated(es: seq<Entry>): seq<byte> {
    if es == [] then [] else Bytecode(es[0]) + Concatenated(es[1..])
  }

  function EntryOps(e: Entry): seq<Op> {
    [SetOrdinalImm(e.ordinal % 16), SetSymbol(e.name), SetType(TYPE_POINTER), SetSegmentOffset(e.segment % 16,
        e.offset),
     DoBind, Done]
  }

  function AllOps(es: seq<Entry>): seq<Op> {
    if es == [] then [] else EntryOps(es[0]) + AllOps(es[1..])
  }

  predicate CName(name: seq<byte>) { forall i :: 0 <= i < |name| ==> name[i] != 0 }

  predicate CNames(es: seq<Entry>) { forall i :: 0 <= i < |es| ==> CName(es[i].name) }

  lemma {:induction false} BytecodeIsAssembly(e: Entry)
    ensures Bytecode(e) == AssembleAll(EntryOps(e))
  {
    hide AssembleAll, EncodeUleb;
    Flatten(0x10 + e.ordinal % 16, e.name, 0x70 + e.segment % 16, EncodeUleb(e.offset));
    var a, b, c, d, f, g := SetOrdinalImm(e.ordinal % 16), SetSymbol(e.name), SetType(TYPE_POINTER),
      SetSegmentOffset(e.segment % 16, e.offset), DoBind, Done;
    EmptyAssembly();
    AssembleCons(g, []);
    AssembleCons(f, [g]);
    AssembleCons(d, [f] + [g]);
    AssembleCons(c, [d] + ([f] + [g]));
    AssembleCons(b, [c] + ([d] + ([f] + [g])));
    AssembleCons(a, [b] + ([c] + ([d] + ([f] + [g]))));
    assert EntryOps(e) == [a] + ([b] + ([c] + ([d] + ([f] + [g]))));
    assert [g] + [] == [g];
  }

  lemma {:induction false} Flatten(x: byte, name: seq<byte>, y: byte, uleb: seq<byte>)
    ensures [x] + (([0x40] + name + [0]) + ([0x50 + 1] + (([y] + uleb) + ([0x90] + [0x00])))) ==
            [x, 0x40] + name + [0] + [0x50 + 1, y] + uleb + [0x90, 0x00]
  {
  }

  lemma {:induction false} AssembleCons(op: Op, rest: seq<Op>)
    ensures AssembleAll([op] + rest) == Assemble(op) + AssembleAll(rest)
  {
    hide Assemble;
    assert ([op] + rest)[1..] == rest;
  }

  lemma {:induction false} AssembleConcat(a: seq<Op>, b: seq<Op>)
    ensures AssembleAll(a + b) == AssembleAll(a) + AssembleAll(b)
  {
    hide Assemble;
    if a == [] {
      assert a + b == b;
    } else {
      assert (a + b)[1..] == a[1..] + b;
      AssembleConcat(a[1..], b);
    }
  }

  lemma {:induction false} ConcatenatedIsAssembly(es: seq<Entry>)
    requires CNames(es)
    ensures Concatenated(es) == AssembleAll(AllOps(es)) && AllValid(AllOps(es))
  {
    hide Bytecode, EntryOps, AssembleAll;
    if es == [] {
      assert AssembleAll([]) == [] by { EmptyAssembly(); }
    } else {
      BytecodeIsAssembly(es[0]);
      ConcatenatedIsAssembly(es[1..]);
      AssembleConcat(EntryOps(es[0]), AllOps(es[1..]));
      EntryOpsValid(es[0]);
    }
  }

  lemma {:induction false} EmptyAssembly()
    ensures AssembleAll([]) == []
  {
  }

  lemma {:induction false} EntryOpsValid(e: Entry)
    requires CName(e.name)
    ensures AllValid(EntryOps(e))
  {
  }

  // ---- what the requests mean ----

  function Truncated(name: seq<byte>): seq<byte> { if |name| <= NAME_LIMIT then name else name[..NAME_LIMIT] }

  /** The four-bit fields of the encoding keep only the low bits of ordinal and segment. */
  function Masked(e: Entry): Entry { e.(ordinal := e.ordinal % 16, segment := e.segment % 16) }

  predicate Bindable(img: Image, e: Entry) { 1 <= e.ordinal <= img.ndylibs && 0 <= e.segment < |img.segments| }

  /** The pointer a request asks to be stored. */
  function Pointer(img: Image, e: Entry): u64 {
    var a := img.resolve(e.ordinal - 1, StripUnderscore(Truncated(e.name)));
    if a != 0 then a else img.stub
  }

  function WriteEntry(img: Image, mem: Mem, e: Entry): Mem
    requires Bindable(img, e)
  {
    Store64(mem, Wrap(img.segments[e.segment] + e.offset), Pointer(img, e))
  }

  /** Carrying out requests in order, stopping with -1 at the first that cannot be bound. */
  function CarryOut(img: Image, mem: Mem, es: seq<Entry>): (int, Mem)
    decreases |es|
  {
    if es == [] then (0, mem)
    else if !Bindable(img, es[0]) then (-1, mem)
    else CarryOut(img, WriteEntry(img, mem, es[0]), es[1..])
  }

  function MaskAll(es: seq<Entry>): (r: seq<Entry>)
    ensures |r| == |es| && forall i :: 0 <= i < |es| ==> r[i] == Masked(es[i])
  {
    if es == [] then [] else [Masked(es[0])] + MaskAll(es[1..])
  }

  /** One request's six instructions. */
  lemma {:induction false} EntryRun(img: Image, m: Machine, e: Entry, rest: seq<Op>) returns (m': Machine)
    requires m.st.addend == 0
    ensures m'.st.addend == 0
    ensures !Bindable(img, Masked(e)) ==>
              var r := RunOps(img, m, EntryOps(e) + rest); r.0 == -1 && r.1.mem == m.mem
    ensures Bindable(img, Masked(e)) ==>
              && m'.mem == WriteEntry(img, m.mem, Masked(e))
              && RunOps(img, m, EntryOps(e) + rest) == if rest == [] then (0, m') else RunOps(img, m', rest)
  {
    hide Store64;
    var st1 := m.st.(ordinal := e.ordinal % 16, symbol := Truncated(e.name), typ := TYPE_POINTER,
                     segIndex := e.segment % 16, segOffset := e.offset);
    FourSets(img, m, e, rest);
    var m1 := m.(st := st1);
    var two := [DoBind, Done] + rest;
    assert two[1..] == [Done] + rest && ([Done] + rest)[1..] == rest;
    if Bindable(img, Masked(e)) {
      var m2 := Advance(WritePointer(img, m1), 8);
      assert BindHere(img, m1) == Running(m2);
      assert m2.mem == WriteEntry(img, m.mem, Masked(e));
      assert RunOps(img, m1, two) == RunOps(img, m2, [Done] + rest);
      m' := if rest == [] then m2 else m2.(st := m2.st.(symbol := [], segOffset := 0, segIndex := 0));
      assert RunOps(img, m2, [Done] + rest) == if rest == [] then (0, m') else RunOps(img, m', rest);
    } else {
      assert BindHere(img, m1) == Stopped(-1, m1);
      m' := m;
    }
  }

  lemma {:induction false} FourSets(img: Image, m: Machine, e: Entry, rest: seq<Op>)
    ensures RunOps(img, m, EntryOps(e) + rest) ==
            RunOps(img, m.(st := m.st.(ordinal := e.ordinal % 16, symbol := Truncated(e.name), typ := TYPE_POINTER,
                                       segIndex := e.segment % 16, segOffset := e.offset)), [DoBind, Done] + rest)
  {
    hide BindHere, BindTimes;
    var ops := EntryOps(e) + rest;
    var m1 := m.(st := m.st.(ordinal := e.ordinal % 16));
    var m2 := m1.(st := m1.st.(symbol := Truncated(e.name)));
    var m3 := m2.(st := m2.st.(typ := TYPE_POINTER));
    var m4 := m3.(st := m3.st.(segIndex := e.segment % 16, segOffset := e.offset));
    assert RunOps(img, m, ops) == RunOps(img, m1, ops[1..]);
    assert ops[1..][1..] == ops[2..] && ops[2..][1..] == ops[3..] && ops[3..][1..] == ops[4..];
    assert RunOps(img, m1, ops[1..]) == RunOps(img, m2, ops[2..]);
    assert RunOps(img, m2, ops[2..]) == RunOps(img, m3, ops[3..]);
    assert RunOps(img, m3, ops[3..]) == RunOps(img, m4, ops[4..]);
    assert ops[4..] == [DoBind, Done] + rest;
  }

  lemma {:induction false} AllOpsRun(img: Image, m: Machine, es: seq<Entry>)
    requires m.st.addend == 0
    ensures var r := RunOps(img, m, AllOps(es)); (r.0, r.1.mem) == CarryOut(img, m.mem, MaskAll(es))
    decreases |es|
  {
    hide EntryOps, WriteEntry;
    if es != [] {
      var rest := AllOps(es[1..]);
      var m' := EntryRun(img, m, es[0], rest);
      assert MaskAll(es)[1..] == MaskAll(es[1..]);
      if Bindable(img, Masked(es[0])) { AllOpsRun(img, m', es[1..]); }
    }
  }

  /** Interpreting the generator's output carries out exactly the requests, in order and across every
    * DONE mark, as their four-bit fields read. */
  lemma {:induction false} GeneratedRun(img: Image, mem: Mem, es: seq<Entry>)
    requires CNames(es)
    ensures var r := RunBytes(img, Machine(START, mem), Concatenated(es), 0);
            (r.0, r.1.mem) == CarryOut(img, mem, MaskAll(es))
  {
    hide RunBytes, RunOps, CarryOut;
    ConcatenatedIsAssembly(es);
    RunAssembled(img, Machine(START, mem), AllOps(es));
    AllOpsRun(img, Machine(START, mem), es);
  }

  /** A request that the four-bit fields and the name buffer can express. */
  predicate Expressible(img: Image, e: Entry) {
    Bindable(img, e) && e.ordinal < 16 && e.segment < 16 && CName(e.name) && |e.name| <= NAME_LIMIT
  }

  /** The requested pointer writes, in order. */
  function WriteAll(img: Image, mem: Mem, es: seq<Entry>): Mem
    requires forall i :: 0 <= i < |es| ==> Expressible(img, es[i])
    decreases |es|
  {
    if es == [] then mem
    else
      assert Expressible(img, es[0]);
      var a := img.resolve(es[0].ordinal - 1, StripUnderscore(es[0].name));
      WriteAll(img, Store64(mem, Wrap(img.segments[es[0].segment] + es[0].offset), if a != 0 then a
          else img.stub), es[1..])
  }

  lemma {:induction false} CarriesOutAll(img: Image, mem: Mem, es: seq<Entry>)
    requires forall i :: 0 <= i < |es| ==> Expressible(img, es[i])
    ensures MaskAll(es) == es && CarryOut(img, mem, es) == (0, WriteAll(img, mem, es))
    decreases |es|
  {
    hide Store64;
    if es != [] {
      CarriesOutAll(img, WriteEntry(img, mem, es[0]), es[1..]);
      assert MaskAll(es)[1..] == MaskAll(es[1..]);
    }
  }

  /** Round trip: for any list of expressible requests, executing the concatenated bytecode returns 0
    * and performs exactly the requested pointer writes, in order. */
  lemma {:induction false} GeneratorRoundTrip(img: Image, mem: Mem, es: seq<Entry>)
    requires forall i :: 0 <= i < |es| ==> Expressible(img, es[i])
    ensures var r := RunBytes(img, Machine(START, mem), Concatenated(es), 0);
            r.0 == 0 && r.1.mem == WriteAll(img, mem, es)
  {
    hide RunBytes, CarryOut, WriteAll, Concatenated, MaskAll;
    GeneratedRun(img, mem, es);
    CarriesOutAll(img, mem, es);
  }

  // ---- the passes as they run ----

  class Loader {
    var mem: Mem
    var bindOff: u32
    var bindSize: u32
    var lazyBindOff: u32
    var lazyBindSize: u32

    constructor (m: Mem, bo: u32, bs: u32, lo: u32, ls: u32)
      ensures mem == m && bindOff == bo && bindSize == bs && lazyBindOff == lo && lazyBindSize == ls
    {
      mem, bindOff, bindSize, lazyBindOff, lazyBindSize := m, bo, bs, lo, ls;
    }

    /** One shared DO_BIND body; false when the pass must return -1. */
    method BindOne(img: Image, st: State) returns (ok: bool)
      modifies this`mem
      ensures ok == BindHere(img, Machine(st, old(mem))).Running?
      ensures mem == BindHere(img, Machine(st, old(mem))).m.mem
    {
      hide Store64;
      ok := false;
      if st.ordinal < 1 || st.ordinal > img.ndylibs { return; }
      var addr := img.resolve(st.ordinal - 1, StripUnderscore(st.symbol));
      if addr == 0 { addr := img.stub; }
      if st.segIndex >= |img.segments| { return; }
      var target := Wrap(img.segments[st.segIndex] + st.segOffset);
      if st.typ == TYPE_POINTER { mem := Store64(mem, target, Wrap(addr + st.addend)); }
      ok := true;
    }

    method BindMany(img: Image, st0: State, count: u64, skip: u64) returns (ok: bool, st: State)
      modifies this`mem
      ensures ok == BindTimes(img, Machine(st0, old(mem)), count, skip).Running?
      ensures Machine(st, mem) == BindTimes(img, Machine(st0, old(mem)), count, skip).m
    {
      hide Store64;
      st := st0;
      var i: nat := 0;
      while i < count
        invariant i <= count
        invariant BindTimes(img, Machine(st0, old(mem)), count, skip) ==
                  BindTimes(img, Machine(st, mem), count - i, skip)
      {
        if st.ordinal < 1 || st.ordinal > img.ndylibs { return false, st; }
        var addr := img.resolve(st.ordinal - 1, StripUnderscore(st.symbol));
        if addr == 0 { addr := img.stub; }
        mem := Store64(mem, Slot(img, st), Wrap(addr + st.addend));
        st := st.(segOffset := Wrap(st.segOffset + 8 + skip));
        i := i + 1;
      }
      ok := true;
    }

    /** execute_binds. */
    method ExecuteBinds(img: Image, file: seq<byte>) returns (rc: int)
      modifies this`mem
      ensures (rc, mem) == BindRange(img, old(mem), file, bindOff, bindSize)
    {
      if bindSize == 0 { return 0; }
      if PastEnd(bindOff, bindSize, |file|) { return -1; }
      rc := Interpret(img, Window(file, bindOff, bindSize));
    }

    method Interpret(img: Image, s: seq<byte>) returns (rc: int)
      modifies this`mem
      ensures var r := RunBytes(img, Machine(START, old(mem)), s, 0); (rc, mem) == (r.0, r.1.mem)
    {
      hide FetchOp, Exec;
      var st := START;
      var p := 0;
      while p < |s|
        invariant 0 <= p <= |s|
        invariant RunBytes(img, Machine(START, old(mem)), s, 0) == RunBytes(img, Machine(st, mem), s, p)
        decreases |s| - p
      {
        var stop;
        if s[p] / 16 <= 8 {
          stop, rc, st, p := SetOne(img, mem, st, s, p);
        } else {
          stop, rc, st, p := BindOp(img, st, s, p);
        }
        if stop { return; }
      }
      rc := 0;
    }

    /** The opcodes that bind. */
    method BindOp(img: Image, st0: State, s: seq<byte>, p0: nat) returns (stop: bool, rc: int, st: State, p: nat)
      requires p0 < |s| && s[p0] / 16 > 8
      modifies this`mem
      ensures StepIs(img, Machine(st0, old(mem)), s, p0, stop, rc, Machine(st, mem), p)
    {
      hide BindHere, BindTimes, ReadUleb, ReadSleb, NameEnd;
      var op, imm: int := s[p0] / 16, s[p0] % 16;
      stop, rc, st, p := true, -1, st0, p0 + 1;
      if op == 12 {
        var count, skip, ok;
        count, p := ReadUlebLoop(s, p);
        skip, p := ReadUlebLoop(s, p);
        BindTimesStops(img, Machine(st, mem), count, skip);
        ok, st := BindMany(img, st, count, skip);
        stop := !ok;
      } else if op <= 11 {
        BindHereState(img, Machine(st, mem));
        var ok := BindOne(img, st);
        if !ok { return; }
        stop := false;
        st := st.(segOffset := Wrap(st.segOffset + 8));
        if op == 10 {
          var v;
          v, p := ReadUlebLoop(s, p);
          st := st.(segOffset := Wrap(st.segOffset + v));
        } else if op == 11 {
          st := st.(segOffset := Wrap(st.segOffset + imm * 8));
        }
      }
    }

    /** execute_lazy_binds: swap the ranges in, run the bind pass, put them back on every outcome. */
    method ExecuteLazyBinds(img: Image, file: seq<byte>) returns (rc: int)
      modifies this
      ensures (rc, mem) == BindRange(img, old(mem), file, lazyBindOff, lazyBindSize)
      ensures bindOff == old(bindOff) && bindSize == old(bindSize)
      ensures lazyBindOff == old(lazyBindOff) && lazyBindSize == old(lazyBindSize)
    {
      if lazyBindSize == 0 { return 0; }
      var saveOff, saveSize := bindOff, bindSize;
      bindOff, bindSize := lazyBindOff, lazyBindSize;
      rc := ExecuteBinds(img, file);
      bindOff, bindSize := saveOff, saveSize;
    }
  }

  /** What one turn of the interpreter loop does, in terms of the decoded instruction. */
  predicate StepIs(img: Image, m: Machine, s: seq<byte>, p: nat, stop: bool, rc: int, m': Machine, next: nat)
    requires p < |s|
  {
    match FetchOp(s, p)
    case Bad => stop && rc == -1 && m'.mem == m.mem
    case Fetched(op, n) =>
      match Exec(img, m, op, n == |s|)
      case Stopped(r, x) => stop && rc == r && m'.mem == x.mem
      case Running(x) => !stop && m' == x && next == n
  }

  /** The opcodes that only set registers, and DONE. */
  method SetOne(img: Image, ghost mem: Mem, st0: State, s: seq<byte>, p0: nat)
    returns (stop: bool, rc: int, st: State, p: nat)
    requires p0 < |s| && s[p0] / 16 <= 8
    ensures StepIs(img, Machine(st0, mem), s, p0, stop, rc, Machine(st, mem), p)
  {
    hide BindHere, BindTimes, ReadUleb, ReadSleb, NameEnd;
    var op, imm: int := s[p0] / 16, s[p0] % 16;
    stop, rc, st, p := false, 0, st0, p0 + 1;
    if op == 0 {
      if p >= |s| { stop := true; return; }
      st := st.(symbol := [], segOffset := 0, segIndex := 0);
    } else if op == 1 {
      st := st.(ordinal := imm);
    } else if op == 2 {
      var v;
      v, p := ReadUlebLoop(s, p);
      st := st.(ordinal := ToInt32(v));
    } else if op == 3 {
      st := st.(ordinal := if imm == 0 then 0 else imm - 16);
    } else if op == 4 {
      stop, rc, st, p := SetName(img, mem, st0, s, p0);
    } else if op == 5 {
      st := st.(typ := imm);
    } else if op == 6 {
      var a;
      a, p := ReadSlebLoop(s, p);
      st := st.(addend := a);
    } else {
      var v;
      v, p := ReadUlebLoop(s, p);
      st := if op == 7 then st.(segIndex := imm, segOffset := v) else st.(segOffset := Wrap(st.segOffset + v));
    }
  }

  /** SET_SYMBOL_TRAILING_FLAGS_IMM: scan to the NUL and copy what fits the name buffer. */
  method SetName(img: Image, ghost mem: Mem, st0: State, s: seq<byte>, p0: nat)
    returns (stop: bool, rc: int, st: State, p: nat)
    requires p0 < |s| && s[p0] / 16 == 4
    ensures StepIs(img, Machine(st0, mem), s, p0, stop, rc, Machine(st, mem), p)
  {
    hide BindHere, BindTimes, ReadUleb, ReadSleb, NameEnd;
    stop, rc, st, p := false, 0, st0, p0 + 1;
    var q := ScanName(s, p);
    if q >= |s| { return true, -1, st, p; }
    var len := q + 1 - p;
    assert FetchOp(s, p0) == Fetched(SetSymbol(s[p..q]), q + 1);
    assert len >= 256 ==> s[p..q][..255] == s[p..p + 255];
    st := st.(symbol := if len >= 256 then s[p..p + 255] else s[p..q]);
    p := q + 1;
  }

  method ScanName(s: seq<byte>, start: nat) returns (p: nat)
    requires start <= |s|
    ensures p == NameEnd(s, start)
  {
    p := start;
    while p < |s| && s[p] != 0
      invariant start <= p <= |s| && NameEnd(s, start) == NameEnd(s, p)
    {
      p := p + 1;
    }
  }

  /** Return code and memory of a bind pass over the given range of the file. */
  function BindRange(img: Image, mem: Mem, file: seq<byte>, off: u32, size: u32): (int, Mem) {
    if size == 0 then (0, mem)
    else if PastEnd(off, size, |file|) then (-1, mem)
    else var r := RunBytes(img, Machine(START, mem), Window(file, off, size), 0); (r.0, r.1.mem)
  }

  /** The passes over a file that holds generated bytecode: result 0 and exactly the requested writes. */
  lemma {:induction false} RangeRoundTrip(img: Image, mem: Mem, file: seq<byte>, off: u32, es: seq<Entry>)
    requires forall i :: 0 <= i < |es| ==> Expressible(img, es[i])
    requires off + |Concatenated(es)| <= |file| && off + |Concatenated(es)| < 0x1_0000_0000
    requires file[off..off + |Concatenated(es)|] == Concatenated(es)
    ensures BindRange(img, mem, file, off, |Concatenated(es)|) == (0, WriteAll(img, mem, es))
  {
    hide RunBytes, Expressible;
    var size := |Concatenated(es)|;
    WindowInside(file, off, size);
    GeneratorRoundTrip(img, mem, es);
    if es != [] { SomeBytes(es); }
  }

  lemma {:induction false} SomeBytes(es: seq<Entry>)
    requires es != []
    ensures Concatenated(es) != []
  {
  }

  lemma {:induction false} BindHereState(img: Image, m: Machine)
    ensures var o := BindHere(img, m);
            if o.Running? then o.m.st == m.st.(segOffset := Wrap(m.st.segOffset + 8)) else o == Stopped(-1, m)
  {
    hide Store64;
  }

  lemma {:induction false} BindTimesStops(img: Image, m: Machine, count: nat, skip: u64)
    ensures BindTimes(img, m, count, skip).Stopped? ==> BindTimes(img, m, count, skip).rc == -1
    decreases count
  {
    hide Store64;
    if count > 0 { BindTimesStops(img, Advance(WritePointer(img, m), 8 + skip), count - 1, skip); }
  }
}
