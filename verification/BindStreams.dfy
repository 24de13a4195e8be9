/** What bind streams mean, told by cursors, addresses and values instead of the interpreter's steps: the
  * offset is an unbounded integer, reduced to 64 bits only where a slot is named. */
module BindStreams {
  import opened Memory
  import opened Leb
  import opened Symbols
  import opened Bind
  import BindLoader
  import opened RebaseStreams

  /** What has been said so far: library, symbol, type, addend, segment and offset. */
  datatype Said = Said(ordinal: int, symbol: seq<byte>, typ: nibble, addend: int, seg: nibble, off: nat)

  function AfterOp(c: Said, op: Op): Said {
    match op
    case Done => c.(symbol := [], seg := 0, off := 0)
    case SetOrdinalImm(imm) => c.(ordinal := imm)
    case SetOrdinalUleb(v) =>
      var w := v % 0x1_0000_0000; c.(ordinal := if w < 0x8000_0000 then w else w - 0x1_0000_0000)
    case SetSpecialImm(imm) => c.(ordinal := if imm == 0 then 0 else imm - 16)
    case SetSymbol(name) => c.(symbol := if |name| <= 255 then name else name[..255])
    case SetType(imm) => c.(typ := imm)
    case SetAddend(a) => c.(addend := a)
    case SetSegmentOffset(imm, v) => c.(seg := imm, off := v)
    case AddAddr(v) => c.(off := c.off + v)
    case DoBind => c.(off := c.off + 8)
    case DoBindAddAddr(v) => c.(off := c.off + 8 + v)
    case DoBindAddAddrScaled(imm) => c.(off := c.off + 8 + 8 * imm)
    case DoBindTimesSkipping(count, skip) => c.(off := c.off + count * (8 + skip))
  }

  predicate Once(op: Op) { op.DoBind? || op.DoBindAddAddr? || op.DoBindAddAddrScaled? }

  /** The offsets that an instruction binds. */
  function Bound(c: Said, op: Op): seq<u64> {
    if Once(op) && c.typ == 1 then [c.off % 0x1_0000_0000_0000_0000]
    else if op.DoBindTimesSkipping? then Strided(c.off, op.count, 8 + op.skip)
    else []
  }

  /** No such library, or no such segment; the repeating form looks at the library only. */
  predicate Refused(img: Image, c: Said, op: Op) {
    || (Once(op) && (c.ordinal < 1 || c.ordinal > img.ndylibs || c.seg >= |img.segments|))
    || (op.DoBindTimesSkipping? && op.count > 0 && (c.ordinal < 1 || c.ordinal > img.ndylibs))
  }

  /** The word stored: the symbol's address under its name without the leading underscore, or the stub's,
    * plus the addend. */
  function Linked(img: Image, ordinal: int, symbol: seq<byte>, addend: int): u64 {
    var a := img.resolve(ordinal - 1, if symbol != [] && symbol[0] == 0x5F then symbol[1..] else symbol);
    ((if a != 0 then a else img.stub) + addend) % 0x1_0000_0000_0000_0000
  }

  function Value(img: Image, c: Said): u64 { Linked(img, c.ordinal, c.symbol, c.addend) }

  function Base(img: Image, c: Said): u64 { if c.seg < |img.segments| then img.segments[c.seg] else 0 }

  /** The word `v` at each of the offsets, in order. */
  function PutAll(m: Mem, base: u64, offs: seq<u64>, v: u64): Mem
    decreases |offs|
  {
    if offs == [] then m
    else PutAll(Store64(m, (base + offs[0]) % 0x1_0000_0000_0000_0000, v), base, offs[1..], v)
  }

  datatype Meant = Meant(ok: bool, said: Said, mem: Mem)

  function Bind1(img: Image, c: Said, m: Mem, op: Op): Mem { PutAll(m, Base(img, c), Bound(c, op), Value(img, c)) }

  function BindEffect(img: Image, c: Said, m: Mem, ops: seq<Op>): Meant
    decreases |ops|
  {
    if ops == [] then Meant(true, c, m)
    else if Refused(img, c, ops[0]) then Meant(false, c, m)
    else BindEffect(img, AfterOp(c, ops[0]), Bind1(img, c, m, ops[0]), ops[1..])
  }

  // ---- one instruction ----

  /** The registers of the interpreter. */
  function AtState(c: Said): State {
    State(c.ordinal, c.symbol, c.typ, c.addend, c.seg, c.off % 0x1_0000_0000_0000_0000)
  }

  lemma {:induction false} AdvanceBy(c: Said, m: Mem, v: nat)
    ensures Advance(Machine(AtState(c), m), v) == Machine(AtState(c.(off := c.off + v)), m)
  {
  }

  lemma {:induction false} WriteAt(img: Image, c: Said, m: Mem)
    ensures WritePointer(img, Machine(AtState(c), m)) ==
            Machine(AtState(c), PutAll(m, Base(img, c), [c.off % 0x1_0000_0000_0000_0000], Value(img, c)))
  {
    hide Store64;
    PutOne(m, Base(img, c), c.off % 0x1_0000_0000_0000_0000, Value(img, c));
  }

  lemma {:induction false} PutOne(m: Mem, base: u64, x: u64, v: u64)
    ensures PutAll(m, base, [x], v) == Store64(m, (base + x) % 0x1_0000_0000_0000_0000, v)
  {
    hide Store64;
    var one := [x];
    assert one[1..] == [];
  }

  lemma {:induction false} OnceRuns(img: Image, c: Said, m: Mem, op: Op, last: bool)
    requires Once(op)
    ensures Exec(img, Machine(AtState(c), m), op, last) ==
            if Refused(img, c, op) then Stopped(-1, Machine(AtState(c), m))
            else Running(Machine(AtState(AfterOp(c, op)), Bind1(img, c, m, op)))
  {
    hide WritePointer, Store64, PutAll, Value, Base, Advance;
    var m' := Bind1(img, c, m, op);
    WriteAt(img, c, m);
    PutNone(m, Base(img, c), Value(img, c));
    AdvanceBy(c, m', 8);
    var d := c.(off := c.off + 8);
    if op.DoBindAddAddr? { AdvanceBy(d, m', op.value); }
    if op.DoBindAddAddrScaled? { AdvanceBy(d, m', op.imm * 8); }
  }

  lemma {:induction false} PutNone(m: Mem, base: u64, v: u64)
    ensures PutAll(m, base, [], v) == m
  {
  }

  lemma {:induction false} TimesRuns(img: Image, c: Said, m: Mem, count: nat, skip: u64)
    requires 1 <= c.ordinal <= img.ndylibs
    ensures BindTimes(img, Machine(AtState(c), m), count, skip) ==
            Running(Machine(AtState(c.(off := c.off + count * (8 + skip))),
                            PutAll(m, Base(img, c), Strided(c.off, count, 8 + skip), Value(img, c))))
    decreases count
  {
    hide AtState, Strided, PutAll, Value, Base, BindTimes;
    if count == 0 {
      NoneLeft(c, 8 + skip);
      PutNone(m, Base(img, c), Value(img, c));
      TimesNone(img, Machine(AtState(c), m), skip);
    } else {
      var d := c.(off := c.off + (8 + skip));
      var x := c.off % 0x1_0000_0000_0000_0000;
      var m' := PutAll(m, Base(img, c), [x], Value(img, c));
      TimesRuns(img, d, m', count - 1, skip);
      SameSlotAndValue(img, c, d);
      TimesStep(img, c, m, count, skip);
      StridedUnfold(c.off, count, 8 + skip);
      PutConcat(m, Base(img, c), [x], Strided(d.off, count - 1, 8 + skip), Value(img, c));
    }
  }

  lemma {:induction false} NoneLeft(c: Said, stride: nat)
    ensures Strided(c.off, 0, stride) == [] && c.(off := c.off + 0 * stride) == c
  {
  }

  lemma {:induction false} SameSlotAndValue(img: Image, c: Said, d: Said)
    requires d == c.(off := d.off)
    ensures Base(img, d) == Base(img, c) && Value(img, d) == Value(img, c)
  {
  }

  lemma {:induction false} TimesNone(img: Image, m: Machine, skip: u64)
    ensures BindTimes(img, m, 0, skip) == Running(m)
  {
  }

  lemma {:induction false} TimesStep(img: Image, c: Said, m: Mem, count: nat, skip: u64)
    requires 1 <= c.ordinal <= img.ndylibs && count > 0
    ensures BindTimes(img, Machine(AtState(c), m), count, skip) ==
            BindTimes(img, Machine(AtState(c.(off := c.off + (8 + skip))),
                                   PutAll(m, Base(img, c), [c.off % 0x1_0000_0000_0000_0000], Value(img, c))),
                      count - 1, skip)
  {
    hide PutAll, WritePointer, Value, Base, Advance;
    WriteAt(img, c, m);
    AdvanceBy(c, PutAll(m, Base(img, c), [c.off % 0x1_0000_0000_0000_0000], Value(img, c)), 8 + skip);
  }

  lemma {:induction false} PutConcat(m: Mem, base: u64, a: seq<u64>, b: seq<u64>, v: u64)
    ensures PutAll(m, base, a + b, v) == PutAll(PutAll(m, base, a, v), base, b, v)
    decreases |a|
  {
    hide Store64;
    if a == [] {
      assert a + b == b;
    } else {
      assert (a + b)[1..] == a[1..] + b;
      PutConcat(Store64(m, (base + a[0]) % 0x1_0000_0000_0000_0000, v), base, a[1..], b, v);
    }
  }

  /** Every instruction does what it means; DONE as the last byte leaves the machine as it is. */
  lemma {:induction false} OpRuns(img: Image, c: Said, m: Mem, op: Op, last: bool)
    ensures Exec(img, Machine(AtState(c), m), op, last) ==
            if Refused(img, c, op) then Stopped(-1, Machine(AtState(c), m))
            else if op.Done? && last then Stopped(0, Machine(AtState(c), m))
            else Running(Machine(AtState(AfterOp(c, op)), Bind1(img, c, m, op)))
  {
    hide PutAll, Value, Base, Strided;
    if Once(op) {
      OnceRuns(img, c, m, op, last);
    } else if op.DoBindTimesSkipping? {
      RepeatRuns(img, c, m, op, last);
    } else {
      PutNone(m, Base(img, c), Value(img, c));
      if op.AddAddr? { AdvanceBy(c, m, op.value); }
    }
  }

  lemma {:induction false} RepeatRuns(img: Image, c: Said, m: Mem, op: Op, last: bool)
    requires op.DoBindTimesSkipping?
    ensures Exec(img, Machine(AtState(c), m), op, last) ==
            if Refused(img, c, op) then Stopped(-1, Machine(AtState(c), m))
            else Running(Machine(AtState(AfterOp(c, op)), Bind1(img, c, m, op)))
  {
    hide PutAll, Value, Base, Strided;
    if 1 <= c.ordinal <= img.ndylibs {
      TimesRuns(img, c, m, op.count, op.skip);
    } else {
      NoneLeft(c, 8 + op.skip);
      PutNone(m, Base(img, c), Value(img, c));
    }
  }

  // ---- whole streams ----

  lemma {:induction false} OpsMean(img: Image, c: Said, m: Mem, ops: seq<Op>)
    ensures var e := BindEffect(img, c, m, ops);
            var r := RunOps(img, Machine(AtState(c), m), ops);
            r.0 == (if e.ok then 0 else -1) && r.1.mem == e.mem
    decreases |ops|
  {
    hide Exec, AtState, AfterOp, Bind1, Refused;
    if ops != [] {
      OpRuns(img, c, m, ops[0], |ops| == 1);
      if !Refused(img, c, ops[0]) {
        OpsMean(img, AfterOp(c, ops[0]), Bind1(img, c, m, ops[0]), ops[1..]);
        if ops[0].Done? && |ops| == 1 { DoneWrites(img, c, m); }
      }
    }
  }

  lemma {:induction false} DoneWrites(img: Image, c: Said, m: Mem)
    ensures Bind1(img, c, m, Done) == m && !Refused(img, c, Done)
  {
  }

  /** A whole stream from the interpreter's start, where the type is pointer and all else zero or empty:
    * return code and memory are what the instructions mean in order. The library, type and addend outlive
    * DONE; the symbol, segment and offset do not. */
  lemma {:induction false} WholeStreamBinds(img: Image, m: Mem, ops: seq<Op>)
    requires AllValid(ops)
    ensures var e := BindEffect(img, Said(0, [], 1, 0, 0, 0), m, ops);
            var r := RunBytes(img, Machine(START, m), AssembleAll(ops), 0);
            r.0 == (if e.ok then 0 else -1) && r.1.mem == e.mem
  {
    hide RunBytes, AssembleAll, RunOps, BindEffect;
    RunAssembled(img, Machine(START, m), ops);
    OpsMean(img, Said(0, [], 1, 0, 0, 0), m, ops);
  }

  /** The pass over a file: an empty range is success, one that ends past the file is failure, neither touches
    * memory, and a stream that is in the file is bound as it means. */
  lemma {:induction false} FileBinds(img: Image, m: Mem, file: seq<byte>, off: u32, size: u32, ops: seq<Op>)
    ensures size == 0 ==> BindLoader.BindRange(img, m, file, off, size) == (0, m)
    ensures size != 0 && (off + size) % 0x1_0000_0000 > |file| ==>
              BindLoader.BindRange(img, m, file, off, size) == (-1, m)
    ensures AllValid(ops) && size == |AssembleAll(ops)| && off + size < 0x1_0000_0000 && off + size <= |file| &&
            file[off..off + size] == AssembleAll(ops) ==>
              var e := BindEffect(img, Said(0, [], 1, 0, 0, 0), m, ops);
              BindLoader.BindRange(img, m, file, off, size) == (if e.ok then 0 else -1, e.mem)
  {
    hide RunBytes, Valid, Assemble;
    if AllValid(ops) && size == |AssembleAll(ops)| && off + size < 0x1_0000_0000 && off + size <= |file| &&
       file[off..off + size] == AssembleAll(ops)
    {
      WholeStreamBinds(img, m, ops);
      WindowInside(file, off, size);
    }
  }

  // ---- streams byte by byte ----

  function Join(parts: seq<seq<byte>>): seq<byte> { if parts == [] then [] else parts[0] + Join(parts[1..]) }

  lemma {:induction false} JoinAssembles(parts: seq<seq<byte>>, ops: seq<Op>)
    requires |parts| == |ops| && forall i :: 0 <= i < |ops| ==> parts[i] == Assemble(ops[i])
    ensures Join(parts) == AssembleAll(ops)
    decreases |ops|
  {
    hide Assemble;
    if ops != [] { JoinAssembles(parts[1..], ops[1..]); }
  }

  predicate Name(s: seq<byte>) { |s| <= 255 && forall i :: 0 <= i < |s| ==> s[i] != 0 }

  /** Two symbols with one library and one addend, the second after a DONE: the addend, written once, is in
    * both words, and each word is at its segment's address plus its offset. */
  lemma {:induction false} RequestsBind(img: Image, m: Mem, lib: u64, addend: int, n1: seq<byte>, g1: nibble, o1: u64,
                                        v: u64, n2: seq<byte>, g2: nibble, o2: u64)
    requires 1 <= lib <= img.ndylibs && lib < 0x8000_0000 && -0x8000_0000_0000_0000 <= addend < 0x8000_0000_0000_0000
    requires Name(n1) && Name(n2) && g1 < |img.segments| && g2 < |img.segments|
    ensures var s := Join([[0x20] + EncodeUleb(lib), [0x60] + EncodeSleb(addend), [0x40] + n1 + [0],
                           [0x70 + g1] + EncodeUleb(o1), [0x80] + EncodeUleb(v), [0x90], [0x00], [0x40] + n2 + [0],
                           [0x70 + g2] + EncodeUleb(o2), [0x90], [0x00]]);
            var r := RunBytes(img, Machine(START, m), s, 0);
            && r.0 == 0
            && r.1.mem == Store64(Store64(m, (img.segments[g1] + o1 + v) % 0x1_0000_0000_0000_0000,
                                          Linked(img, lib, n1, addend)),
                                  (img.segments[g2] + o2) % 0x1_0000_0000_0000_0000, Linked(img, lib, n2, addend))
  {
    hide RunBytes, EncodeUleb, EncodeSleb, Store64, Linked, BindEffect, Join, AssembleAll, Name;
    var ops := [SetOrdinalUleb(lib), SetAddend(addend), SetSymbol(n1), SetSegmentOffset(g1, o1), AddAddr(v), DoBind,
                Done, SetSymbol(n2), SetSegmentOffset(g2, o2), DoBind, Done];
    RequestBytes(lib, addend, n1, g1, o1, v, n2, g2, o2, ops);
    WholeStreamBinds(img, m, ops);
    RequestsMean(img, m, lib, addend, n1, g1, o1, v, n2, g2, o2, ops);
  }

  lemma {:induction false} RequestBytes(lib: u64, addend: int, n1: seq<byte>, g1: nibble, o1: u64, v: u64,
                                        n2: seq<byte>, g2: nibble, o2: u64, ops: seq<Op>)
    requires Name(n1) && Name(n2) && -0x8000_0000_0000_0000 <= addend < 0x8000_0000_0000_0000
    requires ops == [SetOrdinalUleb(lib), SetAddend(addend), SetSymbol(n1), SetSegmentOffset(g1, o1), AddAddr(v),
                     DoBind, Done, SetSymbol(n2), SetSegmentOffset(g2, o2), DoBind, Done]
    ensures AllValid(ops) && |n1| <= 255 && |n2| <= 255
    ensures AssembleAll(ops) ==
            Join([[0x20] + EncodeUleb(lib), [0x60] + EncodeSleb(addend), [0x40] + n1 + [0],
                  [0x70 + g1] + EncodeUleb(o1), [0x80] + EncodeUleb(v), [0x90], [0x00], [0x40] + n2 + [0],
                  [0x70 + g2] + EncodeUleb(o2), [0x90], [0x00]])
  {
    hide EncodeUleb, EncodeSleb, Join, AssembleAll;
    JoinAssembles([[0x20] + EncodeUleb(lib), [0x60] + EncodeSleb(addend), [0x40] + n1 + [0],
                   [0x70 + g1] + EncodeUleb(o1), [0x80] + EncodeUleb(v), [0x90], [0x00], [0x40] + n2 + [0],
                   [0x70 + g2] + EncodeUleb(o2), [0x90], [0x00]], ops);
  }

  /** The first instruction's part of the meaning. */
  lemma {:induction false} EffectStep(img: Image, c: Said, m: Mem, ops: seq<Op>)
    requires ops != [] && !Refused(img, c, ops[0])
    ensures BindEffect(img, c, m, ops) == BindEffect(img, AfterOp(c, ops[0]), Bind1(img, c, m, ops[0]), ops[1..])
  {
    hide Refused, AfterOp, Bind1;
  }

  /** Instructions that set without binding, run one after another. */
  function Sets(c: Said, ops: seq<Op>): Said
    decreases |ops|
  {
    if ops == [] then c else Sets(AfterOp(c, ops[0]), ops[1..])
  }

  lemma {:induction false} SetsRun(img: Image, c: Said, m: Mem, a: seq<Op>, b: seq<Op>)
    requires forall i :: 0 <= i < |a| ==> !Once(a[i]) && !a[i].DoBindTimesSkipping?
    ensures BindEffect(img, c, m, a + b) == BindEffect(img, Sets(c, a), m, b)
    decreases |a|
  {
    hide AfterOp, BindEffect, Value, Base, Strided;
    if a == [] {
      assert a + b == b;
    } else {
      assert (a + b)[1..] == a[1..] + b;
      EffectStep(img, c, m, a + b);
      PutNone(m, Base(img, c), Value(img, c));
      SetsRun(img, AfterOp(c, a[0]), m, a[1..], b);
    }
  }

  lemma {:induction false} OnceMeans(img: Image, c: Said, m: Mem, ops: seq<Op>)
    requires ops != [] && Once(ops[0]) && 1 <= c.ordinal <= img.ndylibs && c.seg < |img.segments| && c.typ == 1
    ensures BindEffect(img, c, m, ops) ==
            BindEffect(img, AfterOp(c, ops[0]),
                       Store64(m, (img.segments[c.seg] + c.off) % 0x1_0000_0000_0000_0000, Value(img, c)), ops[1..])
  {
    hide AfterOp, BindEffect, Value, Store64, PutAll;
    EffectStep(img, c, m, ops);
    PutOne(m, img.segments[c.seg], c.off % 0x1_0000_0000_0000_0000, Value(img, c));
  }

  lemma {:induction false} RequestsMean(img: Image, m: Mem, lib: u64, addend: int, n1: seq<byte>, g1: nibble, o1: u64,
                                        v: u64, n2: seq<byte>, g2: nibble, o2: u64, ops: seq<Op>)
    requires 1 <= lib <= img.ndylibs && lib < 0x8000_0000 && |n1| <= 255 && |n2| <= 255
    requires g1 < |img.segments| && g2 < |img.segments|
    requires ops == [SetOrdinalUleb(lib), SetAddend(addend), SetSymbol(n1), SetSegmentOffset(g1, o1), AddAddr(v),
                     DoBind, Done, SetSymbol(n2), SetSegmentOffset(g2, o2), DoBind, Done]
    ensures var e := BindEffect(img, Said(0, [], 1, 0, 0, 0), m, ops);
            && e.ok
            && e.mem == Store64(Store64(m, (img.segments[g1] + o1 + v) % 0x1_0000_0000_0000_0000,
                                        Linked(img, lib, n1, addend)),
                                (img.segments[g2] + o2) % 0x1_0000_0000_0000_0000, Linked(img, lib, n2, addend))
  {
    hide Store64, Linked, BindEffect, AfterOp, Sets, Value;
    var c := Said(lib, n1, 1, addend, g1, o1 + v);
    var m1 := Store64(m, (img.segments[g1] + o1 + v) % 0x1_0000_0000_0000_0000, Value(img, c));
    SetsFirst(lib, addend, n1, g1, o1, v, ops[..5]);
    assert ops == ops[..5] + ops[5..] && ops[5..][1..] == ops[6..];
    SetsRun(img, Said(0, [], 1, 0, 0, 0), m, ops[..5], ops[5..]);
    OnceMeans(img, c, m, ops[5..]);
    NextMeans(img, c, m1, n2, g2, o2, ops[6..]);
    ValueIs(img, c);
  }

  lemma {:induction false} ValueIs(img: Image, c: Said)
    ensures Value(img, c) == Linked(img, c.ordinal, c.symbol, c.addend)
  {
  }

  lemma {:induction false} NextMeans(img: Image, c: Said, m: Mem, n2: seq<byte>, g2: nibble, o2: u64, ops: seq<Op>)
    requires 1 <= c.ordinal <= img.ndylibs && c.typ == 1 && |n2| <= 255 && g2 < |img.segments|
    requires ops == [Done, SetSymbol(n2), SetSegmentOffset(g2, o2), DoBind, Done]
    ensures var e := BindEffect(img, AfterOp(c, DoBind), m, ops);
            && e.ok
            && e.mem == Store64(m, (img.segments[g2] + o2) % 0x1_0000_0000_0000_0000,
                                Linked(img, c.ordinal, n2, c.addend))
  {
    hide Store64, Linked, BindEffect, AfterOp, Sets, Value;
    var d := Said(c.ordinal, n2, c.typ, c.addend, g2, o2);
    SetsNext(c, n2, g2, o2, ops[..3]);
    assert ops == ops[..3] + ops[3..] && ops[3..][1..] == ops[4..];
    SetsRun(img, AfterOp(c, DoBind), m, ops[..3], ops[3..]);
    OnceMeans(img, d, m, ops[3..]);
    ValueIs(img, d);
    LastDone(img, AfterOp(d, DoBind), Store64(m, (img.segments[g2] + o2) % 0x1_0000_0000_0000_0000, Value(img, d)),
             ops[4..]);
  }

  lemma {:induction false} LastDone(img: Image, c: Said, m: Mem, ops: seq<Op>)
    requires ops == [Done]
    ensures BindEffect(img, c, m, ops).ok && BindEffect(img, c, m, ops).mem == m
  {
    DoneWrites(img, c, m);
    assert ops[1..] == [];
  }

  lemma {:induction false} SetsFirst(lib: u64, addend: int, n1: seq<byte>, g1: nibble, o1: u64, v: u64, ops: seq<Op>)
    requires 1 <= lib < 0x8000_0000 && |n1| <= 255
    requires ops == [SetOrdinalUleb(lib), SetAddend(addend), SetSymbol(n1), SetSegmentOffset(g1, o1), AddAddr(v)]
    ensures Sets(Said(0, [], 1, 0, 0, 0), ops) == Said(lib, n1, 1, addend, g1, o1 + v)
  {
    var a, b, c, d := ops[1..], ops[2..], ops[3..], ops[4..];
    assert a[1..] == b && b[1..] == c && c[1..] == d && d[1..] == [];
    assert Sets(Said(lib, n1, 1, addend, g1, o1), d) == Said(lib, n1, 1, addend, g1, o1 + v);
    assert Sets(Said(lib, n1, 1, addend, 0, 0), c) == Said(lib, n1, 1, addend, g1, o1 + v);
    assert Sets(Said(lib, [], 1, addend, 0, 0), b) == Said(lib, n1, 1, addend, g1, o1 + v);
  }

  lemma {:induction false} SetsNext(c: Said, n2: seq<byte>, g2: nibble, o2: u64, ops: seq<Op>)
    requires |n2| <= 255 && ops == [Done, SetSymbol(n2), SetSegmentOffset(g2, o2)]
    ensures Sets(AfterOp(c, DoBind), ops) == Said(c.ordinal, n2, c.typ, c.addend, g2, o2)
  {
    var a, b := ops[1..], ops[2..];
    assert a[1..] == b && b[1..] == [];
    var d := AfterOp(AfterOp(c, DoBind), Done);
    assert Sets(AfterOp(d, SetSymbol(n2)), b) == Said(c.ordinal, n2, c.typ, c.addend, g2, o2);
    assert Sets(d, a) == Said(c.ordinal, n2, c.typ, c.addend, g2, o2);
  }

  /** The other forms, in one stream: a small library number, the pointer type, the two binds that move on,
    * and the repeat, each slot at the offset that the earlier ones leave. */
  lemma {:induction false} FormsBind(img: Image, m: Mem, lib: nibble, n: seq<byte>, g: nibble, o: u64, v: u64,
                                     imm: nibble, count: u64, skip: u64)
    requires 1 <= lib <= img.ndylibs && Name(n) && g < |img.segments|
    ensures var s := Join([[0x10 + lib], [0x51], [0x40] + n + [0], [0x70 + g] + EncodeUleb(o), [0xA0] + EncodeUleb(v),
                           [0xB0 + imm], [0xC0] + EncodeUleb(count) + EncodeUleb(skip)]);
            var r := RunBytes(img, Machine(START, m), s, 0);
            var a, w := img.segments[g], Linked(img, lib, n, 0);
            && r.0 == 0
            && r.1.mem == PutAll(Store64(Store64(m, (a + o) % 0x1_0000_0000_0000_0000, w),
                                         (a + (o + 8 + v)) % 0x1_0000_0000_0000_0000, w),
                                 a, Strided(o + 8 + v + 8 + 8 * imm, count, 8 + skip), w)
  {
    hide RunBytes, EncodeUleb, Store64, Linked, BindEffect, Join, AssembleAll, Name, PutAll, Strided;
    var ops := [SetOrdinalImm(lib), SetType(1), SetSymbol(n), SetSegmentOffset(g, o), DoBindAddAddr(v),
                DoBindAddAddrScaled(imm), DoBindTimesSkipping(count, skip)];
    FormBytes(lib, n, g, o, v, imm, count, skip, ops);
    WholeStreamBinds(img, m, ops);
    FormsMean(img, m, lib, n, g, o, v, imm, count, skip, ops);
  }

  lemma {:induction false} FormBytes(lib: nibble, n: seq<byte>, g: nibble, o: u64, v: u64, imm: nibble, count: u64,
                                     skip: u64, ops: seq<Op>)
    requires Name(n)
    requires ops == [SetOrdinalImm(lib), SetType(1), SetSymbol(n), SetSegmentOffset(g, o), DoBindAddAddr(v),
                     DoBindAddAddrScaled(imm), DoBindTimesSkipping(count, skip)]
    ensures AllValid(ops) && |n| <= 255
    ensures AssembleAll(ops) ==
            Join([[0x10 + lib], [0x51], [0x40] + n + [0], [0x70 + g] + EncodeUleb(o), [0xA0] + EncodeUleb(v),
                  [0xB0 + imm], [0xC0] + EncodeUleb(count) + EncodeUleb(skip)])
  {
    hide EncodeUleb, Join, AssembleAll;
    JoinAssembles([[0x10 + lib], [0x51], [0x40] + n + [0], [0x70 + g] + EncodeUleb(o), [0xA0] + EncodeUleb(v),
                   [0xB0 + imm], [0xC0] + EncodeUleb(count) + EncodeUleb(skip)], ops);
  }

  lemma {:induction false} FormsMean(img: Image, m: Mem, lib: nibble, n: seq<byte>, g: nibble, o: u64, v: u64,
                                     imm: nibble, count: u64, skip: u64, ops: seq<Op>)
    requires 1 <= lib <= img.ndylibs && |n| <= 255 && g < |img.segments|
    requires ops == [SetOrdinalImm(lib), SetType(1), SetSymbol(n), SetSegmentOffset(g, o), DoBindAddAddr(v),
                     DoBindAddAddrScaled(imm), DoBindTimesSkipping(count, skip)]
    ensures var e := BindEffect(img, Said(0, [], 1, 0, 0, 0), m, ops);
            var a, w := img.segments[g], Linked(img, lib, n, 0);
            && e.ok
            && e.mem == PutAll(Store64(Store64(m, (a + o) % 0x1_0000_0000_0000_0000, w),
                                       (a + (o + 8 + v)) % 0x1_0000_0000_0000_0000, w),
                               a, Strided(o + 8 + v + 8 + 8 * imm, count, 8 + skip), w)
  {
    hide Store64, Linked, BindEffect, Sets, Value, PutAll, Strided;
    var c := Said(lib, n, 1, 0, g, o);
    var d, e := c.(off := o + 8 + v), c.(off := o + 8 + v + 8 + 8 * imm);
    SetsForm(lib, n, g, o, ops[..4]);
    assert ops == ops[..4] + ops[4..] && ops[4..][1..] == ops[5..] && ops[5..][1..] == ops[6..];
    SetsRun(img, Said(0, [], 1, 0, 0, 0), m, ops[..4], ops[4..]);
    ValueIs(img, c);
    ValueIs(img, d);
    ValueIs(img, e);
    OnceMeans(img, c, m, ops[4..]);
    var m1 := Store64(m, (img.segments[g] + o) % 0x1_0000_0000_0000_0000, Linked(img, lib, n, 0));
    OnceMeans(img, d, m1, ops[5..]);
    LastTimes(img, e, Store64(m1, (img.segments[g] + (o + 8 + v)) % 0x1_0000_0000_0000_0000, Linked(img, lib, n, 0)),
              count, skip, ops[6..]);
  }

  lemma {:induction false} SetsForm(lib: nibble, n: seq<byte>, g: nibble, o: u64, ops: seq<Op>)
    requires |n| <= 255 && ops == [SetOrdinalImm(lib), SetType(1), SetSymbol(n), SetSegmentOffset(g, o)]
    ensures Sets(Said(0, [], 1, 0, 0, 0), ops) == Said(lib, n, 1, 0, g, o)
  {
    var a, b, c := ops[1..], ops[2..], ops[3..];
    assert a[1..] == b && b[1..] == c && c[1..] == [];
    assert Sets(Said(lib, n, 1, 0, 0, 0), c) == Said(lib, n, 1, 0, g, o);
    assert Sets(Said(lib, [], 1, 0, 0, 0), b) == Said(lib, n, 1, 0, g, o);
  }

  lemma {:induction false} LastTimes(img: Image, c: Said, m: Mem, count: u64, skip: u64, ops: seq<Op>)
    requires ops == [DoBindTimesSkipping(count, skip)] && 1 <= c.ordinal <= img.ndylibs && c.seg < |img.segments|
    ensures var e := BindEffect(img, c, m, ops);
            e.ok && e.mem == PutAll(m, img.segments[c.seg], Strided(c.off, count, 8 + skip), Value(img, c))
  {
    hide Value, PutAll, Strided;
    assert ops[1..] == [];
    assert Bound(c, ops[0]) == Strided(c.off, count, 8 + skip);
  }

  /** What each of those stores: slot `i` of a repeat that does not run into itself holds the word. */
  lemma {:induction false} PutAllMeaning(m: Mem, base: u64, offs: seq<u64>, v: u64, i: nat)
    requires i < |offs|
    requires forall j :: i < j < |offs| ==> Clear((base + offs[i]) % 0x1_0000_0000_0000_0000, base, offs[j])
    ensures Load64(PutAll(m, base, offs, v), (base + offs[i]) % 0x1_0000_0000_0000_0000) == v
    decreases |offs|
  {
    hide Load64, Store64;
    var a := (base + offs[0]) % 0x1_0000_0000_0000_0000;
    var m' := Store64(m, a, v);
    if i == 0 {
      forall j | 0 <= j < |offs[1..]| ensures Clear(a, base, offs[1..][j]) { assert offs[1..][j] == offs[j + 1]; }
      PutAllFrame(m', base, offs[1..], v, a);
      Load64Store64(m, a, v);
    } else {
      forall j | i - 1 < j < |offs[1..]|
        ensures Clear((base + offs[1..][i - 1]) % 0x1_0000_0000_0000_0000, base, offs[1..][j])
      {
        assert offs[1..][j] == offs[j + 1];
      }
      PutAllMeaning(m', base, offs[1..], v, i - 1);
    }
  }

  /** The word at `a` and the one at an offset do not overlap. */
  predicate Clear(a: int, base: u64, off: u64) {
    var b := (base + off) % 0x1_0000_0000_0000_0000;
    a + 8 <= b || b + 8 <= a
  }

  lemma {:induction false} PutAllFrame(m: Mem, base: u64, offs: seq<u64>, v: u64, a: int)
    requires forall j :: 0 <= j < |offs| ==> Clear(a, base, offs[j])
    ensures Load64(PutAll(m, base, offs, v), a) == Load64(m, a)
    decreases |offs|
  {
    hide Load64;
    if offs != [] {
      assert Clear(a, base, offs[0]);
      var m' := Store64(m, (base + offs[0]) % 0x1_0000_0000_0000_0000, v);
      forall j | 0 <= j < |offs[1..]| ensures Clear(a, base, offs[1..][j]) { assert offs[1..][j] == offs[j + 1]; }
      PutAllFrame(m', base, offs[1..], v, a);
      Load64Frame(m, m', a);
    }
  }

  /** A special library number is zero or negative, so binding against one fails and writes nothing. */
  lemma {:induction false} SpecialRefused(img: Image, m: Mem, imm: nibble)
    ensures RunBytes(img, Machine(START, m), Join([[0x30 + imm], [0x90]]), 0).0 == -1
    ensures RunBytes(img, Machine(START, m), Join([[0x30 + imm], [0x90]]), 0).1.mem == m
  {
    hide RunBytes, Join, AssembleAll;
    var ops := [SetSpecialImm(imm), DoBind];
    JoinAssembles([[0x30 + imm], [0x90]], ops);
    WholeStreamBinds(img, m, ops);
    var c := Said(if imm == 0 then 0 else imm - 16, [], 1, 0, 0, 0);
    assert ops == ops[..1] + ops[1..] && ops[..1][1..] == [];
    SetsRun(img, Said(0, [], 1, 0, 0, 0), m, ops[..1], ops[1..]);
    assert Sets(Said(0, [], 1, 0, 0, 0), ops[..1]) == c;
  }

  /** A byte from 0xD0 on, and a symbol with no NUL before the end of the stream, fail where they stand. */
  lemma {:induction false} BadByteFails(img: Image, m: Machine, s: seq<byte>, p: nat)
    requires p < |s|
    requires s[p] >= 0xD0 || (0x40 <= s[p] < 0x50 && forall i :: p < i < |s| ==> s[i] != 0)
    ensures RunBytes(img, m, s, p) == (-1, m)
  {
    hide ReadUleb, ReadSleb, Exec;
    if s[p] < 0xD0 { NoNameEnd(s, p + 1); }
  }

  lemma {:induction false} NoNameEnd(s: seq<byte>, p: nat)
    requires p <= |s| && forall i :: p <= i < |s| ==> s[i] != 0
    ensures NameEnd(s, p) == |s|
    decreases |s| - p
  {
    if p < |s| { NoNameEnd(s, p + 1); }
  }
}
