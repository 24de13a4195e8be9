/** What rebase streams mean, told by their bytes and by the offsets they reach: the offset register is
  * an unbounded integer here, reduced to 64 bits only where a slot is named. */
module RebaseStreams {
  import opened Memory
  import opened Leb
  import opened Rebase

  /** The published encoding of the instructions that go on to the next. */
  function Bytes(op: Op): (s: seq<byte>)
    requires !op.Done? && !op.Unknown?
    ensures |s| > 0
  {
    match op
    case SetType(imm) => [0x10 + imm]
    case SetSegmentOffset(imm, v) => [0x20 + imm] + EncodeUleb(v)
    case AddAddr(v) => [0x30] + EncodeUleb(v)
    case AddAddrScaled(imm) => [0x40 + imm]
    case DoImmTimes(imm) => [0x50 + imm]
    case DoUlebTimes(count) => [0x60] + EncodeUleb(count)
    case DoAddAddr(v) => [0x70] + EncodeUleb(v)
    case DoTimesSkipping(count, skip) => [0x80] + EncodeUleb(count) + EncodeUleb(skip)
  }

  predicate Plain(ops: seq<Op>) { forall i :: 0 <= i < |ops| ==> !ops[i].Done? && !ops[i].Unknown? }

  function Stream(ops: seq<Op>): seq<byte>
    requires Plain(ops)
  {
    if ops == [] then [] else Bytes(ops[0]) + Stream(ops[1..])
  }

  /** Type, segment and offset so far. */
  datatype Cursor = Cursor(typ: nibble, seg: int, off: nat)

  function Strided(off: nat, count: nat, stride: nat): (r: seq<u64>)
    ensures |r| == count
  {
    seq<u64>(count, i requires 0 <= i < count => (off + i * stride) % 0x1_0000_0000_0000_0000)
  }

  /** The offsets that an instruction rebases. */
  function Offsets(off: nat, op: Op): seq<u64> {
    match op
    case DoImmTimes(imm) => Strided(off, imm, 8)
    case DoUlebTimes(count) => Strided(off, count, 8)
    case DoAddAddr(_) => Strided(off, 1, 8)
    case DoTimesSkipping(count, skip) => Strided(off, count, 8 + skip)
    case _ => []
  }

  function After(c: Cursor, op: Op): Cursor {
    match op
    case SetType(imm) => Cursor(imm, c.seg, c.off)
    case SetSegmentOffset(imm, v) => Cursor(c.typ, imm, v)
    case AddAddr(v) => c.(off := c.off + v)
    case AddAddrScaled(imm) => c.(off := c.off + 8 * imm)
    case DoImmTimes(imm) => c.(off := c.off + 8 * imm)
    case DoUlebTimes(count) => c.(off := c.off + 8 * count)
    case DoAddAddr(v) => c.(off := c.off + 8 + v)
    case DoTimesSkipping(count, skip) => c.(off := c.off + count * (8 + skip))
    case _ => c
  }

  function InSegment(seg: nat, offs: seq<u64>): (r: seq<Slot>)
    ensures |r| == |offs| && forall i :: 0 <= i < |r| ==> r[i] == Slot(seg, offs[i])
  {
    seq<Slot>(|offs|, i requires 0 <= i < |offs| => Slot(seg, offs[i]))
  }

  datatype Effect = Effect(ok: bool, at: Cursor, slots: seq<Slot>)

  /** The main image: an instruction that rebases something in a segment there is not stops the pass, and
    * only the pointer type writes. */
  function MainEffect(n: nat, c: Cursor, ops: seq<Op>): Effect
    decreases |ops|
  {
    if ops == [] then Effect(true, c, [])
    else
      var offs := Offsets(c.off, ops[0]);
      if offs != [] && !(0 <= c.seg < n) then Effect(false, c, [])
      else
        var rest := MainEffect(n, After(c, ops[0]), ops[1..]);
        rest.(slots := (if offs != [] && c.typ == 1 then InSegment(c.seg, offs) else []) + rest.slots)
  }

  /** A dylib: a segment there is not is passed over, and the type does not matter. */
  function DylibEffect(n: nat, c: Cursor, ops: seq<Op>): Effect
    decreases |ops|
  {
    if ops == [] then Effect(true, c, [])
    else
      var offs := Offsets(c.off, ops[0]);
      var rest := DylibEffect(n, After(c, ops[0]), ops[1..]);
      rest.(slots := (if 0 <= c.seg < n then InSegment(c.seg, offs) else []) + rest.slots)
  }

  // ---- decoding ----

  lemma {:induction false} FetchBytes(s: seq<byte>, p: nat, op: Op)
    requires !op.Done? && !op.Unknown? && At(s, p, Bytes(op))
    ensures p < |s| && FetchOp(s, p) == (op, p + |Bytes(op)|)
  {
    hide ReadUleb, EncodeUleb;
    AtCons(s, p, Bytes(op));
    if op.SetSegmentOffset? || op.AddAddr? || op.DoAddAddr? {
      assert Bytes(op)[1..] == EncodeUleb(op.value);
      UlebRoundTrip(s, p + 1, op.value);
    } else if op.DoUlebTimes? {
      assert Bytes(op)[1..] == EncodeUleb(op.count);
      UlebRoundTrip(s, p + 1, op.count);
    } else if op.DoTimesSkipping? {
      var a, b := EncodeUleb(op.count), EncodeUleb(op.skip);
      assert Bytes(op)[1..] == a + b;
      AtConcat(s, p + 1, a, b);
      UlebRoundTrip(s, p + 1, op.count);
      UlebRoundTrip(s, p + 1 + |a|, op.skip);
    }
  }

  // ---- repeats ----

  /** The registers of an interpreter at a cursor. */
  function At64(c: Cursor): State { State(c.typ, c.seg, c.off % 0x1_0000_0000_0000_0000) }

  lemma {:induction false} StridedUnfold(off: nat, count: nat, stride: nat)
    requires count > 0
    ensures Strided(off, count, stride) ==
            [off % 0x1_0000_0000_0000_0000] + Strided(off + stride, count - 1, stride)
    ensures off + stride + (count - 1) * stride == off + count * stride
  {
    assert (count - 1) * stride == count * stride - stride;
    forall i | 1 <= i < count
      ensures Strided(off, count, stride)[i] == Strided(off + stride, count - 1, stride)[i - 1]
    {
      assert (i - 1) * stride == i * stride - stride;
    }
  }

  lemma {:induction false} InSegmentCons(seg: nat, x: u64, offs: seq<u64>)
    ensures InSegment(seg, [x] + offs) == [Slot(seg, x)] + InSegment(seg, offs)
  {
  }

  lemma {:induction false} MoveBy(c: Cursor, v: nat)
    ensures Move(At64(c), v) == At64(c.(off := c.off + v))
  {
  }

  lemma {:induction false} MoveAt(c: Cursor, skip: u64)
    ensures Move(Move(At64(c), 8), skip) == At64(c.(off := c.off + (8 + skip)))
  {
    hide Move, At64;
    MoveBy(c, 8);
    MoveBy(c.(off := c.off + 8), skip);
  }

  lemma {:induction false} NoneStrided(c: Cursor, stride: nat)
    ensures Strided(c.off, 0, stride) == [] && c.(off := c.off + 0 * stride) == c
  {
  }

  lemma {:induction false} MainRepeats(n: nat, c: Cursor, count: nat, skip: u64)
    requires 0 <= c.seg < n
    ensures MainRepeat(n, At64(c), count, skip) ==
            (true, At64(c.(off := c.off + count * (8 + skip))),
             if c.typ == 1 then InSegment(c.seg, Strided(c.off, count, 8 + skip)) else [])
    decreases count
  {
    hide At64, Move, Strided, InSegment;
    if count == 0 {
      NoneStrided(c, 8 + skip);
    } else {
      var d := c.(off := c.off + (8 + skip));
      MainRepeats(n, d, count - 1, skip);
      StridedUnfold(c.off, count, 8 + skip);
      hide MainRepeat;
      MainRepeatStep(n, c, count, skip);
      InSegmentCons(c.seg, c.off % 0x1_0000_0000_0000_0000, Strided(d.off, count - 1, 8 + skip));
    }
  }

  lemma {:induction false} MainRepeatStep(n: nat, c: Cursor, count: nat, skip: u64)
    requires 0 <= c.seg < n && count > 0
    ensures var rest := MainRepeat(n, At64(c.(off := c.off + (8 + skip))), count - 1, skip);
            MainRepeat(n, At64(c), count, skip) ==
            (rest.0, rest.1,
             if c.typ == 1 then [Slot(c.seg, c.off % 0x1_0000_0000_0000_0000)] + rest.2 else rest.2)
  {
    MoveAt(c, skip);
    var rest := MainRepeat(n, At64(c.(off := c.off + (8 + skip))), count - 1, skip);
    assert [] + rest.2 == rest.2;
  }

  lemma {:induction false} DylibRepeats(n: nat, c: Cursor, count: nat, skip: u64)
    ensures DylibRepeat(n, At64(c), count, skip) ==
            (At64(c.(off := c.off + count * (8 + skip))),
             if 0 <= c.seg < n then InSegment(c.seg, Strided(c.off, count, 8 + skip)) else [])
    decreases count
  {
    hide At64, Move, Strided, InSegment;
    if count == 0 {
      NoneStrided(c, 8 + skip);
    } else {
      var d := c.(off := c.off + (8 + skip));
      DylibRepeats(n, d, count - 1, skip);
      StridedUnfold(c.off, count, 8 + skip);
      hide DylibRepeat;
      DylibRepeatStep(n, c, count, skip);
      if 0 <= c.seg < n {
        InSegmentCons(c.seg, c.off % 0x1_0000_0000_0000_0000, Strided(d.off, count - 1, 8 + skip));
      }
    }
  }

  lemma {:induction false} DylibRepeatStep(n: nat, c: Cursor, count: nat, skip: u64)
    requires count > 0
    ensures var rest := DylibRepeat(n, At64(c.(off := c.off + (8 + skip))), count - 1, skip);
            DylibRepeat(n, At64(c), count, skip) ==
            (rest.0, if 0 <= c.seg < n then [Slot(c.seg, c.off % 0x1_0000_0000_0000_0000)] + rest.1 else rest.1)
  {
    MoveAt(c, skip);
    var rest := DylibRepeat(n, At64(c.(off := c.off + (8 + skip))), count - 1, skip);
    assert [] + rest.1 == rest.1;
  }

  // ---- one instruction ----

  /** Repeats and distance, as the interpreters name them, against the offsets and the cursor. */
  lemma {:induction false} DoShape(c: Cursor, op: Op)
    requires IsDo(op)
    ensures Strided(c.off, Count(op), 8 + Skip(op)) == Offsets(c.off, op)
    ensures At64(c.(off := c.off + Count(op) * (8 + Skip(op)))) == At64(After(c, op))
  {
    hide At64;
    if op.DoAddAddr? { assert Strided(c.off, 1, 8 + op.value) == Strided(c.off, 1, 8); }
  }

  lemma {:induction false} SetShape(c: Cursor, op: Op)
    requires !IsDo(op)
    ensures SetRegisters(At64(c), op) == At64(After(c, op)) && Offsets(c.off, op) == []
  {
    hide Move;
    if op.AddAddr? {
      MoveBy(c, op.value);
    } else if op.AddAddrScaled? {
      MoveBy(c, 8 * op.imm);
    }
  }

  lemma {:induction false} MainStep(n: nat, c: Cursor, s: seq<byte>, p: nat, op: Op)
    requires !op.Done? && !op.Unknown? && At(s, p, Bytes(op))
    ensures var offs := Offsets(c.off, op);
            MainRun(n, At64(c), s, p) ==
            if offs != [] && !(0 <= c.seg < n) then Result(-1, [])
            else
              var rest := MainRun(n, At64(After(c, op)), s, p + |Bytes(op)|);
              rest.(slots := (if offs != [] && c.typ == 1 then InSegment(c.seg, offs) else []) + rest.slots)
  {
    hide Bytes, FetchOp, MainRun, MainRepeat, Strided, Offsets, After, Count, Skip, SetRegisters, Move;
    FetchBytes(s, p, op);
    MainUnfold(n, At64(c), s, p);
    if !IsDo(op) {
      SetShape(c, op);
    } else {
      DoShape(c, op);
      if 0 <= c.seg < n {
        MainRepeats(n, c, Count(op), Skip(op));
      } else {
        MainRepeatStuck(n, At64(c), Count(op), Skip(op));
        NoneStrided(c, 8 + Skip(op));
      }
    }
  }

  lemma {:induction false} MainRepeatStuck(n: nat, st: State, count: nat, skip: u64)
    requires !(0 <= st.seg < n)
    ensures MainRepeat(n, st, count, skip) == (count == 0, st, [])
  {
  }

  lemma {:induction false} DylibStep(n: nat, c: Cursor, s: seq<byte>, p: nat, op: Op)
    requires !op.Done? && !op.Unknown? && At(s, p, Bytes(op))
    ensures DylibRun(n, At64(c), s, p) ==
            (if 0 <= c.seg < n then InSegment(c.seg, Offsets(c.off, op)) else []) +
            DylibRun(n, At64(After(c, op)), s, p + |Bytes(op)|)
  {
    hide Bytes, FetchOp, DylibRun, DylibRepeat, Strided, Offsets, After, Count, Skip, SetRegisters, At64;
    FetchBytes(s, p, op);
    DylibUnfold(n, At64(c), s, p);
    if IsDo(op) {
      DoShape(c, op);
      DylibRepeats(n, c, Count(op), Skip(op));
    } else {
      SetShape(c, op);
    }
  }

  // ---- whole streams ----

  lemma {:induction false} StreamUnfold(s: seq<byte>, p: nat, ops: seq<Op>)
    requires ops != [] && Plain(ops) && At(s, p, Stream(ops))
    ensures At(s, p, Bytes(ops[0])) && At(s, p + |Bytes(ops[0])|, Stream(ops[1..]))
    ensures |Stream(ops)| == |Bytes(ops[0])| + |Stream(ops[1..])|
  {
    hide Bytes;
    AtConcat(s, p, Bytes(ops[0]), Stream(ops[1..]));
  }

  /** Whatever the bytes after them, the main interpreter does what the instructions mean and goes on, or
    * stops with -1 at the first that rebases in no segment. */
  lemma {:induction false} MainMeaning(n: nat, c: Cursor, s: seq<byte>, p: nat, ops: seq<Op>)
    requires Plain(ops) && At(s, p, Stream(ops))
    ensures var e := MainEffect(n, c, ops);
            MainRun(n, At64(c), s, p) ==
            if !e.ok then Result(-1, e.slots)
            else
              var rest := MainRun(n, At64(e.at), s, p + |Stream(ops)|);
              Result(rest.rc, e.slots + rest.slots)
    decreases |ops|
  {
    hide Bytes, MainRun, Stream, Offsets, After, At64;
    if ops == [] {
      EmptyStream();
      var rest := MainRun(n, At64(c), s, p);
      assert [] + rest.slots == rest.slots;
    } else {
      StreamUnfold(s, p, ops);
      MainStep(n, c, s, p, ops[0]);
      MainMeaning(n, After(c, ops[0]), s, p + |Bytes(ops[0])|, ops[1..]);
    }
  }

  lemma {:induction false} EmptyStream()
    ensures Stream([]) == []
  {
  }

  lemma {:induction false} DylibMeaning(n: nat, c: Cursor, s: seq<byte>, p: nat, ops: seq<Op>)
    requires Plain(ops) && At(s, p, Stream(ops))
    ensures var e := DylibEffect(n, c, ops);
            DylibRun(n, At64(c), s, p) == e.slots + DylibRun(n, At64(e.at), s, p + |Stream(ops)|)
    decreases |ops|
  {
    hide Bytes, DylibRun, Stream, Offsets, After, At64;
    if ops == [] {
      EmptyStream();
      var rest := DylibRun(n, At64(c), s, p);
      assert [] + rest == rest;
    } else {
      StreamUnfold(s, p, ops);
      DylibStep(n, c, s, p, ops[0]);
      DylibMeaning(n, After(c, ops[0]), s, p + |Bytes(ops[0])|, ops[1..]);
    }
  }

  /** Where a stream ends: past its last byte, at a byte below 0x10, and with an error at a byte from 0x90
    * on, which a dylib takes for an end as well. */
  lemma {:induction false} StreamEnds(n: nat, st: State, s: seq<byte>, p: nat)
    requires p <= |s|
    ensures p == |s| || s[p] < 0x10 ==> MainRun(n, st, s, p) == Result(0, [])
    ensures p < |s| && s[p] >= 0x90 ==> MainRun(n, st, s, p) == Result(-1, [])
    ensures p == |s| || s[p] < 0x10 || s[p] >= 0x90 ==> DylibRun(n, st, s, p) == []
  {
    hide MainRun, DylibRun, ReadUleb, MainRepeat, DylibRepeat;
    MainUnfold(n, st, s, p);
    DylibUnfold(n, st, s, p);
  }

  /** A whole stream, from the state that each pass starts in: the main pass starts at segment 0 with type 0,
    * the dylib pass at no segment. */
  lemma {:induction false} WholeStream(n: nat, ops: seq<Op>, end: seq<byte>)
    requires Plain(ops) && (end == [] || end[0] < 0x10 || end[0] >= 0x90)
    ensures var e := MainEffect(n, Cursor(0, 0, 0), ops);
            MainRun(n, MAIN_START, Stream(ops) + end, 0) ==
            Result(if !e.ok || (end != [] && end[0] >= 0x90) then -1 else 0, e.slots)
    ensures DylibRun(n, DYLIB_START, Stream(ops) + end, 0) == DylibEffect(n, Cursor(0, -1, 0), ops).slots
  {
    hide MainRun, DylibRun, Stream, MainEffect, DylibEffect;
    var s, q := Stream(ops) + end, |Stream(ops)|;
    assert At(s, 0, Stream(ops));
    var c, d := Cursor(0, 0, 0), Cursor(0, -1, 0);
    MainMeaning(n, c, s, 0, ops);
    DylibMeaning(n, d, s, 0, ops);
    StreamEnds(n, At64(MainEffect(n, c, ops).at), s, q);
    StreamEnds(n, At64(DylibEffect(n, d, ops).at), s, q);
    var e, f := MainEffect(n, c, ops).slots, DylibEffect(n, d, ops).slots;
    assert e + [] == e && f + [] == f;
  }

  /** The main pass over a file: an empty range is success, one that ends past the file is failure, neither
    * touches memory, and a stream that is in the file rebases the slots that it means. */
  lemma {:induction false} FileRebases(m: Mem, slid: seq<u64>, slide: int, file: seq<byte>, off: u32, size: u32,
                                       ops: seq<Op>)
    ensures size == 0 ==> MainRange(m, slid, slide, file, off, size) == (0, m)
    ensures size != 0 && (off + size) % 0x1_0000_0000 > |file| ==>
              MainRange(m, slid, slide, file, off, size) == (-1, m)
    ensures Plain(ops) && size == |Stream(ops)| && off + size < 0x1_0000_0000 && off + size <= |file| &&
            file[off..off + size] == Stream(ops) ==>
              var e := MainEffect(|slid|, Cursor(0, 0, 0), ops);
              && InTable(|slid|, e.slots)
              && MainRange(m, slid, slide, file, off, size) ==
                 (if e.ok then 0 else -1, RebaseAll(m, Targets(slid, e.slots), slide))
  {
    hide MainRun, MainEffect, RebaseAll, Targets, Bytes;
    if Plain(ops) && size == |Stream(ops)| && off + size < 0x1_0000_0000 && off + size <= |file| &&
       file[off..off + size] == Stream(ops)
    {
      WholeStream(|slid|, ops, []);
      assert Stream(ops) + [] == Stream(ops);
      WindowInside(file, off, size);
      MainInTable(|slid|, MAIN_START, Stream(ops), 0);
      if size == 0 {
        NothingMeant(|slid|, ops);
        RebaseNothing(m, slid, slide);
      }
    }
  }

  lemma {:induction false} NothingMeant(n: nat, ops: seq<Op>)
    requires Plain(ops) && Stream(ops) == []
    ensures ops == [] && MainEffect(n, Cursor(0, 0, 0), ops) == Effect(true, Cursor(0, 0, 0), [])
  {
    hide Bytes;
  }

  /** `count` pointers, `skip` bytes apart, from an offset of a segment on: both passes rebase exactly those. */
  lemma {:induction false} SkippingRebases(n: nat, seg: nibble, off: u64, count: u64, skip: u64)
    requires seg < n
    ensures var s := [0x11, 0x20 + seg] + EncodeUleb(off) + [0x80] + EncodeUleb(count) + EncodeUleb(skip) + [0x00];
            var slots := seq<Slot>(count, i requires 0 <= i < count =>
              Slot(seg, (off + i * (8 + skip)) % 0x1_0000_0000_0000_0000));
            MainRun(n, MAIN_START, s, 0) == Result(0, slots) && DylibRun(n, DYLIB_START, s, 0) == slots
  {
    hide MainRun, DylibRun, EncodeUleb;
    var ops := [SetType(1), SetSegmentOffset(seg, off), DoTimesSkipping(count, skip)];
    SkippingStream(seg, off, count, skip, ops);
    WholeStream(n, ops, [0x00]);
    SkippingEffect(n, seg, off, count, skip, ops);
    assert InSegment(seg, Strided(off, count, 8 + skip)) ==
           seq<Slot>(count, i requires 0 <= i < count =>
              Slot(seg, (off + i * (8 + skip)) % 0x1_0000_0000_0000_0000));
  }

  lemma {:induction false} SkippingStream(seg: nibble, off: u64, count: u64, skip: u64, ops: seq<Op>)
    requires ops == [SetType(1), SetSegmentOffset(seg, off), DoTimesSkipping(count, skip)]
    ensures Plain(ops)
    ensures Stream(ops) + [0x00] ==
            [0x11, 0x20 + seg] + EncodeUleb(off) + [0x80] + EncodeUleb(count) + EncodeUleb(skip) + [0x00]
  {
    hide EncodeUleb;
    var b, c := ops[1..], ops[2..];
    assert b[0] == SetSegmentOffset(seg, off) && b[1..] == c && c[0] == DoTimesSkipping(count, skip) && c[1..] == [];
    assert Stream(c) == [0x80] + EncodeUleb(count) + EncodeUleb(skip);
    assert Stream(b) == [0x20 + seg] + EncodeUleb(off) + Stream(c);
    assert Stream(ops) == [0x11] + Stream(b);
  }

  lemma {:induction false} SkippingEffect(n: nat, seg: nibble, off: u64, count: u64, skip: u64, ops: seq<Op>)
    requires seg < n && ops == [SetType(1), SetSegmentOffset(seg, off), DoTimesSkipping(count, skip)]
    ensures MainEffect(n, Cursor(0, 0, 0), ops).ok
    ensures MainEffect(n, Cursor(0, 0, 0), ops).slots == InSegment(seg, Strided(off, count, 8 + skip))
    ensures DylibEffect(n, Cursor(0, -1, 0), ops).slots == InSegment(seg, Strided(off, count, 8 + skip))
  {
    hide Strided, InSegment;
    var a, b := ops[1..], ops[2..];
    assert a[0] == SetSegmentOffset(seg, off) && a[1..] == b && b[0] == DoTimesSkipping(count, skip) && b[1..] == [];
    var here := InSegment(seg, Strided(off, count, 8 + skip));
    var c := Cursor(1, seg, off);
    assert here + [] == here && [] + here == here;
    assert MainEffect(n, c, b).ok && MainEffect(n, c, b).slots == here;
    assert DylibEffect(n, c, b).slots == here;
    assert MainEffect(n, Cursor(1, 0, 0), a).slots == here;
    assert DylibEffect(n, Cursor(1, -1, 0), a).slots == here;
  }
}
