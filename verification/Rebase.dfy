/** The rebase bytecode and its two interpreters, one for the main image and one for dylibs. */
module Rebase {
  import opened Memory
  import opened Leb

  type nibble = n: int | 0 <= n < 16

  const TYPE_POINTER: nibble := 1

  datatype Op =
    | Done
    | SetType(imm: nibble)
    | SetSegmentOffset(imm: nibble, value: u64)
    | AddAddr(value: u64)
    | AddAddrScaled(imm: nibble)
    | DoImmTimes(imm: nibble)
    | DoUlebTimes(count: u64)
    | DoAddAddr(value: u64)
    | DoTimesSkipping(count: u64, skip: u64)
    | Unknown

  function FetchOp(s: seq<byte>, p: nat): (f: (Op, nat))
    requires p < |s|
    ensures p < f.1 <= |s|
  {
    var op, imm := s[p] / 16, s[p] % 16;
    var (v, n) := ReadUleb(s, p + 1);
    if op == 0 then (Done, p + 1)
    else if op == 1 then (SetType(imm), p + 1)
    else if op == 2 then (SetSegmentOffset(imm, v), n)
    else if op == 3 then (AddAddr(v), n)
    else if op == 4 then (AddAddrScaled(imm), p + 1)
    else if op == 5 then (DoImmTimes(imm), p + 1)
    else if op == 6 then (DoUlebTimes(v), n)
    else if op == 7 then (DoAddAddr(v), n)
    else if op == 8 then var (k, e) := ReadUleb(s, n); (DoTimesSkipping(v, k), e)
    else (Unknown, p + 1)
  }

  datatype State = State(typ: nibble, seg: int, off: u64)

  /** A pointer slot by segment index and offset. */
  datatype Slot = Slot(seg: nat, off: u64)

  datatype Result = Result(rc: int, slots: seq<Slot>)

  const MAIN_START := State(0, 0, 0)
  const DYLIB_START := State(0, -1, 0)

  function Move(st: State, delta: int): State { st.(off := Wrap(st.off + delta)) }

  /** Number of rebases and extra distance after each, for the instructions that rebase. */
  function Count(op: Op): nat {
    match op
    case DoImmTimes(imm) => imm
    case DoUlebTimes(c) => c
    case DoAddAddr(_) => 1
    case DoTimesSkipping(c, _) => c
    case _ => 0
  }

  function Skip(op: Op): u64 {
    match op
    case DoAddAddr(v) => v
    case DoTimesSkipping(_, k) => k
    case _ => 0
  }

  predicate IsDo(op: Op) { op.DoImmTimes? || op.DoUlebTimes? || op.DoAddAddr? || op.DoTimesSkipping? }

  /** The instructions that only set registers. */
  function SetRegisters(st: State, op: Op): State {
    match op
    case SetType(imm) => st.(typ := imm)
    case SetSegmentOffset(imm, v) => st.(seg := imm, off := v)
    case AddAddr(v) => Move(st, v)
    case AddAddrScaled(imm) => Move(st, imm * 8)
    case _ => st
  }

  // ---- main image: a bad segment index fails the pass, a type other than pointer writes nothing ----

  function MainRepeat(n: nat, st: State, count: nat, skip: u64): (r: (bool, State, seq<Slot>))
    decreases count
  {
    if count == 0 then (true, st, [])
    else if st.seg < 0 || st.seg >= n then (false, st, [])
    else
      var rest := MainRepeat(n, Move(Move(st, 8), skip), count - 1, skip);
      (rest.0, rest.1, (if st.typ == TYPE_POINTER then [Slot(st.seg, st.off)] else []) + rest.2)
  }

  function MainRun(n: nat, st: State, s: seq<byte>, p: nat): Result
    requires p <= |s|
    decreases |s| - p
  {
    if p == |s| then Result(0, [])
    else
      var (op, next) := FetchOp(s, p);
      if op.Done? then Result(0, [])
      else if op.Unknown? then Result(-1, [])
      else if IsDo(op) then
        var r := MainRepeat(n, st, Count(op), Skip(op));
        if !r.0 then Result(-1, r.2)
        else var rest := MainRun(n, r.1, s, next); rest.(slots := r.2 + rest.slots)
      else MainRun(n, SetRegisters(st, op), s, next)
  }

  // ---- dylib: a bad segment index is skipped over, the type is ignored ----

  function DylibRepeat(n: nat, st: State, count: nat, skip: u64): (r: (State, seq<Slot>))
    decreases count
  {
    if count == 0 then (st, [])
    else
      var rest := DylibRepeat(n, Move(Move(st, 8), skip), count - 1, skip);
      (rest.0, (if 0 <= st.seg < n then [Slot(st.seg, st.off)] else []) + rest.1)
  }

  function DylibRun(n: nat, st: State, s: seq<byte>, p: nat): seq<Slot>
    requires p <= |s|
    decreases |s| - p
  {
    if p == |s| then []
    else
      var (op, next) := FetchOp(s, p);
      if op.Done? || op.Unknown? then []
      else if IsDo(op) then
        var r := DylibRepeat(n, st, Count(op), Skip(op));
        r.1 + DylibRun(n, r.0, s, next)
      else DylibRun(n, SetRegisters(st, op), s, next)
  }

  // ---- agreement ----

  /** A stream that sets the pointer type and a segment before it first rebases and sets nothing else
    * than the pointer type and recorded segments, up to where it stops. */
  predicate Disciplined(n: nat, s: seq<byte>, p: nat, typed: bool, placed: bool)
    requires p <= |s|
    decreases |s| - p
  {
    p == |s| ||
    var (op, next) := FetchOp(s, p);
    op.Done? || op.Unknown? ||
    ((op.SetType? ==> op.imm == TYPE_POINTER) &&
     (op.SetSegmentOffset? ==> op.imm < n) &&
     (IsDo(op) && Count(op) > 0 ==> typed && placed) &&
     Disciplined(n, s, next, typed || op.SetType?, placed || op.SetSegmentOffset?))
  }

  predicate Related(n: nat, a: State, d: State, typed: bool, placed: bool) {
    && a.off == d.off && (typed ==> a.typ == TYPE_POINTER)
    && (placed ==> a.seg == d.seg && 0 <= a.seg < n)
  }

  lemma {:induction false} RepeatAgrees(n: nat, a: State, d: State, typed: bool, placed: bool, count: nat, skip: u64)
    requires Related(n, a, d, typed, placed) && (count > 0 ==> typed && placed)
    ensures var r, q := MainRepeat(n, a, count, skip), DylibRepeat(n, d, count, skip);
            r.0 && r.2 == q.1 && Related(n, r.1, q.0, typed, placed)
    decreases count
  {
    if count > 0 { RepeatAgrees(n, Move(Move(a, 8), skip), Move(Move(d, 8), skip), typed, placed, count - 1, skip); }
  }

  lemma {:induction false} RunsAgreeFrom(n: nat, a: State, d: State, typed: bool, placed: bool, s: seq<byte>, p: nat)
    requires p <= |s| && Related(n, a, d, typed, placed) && Disciplined(n, s, p, typed, placed)
    ensures MainRun(n, a, s, p).slots == DylibRun(n, d, s, p)
    decreases |s| - p
  {
    hide FetchOp, MainRepeat, DylibRepeat;
    if p < |s| {
      var (op, next) := FetchOp(s, p);
      if !op.Done? && !op.Unknown? {
        if IsDo(op) {
          RepeatAgrees(n, a, d, typed, placed, Count(op), Skip(op));
          RunsAgreeFrom(n, MainRepeat(n, a, Count(op), Skip(op)).1, DylibRepeat(n, d, Count(op), Skip(op)).0,
                        typed, placed, s, next);
        } else {
          RunsAgreeFrom(n, SetRegisters(a, op), SetRegisters(d, op), typed || op.SetType?,
                        placed || op.SetSegmentOffset?, s, next);
        }
      }
    }
  }

  // ---- memory ----

  function RebaseAt(m: Mem, a: int, slide: int): Mem {
    Store64(m, a, Wrap(Load64(m, a) + slide))
  }

  function RebaseAll(m: Mem, addrs: seq<int>, slide: int): Mem
    decreases |addrs|
  {
    if addrs == [] then m else RebaseAll(RebaseAt(m, addrs[0], slide), addrs[1..], slide)
  }

  /** Where a slot is, given the addresses of the segments. */
  function Targets(vmaddrs: seq<u64>, slots: seq<Slot>): (r: seq<int>)
    requires forall i :: 0 <= i < |slots| ==> slots[i].seg < |vmaddrs|
    ensures |r| == |slots| && forall i :: 0 <= i < |slots| ==> r[i] == Wrap(vmaddrs[slots[i].seg] + slots[i].off)
  {
    if slots == [] then [] else [Wrap(vmaddrs[slots[0].seg] + slots[0].off)] + Targets(vmaddrs, slots[1..])
  }

  predicate InTable(n: nat, slots: seq<Slot>) { forall i :: 0 <= i < |slots| ==> slots[i].seg < n }

  lemma {:induction false} MainRepeatInTable(n: nat, st: State, count: nat, skip: u64)
    ensures InTable(n, MainRepeat(n, st, count, skip).2)
    decreases count
  {
    if count > 0 { MainRepeatInTable(n, Move(Move(st, 8), skip), count - 1, skip); }
  }

  lemma {:induction false} MainInTable(n: nat, st: State, s: seq<byte>, p: nat)
    requires p <= |s|
    ensures InTable(n, MainRun(n, st, s, p).slots)
    decreases |s| - p
  {
    hide FetchOp, MainRepeat;
    if p < |s| {
      var (op, next) := FetchOp(s, p);
      if !op.Done? && !op.Unknown? {
        if IsDo(op) {
          MainRepeatInTable(n, st, Count(op), Skip(op));
          MainInTable(n, MainRepeat(n, st, Count(op), Skip(op)).1, s, next);
        } else {
          MainInTable(n, SetRegisters(st, op), s, next);
        }
      }
    }
  }

  /** Memory after the main-image pass: segment addresses are already slid. */
  function MainMemory(m: Mem, slid: seq<u64>, slide: int, s: seq<byte>): Mem {
    MainInTable(|slid|, MAIN_START, s, 0);
    RebaseAll(m, Targets(slid, MainRun(|slid|, MAIN_START, s, 0).slots), slide)
  }

  /** Return code and memory of the main-image pass over the given range of the file. */
  function MainRange(m: Mem, slid: seq<u64>, slide: int, file: seq<byte>, off: u32, size: u32): (int, Mem) {
    if size == 0 then (0, m)
    else if PastEnd(off, size, |file|) then (-1, m)
    else (MainRun(|slid|, MAIN_START, Window(file, off, size), 0).rc, MainMemory(m, slid, slide, Window(file, off,
        size)))
  }

  function DylibTargets(vmaddrs: seq<u64>, slide: int, slots: seq<Slot>): (r: seq<int>)
    requires InTable(|vmaddrs|, slots)
    ensures |r| == |slots| && forall i :: 0 <= i < |slots| ==>
              r[i] == Wrap(vmaddrs[slots[i].seg] + slots[i].off + slide)
  {
    if slots == [] then [] else [Wrap(vmaddrs[slots[0].seg] + slots[0].off + slide)] + DylibTargets(vmaddrs, slide,
        slots[1..])
  }

  function Slid(vmaddrs: seq<u64>, slide: int): (r: seq<u64>)
    ensures |r| == |vmaddrs| && forall i :: 0 <= i < |r| ==> r[i] == Wrap(vmaddrs[i] + slide)
  {
    seq<u64>(|vmaddrs|, i requires 0 <= i < |vmaddrs| => Wrap(vmaddrs[i] + slide))
  }

  lemma {:induction false} SameTargets(vmaddrs: seq<u64>, slide: int, slots: seq<Slot>)
    requires InTable(|vmaddrs|, slots)
    ensures Targets(Slid(vmaddrs, slide), slots) == DylibTargets(vmaddrs, slide, slots)
  {
    hide Targets, DylibTargets, Slid;
    forall i | 0 <= i < |slots|
      ensures Targets(Slid(vmaddrs, slide), slots)[i] == DylibTargets(vmaddrs, slide, slots)[i]
    {
      WrapWrap(vmaddrs[slots[i].seg] + slide, slots[i].off);
    }
  }

  lemma {:induction false} WrapWrap(x: int, y: int)
    ensures Wrap(Wrap(x) + y) == Wrap(x + y)
  {
  }

  /** On every disciplined stream, also one that stops at an unknown opcode, the two interpreters
    * perform the same memory updates. */
  lemma {:induction false} InterpretersAgree(m: Mem, vmaddrs: seq<u64>, slide: int, s: seq<byte>)
    requires Disciplined(|vmaddrs|, s, 0, false, false)
    ensures InTable(|vmaddrs|, DylibRun(|vmaddrs|, DYLIB_START, s, 0))
    ensures MainMemory(m, Slid(vmaddrs, slide), slide, s) ==
            RebaseAll(m, DylibTargets(vmaddrs, slide, DylibRun(|vmaddrs|, DYLIB_START, s, 0)), slide)
  {
    hide MainRun, DylibRun, Disciplined, Slid, RebaseAll;
    var n := |vmaddrs|;
    RunsAgreeFrom(n, MAIN_START, DYLIB_START, false, false, s, 0);
    MainInTable(n, MAIN_START, s, 0);
    SameTargets(vmaddrs, slide, DylibRun(n, DYLIB_START, s, 0));
  }

  /** Without the type the main interpreter rebases nothing and the dylib one does. */
  lemma {:induction false} UntypedStreamDiffers(n: nat, s: seq<byte>)
    requires n > 0 && s == [0x20, 0x00, 0x51]
    ensures MainRun(n, MAIN_START, s, 0) == Result(0, []) && DylibRun(n, DYLIB_START, s, 0) == [Slot(0, 0)]
  {
    UntypedOps(s);
    hide FetchOp, MainRepeat, DylibRepeat;
    var a, d := SetRegisters(MAIN_START, SetSegmentOffset(0, 0)), SetRegisters(DYLIB_START, SetSegmentOffset(0, 0));
    RepeatOnce(n, a, 1, 0);
    RepeatOnce(n, d, 1, 0);
    assert MainRun(n, a, s, 2) == Result(0, []);
    assert DylibRun(n, d, s, 2) == [Slot(0, 0)];
  }

  /** Without a segment the main interpreter rebases the start of the first one and the dylib one nothing. */
  lemma {:induction false} UnplacedStreamDiffers(n: nat, s: seq<byte>)
    requires n > 0 && s == [0x11, 0x51]
    ensures MainRun(n, MAIN_START, s, 0) == Result(0, [Slot(0, 0)]) && DylibRun(n, DYLIB_START, s, 0) == []
  {
    UnplacedOps(s);
    hide FetchOp, MainRepeat, DylibRepeat;
    var a, d := SetRegisters(MAIN_START, SetType(1)), SetRegisters(DYLIB_START, SetType(1));
    RepeatOnce(n, a, 1, 0);
    RepeatNowhere(n, d, 1, 0);
    assert MainRun(n, a, s, 1) == Result(0, [Slot(0, 0)]);
    assert DylibRun(n, d, s, 1) == [];
  }

  lemma {:induction false} UnplacedOps(s: seq<byte>)
    requires s == [0x11, 0x51]
    ensures FetchOp(s, 0) == (SetType(1), 1) && FetchOp(s, 1) == (DoImmTimes(1), 2)
  {
  }

  lemma {:induction false} RepeatNowhere(n: nat, st: State, count: nat, skip: u64)
    requires !(0 <= st.seg < n)
    ensures DylibRepeat(n, st, count, skip).1 == []
    decreases count
  {
    if count > 0 { RepeatNowhere(n, Move(Move(st, 8), skip), count - 1, skip); }
  }

  lemma {:induction false} RepeatOnce(n: nat, st: State, count: nat, skip: u64)
    requires count == 1 && 0 <= st.seg < n
    ensures MainRepeat(n, st, count, skip) ==
            (true, Move(Move(st, 8), skip), if st.typ == TYPE_POINTER then [Slot(st.seg, st.off)] else [])
    ensures DylibRepeat(n, st, count, skip) == (Move(Move(st, 8), skip), [Slot(st.seg, st.off)])
  {
    hide Move;
    var st' := Move(Move(st, 8), skip);
    assert MainRepeat(n, st', count - 1, skip) == (true, st', []);
    assert DylibRepeat(n, st', count - 1, skip) == (st', []);
    var none: seq<Slot> := [];
    assert [Slot(st.seg, st.off)] + none == [Slot(st.seg, st.off)] && none + none == none;
  }

  lemma {:induction false} UntypedOps(s: seq<byte>)
    requires s == [0x20, 0x00, 0x51]
    ensures FetchOp(s, 0) == (SetSegmentOffset(0, 0), 2) && FetchOp(s, 2) == (DoImmTimes(1), 3)
  {
    assert At(s, 1, EncodeUleb(0));
    UlebRoundTrip(s, 1, 0);
  }

  // ---- the generator ----

  /** rebase_bytecode_for_pointer: `count` pointers from an offset of a segment on. */
  function Bytecode(segment: int, offset: u64, count: int): seq<byte> {
    [0x10 + 1, 0x20 + segment % 16] + EncodeUleb(offset) + [0x50 + count % 16, 0x00]
  }

  function Consecutive(segment: nat, offset: u64, count: nat): (r: seq<Slot>)
    ensures |r| == count
    decreases count
  {
    if count == 0 then [] else [Slot(segment, offset)] + Consecutive(segment, Wrap(offset + 8), count - 1)
  }

  lemma {:induction false} RepeatConsecutive(n: nat, st: State, count: nat)
    requires st.typ == TYPE_POINTER && 0 <= st.seg < n
    ensures MainRepeat(n, st, count, 0).0 && MainRepeat(n, st, count, 0).2 == Consecutive(st.seg, st.off, count)
    decreases count
  {
    if count > 0 {
      assert Move(Move(st, 8), 0) == Move(st, 8);
      RepeatConsecutive(n, Move(st, 8), count - 1);
    }
  }

  /** Round trip: the generated stream rebases exactly the requested run of pointers and returns 0,
    * as the four-bit fields read. */
  lemma {:induction false} GeneratedRebases(n: nat, segment: int, offset: u64, count: int)
    requires segment % 16 < n
    ensures MainRun(n, MAIN_START, Bytecode(segment, offset, count), 0) ==
            Result(0, Consecutive(segment % 16, offset, count % 16))
  {
    var s, e := Bytecode(segment, offset, count), EncodeUleb(offset);
    var k := 2 + |e|;
    assert At(s, 2, e);
    UlebRoundTrip(s, 2, offset);
    assert FetchOp(s, 0) == (SetType(1), 1);
    assert FetchOp(s, 1) == (SetSegmentOffset(segment % 16, offset), k);
    assert FetchOp(s, k) == (DoImmTimes(count % 16), k + 1) && FetchOp(s, k + 1) == (Done, k + 2);
    hide FetchOp, Bytecode, EncodeUleb, MainRun, MainRepeat;
    var st := State(1, segment % 16, offset);
    MainUnfold(n, MAIN_START, s, 0);
    MainUnfold(n, State(1, 0, 0), s, 1);
    MainUnfold(n, st, s, k);
    RepeatConsecutive(n, st, count % 16);
    var st' := MainRepeat(n, st, count % 16, 0).1;
    MainUnfold(n, st', s, k + 1);
    var slots := Consecutive(segment % 16, offset, count % 16);
    assert slots + [] == slots;
  }

  // ---- the passes as they run ----

  lemma {:induction false} RebaseConcat(m: Mem, a: seq<int>, b: seq<int>, slide: int)
    ensures RebaseAll(m, a + b, slide) == RebaseAll(RebaseAll(m, a, slide), b, slide)
    decreases |a|
  {
    hide RebaseAt;
    if a == [] {
      assert a + b == b;
    } else {
      assert (a + b)[1..] == a[1..] + b;
      RebaseConcat(RebaseAt(m, a[0], slide), a[1..], b, slide);
    }
  }

  lemma {:induction false} RebaseOneMore(m: Mem, vmaddrs: seq<u64>, done: seq<Slot>, x: Slot, slide: int)
    requires InTable(|vmaddrs|, done) && x.seg < |vmaddrs|
    ensures InTable(|vmaddrs|, done + [x])
    ensures RebaseAll(m, Targets(vmaddrs, done + [x]), slide) ==
            RebaseAt(RebaseAll(m, Targets(vmaddrs, done), slide), Wrap(vmaddrs[x.seg] + x.off), slide)
  {
    hide RebaseAt, Targets, Wrap, RebaseAll;
    var a := Wrap(vmaddrs[x.seg] + x.off);
    assert Targets(vmaddrs, done + [x]) == Targets(vmaddrs, done) + [a];
    RebaseConcat(m, Targets(vmaddrs, done), [a], slide);
    RebaseSingle(RebaseAll(m, Targets(vmaddrs, done), slide), a, slide);
  }

  lemma {:induction false} RebaseSingle(m: Mem, a: int, slide: int)
    ensures RebaseAll(m, [a], slide) == RebaseAt(m, a, slide)
  {
    hide RebaseAt;
    assert [a][1..] == [];
    assert RebaseAll(m, [a], slide) == RebaseAll(RebaseAt(m, a, slide), [], slide);
  }

  class Pass {
    var mem: Mem
    /** The slots rebased so far. */
    ghost var done: seq<Slot>

    constructor (m: Mem)
      ensures mem == m && done == []
    {
      mem, done := m, [];
    }

    /** One pointer at one slot. */
    method RebaseSlot(vmaddrs: seq<u64>, slide: int, x: Slot, target: u64, ghost m0: Mem)
      requires InTable(|vmaddrs|, done) && mem == RebaseAll(m0, Targets(vmaddrs, done), slide)
      requires x.seg < |vmaddrs| && target == Wrap(vmaddrs[x.seg] + x.off)
      modifies this
      ensures done == old(done) + [x] && InTable(|vmaddrs|, done)
      ensures mem == RebaseAll(m0, Targets(vmaddrs, done), slide)
    {
      hide RebaseAll, Targets;
      RebaseOneMore(m0, vmaddrs, done, x, slide);
      mem := Store64(mem, target, Wrap(Load64(mem, target) + slide));
      done := done + [x];
    }

    /** DO_ONE_REBASE `count` times with `skip` after each; false when the pass must return -1. */
    method RepeatMain(slid: seq<u64>, slide: int, st0: State, count: nat, skip: u64, ghost m0: Mem)
      returns (ok: bool, st: State)
      requires InTable(|slid|, done) && mem == RebaseAll(m0, Targets(slid, done), slide)
      modifies this
      ensures InTable(|slid|, done) && mem == RebaseAll(m0, Targets(slid, done), slide)
      ensures var r := MainRepeat(|slid|, st0, count, skip); ok == r.0 && (ok ==> st == r.1) && done == old(done) + r.2
    {
      hide RebaseAll, Targets, Move;
      st := st0;
      var i := 0;
      while i < count
        invariant 0 <= i <= count
        invariant InTable(|slid|, done) && mem == RebaseAll(m0, Targets(slid, done), slide)
        invariant var r, q := MainRepeat(|slid|, st0, count, skip), MainRepeat(|slid|, st, count - i, skip);
                  r.0 == q.0 && r.1 == q.1 && old(done) + r.2 == done + q.2
      {
        if st.seg < 0 || st.seg >= |slid| { return false, st; }
        ghost var x, rest := Slot(st.seg, st.off), MainRepeat(|slid|, Move(Move(st, 8), skip), count - i - 1, skip).2;
        assert done + ([x] + rest) == done + [x] + rest && [] + rest == rest;
        if st.typ == TYPE_POINTER { RebaseSlot(slid, slide, Slot(st.seg, st.off), Wrap(slid[st.seg] + st.off), m0); }
        st := Move(Move(st, 8), skip);
        i := i + 1;
      }
      ok := true;
    }

    /** execute_rebases; the recorded segment addresses are slid. */
    method ExecuteRebases(slid: seq<u64>, slide: int, file: seq<byte>, off: u32, size: u32) returns (rc: int)
      requires done == []
      modifies this
      ensures (rc, mem) == MainRange(old(mem), slid, slide, file, off, size)
    {
      if size == 0 { return 0; }
      if PastEnd(off, size, |file|) { return -1; }
      rc := InterpretMain(slid, slide, Window(file, off, size));
    }

    /** The opcode loop of execute_rebases. */
    method InterpretMain(slid: seq<u64>, slide: int, s: seq<byte>) returns (rc: int)
      requires done == []
      modifies this
      ensures rc == MainRun(|slid|, MAIN_START, s, 0).rc && done == MainRun(|slid|, MAIN_START, s, 0).slots
      ensures mem == MainMemory(old(mem), slid, slide, s)
    {
      hide RebaseAll, Targets, MainRepeat, MainRun, FetchOp;
      ghost var m0 := mem;
      ghost var whole := MainRun(|slid|, MAIN_START, s, 0);
      RebaseNothing(m0, slid, slide);
      var st, p := MAIN_START, 0;
      while p < |s|
        invariant 0 <= p <= |s|
        invariant InTable(|slid|, done) && mem == RebaseAll(m0, Targets(slid, done), slide)
        invariant var r := MainRun(|slid|, st, s, p); whole == Result(r.rc, done + r.slots)
        decreases |s| - p
      {
        MainUnfold(|slid|, st, s, p);
        var op, next := Decode(s, p);
        if op.Done? { return 0; }
        if op.Unknown? { return -1; }
        if IsDo(op) {
          var ok;
          ghost var r := MainRepeat(|slid|, st, Count(op), Skip(op));
          ghost var before, tail := done, MainRun(|slid|, r.1, s, next).slots;
          ok, st := RepeatMain(slid, slide, st, Count(op), Skip(op), m0);
          assert before + (r.2 + tail) == done + tail;
          if !ok { return -1; }
        } else {
          st := SetRegisters(st, op);
        }
        p := next;
      }
      MainUnfold(|slid|, st, s, p);
      rc := 0;
    }

    method RepeatDylib(vmaddrs: seq<u64>, slide: int, st0: State, count: nat, skip: u64, ghost m0: Mem)
      returns (st: State)
      requires InTable(|vmaddrs|, done) && mem == RebaseAll(m0, Targets(Slid(vmaddrs, slide), done), slide)
      modifies this
      ensures InTable(|vmaddrs|, done) && mem == RebaseAll(m0, Targets(Slid(vmaddrs, slide), done), slide)
      ensures var r := DylibRepeat(|vmaddrs|, st0, count, skip); st == r.0 && done == old(done) + r.1
    {
      hide RebaseAll, Targets, Move, Slid;
      st := st0;
      var i := 0;
      while i < count
        invariant 0 <= i <= count
        invariant InTable(|vmaddrs|, done) && mem == RebaseAll(m0, Targets(Slid(vmaddrs, slide), done), slide)
        invariant var r, q := DylibRepeat(|vmaddrs|, st0, count, skip), DylibRepeat(|vmaddrs|, st, count - i, skip);
                  r.0 == q.0 && old(done) + r.1 == done + q.1
      {
        ghost var x, rest := Slot(if st.seg < 0 then 0 else st.seg, st.off),
                             DylibRepeat(|vmaddrs|, Move(Move(st, 8), skip), count - i - 1, skip).1;
        assert done + ([x] + rest) == done + [x] + rest && [] + rest == rest;
        if 0 <= st.seg < |vmaddrs| {
          WrapWrap(vmaddrs[st.seg] + slide, st.off);
          RebaseSlot(Slid(vmaddrs, slide), slide, Slot(st.seg, st.off), Wrap(vmaddrs[st.seg] + st.off + slide), m0);
        }
        st := Move(Move(st, 8), skip);
        i := i + 1;
      }
    }

    /** process_dylib_rebases; the segment addresses are static, and the range is not checked. */
    method ProcessDylibRebases(vmaddrs: seq<u64>, slide: int, file: seq<byte>, off: u32, size: u32)
      requires done == []
      modifies this
      ensures off == 0 || size == 0 ==> mem == old(mem) && done == []
      ensures off != 0 && size != 0 ==>
                && done == DylibRun(|vmaddrs|, DYLIB_START, Window(file, off, size), 0) && InTable(|vmaddrs|, done)
                && mem == RebaseAll(old(mem), DylibTargets(vmaddrs, slide, done), slide)
    {
      if off == 0 || size == 0 { return; }
      InterpretDylib(vmaddrs, slide, Window(file, off, size));
    }

    /** The opcode loop of process_dylib_rebases. */
    method InterpretDylib(vmaddrs: seq<u64>, slide: int, s: seq<byte>)
      requires done == []
      modifies this
      ensures done == DylibRun(|vmaddrs|, DYLIB_START, s, 0) && InTable(|vmaddrs|, done)
      ensures mem == RebaseAll(old(mem), DylibTargets(vmaddrs, slide, done), slide)
    {
      hide RebaseAll, Targets, DylibRepeat, DylibRun, FetchOp, DylibTargets, Slid;
      ghost var m0 := mem;
      RebaseNothing(m0, Slid(vmaddrs, slide), slide);
      var st, p := DYLIB_START, 0;
      while p < |s|
        invariant 0 <= p <= |s|
        invariant InTable(|vmaddrs|, done) && mem == RebaseAll(m0, Targets(Slid(vmaddrs, slide), done), slide)
        invariant DylibRun(|vmaddrs|, DYLIB_START, s, 0) == done + DylibRun(|vmaddrs|, st, s, p)
        decreases |s| - p
      {
        DylibUnfold(|vmaddrs|, st, s, p);
        var op, next := Decode(s, p);
        if op.Done? || op.Unknown? { break; }
        if IsDo(op) {
          ghost var r := DylibRepeat(|vmaddrs|, st, Count(op), Skip(op));
          ghost var before, tail := done, DylibRun(|vmaddrs|, r.0, s, next);
          st := RepeatDylib(vmaddrs, slide, st, Count(op), Skip(op), m0);
          assert before + (r.1 + tail) == done + tail;
        } else {
          st := SetRegisters(st, op);
        }
        p := next;
      }
      DylibUnfold(|vmaddrs|, st, s, p);
      SameTargets(vmaddrs, slide, done);
    }
  }

  lemma {:induction false} MainUnfold(n: nat, st: State, s: seq<byte>, p: nat)
    requires p <= |s|
    ensures p == |s| ==> MainRun(n, st, s, p) == Result(0, [])
    ensures p < |s| ==>
              var (op, next) := FetchOp(s, p);
              MainRun(n, st, s, p) ==
              if op.Done? then Result(0, []) else if op.Unknown? then Result(-1, [])
              else if IsDo(op) then
                var r := MainRepeat(n, st, Count(op), Skip(op));
                if !r.0 then Result(-1, r.2)
                else Result(MainRun(n, r.1, s, next).rc, r.2 + MainRun(n, r.1, s, next).slots)
              else MainRun(n, SetRegisters(st, op), s, next)
  {
    hide FetchOp, MainRepeat;
  }

  lemma {:induction false} DylibUnfold(n: nat, st: State, s: seq<byte>, p: nat)
    requires p <= |s|
    ensures p == |s| ==> DylibRun(n, st, s, p) == []
    ensures p < |s| ==>
              var (op, next) := FetchOp(s, p);
              DylibRun(n, st, s, p) ==
              if op.Done? || op.Unknown? then []
              else if IsDo(op) then
                var r := DylibRepeat(n, st, Count(op), Skip(op)); r.1 + DylibRun(n, r.0, s, next)
              else DylibRun(n, SetRegisters(st, op), s, next)
  {
    hide FetchOp, DylibRepeat;
  }

  /** The opcode at `p` and the cursor after its operands. */
  method Decode(s: seq<byte>, p0: nat) returns (op: Op, p: nat)
    requires p0 < |s|
    ensures (op, p) == FetchOp(s, p0)
  {
    hide ReadUleb;
    var code, imm := s[p0] / 16, s[p0] % 16;
    p := p0 + 1;
    var v, k;
    if code == 0 {
      op := Done;
    } else if code == 1 {
      op := SetType(imm);
    } else if code == 4 {
      op := AddAddrScaled(imm);
    } else if code == 5 {
      op := DoImmTimes(imm);
    } else if code > 8 {
      op := Unknown;
    } else {
      v, p := ReadUlebLoop(s, p);
      if code == 2 {
        op := SetSegmentOffset(imm, v);
      } else if code == 3 {
        op := AddAddr(v);
      } else if code == 6 {
        op := DoUlebTimes(v);
      } else if code == 7 {
        op := DoAddAddr(v);
      } else {
        k, p := ReadUlebLoop(s, p);
        op := DoTimesSkipping(v, k);
      }
    }
  }

  lemma {:induction false} RebaseNothing(m: Mem, vmaddrs: seq<u64>, slide: int)
    ensures RebaseAll(m, Targets(vmaddrs, []), slide) == m
  {
  }
}
