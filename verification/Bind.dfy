/** The bind bytecode: the interpreter over bytes, the same machine over decoded instructions, and an
  * assembler between the two. */
module Bind {
  import opened Memory
  import opened Leb
  import opened Symbols

  type nibble = n: int | 0 <= n < 16

  const TYPE_POINTER: nibble := 1
  const NAME_LIMIT := 255

  datatype Op =
    | Done
    | SetOrdinalImm(imm: nibble)
    | SetOrdinalUleb(value: u64)
    | SetSpecialImm(imm: nibble)
    | SetSymbol(name: seq<byte>)
    | SetType(imm: nibble)
    | SetAddend(addend: int)
    | SetSegmentOffset(imm: nibble, value: u64)
    | AddAddr(value: u64)
    | DoBind
    | DoBindAddAddr(value: u64)
    | DoBindAddAddrScaled(imm: nibble)
    | DoBindTimesSkipping(count: u64, skip: u64)

  /** What the loader knows: slid segment addresses, the number of dylibs, the resolver (0 when a
    * symbol is not found) and the address bound to unresolved symbols. */
  datatype Image = Image(segments: seq<u64>, ndylibs: nat, resolve: (int, seq<byte>) -> u64, stub: u64)

  datatype State = State(ordinal: int, symbol: seq<byte>, typ: nibble, addend: int, segIndex: nibble, segOffset: u64)

  datatype Machine = Machine(st: State, mem: Mem)

  datatype Outcome = Running(m: Machine) | Stopped(rc: int, m: Machine)

  const START := State(0, [], TYPE_POINTER, 0, 0, 0)

  function ToInt32(v: u64): int {
    var w := v % 0x1_0000_0000;
    if w < 0x8000_0000 then w else w - 0x1_0000_0000
  }

  predicate OrdinalOk(img: Image, st: State) { 1 <= st.ordinal <= img.ndylibs }

  /** The address a symbol is bound to, before the addend. */
  function Address(img: Image, st: State): u64
  {
    var a := img.resolve(st.ordinal - 1, StripUnderscore(st.symbol));
    if a != 0 then a else img.stub
  }

  /** The slot; the table entry of a segment never recorded reads as zero. */
  function Slot(img: Image, st: State): u64 {
    Wrap((if st.segIndex < |img.segments| then img.segments[st.segIndex] else 0) + st.segOffset)
  }

  function WritePointer(img: Image, m: Machine): Machine {
    m.(mem := Store64(m.mem, Slot(img, m.st), Wrap(Address(img, m.st) + m.st.addend)))
  }

  function Advance(m: Machine, delta: int): Machine {
    m.(st := m.st.(segOffset := Wrap(m.st.segOffset + delta)))
  }

  /** The shared body of the DO_BIND forms. */
  function BindHere(img: Image, m: Machine): Outcome {
    if !OrdinalOk(img, m.st) || m.st.segIndex >= |img.segments| then Stopped(-1, m)
    else Running(Advance(if m.st.typ == TYPE_POINTER then WritePointer(img, m) else m, 8))
  }

  /** The loop of DO_BIND_ULEB_TIMES_SKIPPING_ULEB, which checks neither the type nor the segment. */
  function BindTimes(img: Image, m: Machine, count: nat, skip: u64): Outcome
    decreases count
  {
    if count == 0 then Running(m)
    else if !OrdinalOk(img, m.st) then Stopped(-1, m)
    else BindTimes(img, Advance(WritePointer(img, m), 8 + skip), count - 1, skip)
  }

  function AndThen(o: Outcome, delta: int): Outcome {
    if o.Running? then Running(Advance(o.m, delta)) else o
  }

  /** One instruction; `last` says whether the stream ends right after it. */
  function Exec(img: Image, m: Machine, op: Op, last: bool): Outcome {
    var st := m.st;
    match op
    case Done =>
      if last then Stopped(0, m) else Running(m.(st := st.(symbol := [], segOffset := 0, segIndex := 0)))
    case SetOrdinalImm(imm) => Running(m.(st := st.(ordinal := imm)))
    case SetOrdinalUleb(v) => Running(m.(st := st.(ordinal := ToInt32(v))))
    case SetSpecialImm(imm) => Running(m.(st := st.(ordinal := if imm == 0 then 0 else imm - 16)))
    case SetSymbol(name) => Running(m.(st := st.(symbol := if |name| <= NAME_LIMIT then name else name[..NAME_LIMIT])))
    case SetType(imm) => Running(m.(st := st.(typ := imm)))
    case SetAddend(a) => Running(m.(st := st.(addend := a)))
    case SetSegmentOffset(imm, v) => Running(m.(st := st.(segIndex := imm, segOffset := v)))
    case AddAddr(v) => Running(Advance(m, v))
    case DoBind => BindHere(img, m)
    case DoBindAddAddr(v) => AndThen(BindHere(img, m), v)
    case DoBindAddAddrScaled(imm) => AndThen(BindHere(img, m), imm * 8)
    case DoBindTimesSkipping(count, skip) => BindTimes(img, m, count, skip)
  }

  /** Running a list of decoded instructions: the return code and the final machine. */
  function RunOps(img: Image, m: Machine, ops: seq<Op>): (int, Machine)
    decreases |ops|
  {
    if ops == [] then (0, m)
    else
      match Exec(img, m, ops[0], |ops| == 1)
      case Stopped(rc, m') => (rc, m')
      case Running(m') => RunOps(img, m', ops[1..])
  }

  // ---- bytes ----

  datatype Fetched = Fetched(op: Op, next: nat) | Bad

  /** Index of the first NUL at or after `p`, or the end of the stream. */
  function NameEnd(s: seq<byte>, p: nat): (q: nat)
    requires p <= |s|
    ensures p <= q <= |s|
    decreases |s| - p
  {
    if p == |s| || s[p] == 0 then p else NameEnd(s, p + 1)
  }

  function FetchOp(s: seq<byte>, p: nat): (f: Fetched)
    requires p < |s|
    ensures f.Fetched? ==> p < f.next <= |s|
  {
    var op, imm := s[p] / 16, s[p] % 16;
    var (v, n) := ReadUleb(s, p + 1);
    if op == 0 then Fetched(Done, p + 1)
    else if op == 1 then Fetched(SetOrdinalImm(imm), p + 1)
    else if op == 2 then Fetched(SetOrdinalUleb(v), n)
    else if op == 3 then Fetched(SetSpecialImm(imm), p + 1)
    else if op == 4 then
      var q := NameEnd(s, p + 1);
      if q == |s| then Bad else Fetched(SetSymbol(s[p + 1..q]), q + 1)
    else if op == 5 then Fetched(SetType(imm), p + 1)
    else if op == 6 then var (a, k) := ReadSleb(s, p + 1); Fetched(SetAddend(a), k)
    else if op == 7 then Fetched(SetSegmentOffset(imm, v), n)
    else if op == 8 then Fetched(AddAddr(v), n)
    else if op == 9 then Fetched(DoBind, p + 1)
    else if op == 10 then Fetched(DoBindAddAddr(v), n)
    else if op == 11 then Fetched(DoBindAddAddrScaled(imm), p + 1)
    else if op == 12 then var (k, e) := ReadUleb(s, n); Fetched(DoBindTimesSkipping(v, k), e)
    else Bad
  }

  /** The interpreter over the bytes of a stream, from position `p`. */
  function RunBytes(img: Image, m: Machine, s: seq<byte>, p: nat): (int, Machine)
    requires p <= |s|
    decreases |s| - p
  {
    if p == |s| then (0, m)
    else
      match FetchOp(s, p)
      case Bad => (-1, m)
      case Fetched(op, next) =>
        match Exec(img, m, op, next == |s|)
        case Stopped(rc, m') => (rc, m')
        case Running(m') => RunBytes(img, m', s, next)
  }

  predicate Valid(op: Op) {
    match op
    case SetSymbol(name) => forall i :: 0 <= i < |name| ==> name[i] != 0
    case SetAddend(a) => -TWO63 <= a < TWO63
    case _ => true
  }

  function Assemble(op: Op): (s: seq<byte>)
    ensures |s| > 0
  {
    match op
    case Done => [0x00]
    case SetOrdinalImm(imm) => [0x10 + imm]
    case SetOrdinalUleb(v) => [0x20] + EncodeUleb(v)
    case SetSpecialImm(imm) => [0x30 + imm]
    case SetSymbol(name) => [0x40] + name + [0]
    case SetType(imm) => [0x50 + imm]
    case SetAddend(a) => [0x60] + EncodeSleb(a)
    case SetSegmentOffset(imm, v) => [0x70 + imm] + EncodeUleb(v)
    case AddAddr(v) => [0x80] + EncodeUleb(v)
    case DoBind => [0x90]
    case DoBindAddAddr(v) => [0xA0] + EncodeUleb(v)
    case DoBindAddAddrScaled(imm) => [0xB0 + imm]
    case DoBindTimesSkipping(count, skip) => [0xC0] + EncodeUleb(count) + EncodeUleb(skip)
  }

  function AssembleAll(ops: seq<Op>): (s: seq<byte>)
    ensures |s| >= |ops|
  {
    if ops == [] then [] else Assemble(ops[0]) + AssembleAll(ops[1..])
  }

  lemma {:induction false} NameEndAt(s: seq<byte>, p: nat, name: seq<byte>)
    requires At(s, p, name + [0]) && forall i :: 0 <= i < |name| ==> name[i] != 0
    ensures NameEnd(s, p) == p + |name| < |s| && s[p..p + |name|] == name
    decreases |name|
  {
    AtCons(s, p, name + [0]);
    if name != [] {
      assert (name + [0])[1..] == name[1..] + [0];
      NameEndAt(s, p + 1, name[1..]);
      assert s[p..p + |name|] == [s[p]] + s[p + 1..p + |name|];
    }
  }

  /** Decoding an assembled instruction gives it back and stops right after it. */
  lemma {:induction false} FetchAssembled(s: seq<byte>, p: nat, op: Op)
    requires Valid(op) && At(s, p, Assemble(op))
    ensures p < |s| && FetchOp(s, p) == Fetched(op, p + |Assemble(op)|)
  {
    hide FetchOp, Assemble, At;
    if op.SetSymbol? || op.SetAddend? {
      FetchNamed(s, p, op);
    } else if op.DoBindTimesSkipping? {
      FetchTimes(s, p, op);
    } else if op.SetOrdinalUleb? || op.SetSegmentOffset? || op.AddAddr? || op.DoBindAddAddr? {
      FetchUleb(s, p, op);
    } else {
      FetchPlain(s, p, op);
    }
  }

  lemma {:induction false} FetchNamed(s: seq<byte>, p: nat, op: Op)
    requires Valid(op) && At(s, p, Assemble(op)) && (op.SetSymbol? || op.SetAddend?)
    ensures p < |s| && FetchOp(s, p) == Fetched(op, p + |Assemble(op)|)
  {
    hide ReadUleb, ReadSleb, EncodeUleb, EncodeSleb, NameEnd;
    AtCons(s, p, Assemble(op));
    if op.SetSymbol? {
      assert Assemble(op)[1..] == op.name + [0];
      NameEndAt(s, p + 1, op.name);
    } else {
      assert Assemble(op)[1..] == EncodeSleb(op.addend);
      SlebRoundTrip(s, p + 1, op.addend);
    }
  }

  lemma {:induction false} FetchUleb(s: seq<byte>, p: nat, op: Op)
    requires Valid(op) && At(s, p, Assemble(op))
    requires op.SetOrdinalUleb? || op.SetSegmentOffset? || op.AddAddr? || op.DoBindAddAddr?
    ensures p < |s| && FetchOp(s, p) == Fetched(op, p + |Assemble(op)|)
  {
    hide ReadUleb, ReadSleb, EncodeUleb, EncodeSleb, NameEnd;
    AtCons(s, p, Assemble(op));
    assert Assemble(op)[1..] == EncodeUleb(op.value);
    UlebRoundTrip(s, p + 1, op.value);
  }

  lemma {:induction false} FetchTimes(s: seq<byte>, p: nat, op: Op)
    requires Valid(op) && At(s, p, Assemble(op)) && op.DoBindTimesSkipping?
    ensures p < |s| && FetchOp(s, p) == Fetched(op, p + |Assemble(op)|)
  {
    hide ReadUleb, ReadSleb, EncodeUleb, EncodeSleb, NameEnd, At, Assemble, FetchOp;
    var a, b := EncodeUleb(op.count), EncodeUleb(op.skip);
    TimesBytes(op);
    AtCons(s, p, Assemble(op));
    AtConcat(s, p + 1, a, b);
    UlebRoundTrip(s, p + 1, op.count);
    UlebRoundTrip(s, p + 1 + |a|, op.skip);
    TimesDecoded(s, p, op);
  }

  lemma {:induction false} TimesBytes(op: Op)
    requires op.DoBindTimesSkipping?
    ensures var a, b := EncodeUleb(op.count), EncodeUleb(op.skip);
            Assemble(op)[0] == 0xC0 && Assemble(op)[1..] == a + b && |Assemble(op)| == 1 + |a| + |b|
  {
    hide EncodeUleb;
  }

  lemma {:induction false} TimesDecoded(s: seq<byte>, p: nat, op: Op)
    requires op.DoBindTimesSkipping? && p < |s| && s[p] == 0xC0
    requires ReadUleb(s, p + 1).0 == op.count && ReadUleb(s, ReadUleb(s, p + 1).1).0 == op.skip
    ensures FetchOp(s, p) == Fetched(op, ReadUleb(s, ReadUleb(s, p + 1).1).1)
  {
    hide ReadUleb, ReadSleb, NameEnd;
  }

  lemma {:induction false} FetchPlain(s: seq<byte>, p: nat, op: Op)
    requires Valid(op) && At(s, p, Assemble(op))
    requires op.Done? || op.SetOrdinalImm? || op.SetSpecialImm? || op.SetType? || op.DoBind? || op.DoBindAddAddrScaled?
    ensures p < |s| && FetchOp(s, p) == Fetched(op, p + |Assemble(op)|)
  {
    hide ReadUleb, ReadSleb, NameEnd;
    AtCons(s, p, Assemble(op));
  }

  predicate AllValid(ops: seq<Op>) { forall i :: 0 <= i < |ops| ==> Valid(ops[i]) }

  lemma {:induction false} RunAssembledFrom(img: Image, m: Machine, s: seq<byte>, p: nat, ops: seq<Op>)
    requires p <= |s| && s[p..] == AssembleAll(ops) && AllValid(ops)
    ensures RunBytes(img, m, s, p) == RunOps(img, m, ops)
    decreases |ops|
  {
    hide FetchOp, Exec, Assemble, Valid;
    if ops != [] {
      var e := Assemble(ops[0]);
      var next := p + |e|;
      assert s[p..][..|e|] == e && s[p..][|e|..] == AssembleAll(ops[1..]);
      assert At(s, p, e) by { assert s[p..next] == s[p..][..|e|]; }
      assert s[next..] == s[p..][|e|..];
      FetchAssembled(s, p, ops[0]);
      assert next == |s| <==> |ops| == 1;
      match Exec(img, m, ops[0], |ops| == 1)
      case Stopped(_, _) =>
      case Running(m') => RunAssembledFrom(img, m', s, next, ops[1..]);
    }
  }

  /** Interpreting assembled code is running the instructions it was assembled from. */
  lemma {:induction false} RunAssembled(img: Image, m: Machine, ops: seq<Op>)
    requires AllValid(ops)
    ensures RunBytes(img, m, AssembleAll(ops), 0) == RunOps(img, m, ops)
  {
    var s := AssembleAll(ops);
    assert s[0..] == s;
    RunAssembledFrom(img, m, s, 0, ops);
  }
}
