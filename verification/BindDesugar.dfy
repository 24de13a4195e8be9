/** The compound DO_BIND forms are abbreviations: expanding them leaves every run unchanged. */
module BindDesugar {
  import opened Memory
  import opened Bind

  function Copies(n: nat, op: Op): (s: seq<Op>)
    ensures |s| == n && forall i :: 0 <= i < n ==> s[i] == op
  {
    if n == 0 then [] else [op] + Copies(n - 1, op)
  }

  /** One instruction in terms of the simple ones. */
  function Expand(op: Op): seq<Op> {
    match op
    case DoBindTimesSkipping(count, skip) => Copies(count, DoBindAddAddr(skip))
    case DoBindAddAddrScaled(imm) => [DoBind, AddAddr(imm * 8)]
    case _ => [op]
  }

  function Desugar(ops: seq<Op>): seq<Op> {
    if ops == [] then [] else Expand(ops[0]) + Desugar(ops[1..])
  }

  /** Pointer-typed and within the segment table: the only type ever set is the pointer type and every segment
    * index names a recorded segment. */
  predicate PointerOp(img: Image, op: Op) {
    (op.SetType? ==> op.imm == TYPE_POINTER) && (op.SetSegmentOffset? ==> op.imm < |img.segments|)
  }

  predicate PointerProgram(img: Image, ops: seq<Op>) {
    |img.segments| > 0 && forall i :: 0 <= i < |ops| ==> PointerOp(img, ops[i])
  }

  predicate Ready(img: Image, st: State) { st.typ == TYPE_POINTER && st.segIndex < |img.segments| }

  /** Instructions executed one after another, none of them the last of the stream. */
  function Steps(img: Image, m: Machine, ops: seq<Op>): Outcome
    decreases |ops|
  {
    if ops == [] then Running(m)
    else
      match Exec(img, m, ops[0], false)
      case Stopped(rc, m') => Stopped(rc, m')
      case Running(m') => Steps(img, m', ops[1..])
  }

  lemma {:induction false} RunSplit(img: Image, m: Machine, a: seq<Op>, b: seq<Op>)
    requires forall i :: 0 <= i < |a| ==> !a[i].Done?
    ensures RunOps(img, m, a + b) ==
            match Steps(img, m, a) case Stopped(rc, m') => (rc, m') case Running(m') => RunOps(img, m', b)
    decreases |a|
  {
    hide BindHere, BindTimes;
    if a == [] {
      assert a + b == b;
    } else {
      assert (a + b)[1..] == a[1..] + b;
      LastMatters(img, m, a[0]);
      match Exec(img, m, a[0], false)
      case Stopped(_, _) =>
      case Running(m') => RunSplit(img, m', a[1..], b);
    }
  }

  /** Only DONE cares whether it is the last instruction. */
  lemma {:induction false} LastMatters(img: Image, m: Machine, op: Op)
    requires !op.Done?
    ensures Exec(img, m, op, true) == Exec(img, m, op, false)
  {
  }

  lemma {:induction false} AdvanceTwice(m: Machine, a: int, b: int)
    ensures Advance(Advance(m, a), b) == Advance(m, a + b)
  {
  }

  lemma {:induction false} TimesIsCopies(img: Image, m: Machine, count: nat, skip: u64)
    requires Ready(img, m.st)
    ensures BindTimes(img, m, count, skip) == Steps(img, m, Copies(count, DoBindAddAddr(skip)))
    decreases count
  {
    hide Store64, Advance;
    if count > 0 {
      var ops := Copies(count, DoBindAddAddr(skip));
      assert ops[1..] == Copies(count - 1, DoBindAddAddr(skip));
      AdvanceTwice(WritePointer(img, m), 8, skip);
      var m' := Advance(WritePointer(img, m), 8 + skip);
      AdvanceKeeps(WritePointer(img, m), 8 + skip);
      TimesIsCopies(img, m', count - 1, skip);
    }
  }

  lemma {:induction false} AdvanceKeeps(m: Machine, delta: int)
    ensures Advance(m, delta).st == m.st.(segOffset := Advance(m, delta).st.segOffset) && Advance(m, delta).mem == m.mem
  {
  }

  /** Expanding one instruction does not change what it does. */
  lemma {:induction false} ExpandExact(img: Image, m: Machine, op: Op)
    requires Ready(img, m.st) && !op.Done?
    ensures Steps(img, m, Expand(op)) == Exec(img, m, op, false)
  {
    hide BindHere;
    if op.DoBindTimesSkipping? {
      TimesIsCopies(img, m, op.count, op.skip);
    } else if op.DoBindAddAddrScaled? {
      StepsTwo(img, m, DoBind, AddAddr(op.imm * 8));
    } else {
      StepsOne(img, m, op);
    }
  }

  lemma {:induction false} StepsOne(img: Image, m: Machine, a: Op)
    ensures Steps(img, m, [a]) == Exec(img, m, a, false)
  {
    hide Exec;
    assert [a][1..] == [];
  }

  lemma {:induction false} StepsTwo(img: Image, m: Machine, a: Op, b: Op)
    ensures Steps(img, m, [a, b]) ==
            match Exec(img, m, a, false) case Stopped(rc, m') => Stopped(rc, m')
                case Running(m') => Exec(img, m', b, false)
  {
    hide Exec;
    assert [a, b][1..] == [b];
    if Exec(img, m, a, false).Running? { StepsOne(img, Exec(img, m, a, false).m, b); }
  }

  lemma {:induction false} ReadyKept(img: Image, m: Machine, op: Op, last: bool)
    requires Ready(img, m.st) && PointerOp(img, op) && Exec(img, m, op, last).Running? && |img.segments| > 0
    ensures Ready(img, Exec(img, m, op, last).m.st)
  {
    hide Store64;
    if op.DoBindTimesSkipping? { TimesKeeps(img, m, op.count, op.skip); }
  }

  lemma {:induction false} TimesKeeps(img: Image, m: Machine, count: nat, skip: u64)
    requires Ready(img, m.st) && BindTimes(img, m, count, skip).Running?
    ensures Ready(img, BindTimes(img, m, count, skip).m.st)
    decreases count
  {
    hide Store64;
    if count > 0 { TimesKeeps(img, Advance(WritePointer(img, m), 8 + skip), count - 1, skip); }
  }

  predicate ZeroTimes(op: Op) { op.DoBindTimesSkipping? && op.count == 0 }

  predicate AllZero(ops: seq<Op>) { forall i :: 0 <= i < |ops| ==> ZeroTimes(ops[i]) }

  lemma {:induction false} NothingLeftIff(ops: seq<Op>)
    ensures Desugar(ops) == [] <==> AllZero(ops)
  {
    if ops != [] {
      NothingLeftIff(ops[1..]);
      assert forall i :: 0 <= i < |ops| ==> ops[i] == if i == 0 then ops[0] else ops[1..][i - 1];
    }
  }

  lemma {:induction false} ZerosIdle(img: Image, m: Machine, ops: seq<Op>)
    requires AllZero(ops)
    ensures RunOps(img, m, ops) == (0, m)
    decreases |ops|
  {
    if ops != [] { ZerosIdle(img, m, ops[1..]); }
  }

  /** What a DONE that does not end the stream does to the state. */
  function Reset(st: State): State { st.(symbol := [], segOffset := 0, segIndex := 0) }

  /** A DONE at `k` that only repeats of count zero follow: it does not end the original stream, but it
    * ends the expanded one. */
  predicate TailDone(ops: seq<Op>, k: nat) { k + 1 < |ops| && ops[k].Done? && AllZero(ops[k + 1..]) }

  /** That DONE is reached, and there is something for it to reset. */
  predicate LosesReset(img: Image, m: Machine, ops: seq<Op>, k: nat) {
    TailDone(ops, k) && Steps(img, m, ops[..k]).Running? &&
    var st := Steps(img, m, ops[..k]).m.st;
    Reset(st) != st
  }

  /** The same condition along the run. */
  predicate Lost(img: Image, m: Machine, ops: seq<Op>)
    decreases |ops|
  {
    ops != [] &&
    if TailDone(ops, 0) then Reset(m.st) != m.st
    else
      match Exec(img, m, ops[0], |ops| == 1)
      case Stopped(_, _) => false
      case Running(m') => Lost(img, m', ops[1..])
  }

  /** Same return code and memory always; same interpreter state exactly when no reset is lost. */
  lemma {:induction false} DesugarRun(img: Image, m: Machine, ops: seq<Op>)
    requires PointerProgram(img, ops) && Ready(img, m.st)
    ensures var a, b := RunOps(img, m, ops), RunOps(img, m, Desugar(ops));
            a.0 == b.0 && a.1.mem == b.1.mem && (a.1.st == b.1.st <==> !Lost(img, m, ops))
    decreases |ops|
  {
    hide Expand, BindHere, BindTimes;
    if ops != [] {
      var rest := ops[1..];
      assert PointerProgram(img, rest);
      if ops[0].Done? {
        DoneStep(img, m, ops);
        NothingLeftIff(rest);
        if AllZero(rest) {
          ZerosIdle(img, Exec(img, m, Done, false).m, rest);
        } else {
          DesugarRun(img, Exec(img, m, Done, false).m, rest);
        }
      } else {
        ExpandNoDone(ops[0]);
        RunSplit(img, m, Expand(ops[0]), Desugar(rest));
        ExpandExact(img, m, ops[0]);
        LastMatters(img, m, ops[0]);
        match Exec(img, m, ops[0], false)
        case Stopped(_, _) =>
        case Running(m') =>
          ReadyKept(img, m, ops[0], false);
          DesugarRun(img, m', rest);
      }
    }
  }

  /** Being lost along the run is being lost at some DONE of the program. */
  lemma {:induction false} LostIff(img: Image, m: Machine, ops: seq<Op>)
    ensures Lost(img, m, ops) <==> exists k :: 0 <= k < |ops| && LosesReset(img, m, ops, k)
    decreases |ops|
  {
    hide Exec;
    if ops != [] {
      assert ops[..0] == [];
      forall k | 1 <= k < |ops|
        ensures LosesReset(img, m, ops, k) <==>
                Exec(img, m, ops[0], false).Running? && LosesReset(img, Exec(img, m, ops[0], false).m, ops[1..], k - 1)
      {
        LosesLater(img, m, ops, k);
      }
      if TailDone(ops, 0) {
        TailIsUnique(ops);
        assert LosesReset(img, m, ops, 0) <==> Reset(m.st) != m.st;
      } else {
        LostShifts(img, m, ops);
      }
    }
  }

  lemma {:induction false} LosesLater(img: Image, m: Machine, ops: seq<Op>, k: nat)
    requires 1 <= k < |ops|
    ensures LosesReset(img, m, ops, k) <==>
            Exec(img, m, ops[0], false).Running? && LosesReset(img, Exec(img, m, ops[0], false).m, ops[1..], k - 1)
  {
    hide Exec;
    assert ops[..k][1..] == ops[1..][..k - 1] && ops[..k][0] == ops[0];
    assert ops[1..][k..] == ops[k + 1..];
  }

  /** No DONE follows a DONE of that kind. */
  lemma {:induction false} TailIsUnique(ops: seq<Op>)
    requires TailDone(ops, 0)
    ensures forall k :: 1 <= k < |ops| ==> !TailDone(ops, k)
  {
    forall k | 1 <= k < |ops| ensures !TailDone(ops, k) { assert ZeroTimes(ops[1..][k - 1]); }
  }

  lemma {:induction false} LostShifts(img: Image, m: Machine, ops: seq<Op>)
    requires ops != [] && !TailDone(ops, 0)
    requires forall k :: 1 <= k < |ops| ==>
               (LosesReset(img, m, ops, k) <==>
                Exec(img, m, ops[0], false).Running? && LosesReset(img, Exec(img, m, ops[0], false).m, ops[1..], k - 1))
    ensures Lost(img, m, ops) <==> exists k :: 0 <= k < |ops| && LosesReset(img, m, ops, k)
    decreases |ops|, 0
  {
    var o := Exec(img, m, ops[0], false);
    if |ops| > 1 {
      if o.Running? {
        LostIff(img, o.m, ops[1..]);
        if k :| 0 <= k < |ops[1..]| && LosesReset(img, o.m, ops[1..], k) { assert LosesReset(img, m, ops, k + 1); }
      }
    } else {
      assert ops[1..] == [];
    }
  }

  /** Same return code and memory; same interpreter state exactly when no reachable DONE with something
    * to reset is followed, to the end, by repeats of count zero only. */
  lemma {:induction false} DesugarExact(img: Image, m: Machine, ops: seq<Op>)
    requires PointerProgram(img, ops) && Ready(img, m.st)
    ensures var a, b := RunOps(img, m, ops), RunOps(img, m, Desugar(ops));
            a.0 == b.0 && a.1.mem == b.1.mem &&
            (a == b <==> forall k :: 0 <= k < |ops| ==> !LosesReset(img, m, ops, k))
  {
    hide RunOps, Desugar, Lost, LosesReset;
    DesugarRun(img, m, ops);
    LostIff(img, m, ops);
  }

  lemma {:induction false} ExpandNoDone(op: Op)
    requires !op.Done?
    ensures forall i :: 0 <= i < |Expand(op)| ==> !Expand(op)[i].Done?
  {
  }

  lemma {:induction false} DoneStep(img: Image, m: Machine, ops: seq<Op>)
    requires ops != [] && ops[0].Done?
    ensures Desugar(ops) == [Done] + Desugar(ops[1..])
  {
  }

  lemma {:induction false} DesugarValid(ops: seq<Op>)
    requires AllValid(ops)
    ensures AllValid(Desugar(ops))
  {
    if ops != [] { DesugarValid(ops[1..]); }
  }

  /** On the bytes themselves: assembling the expanded program and interpreting it returns the same
    * code and leaves the same memory as the original program, for every program that is pointer
    * typed and stays in the segment table. */
  lemma {:induction false} DesugarPreservesMeaning(img: Image, mem: Mem, ops: seq<Op>)
    requires AllValid(ops) && PointerProgram(img, ops)
    ensures var a := RunBytes(img, Machine(START, mem), AssembleAll(ops), 0);
            var b := RunBytes(img, Machine(START, mem), AssembleAll(Desugar(ops)), 0);
            && a.0 == b.0 && a.1.mem == b.1.mem
            && (a == b <==> forall k :: 0 <= k < |ops| ==> !LosesReset(img, Machine(START, mem), ops, k))
            && ((forall k :: 0 <= k < |ops| ==> !TailDone(ops, k)) ==> a == b)
  {
    hide RunOps, RunBytes, AssembleAll, Desugar, TailDone;
    var m := Machine(START, mem);
    DesugarValid(ops);
    RunAssembled(img, m, ops);
    RunAssembled(img, m, Desugar(ops));
    DesugarExact(img, m, ops);
  }

  /** A program that ends with DONE and a repeat of count zero: the original resets the segment offset
    * that the expanded program, which ends with the DONE, keeps. */
  const RESET_LOST: seq<Op> := [SetSegmentOffset(0, 8), Done, DoBindTimesSkipping(0, 0)]

  lemma {:induction false} ResetCanBeLost(img: Image, mem: Mem)
    requires |img.segments| > 0
    ensures PointerProgram(img, RESET_LOST)
    ensures RunOps(img, Machine(START, mem), RESET_LOST) == (0, Machine(START, mem))
    ensures RunOps(img, Machine(START, mem), Desugar(RESET_LOST)) == (0, Machine(START.(segOffset := 8), mem))
  {
    var m := Machine(START, mem);
    var a, b, z := SetSegmentOffset(0, 8), Done, DoBindTimesSkipping(0, 0);
    var m' := Machine(START.(segOffset := 8), mem);
    assert RESET_LOST == [a] + [b, z] && [b, z] == [b] + [z];
    NothingLeftIff([z]);
    ZerosIdle(img, m, [z]);
    DesugarCons(b, [z]);
    DesugarCons(a, [b, z]);
    assert Desugar(RESET_LOST) == [a] + [b];
    RunCons(img, m, a, [b, z]);
    RunCons(img, m', b, [z]);
    RunCons(img, m, a, [b]);
    RunCons(img, m', b, []);
    assert [b] + [] == [b];
  }

  lemma {:induction false} DesugarCons(op: Op, rest: seq<Op>)
    ensures Desugar([op] + rest) == Expand(op) + Desugar(rest)
  {
    hide Expand;
    assert ([op] + rest)[1..] == rest;
  }

  lemma {:induction false} RunCons(img: Image, m: Machine, op: Op, rest: seq<Op>)
    ensures RunOps(img, m, [op] + rest) ==
            match Exec(img, m, op, rest == []) case Stopped(rc, m') => (rc, m')
                case Running(m') => RunOps(img, m', rest)
  {
    hide Exec;
    assert ([op] + rest)[1..] == rest;
  }

  /** The hypothesis is needed: in a state whose ordinal is valid, a repeat count of one does what
    * DO_BIND_ADD_ADDR_ULEB does on every memory exactly when the type is the pointer type and the segment is
    * recorded. */
  lemma {:induction false} TimesOneIff(img: Image, st: State, skip: u64)
    requires OrdinalOk(img, st)
    ensures (forall mem: Mem ::
               Exec(img, Machine(st, mem), DoBindTimesSkipping(1, skip), false) ==
               Exec(img, Machine(st, mem), DoBindAddAddr(skip), false))
            <==> Ready(img, st)
  {
    if Ready(img, st) {
      forall mem: Mem
        ensures Exec(img, Machine(st, mem), DoBindTimesSkipping(1, skip), false) ==
                Exec(img, Machine(st, mem), DoBindAddAddr(skip), false)
      {
        var op := DoBindTimesSkipping(1, skip);
        ExpandExact(img, Machine(st, mem), op);
        assert Expand(op) == [DoBindAddAddr(skip)] && Expand(op)[1..] == [];
      }
    } else {
      TimesOneDiffers(img, st, skip);
    }
  }

  lemma {:induction false} TimesOneDiffers(img: Image, st: State, skip: u64)
    requires OrdinalOk(img, st) && !Ready(img, st)
    ensures exists mem: Mem ::
              Exec(img, Machine(st, mem), DoBindTimesSkipping(1, skip), false) !=
              Exec(img, Machine(st, mem), DoBindAddAddr(skip), false)
  {
    hide Exec, WritePointer;
    var mem := Distinct(img, st);
    TimesOneWrites(img, Machine(st, mem), 1, skip);
    AddAddrKeeps(img, Machine(st, mem), skip);
    WriteShows(img, st);
    assert Exec(img, Machine(st, mem), DoBindTimesSkipping(1, skip), false) !=
           Exec(img, Machine(st, mem), DoBindAddAddr(skip), false);
  }

  /** A memory whose byte at the slot is not the one a bind would put there. */
  function Distinct(img: Image, st: State): Mem {
    map[Slot(img, st) as int := 255 - LE(Wrap(Address(img, st) + st.addend), 8)[0]]
  }

  lemma {:induction false} WriteShows(img: Image, st: State)
    ensures WritePointer(img, Machine(st, Distinct(img, st))).mem != Distinct(img, st)
  {
    hide LE, Address, Slot, Wrap;
    var v, a := Wrap(Address(img, st) + st.addend), Slot(img, st);
    var mem := Distinct(img, st);
    assert Get(Store64(mem, a, v), a) == LE(v, 8)[0] != Get(mem, a);
  }

  lemma {:induction false} TimesOneWrites(img: Image, m: Machine, n: u64, skip: u64)
    requires OrdinalOk(img, m.st) && n == 1
    ensures Exec(img, m, DoBindTimesSkipping(n, skip), false).m.mem == WritePointer(img, m).mem
  {
    hide WritePointer;
    var w := Advance(WritePointer(img, m), 8 + skip);
    assert BindTimes(img, m, n, skip) == BindTimes(img, w, n - 1, skip) == Running(w);
  }

  lemma {:induction false} AddAddrKeeps(img: Image, m: Machine, skip: u64)
    requires !Ready(img, m.st)
    ensures Exec(img, m, DoBindAddAddr(skip), false).m.mem == m.mem
  {
  }
}
