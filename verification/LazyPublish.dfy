/**
 * Lock-free lazy publication of a table of function pointers, as a step relation over a
 * view-based weak memory: every location keeps all its messages, a thread may read any message
 * not older than its view of that location, and only a release store read by an acquire load
 * passes a view on.
 */
module LazyPublish {
  import opened Options

  type Time = real
  type View = seq<Time>

  /** None is the location's initial content. */
  datatype Message = Message(val: Option<int>, view: View)

  /** `Fill(k)` is inside the init function with `k` pointers stored; `Past` is past the gate. */
  datatype Pc = Idle | Fill(next: nat) | Past
  datatype Thread = Thread(pc: Pc, view: View)

  /** Locations 0..n-1 are the pointers, location n is the ready flag. */
  datatype State = State(mem: seq<map<Time, Message>>, threads: seq<Thread>)

  /** What the deterministic lookups return, and the orderings used on the flag. */
  datatype Config = Config(lookup: seq<int>, release: bool, acquire: bool) {
    function N(): nat { |lookup| }
    function Zero(): View { seq(N() + 1, i => 0.0) }
  }

  datatype Move =
    | LoadReady(t: nat, at: Time)            // the gate
    | StorePointer(t: nat, at: Time)         // the next store of the init function
    | StoreReady(t: nat, at: Time)           // its last store
    | CallPointer(t: nat, loc: nat, at: Time) // a wrapper past the gate uses the table
    | Leave(t: nat)

  datatype Event = Quiet | Write(loc: nat, val: int) | Read(thread: nat, loc: nat, seen: Option<int>)

  const READY := 1

  // ---- memory ----

  function Max(a: Time, b: Time): Time { if a < b then b else a }

  function Join(v: View, w: View): (r: View)
    requires |v| == |w|
    ensures |r| == |v|
    ensures forall i :: 0 <= i < |v| ==> r[i] == Max(v[i], w[i])
  {
    seq<Time>(|v|, i requires 0 <= i < |v| && |v| == |w| => Max(v[i], w[i]))
  }

  predicate CanRead(s: State, v: View, loc: nat, at: Time) {
    loc < |s.mem| && loc < |v| && at in s.mem[loc] && v[loc] <= at
  }

  /** A store takes any unused place in modification order after what the thread has seen. */
  predicate CanWrite(s: State, v: View, loc: nat, at: Time) {
    loc < |s.mem| && loc < |v| && at !in s.mem[loc] && v[loc] < at
  }

  // ---- steps ----

  predicate Enabled(c: Config, s: State, m: Move) {
    m.t < |s.threads| && var th := s.threads[m.t];
    match m
    case LoadReady(_, at) => th.pc.Idle? && CanRead(s, th.view, c.N(), at) && |s.mem[c.N()][at].view| == |th.view|
    case StorePointer(_, at) => th.pc.Fill? && th.pc.next < c.N() && CanWrite(s, th.view, th.pc.next, at)
    case StoreReady(_, at) => th.pc == Fill(c.N()) && CanWrite(s, th.view, c.N(), at)
    case CallPointer(_, loc, at) => th.pc.Past? && loc < c.N() && CanRead(s, th.view, loc, at)
    case Leave(_) => th.pc.Past?
  }

  function Apply(c: Config, s: State, m: Move): State
    requires Enabled(c, s, m)
  {
    var th := s.threads[m.t];
    match m
    case LoadReady(t, at) =>
      var msg := s.mem[c.N()][at];
      var seen := th.view[c.N() := at];
      var pc := if msg.val == Some(READY) then Past else Fill(0);
      s.(threads := s.threads[t := Thread(pc, if c.acquire then Join(seen, msg.view) else seen)])
    case StorePointer(t, at) =>
      var k := th.pc.next;
      Written(s, t, k, at, Message(Some(c.lookup[k]), c.Zero()), Fill(k + 1))
    case StoreReady(t, at) =>
      var seen := th.view[c.N() := at];
      Written(s, t, c.N(), at, Message(Some(READY), if c.release then seen else c.Zero()), Past)
    case CallPointer(t, loc, at) =>
      s.(threads := s.threads[t := th.(view := th.view[loc := at])])
    case Leave(t) =>
      s.(threads := s.threads[t := th.(pc := Idle)])
  }

  function Written(s: State, t: nat, loc: nat, at: Time, msg: Message, pc: Pc): State
    requires t < |s.threads| && loc < |s.mem| && loc < |s.threads[t].view|
  {
    State(s.mem[loc := s.mem[loc][at := msg]], s.threads[t := Thread(pc, s.threads[t].view[loc := at])])
  }

  function EventOf(c: Config, s: State, m: Move): Event
    requires Enabled(c, s, m)
  {
    match m
    case StorePointer(t, at) => var k := s.threads[t].pc.next; Write(k, c.lookup[k])
    case CallPointer(t, loc, at) => Read(t, loc, s.mem[loc][at].val)
    case _ => Quiet
  }

  // ---- runs ----

  function Start(c: Config, threads: nat): State {
    State(seq(c.N() + 1, i => map[0.0 := Message(None, c.Zero())]), seq(threads, i => Thread(Idle, c.Zero())))
  }

  /** The state after the moves, or None when some move was not possible. */
  function Exec(c: Config, threads: nat, moves: seq<Move>): Option<State>
    decreases |moves|
  {
    if moves == [] then Some(Start(c, threads))
    else
      var before := Exec(c, threads, Front(moves));
      if before.Some? && Enabled(c, before.value, Last(moves)) then Some(Apply(c, before.value, Last(moves))) else None
  }

  predicate Run(c: Config, threads: nat, moves: seq<Move>) { Exec(c, threads, moves).Some? }

  function Trace(c: Config, threads: nat, moves: seq<Move>): (tr: seq<Event>)
    requires Run(c, threads, moves)
    ensures |tr| == |moves|
    decreases |moves|
  {
    if moves == [] then []
    else Trace(c, threads, Front(moves)) + [EventOf(c, Exec(c, threads, Front(moves)).value, Last(moves))]
  }

  function Front(moves: seq<Move>): seq<Move>
    requires moves != []
  {
    moves[..|moves| - 1]
  }

  function Last(moves: seq<Move>): Move
    requires moves != []
  {
    moves[|moves| - 1]
  }

  // ---- the invariant ----

  /** Shapes, and what the messages of a pointer can be. Holds whatever the orderings. */
  ghost predicate Shaped(c: Config, s: State) {
    && |s.mem| == c.N() + 1
    && (forall l, ts :: 0 <= l < |s.mem| && ts in s.mem[l] ==> |s.mem[l][ts].view| == c.N() + 1)
    && (forall t :: 0 <= t < |s.threads| ==> |s.threads[t].view| == c.N() + 1)
    && (forall t, l :: 0 <= t < |s.threads| && 0 <= l < c.N() + 1 ==> 0.0 <= s.threads[t].view[l])
  }

  ghost predicate Values(c: Config, s: State)
    requires Shaped(c, s)
  {
    forall l, ts :: 0 <= l < c.N() && ts in s.mem[l] ==>
      s.mem[l][ts].val == if ts > 0.0 then Some(c.lookup[l]) else None
  }

  /** Everything a ready flag publishes, and every thread past the gate, has all pointers written. */
  ghost predicate Published(c: Config, s: State)
    requires Shaped(c, s)
  {
    && (forall ts :: ts in s.mem[c.N()] && s.mem[c.N()][ts].val == Some(READY) ==>
          SeesAll(s.mem[c.N()][ts].view, c.N()))
    && (forall t :: 0 <= t < |s.threads| ==> SeesAll(s.threads[t].view, Filled(c, s.threads[t].pc)))
  }

  predicate SeesAll(v: View, k: nat) {
    k <= |v| && forall l :: 0 <= l < k ==> v[l] > 0.0
  }

  /** How many pointers a thread at `pc` must have seen. */
  function Filled(c: Config, pc: Pc): nat {
    match pc
    case Idle => 0
    case Fill(k) => if k <= c.N() then k else 0
    case Past => c.N()
  }

  lemma {:induction false} ShapedStep(c: Config, s: State, m: Move)
    requires Shaped(c, s) && Enabled(c, s, m)
    ensures Shaped(c, Apply(c, s, m))
  {
  }

  lemma {:induction false} ValuesStep(c: Config, s: State, m: Move)
    requires Shaped(c, s) && Values(c, s) && Enabled(c, s, m)
    ensures Shaped(c, Apply(c, s, m)) && Values(c, Apply(c, s, m))
  {
    ShapedStep(c, s, m);
  }

  lemma {:induction false} PublishedStep(c: Config, s: State, m: Move)
    requires c.release && c.acquire
    requires Shaped(c, s) && Published(c, s) && Enabled(c, s, m)
    ensures Shaped(c, Apply(c, s, m)) && Published(c, Apply(c, s, m))
  {
    ShapedStep(c, s, m);
  }

  // ---- whole runs ----

  lemma {:induction false} RunValues(c: Config, threads: nat, moves: seq<Move>)
    requires Run(c, threads, moves)
    ensures var s := Exec(c, threads, moves).value; Shaped(c, s) && Values(c, s)
    decreases |moves|
  {
    if moves != [] {
      hide Apply, Enabled, Shaped, Values;
      RunValues(c, threads, Front(moves));
      ValuesStep(c, Exec(c, threads, Front(moves)).value, Last(moves));
    }
  }

  lemma {:induction false} RunPublished(c: Config, threads: nat, moves: seq<Move>)
    requires c.release && c.acquire && Run(c, threads, moves)
    ensures var s := Exec(c, threads, moves).value; Shaped(c, s) && Published(c, s)
    decreases |moves|
  {
    if moves != [] {
      hide Apply, Enabled, Shaped, Published;
      RunPublished(c, threads, Front(moves));
      PublishedStep(c, Exec(c, threads, Front(moves)).value, Last(moves));
    }
  }

  /** Every later message of a pointer comes from a store made earlier in the run. */
  ghost predicate Recorded(c: Config, s: State, tr: seq<Event>)
    requires Shaped(c, s)
  {
    forall l, ts :: 0 <= l < c.N() && ts in s.mem[l] && ts > 0.0 ==> Write(l, c.lookup[l]) in tr
  }

  lemma {:induction false} RecordedStep(c: Config, s: State, tr: seq<Event>, m: Move)
    requires Shaped(c, s) && Recorded(c, s, tr) && Enabled(c, s, m)
    ensures Shaped(c, Apply(c, s, m)) && Recorded(c, Apply(c, s, m), tr + [EventOf(c, s, m)])
  {
    ShapedStep(c, s, m);
    assert EventOf(c, s, m) in tr + [EventOf(c, s, m)];
    assert forall e :: e in tr ==> e in tr + [EventOf(c, s, m)];
  }

  lemma {:induction false} RunRecorded(c: Config, threads: nat, moves: seq<Move>)
    requires Run(c, threads, moves)
    ensures var s := Exec(c, threads, moves).value; Shaped(c, s) && Recorded(c, s, Trace(c, threads, moves))
    decreases |moves|
  {
    if moves != [] {
      hide Apply, Enabled, Shaped, Recorded, EventOf;
      RunRecorded(c, threads, Front(moves));
      RecordedStep(c, Exec(c, threads, Front(moves)).value, Trace(c, threads, Front(moves)), Last(moves));
    }
  }

  lemma {:induction false} Prefix(c: Config, threads: nat, moves: seq<Move>, k: nat)
    requires Run(c, threads, moves) && k <= |moves|
    ensures Run(c, threads, moves[..k]) && Trace(c, threads, moves[..k]) == Trace(c, threads, moves)[..k]
    decreases |moves|
  {
    if k == |moves| {
      assert moves[..k] == moves;
    } else {
      hide Enabled, Apply, EventOf;
      Prefix(c, threads, Front(moves), k);
      assert Front(moves)[..k] == moves[..k];
    }
  }

  /** A read in the trace is a read from the memory of the prefix before it. */
  lemma {:induction false} EventAt(c: Config, threads: nat, moves: seq<Move>, k: nat)
    requires Run(c, threads, moves) && k < |moves|
    ensures Run(c, threads, moves[..k]) && Enabled(c, Exec(c, threads, moves[..k]).value, moves[k])
    ensures Trace(c, threads, moves)[k] == EventOf(c, Exec(c, threads, moves[..k]).value, moves[k])
    ensures Trace(c, threads, moves[..k]) == Trace(c, threads, moves)[..k]
  {
    hide Enabled, Apply, EventOf;
    Prefix(c, threads, moves, k);
    Prefix(c, threads, moves, k + 1);
    assert Front(moves[..k + 1]) == moves[..k] && Last(moves[..k + 1]) == moves[k];
  }

  /** No wrapper ever sees an unwritten pointer. */
  ghost predicate Safe(c: Config) {
    forall threads: nat, moves, k :: Run(c, threads, moves) && 0 <= k < |moves| ==>
        GoodRead(c, Trace(c, threads, moves), k)
  }

  /** The kth event, if a read, sees the looked-up value, and a store of it came before. */
  ghost predicate GoodRead(c: Config, tr: seq<Event>, k: nat)
    requires k < |tr|
  {
    tr[k].Read? ==>
      && tr[k].loc < c.N() && tr[k].seen == Some(c.lookup[tr[k].loc])
      && Write(tr[k].loc, c.lookup[tr[k].loc]) in tr[..k]
  }

  lemma {:induction false} ReadIsGood(c: Config, threads: nat, moves: seq<Move>, k: nat)
    requires c.release && c.acquire && Run(c, threads, moves) && k < |moves|
    ensures GoodRead(c, Trace(c, threads, moves), k)
  {
    hide Exec, Apply, Trace;
    EventAt(c, threads, moves, k);
    RunValues(c, threads, moves[..k]);
    RunPublished(c, threads, moves[..k]);
    RunRecorded(c, threads, moves[..k]);
  }

  // ---- both orderings are needed ----

  /** Thread 0 runs the init function up to its kth store. */
  function Filling(k: nat): (moves: seq<Move>)
    ensures |moves| == k + 1
  {
    if k == 0 then [LoadReady(0, 0.0)] else Filling(k - 1) + [StorePointer(0, 1.0)]
  }

  /** ... publishes; then thread 1 passes the gate and calls pointer 0. */
  function LateReader(n: nat): seq<Move> {
    Filling(n) + [StoreReady(0, 1.0)] + [LoadReady(1, 1.0)] + [CallPointer(1, 0, 0.0)]
  }

  ghost predicate FillingState(c: Config, s: State, k: nat) {
    && |s.threads| == 2 && s.threads[1] == Thread(Idle, c.Zero())
    && s.threads[0].pc == Fill(k) && |s.threads[0].view| == c.N() + 1
    && (forall l :: k <= l < c.N() + 1 ==> s.threads[0].view[l] == 0.0)
    && |s.mem| == c.N() + 1
    && (forall l :: 0 <= l < c.N() + 1 ==> 0.0 in s.mem[l] && s.mem[l][0.0] == Message(None, c.Zero()))
    && (forall l :: k <= l < c.N() + 1 ==> 1.0 !in s.mem[l])
  }

  lemma {:induction false} FillingRuns(c: Config, k: nat)
    requires k <= c.N()
    ensures Run(c, 2, Filling(k)) && FillingState(c, Exec(c, 2, Filling(k)).value, k)
  {
    hide Apply, Enabled, Exec, FillingState;
    if k == 0 {
      FirstStep(c);
    } else {
      FillingRuns(c, k - 1);
      FillingStep(c, Exec(c, 2, Filling(k - 1)).value, k - 1);
      RunSnoc(c, 2, Filling(k - 1), StorePointer(0, 1.0));
    }
  }

  lemma {:induction false} FirstStep(c: Config)
    ensures Run(c, 2, Filling(0)) && FillingState(c, Exec(c, 2, Filling(0)).value, 0)
  {
    assert Front(Filling(0)) == [];
    assert Exec(c, 2, []) == Some(Start(c, 2));
  }

  lemma {:induction false} FillingStep(c: Config, s: State, k: nat)
    requires FillingState(c, s, k) && k < c.N()
    ensures Enabled(c, s, StorePointer(0, 1.0)) && FillingState(c, Apply(c, s, StorePointer(0, 1.0)), k + 1)
  {
  }

  lemma {:induction false} RunSnoc(c: Config, threads: nat, moves: seq<Move>, m: Move)
    requires Run(c, threads, moves) && Enabled(c, Exec(c, threads, moves).value, m)
    ensures Run(c, threads, moves + [m])
    ensures Exec(c, threads, moves + [m]).value == Apply(c, Exec(c, threads, moves).value, m)
    ensures Trace(c, threads, moves + [m]) == Trace(c, threads, moves) + [EventOf(c, Exec(c, threads, moves).value, m)]
  {
    assert Front(moves + [m]) == moves && Last(moves + [m]) == m;
  }

  lemma {:induction false} LateReaderRuns(c: Config)
    requires c.N() > 0 && !(c.release && c.acquire)
    ensures Run(c, 2, LateReader(c.N()))
    ensures var tr := Trace(c, 2, LateReader(c.N())); tr[|tr| - 1] == Read(1, 0, None)
  {
    hide Exec, Trace, Filling;
    var n := c.N();
    FillingRuns(c, n);
    RunSnoc(c, 2, Filling(n), StoreReady(0, 1.0));
    RunSnoc(c, 2, Filling(n) + [StoreReady(0, 1.0)], LoadReady(1, 1.0));
    RunSnoc(c, 2, Filling(n) + [StoreReady(0, 1.0)] + [LoadReady(1, 1.0)], CallPointer(1, 0, 0.0));
  }

  /** The protocol keeps its promise exactly because the flag is stored with release and loaded with acquire. */
  lemma {:induction false} SafeIff(c: Config)
    requires c.N() > 0
    ensures Safe(c) <==> c.release && c.acquire
  {
    if c.release && c.acquire {
      forall threads: nat, moves, k | Run(c, threads, moves) && 0 <= k < |moves|
        ensures GoodRead(c, Trace(c, threads, moves), k)
      {
        ReadIsGood(c, threads, moves, k);
      }
    } else {
      hide Exec, Trace, LateReader, Run;
      LateReaderRuns(c);
      var moves := LateReader(c.N());
      assert !GoodRead(c, Trace(c, 2, moves), |moves| - 1);
    }
  }

  // ---- a pointer keeps its value ----

  lemma {:induction false} ViewGrows(c: Config, threads: nat, moves: seq<Move>, j: nat, t: nat, l: nat)
    requires Run(c, threads, moves) && j <= |moves| && t < threads && l < c.N() + 1
    ensures Run(c, threads, moves[..j])
    ensures var s, s' := Exec(c, threads, moves[..j]).value, Exec(c, threads, moves).value;
            Shaped(c, s) && Shaped(c, s') && t < |s.threads| == |s'.threads|
                && s.threads[t].view[l] <= s'.threads[t].view[l]
    decreases |moves|
  {
    Prefix(c, threads, moves, j);
    RunValues(c, threads, moves);
    RunValues(c, threads, moves[..j]);
    ThreadCount(c, threads, moves);
    if j == |moves| {
      assert moves[..j] == moves;
    } else {
      hide Enabled, Apply, Shaped, Values;
      ViewGrows(c, threads, Front(moves), j, t, l);
      assert Front(moves)[..j] == moves[..j];
      StepGrows(c, Exec(c, threads, Front(moves)).value, Last(moves), t, l);
    }
  }

  lemma {:induction false} ThreadCount(c: Config, threads: nat, moves: seq<Move>)
    requires Run(c, threads, moves)
    ensures |Exec(c, threads, moves).value.threads| == threads
    decreases |moves|
  {
    if moves != [] { ThreadCount(c, threads, Front(moves)); }
  }

  lemma {:induction false} StepGrows(c: Config, s: State, m: Move, t: nat, l: nat)
    requires Shaped(c, s) && Enabled(c, s, m) && t < |s.threads| && l < c.N() + 1
    ensures var s' := Apply(c, s, m); Shaped(c, s') && t < |s'.threads| && s.threads[t].view[l] <= s'.threads[t].view[l]
  {
    ShapedStep(c, s, m);
  }

  /** Whatever the orderings, once a thread has seen a pointer written it sees that same value for ever. */
  lemma {:induction false} ValueKept(c: Config, threads: nat, moves: seq<Move>, j: nat, k: nat)
    requires Run(c, threads, moves) && j < k < |moves|
    requires var tr := Trace(c, threads, moves);
             tr[j].Read? && tr[k].Read? && tr[j].thread == tr[k].thread && tr[j].loc == tr[k].loc && tr[j].seen.Some?
    ensures Trace(c, threads, moves)[k].seen == Trace(c, threads, moves)[j].seen
  {
    hide Exec, Trace;
    EventAt(c, threads, moves, j);
    EventAt(c, threads, moves, j + 1);
    EventAt(c, threads, moves, k);
    RunValues(c, threads, moves[..j]);
    RunValues(c, threads, moves[..k]);
    var e := Trace(c, threads, moves)[j];
    AfterRead(c, threads, moves, j);
    ThreadCount(c, threads, moves[..j]);
    ViewGrows(c, threads, moves[..k], j + 1, e.thread, e.loc);
    assert moves[..k][..j + 1] == moves[..j + 1];
  }

  /** A read raises the thread's view of the pointer to the message it read. */
  lemma {:induction false} AfterRead(c: Config, threads: nat, moves: seq<Move>, j: nat)
    requires Run(c, threads, moves) && j < |moves|
    requires Trace(c, threads, moves)[j].Read?
    ensures Run(c, threads, moves[..j]) && Run(c, threads, moves[..j + 1])
    ensures moves[j].CallPointer?
    ensures var s := Exec(c, threads, moves[..j + 1]).value;
            moves[j].t < |s.threads| && moves[j].loc < |s.threads[moves[j].t].view|
                && s.threads[moves[j].t].view[moves[j].loc] == moves[j].at
  {
    EventAt(c, threads, moves, j);
    hide Trace;
    Prefix(c, threads, moves, j + 1);
    assert Front(moves[..j + 1]) == moves[..j] && Last(moves[..j + 1]) == moves[j];
  }
}
