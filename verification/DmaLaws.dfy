/** What holds along every run of the queue. */
module DmaLaws {
  import opened DmaSpec
  import opened Options
  import opened Spelling

  // ---------------------------------------------------------------- nothing is lost, doubled or overtaken

  function Flying(m: Spec, tag: nat): seq<Request> {
    if m.flight.Some? && m.flight.value.0 == tag then [m.flight.value.1] else []
  }

  function Requests(d: seq<Done>): seq<Request> {
    if d == [] then [] else Requests(d[..|d| - 1]) + [d[|d| - 1].request]
  }

  /** All requests of a tag, from the oldest: those that are over, the one in flight, those to come. */
  function Story(m: Spec, tag: nat): seq<Request>
    requires Valid(m) && tag < TAG_COUNT
  {
    Requests(m.done[tag]) + Flying(m, tag) + m.pending[tag]
  }

  /** The ends that the log reports for a tag. */
  function Ends(log: seq<Event>, tag: nat): seq<Done> {
    if log == [] then []
    else
      var rest, e := Ends(log[..|log| - 1], tag), log[|log| - 1];
      if e.Called? && e.tag == tag && e.status == {Complete} then rest + [Done(e.request, Completed)]
      else if e.Called? && e.tag == tag && e.status == {Processing, CanceledFlag} then
        rest + [Done(e.request, Canceled)]
      else rest
  }

  /** The transfers that the log reports for a tag. */
  function Starts(log: seq<Event>, tag: nat): seq<Request> {
    if log == [] then []
    else
      var rest, e := Starts(log[..|log| - 1], tag), log[|log| - 1];
      if e.Started? && e.tag == tag then rest + [e.request] else rest
  }

  function Ran(d: seq<Done>): seq<Request> {
    if d == [] then []
    else
      var rest, e := Ran(d[..|d| - 1]), d[|d| - 1];
      if e.fate == Completed then rest + [e.request] else rest
  }

  /** The log tells the same story: one end for each request that is over, one start for each that ran or runs. */
  ghost predicate Faithful(m: Spec, tag: nat)
    requires Valid(m) && tag < TAG_COUNT
  {
    Ends(m.log, tag) == m.done[tag] && Starts(m.log, tag) == Ran(m.done[tag]) + Flying(m, tag)
  }

  lemma {:induction false} LogOne(log: seq<Event>, e: Event, tag: nat)
    ensures Ends(log + [e], tag) ==
      if e.Called? && e.tag == tag && e.status == {Complete} then Ends(log, tag) + [Done(e.request, Completed)]
      else if e.Called? && e.tag == tag && e.status == {Processing, CanceledFlag} then
        Ends(log, tag) + [Done(e.request, Canceled)]
      else Ends(log, tag)
    ensures Starts(log + [e], tag) ==
      if e.Started? && e.tag == tag then Starts(log, tag) + [e.request] else Starts(log, tag)
  {
    assert (log + [e])[..|log|] == log;
  }

  lemma {:induction false} DoneOne(d: seq<Done>, e: Done)
    ensures Requests(d + [e]) == Requests(d) + [e.request]
    ensures Ran(d + [e]) == if e.fate == Completed then Ran(d) + [e.request] else Ran(d)
  {
    assert (d + [e])[..|d|] == d;
  }

  lemma {:induction false} LogStarted(log: seq<Event>, tag: nat, r: Request, x: nat)
    ensures Ends(log + [Started(tag, r)], x) == Ends(log, x)
    ensures Starts(log + [Started(tag, r)], x) == if tag == x then Starts(log, x) + [r] else Starts(log, x)
  {
    assert (log + [Started(tag, r)])[..|log|] == log;
  }

  lemma {:induction false} LogAnnounced(log: seq<Event>, tag: nat, r: Request, x: nat)
    ensures Ends(log + [Called(tag, r, {Processing})], x) == Ends(log, x)
    ensures Starts(log + [Called(tag, r, {Processing})], x) == Starts(log, x)
  {
    var status: Status := {Processing};
    assert Complete !in status && CanceledFlag !in status;
    assert (log + [Called(tag, r, status)])[..|log|] == log;
  }

  lemma TakeOff(d: seq<Request>, p: seq<Request>)
    requires p != []
    ensures d + [] + p == d + [p[0]] + p[1..]
  {
  }

  lemma {:induction false} StartKeepsOther(m: Spec, tag: nat, x: nat)
    requires Valid(m) && tag < TAG_COUNT && m.flight.None? && m.pending[tag] != [] && x < TAG_COUNT && Faithful(m, x)
    requires x != tag
    ensures var n := Start(m, tag); Valid(n) && Story(n, x) == Story(m, x) && Faithful(n, x)
  {
    LogStarted(m.log, tag, m.pending[tag][0], x);
  }

  lemma {:induction false} StartKeepsSame(m: Spec, tag: nat)
    requires Valid(m) && tag < TAG_COUNT && m.flight.None? && m.pending[tag] != [] && Faithful(m, tag)
    ensures var n := Start(m, tag); Valid(n) && Story(n, tag) == Story(m, tag) && Faithful(n, tag)
  {
    LogStarted(m.log, tag, m.pending[tag][0], tag);
    TakeOff(Requests(m.done[tag]), m.pending[tag]);
    var ran := Ran(m.done[tag]);
    assert ran + [] == ran;
  }

  lemma {:induction false} StartKeeps(m: Spec, tag: nat, x: nat)
    requires Valid(m) && tag < TAG_COUNT && m.flight.None? && m.pending[tag] != [] && x < TAG_COUNT && Faithful(m, x)
    ensures var n := Start(m, tag); Valid(n) && Story(n, x) == Story(m, x) && Faithful(n, x)
  {
    if x == tag { StartKeepsSame(m, tag); } else { StartKeepsOther(m, tag, x); }
  }

  lemma {:induction false} AnnounceKeeps(m: Spec, tag: nat, r: Request, x: nat)
    requires Valid(m) && x < TAG_COUNT && Faithful(m, x)
    ensures var n := m.(log := m.log + [Called(tag, r, {Processing})]); Story(n, x) == Story(m, x) && Faithful(n, x)
  {
    LogAnnounced(m.log, tag, r, x);
  }

  lemma {:induction false} LeftIsSilent(m: Spec, left: nat, x: nat)
    requires Valid(m) && x < TAG_COUNT && Valid(m.(left := left))
    ensures var n := m.(left := left); Story(n, x) == Story(m, x) && (Faithful(n, x) <==> Faithful(m, x))
  {
  }

  lemma {:induction false} CompleteKeeps(m: Spec, x: nat)
    requires Valid(m) && m.flight.Some? && x < TAG_COUNT && Faithful(m, x)
    ensures var f := m.flight.value;
      var c := m.(flight := None, left := 0, done := m.done[f.0 := m.done[f.0] + [Done(f.1, Completed)]],
                  log := m.log + [Called(f.0, f.1, {Complete})]);
      Valid(c) && Story(c, x) == Story(m, x) && Faithful(c, x)
  {
    var f := m.flight.value;
    LogOne(m.log, Called(f.0, f.1, {Complete}), x);
    DoneOne(m.done[f.0], Done(f.1, Completed));
  }

  lemma {:induction false} StepKeeps(m: Spec, x: nat)
    requires Valid(m) && x < TAG_COUNT && Faithful(m, x)
    ensures Story(Step(m), x) == Story(m, x) && Faithful(Step(m), x)
  {
    if m.flight.Some? {
      var f := m.flight.value;
      CompleteKeeps(m, x);
      var c := m.(flight := None, left := 0, done := m.done[f.0 := m.done[f.0] + [Done(f.1, Completed)]],
                  log := m.log + [Called(f.0, f.1, {Complete})]);
      if m.left > 0 { StartKeeps(c, f.0, x); }
    }
  }

  lemma {:induction false} WaitKeeps(m: Spec, x: nat)
    requires Valid(m) && x < TAG_COUNT && Faithful(m, x)
    ensures Story(Wait(m), x) == Story(m, x) && Faithful(Wait(m), x)
    decreases if m.flight.None? then 0 else m.left + 1
  {
    if m.flight.Some? {
      StepKeeps(m, x);
      WaitKeeps(Step(m), x);
    }
  }

  lemma {:induction false} FlushKeeps(m: Spec, tag: nat, x: nat)
    requires Valid(m) && tag < TAG_COUNT && x < TAG_COUNT && Faithful(m, x)
    ensures Story(Flush(m, tag), x) == Story(m, x) && Faithful(Flush(m, tag), x)
  {
    WaitKeeps(m, x);
    var w := Wait(m);
    if w.pending[tag] != [] {
      AnnounceKeeps(w, tag, w.pending[tag][0], x);
      var c := w.(log := w.log + [Called(tag, w.pending[tag][0], {Processing})]);
      StartKeeps(c, tag, x);
      LeftIsSilent(Start(c, tag), |w.pending[tag]| - 1, x);
    }
  }

  lemma {:induction false} CancelOneKeeps(m: Spec, tag: nat, x: nat)
    requires Valid(m) && tag < TAG_COUNT && x < TAG_COUNT && m.flight.None? && m.pending[tag] != [] && Faithful(m, x)
    ensures Story(CancelOne(m, tag), x) == Story(m, x) && Faithful(CancelOne(m, tag), x)
  {
    var r := m.pending[tag][0];
    LogOne(m.log, Called(tag, r, {Processing, CanceledFlag}), x);
    DoneOne(m.done[tag], Done(r, Canceled));
    MoveOver(Requests(m.done[tag]), m.pending[tag]);
  }

  lemma MoveOver(d: seq<Request>, p: seq<Request>)
    requires p != []
    ensures d + [] + p == (d + [p[0]]) + [] + p[1..]
  {
  }

  lemma {:induction false} CancelAllKeeps(m: Spec, tag: nat, x: nat)
    requires Valid(m) && tag < TAG_COUNT && x < TAG_COUNT && m.flight.None? && Faithful(m, x)
    ensures Story(CancelAll(m, tag), x) == Story(m, x) && Faithful(CancelAll(m, tag), x)
    decreases |m.pending[tag]|
  {
    if m.pending[tag] != [] {
      CancelOneKeeps(m, tag, x);
      CancelAllKeeps(CancelOne(m, tag), tag, x);
    }
  }

  lemma {:induction false} ClearKeeps(m: Spec, k: nat, x: nat)
    requires Valid(m) && k <= TAG_COUNT && x < TAG_COUNT && Faithful(m, x)
    ensures Story(Clear(m, k), x) == Story(m, x) && Faithful(Clear(m, k), x)
  {
    if k > 0 {
      ClearKeeps(m, k - 1, x);
      WaitKeeps(Clear(m, k - 1), x);
      CancelAllKeeps(Wait(Clear(m, k - 1)), k - 1, x);
    }
  }

  /** What an operation adds to the story of a tag. */
  function Added(op: Op, tag: nat): seq<Request> {
    if op.EnqueueOp? && op.tag == tag then [op.r] else []
  }

  lemma {:induction false} AfterKeeps(m: Spec, op: Op, x: nat)
    requires Valid(m) && Allowed(m, op) && x < TAG_COUNT && Faithful(m, x)
    ensures Story(After(m, op), x) == Story(m, x) + Added(op, x) && Faithful(After(m, op), x)
  {
    match op
    case EnqueueOp(tag, r) =>
    case StepOp => StepKeeps(m, x);
    case WaitOp => WaitKeeps(m, x);
    case FlushOp(tag) => FlushKeeps(m, tag, x);
    case TagClearOp(tag) =>
      WaitKeeps(m, x);
      CancelAllKeeps(Wait(m), tag, x);
    case ClearOp => ClearKeeps(m, TAG_COUNT, x);
  }

  // ---------------------------------------------------------------- one transfer at a time

  /** What a log leaves running, if no transfer was started before the one in front of it ended. */
  datatype Bus = Idle | Carries(tag: nat, request: Request) | Clash

  function BusNext(b: Bus, e: Event): Bus {
    match e
    case Started(tag, r) => if b == Idle then Carries(tag, r) else Clash
    case Called(tag, r, status) => if status != {Complete} then b else if b == Carries(tag, r) then Idle else Clash
  }

  function BusAfter(log: seq<Event>): Bus {
    if log == [] then Idle else BusNext(BusAfter(log[..|log| - 1]), log[|log| - 1])
  }

  /** The log agrees with what is in flight. */
  ghost predicate Alone(m: Spec) {
    BusAfter(m.log) == match m.flight case None => Idle case Some(f) => Carries(f.0, f.1)
  }

  /** The end of the transfer that starts at `i` is in the log. */
  ghost predicate Ended(log: seq<Event>, i: nat)
    requires i < |log| && log[i].Started?
  {
    exists k :: i < k < |log| && log[k] == Called(log[i].tag, log[i].request, {Complete})
  }

  /** Every transfer, of whatever tag, has ended when the next one starts. */
  ghost predicate OneAtATime(log: seq<Event>) {
    forall i, j :: 0 <= i < j < |log| && log[i].Started? && log[j].Started? ==> Ended(log[..j], i)
  }

  lemma {:induction false} BusOne(log: seq<Event>, e: Event)
    ensures BusAfter(log + [e]) == BusNext(BusAfter(log), e)
  {
    assert (log + [e])[..|log|] == log;
  }

  lemma {:induction false} EndedLonger(log: seq<Event>, e: Event, i: nat)
    requires i < |log| && log[i].Started? && Ended(log, i)
    ensures Ended(log + [e], i)
  {
    var k :| i < k < |log| && log[k] == Called(log[i].tag, log[i].request, {Complete});
    assert (log + [e])[k] == log[k];
  }

  ghost predicate Open(log: seq<Event>, b: Bus) {
    forall i :: 0 <= i < |log| && log[i].Started? ==> Ended(log, i) || b == Carries(log[i].tag, log[i].request)
  }

  lemma {:induction false} OpenNext(log: seq<Event>, e: Event, b: Bus)
    requires Open(log, b) && BusNext(b, e) != Clash
    ensures Open(log + [e], BusNext(b, e))
  {
    forall i | 0 <= i < |log| && log[i].Started?
      ensures Ended(log + [e], i) || BusNext(b, e) == Carries(log[i].tag, log[i].request)
    {
      if Ended(log, i) {
        EndedLonger(log, e, i);
      } else if e.Called? && e.status == {Complete} {
        assert (log + [e])[|log|] == Called(log[i].tag, log[i].request, {Complete});
      }
    }
  }

  lemma {:induction false} OneMoreAtATime(log: seq<Event>, e: Event, b: Bus)
    requires OneAtATime(log) && Open(log, b) && BusNext(b, e) != Clash
    ensures OneAtATime(log + [e])
  {
    var all := log + [e];
    forall i, j | 0 <= i < j < |all| && all[i].Started? && all[j].Started? ensures Ended(all[..j], i) {
      assert all[..j] == log[..j];
      if j == |log| { assert log[..j] == log; }
    }
  }

  lemma {:induction false} BusMeaning(log: seq<Event>)
    requires BusAfter(log) != Clash
    ensures OneAtATime(log) && Open(log, BusAfter(log))
  {
    if log != [] {
      var front, e := log[..|log| - 1], log[|log| - 1];
      assert log == front + [e];
      BusMeaning(front);
      OpenNext(front, e, BusAfter(front));
      OneMoreAtATime(front, e, BusAfter(front));
    }
  }

  lemma {:induction false} StepAlone(m: Spec)
    requires Valid(m) && Alone(m)
    ensures Alone(Step(m))
  {
    if m.flight.Some? {
      var f := m.flight.value;
      BusOne(m.log, Called(f.0, f.1, {Complete}));
      if m.left > 0 { BusOne(m.log + [Called(f.0, f.1, {Complete})], Started(f.0, m.pending[f.0][0])); }
    }
  }

  lemma {:induction false} WaitAlone(m: Spec)
    requires Valid(m) && Alone(m)
    ensures Alone(Wait(m))
    decreases if m.flight.None? then 0 else m.left + 1
  {
    if m.flight.Some? {
      StepAlone(m);
      WaitAlone(Step(m));
    }
  }

  lemma {:induction false} FlushAlone(m: Spec, tag: nat)
    requires Valid(m) && tag < TAG_COUNT && Alone(m)
    ensures Alone(Flush(m, tag))
  {
    WaitAlone(m);
    var w := Wait(m);
    if w.pending[tag] != [] {
      var r, status: Status := w.pending[tag][0], {Processing};
      assert Complete !in status;
      BusOne(w.log, Called(tag, r, status));
      BusOne(w.log + [Called(tag, r, status)], Started(tag, r));
    }
  }

  lemma {:induction false} CancelAllAlone(m: Spec, tag: nat)
    requires Valid(m) && tag < TAG_COUNT && m.flight.None? && Alone(m)
    ensures Alone(CancelAll(m, tag))
    decreases |m.pending[tag]|
  {
    if m.pending[tag] != [] {
      var status: Status := {Processing, CanceledFlag};
      assert Complete !in status;
      BusOne(m.log, Called(tag, m.pending[tag][0], status));
      CancelAllAlone(CancelOne(m, tag), tag);
    }
  }

  lemma {:induction false} ClearAlone(m: Spec, k: nat)
    requires Valid(m) && k <= TAG_COUNT && Alone(m)
    ensures Alone(Clear(m, k))
  {
    if k > 0 {
      ClearAlone(m, k - 1);
      WaitAlone(Clear(m, k - 1));
      CancelAllAlone(Wait(Clear(m, k - 1)), k - 1);
    }
  }

  lemma {:induction false} AfterAlone(m: Spec, op: Op)
    requires Valid(m) && Allowed(m, op) && Alone(m)
    ensures Alone(After(m, op))
  {
    match op
    case EnqueueOp(tag, r) =>
    case StepOp => StepAlone(m);
    case WaitOp => WaitAlone(m);
    case FlushOp(tag) => FlushAlone(m, tag);
    case TagClearOp(tag) =>
      WaitAlone(m);
      CancelAllAlone(Wait(m), tag);
    case ClearOp => ClearAlone(m, TAG_COUNT);
  }

  // ---------------------------------------------------------------- runs

  ghost predicate Runs(m: Spec, ops: seq<Op>)
    requires Valid(m)
    decreases |ops|
  {
    ops != [] ==> Allowed(m, ops[0]) && Runs(After(m, ops[0]), ops[1..])
  }

  ghost function Run(m: Spec, ops: seq<Op>): (n: Spec)
    requires Valid(m) && Runs(m, ops)
    ensures Valid(n)
    decreases |ops|
  {
    if ops == [] then m else Run(After(m, ops[0]), ops[1..])
  }

  function AddedBy(ops: seq<Op>, tag: nat): seq<Request> {
    if ops == [] then [] else Added(ops[0], tag) + AddedBy(ops[1..], tag)
  }

  /**
   Along every run, the requests of a tag are over, in flight or pending in the order in which they
   were enqueued, each once; each that is over was reported once, as complete or as canceled; the
   transfers were started in that order; and no transfer of any tag was started before the one in
   front of it had been reported complete.
   */
  lemma {:induction false} EveryRun(m: Spec, ops: seq<Op>, x: nat)
    requires Valid(m) && Runs(m, ops) && x < TAG_COUNT && Faithful(m, x) && Alone(m)
    ensures Story(Run(m, ops), x) == Story(m, x) + AddedBy(ops, x) && Faithful(Run(m, ops), x)
    ensures Alone(Run(m, ops)) && OneAtATime(Run(m, ops).log)
    decreases |ops|
  {
    if ops == [] {
      BusMeaning(m.log);
      assert AddedBy(ops, x) == [];
    } else {
      AfterKeeps(m, ops[0], x);
      AfterAlone(m, ops[0]);
      EveryRun(After(m, ops[0]), ops[1..], x);
      Regroup(Story(m, x), Added(ops[0], x), AddedBy(ops[1..], x));
    }
  }

  // ---------------------------------------------------------------- what a flush runs

  function AllCompleted(rs: seq<Request>): seq<Done> {
    if rs == [] then [] else [Done(rs[0], Completed)] + AllCompleted(rs[1..])
  }

  ghost predicate Busy(m: Spec, tag: nat) {
    m.flight.Some? && m.flight.value.0 == tag
  }

  /** What will be over when the flush that runs has ended. */
  function Projected(m: Spec, tag: nat): seq<Done>
    requires Valid(m) && tag < TAG_COUNT
  {
    m.done[tag] +
    if m.flight.Some? && m.flight.value.0 == tag then AllCompleted([m.flight.value.1] + m.pending[tag][..m.left])
    else []
  }

  /** What will still be pending then. */
  function Later(m: Spec, tag: nat): seq<Request>
    requires Valid(m) && tag < TAG_COUNT
  {
    if m.flight.Some? && m.flight.value.0 == tag then m.pending[tag][m.left..] else m.pending[tag]
  }

  lemma {:induction false} StepProjects(m: Spec, x: nat)
    requires Valid(m) && x < TAG_COUNT
    ensures Projected(Step(m), x) == Projected(m, x) && Later(Step(m), x) == Later(m, x)
  {
    if Busy(m, x) {
      var r, p, n := m.flight.value.1, m.pending[x], Step(m);
      var batch := [r] + p[..m.left];
      assert batch[1..] == p[..m.left];
      assert AllCompleted(batch) == [Done(r, Completed)] + AllCompleted(p[..m.left]);
      if m.left > 0 {
        assert p[..m.left] == [p[0]] + p[1..][..m.left - 1];
        assert p[1..][m.left - 1..] == p[m.left..];
      } else {
        assert AllCompleted(p[..0]) == [];
      }
      assert Projected(n, x) == (m.done[x] + [Done(r, Completed)]) + AllCompleted(p[..m.left]);
    }
  }

  lemma {:induction false} WaitProjects(m: Spec, x: nat)
    requires Valid(m) && x < TAG_COUNT
    ensures Wait(m).done[x] == Projected(m, x) && Wait(m).pending[x] == Later(m, x)
    decreases if m.flight.None? then 0 else m.left + 1
  {
    if m.flight.Some? {
      StepProjects(m, x);
      WaitProjects(Step(m), x);
    }
  }

  lemma {:induction false} EnqueueProjects(m: Spec, tag: nat, r: Request, x: nat)
    requires Valid(m) && tag < TAG_COUNT && x < TAG_COUNT
    ensures Projected(Enqueue(m, tag, r), x) == Projected(m, x)
    ensures Later(Enqueue(m, tag, r), x) == Later(m, x) + if tag == x then [r] else []
  {
    if tag == x && Busy(m, x) {
      assert (m.pending[x] + [r])[..m.left] == m.pending[x][..m.left];
    }
  }

  /** While a flush runs, the queue may grow and transfers may complete. */
  ghost predicate DuringFlush(ops: seq<Op>) {
    forall i :: 0 <= i < |ops| ==> ops[i].EnqueueOp? || ops[i].StepOp?
  }

  lemma {:induction false} FlushProjects(m: Spec, ops: seq<Op>, x: nat)
    requires Valid(m) && Runs(m, ops) && DuringFlush(ops) && x < TAG_COUNT
    ensures Projected(Run(m, ops), x) == Projected(m, x) && Later(Run(m, ops), x) == Later(m, x) + AddedBy(ops, x)
    decreases |ops|
  {
    if ops != [] {
      OpProjects(m, ops[0], x);
      FlushProjects(After(m, ops[0]), ops[1..], x);
      Regroup(Later(m, x), Added(ops[0], x), AddedBy(ops[1..], x));
    }
  }

  lemma {:induction false} OpProjects(m: Spec, op: Op, x: nat)
    requires Valid(m) && Allowed(m, op) && (op.EnqueueOp? || op.StepOp?) && x < TAG_COUNT
    ensures Projected(After(m, op), x) == Projected(m, x) && Later(After(m, op), x) == Later(m, x) + Added(op, x)
  {
    if op.StepOp? { StepProjects(m, x); } else { EnqueueProjects(m, op.tag, op.r, x); }
  }

  /**
   A flush waits for the one before it, and then completes exactly the requests that are pending,
   whatever is enqueued while it runs; that stays pending.
   */
  lemma {:induction false} FlushRunsWhatWasThere(m: Spec, tag: nat, ops: seq<Op>)
    requires Valid(m) && tag < TAG_COUNT && Runs(Flush(m, tag), ops) && DuringFlush(ops)
    ensures var w, e := Wait(m), Wait(Run(Flush(m, tag), ops));
      && e.done[tag] == w.done[tag] + AllCompleted(w.pending[tag])
      && e.pending[tag] == AddedBy(ops, tag)
  {
    var n := Flush(m, tag);
    FlushProjects(n, ops, tag);
    WaitProjects(Run(n, ops), tag);
    FlushStarts(m, tag);
    assert [] + AddedBy(ops, tag) == AddedBy(ops, tag);
  }

  lemma {:induction false} FlushStarts(m: Spec, tag: nat)
    requires Valid(m) && tag < TAG_COUNT
    ensures Projected(Flush(m, tag), tag) == Wait(m).done[tag] + AllCompleted(Wait(m).pending[tag])
    ensures Later(Flush(m, tag), tag) == []
  {
    var p := Wait(m).pending[tag];
    if p == [] {
      assert AllCompleted(p) == [];
    } else {
      assert [p[0]] + p[1..][..|p| - 1] == p;
      assert p[1..][|p| - 1..] == [];
    }
  }

  // ---------------------------------------------------------------- what the outside sees

  /** The rest of a flush: the transfer of `r` ends, and those of `rest` start and end in turn. */
  function Played(tag: nat, r: Request, rest: seq<Request>): seq<Event>
    decreases |rest|
  {
    [Called(tag, r, {Complete})] +
    if rest == [] then [] else [Started(tag, rest[0])] + Played(tag, rest[0], rest[1..])
  }

  /** Waiting plays what is left of the flush, and nothing else. */
  lemma {:induction false} WaitPlays(m: Spec)
    requires Valid(m)
    ensures m.flight.None? ==> Wait(m) == m
    ensures m.flight.Some? ==>
      var f := m.flight.value; Wait(m).log == m.log + Played(f.0, f.1, m.pending[f.0][..m.left])
    decreases if m.flight.None? then 0 else m.left + 1
  {
    if m.flight.Some? {
      var f, n := m.flight.value, Step(m);
      var batch := m.pending[f.0][..m.left];
      WaitPlays(n);
      if m.left > 0 {
        assert batch[1..] == n.pending[f.0][..n.left] && batch[0] == m.pending[f.0][0];
        PlaysOn(m.log, Called(f.0, f.1, {Complete}), Started(f.0, batch[0]), Played(f.0, batch[0], batch[1..]));
      } else {
        assert Played(f.0, f.1, batch) == [Called(f.0, f.1, {Complete})] + [];
      }
    }
  }

  lemma PlaysOn(log: seq<Event>, a: Event, b: Event, rest: seq<Event>)
    ensures log + [a] + [b] + rest == log + ([a] + ([b] + rest))
  {
  }

  /** A flush announces the oldest pending request and starts it; all others of its tag are to follow. */
  lemma {:induction false} FlushExactly(m: Spec, tag: nat, x: nat)
    requires Valid(m) && tag < TAG_COUNT && x < TAG_COUNT
    ensures var w, n := Wait(m), Flush(m, tag);
      var p := w.pending[tag];
      && (p == [] ==> n == w)
      && (p != [] ==>
            && n.log == w.log + [Called(tag, p[0], {Processing}), Started(tag, p[0])]
            && n.flight == Some((tag, p[0])) && n.left == |p| - 1
            && n.pending[x] == (if x == tag then p[1..] else w.pending[x]) && n.done[x] == w.done[x])
  {
    var w := Wait(m);
    if w.pending[tag] != [] {
      var a, b := Called(tag, w.pending[tag][0], {Processing}), Started(tag, w.pending[tag][0]);
      assert w.log + [a] + [b] == w.log + [a, b];
    }
  }

  function AllCanceled(rs: seq<Request>): seq<Done> {
    if rs == [] then [] else [Done(rs[0], Canceled)] + AllCanceled(rs[1..])
  }

  function CancelReports(tag: nat, rs: seq<Request>): seq<Event> {
    if rs == [] then [] else [Called(tag, rs[0], {Processing, CanceledFlag})] + CancelReports(tag, rs[1..])
  }

  /** Every pending request of the tag is canceled and reported, in order; the other tags are not touched. */
  lemma {:induction false} CancelAllExactly(m: Spec, tag: nat, x: nat)
    requires Valid(m) && tag < TAG_COUNT && x < TAG_COUNT && m.flight.None?
    ensures var n := CancelAll(m, tag);
      && n.log == m.log + CancelReports(tag, m.pending[tag])
      && n.done[x] == (if x == tag then m.done[x] + AllCanceled(m.pending[x]) else m.done[x])
      && n.pending[x] == (if x == tag then [] else m.pending[x])
    decreases |m.pending[tag]|
  {
    var p := m.pending[tag];
    if p == [] {
      assert AllCanceled(p) == [] && CancelReports(tag, p) == [];
    } else {
      var n := CancelOne(m, tag);
      CancelAllExactly(n, tag, x);
      assert n.pending[tag] == p[1..];
      Regroup(m.log, [Called(tag, p[0], {Processing, CanceledFlag})], CancelReports(tag, p[1..]));
      Regroup(m.done[tag], [Done(p[0], Canceled)], AllCanceled(p[1..]));
    }
  }

  /** The reports of the tags below `k`, in the order of the tags. */
  function ClearReports(m: Spec, k: nat): seq<Event>
    requires Valid(m) && k <= TAG_COUNT
  {
    if k == 0 then [] else ClearReports(m, k - 1) + CancelReports(k - 1, m.pending[k - 1])
  }

  /**
   `dma_queue_clear` waits for the flush that runs, and then every pending request of every tag is
   canceled and reported, by tag and in order.
   */
  lemma {:induction false} ClearExactly(m: Spec, k: nat, x: nat)
    requires Valid(m) && 0 < k <= TAG_COUNT && x < TAG_COUNT
    ensures var w, n := Wait(m), Clear(m, k);
      && n.flight.None? && n.log == w.log + ClearReports(w, k)
      && n.done[x] == (if x < k then w.done[x] + AllCanceled(w.pending[x]) else w.done[x])
      && n.pending[x] == (if x < k then [] else w.pending[x])
  {
    var w := Wait(m);
    if k == 1 {
      ClearFirst(m, w, x);
    } else {
      var c := Clear(m, k - 1);
      ClearExactly(m, k - 1, x);
      assert c.pending[k - 1] == w.pending[k - 1] by { ClearExactly(m, k - 1, k - 1); }
      ClearMore(c, w, k - 1, x, ClearReports(w, k - 1));
    }
  }

  lemma {:induction false} ClearFirst(m: Spec, w: Spec, x: nat)
    requires Valid(m) && w == Wait(m) && x < TAG_COUNT
    ensures var n := Clear(m, 1);
      && n.flight.None? && n.log == w.log + ClearReports(w, 1)
      && n.done[x] == (if x == 0 then w.done[x] + AllCanceled(w.pending[x]) else w.done[x])
      && n.pending[x] == (if x == 0 then [] else w.pending[x])
  {
    assert ClearReports(w, 1) == [] + CancelReports(0, w.pending[0]);
    CancelAllExactly(w, 0, x);
  }

  /** One more tag is cleared, with nothing in flight. */
  lemma {:induction false} ClearMore(c: Spec, w: Spec, tag: nat, x: nat, reports: seq<Event>)
    requires Valid(c) && Valid(w) && tag < TAG_COUNT && x < TAG_COUNT && c.flight.None?
    requires c.log == w.log + reports && c.pending[tag] == w.pending[tag]
    ensures var n := TagClear(c, tag);
      && n.flight.None? && n.log == w.log + (reports + CancelReports(tag, w.pending[tag]))
      && n.done[x] == (if x == tag then c.done[x] + AllCanceled(w.pending[x]) else c.done[x])
      && n.pending[x] == (if x == tag then [] else c.pending[x])
  {
    assert Wait(c) == c by { WaitPlays(c); }
    CancelAllExactly(c, tag, x);
    Regroup(w.log, reports, CancelReports(tag, w.pending[tag]));
  }
}
