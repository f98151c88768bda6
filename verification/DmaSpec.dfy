/**
 What libyaul/kernel/sys/dma-queue.c promises: for each tag an unbounded queue of requests, at most one
 transfer in flight, and a flush that runs the requests that were there when it began.
 */
module DmaSpec {
  import opened Options

  /** A request: what the transfer is, who is called about it, and with what. */
  datatype Request = Request(handle: nat, handler: nat, work: nat)

  datatype Fate = Completed | Canceled

  datatype Done = Done(request: Request, fate: Fate)

  /** What the outside sees: a handler called with a status, or a transfer started. */
  datatype Event = Called(tag: nat, request: Request, status: Status) | Started(tag: nat, request: Request)

  const TAG_COUNT := 3
  const MAX_COUNT := 32

  /** The bits of a status. */
  datatype Flag = Unprocessed | Processing | CanceledFlag | Complete

  type Status = set<Flag>

  /**
   `pending` and `done` are by tag; `flight` is the transfer that runs, with its tag; `left` is how many
   requests of its flush are still pending.
   */
  datatype Spec = Spec(pending: seq<seq<Request>>, flight: Option<(nat, Request)>, left: nat,
                       done: seq<seq<Done>>, log: seq<Event>)

  ghost predicate Valid(m: Spec) {
    && |m.pending| == |m.done| == TAG_COUNT
    && match m.flight
       case None => m.left == 0
       case Some(f) => f.0 < TAG_COUNT && m.left <= |m.pending[f.0]|
  }

  const INITIAL := Spec([[], [], []], None, 0, [[], [], []], [])

  // ---------------------------------------------------------------- the operations

  /** The slots that a tag occupies. */
  function Occupied(m: Spec, tag: nat): nat
    requires tag < |m.pending|
  {
    |m.pending[tag]| + if m.flight.Some? && m.flight.value.0 == tag then 1 else 0
  }

  function Enqueue(m: Spec, tag: nat, r: Request): (n: Spec)
    requires Valid(m) && tag < TAG_COUNT
    ensures Valid(n)
  {
    m.(pending := m.pending[tag := m.pending[tag] + [r]])
  }

  /** The next request of the tag goes into flight. */
  function Start(m: Spec, tag: nat): (n: Spec)
    requires Valid(m) && tag < TAG_COUNT && m.flight.None? && m.pending[tag] != []
    ensures |n.pending| == |n.done| == TAG_COUNT && n.flight == Some((tag, m.pending[tag][0]))
  {
    var r := m.pending[tag][0];
    m.(pending := m.pending[tag := m.pending[tag][1..]], flight := Some((tag, r)), log := m.log + [Started(tag, r)])
  }

  /** One turn of `dma_queue_flush_wait`: the transfer completes, and the next one of the flush starts. */
  function Step(m: Spec): (n: Spec)
    requires Valid(m)
    ensures Valid(n) && (m.flight.None? ==> n == m)
    ensures m.flight.Some? ==> if m.left == 0 then n.flight.None? else n.flight.Some? && n.left == m.left - 1
  {
    match m.flight
    case None => m
    case Some(f) =>
      var c := m.(flight := None, left := 0, done := m.done[f.0 := m.done[f.0] + [Done(f.1, Completed)]],
                  log := m.log + [Called(f.0, f.1, {Complete})]);
      if m.left == 0 then c else Start(c, f.0).(left := m.left - 1)
  }

  /** `dma_queue_flush_wait`. */
  function Wait(m: Spec): (n: Spec)
    requires Valid(m)
    ensures Valid(n) && n.flight.None?
    decreases if m.flight.None? then 0 else m.left + 1
  {
    if m.flight.None? then m else Wait(Step(m))
  }

  /** `dma_queue_flush`: waits, then starts what is pending, if anything is. */
  function Flush(m: Spec, tag: nat): (n: Spec)
    requires Valid(m) && tag < TAG_COUNT
    ensures Valid(n)
  {
    var w := Wait(m);
    if w.pending[tag] == [] then w
    else
      var c := w.(log := w.log + [Called(tag, w.pending[tag][0], {Processing})]);
      Start(c, tag).(left := |w.pending[tag]| - 1)
  }

  /** The first pending request of a tag is canceled. */
  function CancelOne(m: Spec, tag: nat): (n: Spec)
    requires Valid(m) && tag < TAG_COUNT && m.flight.None? && m.pending[tag] != []
    ensures Valid(n) && n.flight.None? && |n.pending[tag]| == |m.pending[tag]| - 1
  {
    var r := m.pending[tag][0];
    m.(pending := m.pending[tag := m.pending[tag][1..]], done := m.done[tag := m.done[tag] + [Done(r, Canceled)]],
       log := m.log + [Called(tag, r, {Processing, CanceledFlag})])
  }

  function CancelAll(m: Spec, tag: nat): (n: Spec)
    requires Valid(m) && tag < TAG_COUNT && m.flight.None?
    ensures Valid(n) && n.flight.None? && n.pending[tag] == []
    decreases |m.pending[tag]|
  {
    if m.pending[tag] == [] then m else CancelAll(CancelOne(m, tag), tag)
  }

  /** `dma_queue_tag_clear`. */
  function TagClear(m: Spec, tag: nat): (n: Spec)
    requires Valid(m) && tag < TAG_COUNT
    ensures Valid(n) && n.flight.None? && n.pending[tag] == []
  {
    CancelAll(Wait(m), tag)
  }

  /** `dma_queue_clear`. */
  function Clear(m: Spec, k: nat): (n: Spec)
    requires Valid(m) && k <= TAG_COUNT
    ensures Valid(n)
  {
    if k == 0 then m else TagClear(Clear(m, k - 1), k - 1)
  }

  datatype Op = EnqueueOp(tag: nat, r: Request) | StepOp | WaitOp | FlushOp(tag: nat) | TagClearOp(tag: nat) | ClearOp

  /** The caller names a tag that exists, and enqueues only if a slot is free. */
  ghost predicate Allowed(m: Spec, op: Op)
    requires Valid(m)
  {
    match op
    case EnqueueOp(tag, _) => tag < TAG_COUNT && Occupied(m, tag) < MAX_COUNT
    case FlushOp(tag) => tag < TAG_COUNT
    case TagClearOp(tag) => tag < TAG_COUNT
    case _ => true
  }

  function After(m: Spec, op: Op): (n: Spec)
    requires Valid(m) && Allowed(m, op)
    ensures Valid(n)
  {
    match op
    case EnqueueOp(tag, r) => Enqueue(m, tag, r)
    case StepOp => Step(m)
    case WaitOp => Wait(m)
    case FlushOp(tag) => Flush(m, tag)
    case TagClearOp(tag) => TagClear(m, tag)
    case ClearOp => Clear(m, TAG_COUNT)
  }
}
