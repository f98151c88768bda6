/**
 libyaul/kernel/sys/dma-queue.c: the ring buffers of the three tags, the tag that is being flushed, and
 what the outside sees. The ghost field `m` is the unbounded queue that the rings stand for.
 */
module DmaQueue {
  import opened DmaLaws
  import opened DmaRing
  import opened DmaSpec
  import opened Options

  const TAG_INVALID := 255

  class Queue {
    const rings: seq<Ring>
    var currentTag: nat
    var log: seq<Event>
    ghost var m: Spec

    ghost predicate Apart()
      reads this
    {
      && |rings| == TAG_COUNT
      && forall i, j :: 0 <= i < j < TAG_COUNT ==> rings[i] != rings[j] && rings[i].requests != rings[j].requests
    }

    ghost predicate RingValid(tag: nat)
      requires tag < |rings| && tag < |m.pending|
      reads this, rings[tag], rings[tag].requests
    {
      rings[tag].Valid() && rings[tag].pending == m.pending[tag]
    }

    ghost predicate FlightValid()
      requires Apart() && DmaSpec.Valid(m)
      reads this, rings, set r | r in rings :: r.requests
    {
      match m.flight
      case None => currentTag == TAG_INVALID
      case Some(f) => currentTag == f.0 && rings[f.0].InFlight(f.1) && rings[f.0].Flushing(m.left)
    }

    ghost predicate Valid()
      reads this, rings, set r | r in rings :: r.requests
    {
      && Apart() && DmaSpec.Valid(m) && log == m.log
      && (forall tag :: 0 <= tag < TAG_COUNT ==> RingValid(tag)) && FlightValid()
    }

    /** `_internal_dma_queue_init`. */
    constructor ()
      ensures Valid() && m == INITIAL
      ensures fresh(rings) && fresh(set r | r in rings :: r.requests)
    {
      var a := new Ring();
      var b := new Ring();
      var c := new Ring();
      rings := [a, b, c];
      currentTag, log, m := TAG_INVALID, [], INITIAL;
    }

    /** The rings of the other tags are other objects. */
    lemma OtherRings(tag: nat)
      requires Apart() && tag < TAG_COUNT
      ensures forall x :: 0 <= x < TAG_COUNT && x != tag ==>
        rings[x] != rings[tag] && rings[x].requests != rings[tag].requests
    {
      forall x | 0 <= x < TAG_COUNT && x != tag
        ensures rings[x] != rings[tag] && rings[x].requests != rings[tag].requests
      {
        if tag < x { assert rings[tag] != rings[x]; } else { assert rings[x] != rings[tag]; }
      }
    }

    /** What was not touched is still valid. */
    twostate lemma RingsKept(tag: nat)
      requires |rings| == TAG_COUNT == |m.pending| == |old(m).pending| && tag < TAG_COUNT && RingValid(tag)
      requires forall x :: 0 <= x < TAG_COUNT ==> old(RingValid(x))
      requires forall x :: 0 <= x < TAG_COUNT && x != tag ==>
        unchanged(rings[x]) && unchanged(rings[x].requests) && m.pending[x] == old(m).pending[x]
      ensures forall x :: 0 <= x < TAG_COUNT ==> RingValid(x)
    {
      forall x | 0 <= x < TAG_COUNT ensures RingValid(x) {
        if x != tag { assert old(RingValid(x)); }
      }
    }

    /** A valid queue has a slot for every request, the one in flight included. */
    lemma ValidFits(tag: nat)
      requires Valid() && tag < TAG_COUNT
      ensures Occupied(m, tag) <= MAX_COUNT
    {
      assert RingValid(tag);
    }

    /** The number of the oldest request that occupies a slot: the one in flight, or the first pending one. */
    ghost function Oldest(tag: nat): int
      requires tag < |rings|
      reads this, rings[tag]
    {
      rings[tag].base - if Busy(m, tag) then 1 else 0
    }

    /**
     `dma_queue_enqueue`. A ring with 32 pending requests is refused if the counters show it. Otherwise
     the queue stays valid exactly if a slot is free: the request in flight occupies one too, which
     `_queue_full` does not count, and a request behind 32 occupied slots overwrites the oldest of them.
     */
    method Enqueue(tag: nat, r: Request) returns (status: int)
      requires Valid() && tag < TAG_COUNT
      modifies this`m, rings[tag], rings[tag].requests
      ensures status == 0 || status == -1
      ensures status == -1 <==>
        |old(m).pending[tag]| == MAX_COUNT && (old(rings[tag].base) - 1 + 128) % 256 + MAX_COUNT < 256
      ensures m == if status == 0 then DmaSpec.Enqueue(old(m), tag, r) else old(m)
      ensures Valid() <==> status == -1 || Occupied(old(m), tag) < MAX_COUNT
      ensures status == 0 && Occupied(old(m), tag) == MAX_COUNT ==>
        rings[tag].requests.Length == MAX_COUNT &&
        rings[tag].requests[old(Oldest(tag)) % 32] == Slot(r, {Unprocessed})
    {
      var ring := rings[tag];
      assert RingValid(tag);
      var full := ring.Full();
      if full {
        return -1;
      }
      Place(tag, r);
      status := 0;
    }

    /** The request goes into its slot, free or not. */
    method Place(tag: nat, r: Request)
      requires Valid() && tag < TAG_COUNT
      modifies this`m, rings[tag], rings[tag].requests
      ensures m == DmaSpec.Enqueue(old(m), tag, r) && (Valid() <==> Occupied(old(m), tag) < MAX_COUNT)
      ensures Occupied(old(m), tag) == MAX_COUNT ==>
        rings[tag].requests.Length == MAX_COUNT &&
        rings[tag].requests[old(Oldest(tag)) % 32] == Slot(r, {Unprocessed})
    {
      var ring := rings[tag];
      assert RingValid(tag);
      ValidFits(tag);
      OtherRings(tag);
      ghost var n := ring.base + |m.pending[tag]|;
      if Occupied(m, tag) == MAX_COUNT { OldestSlot(Oldest(tag), n); }
      ring.Enqueue(r, if Busy(m, tag) then Some(m.flight.value.1) else None);
      m := DmaSpec.Enqueue(m, tag, r);
      if Occupied(old(m), tag) < MAX_COUNT {
        RingsKept(tag);
      } else if Valid() {
        ValidFits(tag);
      }
    }

    /** One turn of the loop of `dma_queue_flush_wait`, with a transfer in flight that has ended. */
    method CompleteOne()
      requires Valid() && m.flight.Some?
      modifies this, rings[m.flight.value.0], rings[m.flight.value.0].requests
      ensures Valid() && m == Step(old(m))
    {
      var tag := currentTag;
      var ring := rings[tag];
      ghost var f, left, after := m.flight.value, m.left, Step(m);
      assert RingValid(tag);
      OtherRings(tag);
      var s := ring.Finish(f.1);
      log := log + [Called(tag, s.request, s.status)];
      var next := ring.Advance(left);
      match next {
        case None => currentTag := TAG_INVALID;
        case Some(r) => log := log + [Started(tag, r)];
      }
      m := after;
      RingsKept(tag);
    }

    /** `dma_queue_flush_wait`. */
    method FlushWait()
      requires Valid()
      modifies this, rings, set r | r in rings :: r.requests
      ensures Valid() && m == Wait(old(m))
    {
      while currentTag != TAG_INVALID
        invariant Valid() && Wait(m) == Wait(old(m))
        decreases if m.flight.None? then 0 else m.left + 1
      {
        CompleteOne();
      }
    }

    /** The second half of `dma_queue_flush`: nothing is in flight. */
    method FlushPending(tag: nat) returns (status: int)
      requires Valid() && tag < TAG_COUNT && m.flight.None?
      modifies this, rings[tag], rings[tag].requests
      ensures Valid() && m == DmaSpec.Flush(old(m), tag)
      ensures status == if old(m).pending[tag] == [] then -1 else 0
    {
      var ring := rings[tag];
      assert RingValid(tag);
      OtherRings(tag);
      var empty := ring.Empty();
      if empty {
        return -1;
      }
      ghost var after := DmaSpec.Flush(m, tag);
      ring.Mark();
      currentTag := tag;
      var i := ring.Dequeue();
      var s := ring.requests[i];
      log := log + [Called(tag, s.request, s.status)];
      log := log + [Started(tag, s.request)];
      m := after;
      RingsKept(tag);
      status := 0;
    }

    /** `dma_queue_flush`. */
    method Flush(tag: nat) returns (status: int)
      requires Valid() && tag < TAG_COUNT
      modifies this, rings, set r | r in rings :: r.requests
      ensures Valid() && m == DmaSpec.Flush(old(m), tag)
      ensures status == if Wait(old(m)).pending[tag] == [] then -1 else 0
    {
      FlushWait();
      status := FlushPending(tag);
    }

    method CancelFirst(tag: nat)
      requires Valid() && tag < TAG_COUNT && m.flight.None? && m.pending[tag] != []
      modifies this, rings[tag], rings[tag].requests
      ensures Valid() && m == CancelOne(old(m), tag)
    {
      var ring := rings[tag];
      assert RingValid(tag);
      OtherRings(tag);
      var s := ring.Cancel();
      log := log + [Called(tag, s.request, s.status)];
      m := CancelOne(m, tag);
      RingsKept(tag);
    }

    /** `dma_queue_tag_clear`. */
    method TagClear(tag: nat)
      requires Valid() && tag < TAG_COUNT
      modifies this, rings, set r | r in rings :: r.requests
      ensures Valid() && m == DmaSpec.TagClear(old(m), tag)
    {
      FlushWait();
      assert RingValid(tag);
      var empty := rings[tag].Empty();
      while !empty
        invariant Valid() && m.flight.None? && CancelAll(m, tag) == DmaSpec.TagClear(old(m), tag)
        invariant empty <==> m.pending[tag] == []
        decreases |m.pending[tag]|
      {
        CancelFirst(tag);
        assert RingValid(tag);
        empty := rings[tag].Empty();
      }
    }

    /** `dma_queue_clear`. */
    method Clear()
      requires Valid()
      modifies this, rings, set r | r in rings :: r.requests
      ensures Valid() && m == DmaSpec.Clear(old(m), TAG_COUNT)
    {
      for tag := 0 to TAG_COUNT
        invariant Valid() && m == DmaSpec.Clear(old(m), tag)
      {
        TagClear(tag);
      }
    }

    method Perform(op: Op)
      requires Valid() && Allowed(m, op)
      modifies this, rings, set r | r in rings :: r.requests
      ensures Valid() && m == After(old(m), op)
    {
      match op
      case EnqueueOp(tag, r) =>
        var _ := Enqueue(tag, r);
      case StepOp =>
        if currentTag != TAG_INVALID {
          CompleteOne();
        }
      case WaitOp => FlushWait();
      case FlushOp(tag) =>
        var _ := Flush(tag);
      case TagClearOp(tag) => TagClear(tag);
      case ClearOp => Clear();
    }

    /**
     Every run of the ring buffers is a run of the unbounded queue, however long it is and however often
     the counters wrap around; `DmaLaws.EveryRun` says what such a run does.
     */
    method RunAll(ops: seq<Op>)
      requires Valid() && Runs(m, ops)
      modifies this, rings, set r | r in rings :: r.requests
      ensures Valid() && m == Run(old(m), ops) && log == Run(old(m), ops).log
    {
      for i := 0 to |ops|
        invariant Valid() && Runs(m, ops[i..]) && Run(m, ops[i..]) == Run(old(m), ops)
      {
        assert ops[i..][0] == ops[i] && ops[i..][1..] == ops[i + 1..];
        Perform(ops[i]);
      }
    }
  }

  /**
   A queue that starts empty. Whatever is asked of it, the requests of a tag that its log reports as
   over, the one in flight and the pending ones are those that were enqueued, in that order; and its
   log never shows two transfers at a time.
   */
  method RunFromStart(ops: seq<Op>) returns (q: Queue)
    requires Runs(INITIAL, ops)
    ensures q.Valid() && q.m == Run(INITIAL, ops) && OneAtATime(q.log)
    ensures forall x :: 0 <= x < TAG_COUNT ==>
      Requests(Ends(q.log, x)) + Flying(q.m, x) + q.m.pending[x] == AddedBy(ops, x) && Faithful(q.m, x)
  {
    q := new Queue();
    q.RunAll(ops);
    forall x | 0 <= x < TAG_COUNT
      ensures Requests(Ends(q.log, x)) + Flying(q.m, x) + q.m.pending[x] == AddedBy(ops, x) && Faithful(q.m, x)
    {
      FromStart(ops, x);
    }
    FromStart(ops, 0);
  }

  lemma {:induction false} FromStart(ops: seq<Op>, x: nat)
    requires Runs(INITIAL, ops) && x < TAG_COUNT
    ensures var m := Run(INITIAL, ops); Story(m, x) == AddedBy(ops, x) && Faithful(m, x) && OneAtATime(m.log)
  {
    assert INITIAL.log == [] && INITIAL.done[x] == [] && INITIAL.pending[x] == [];
    assert Faithful(INITIAL, x) && Alone(INITIAL) && Story(INITIAL, x) == [];
    EveryRun(INITIAL, ops, x);
    assert [] + AddedBy(ops, x) == AddedBy(ops, x);
  }
}
