/**
 The ring buffer of one tag in libyaul/kernel/sys/dma-queue.c: 32 slots and three 8-bit counters that
 wrap around.
 */
module DmaRing {
  import opened DmaSpec
  import opened Options

  /** An 8-bit two's complement number. */
  function Int8(n: int): (r: int)
    ensures -128 <= r < 128
  {
    (n + 128) % 256 - 128
  }

  /** Counters that are less than 256 apart are equal only if they count the same. */
  lemma Int8Distinct(a: int, b: int)
    requires a <= b < a + 256
    ensures Int8(a) == Int8(b) <==> a == b
  {
  }

  lemma Int8Wraps(a: int) returns (q: int)
    ensures Int8(a) == a - 256 * q
  {
    q := (a + 128) / 256;
  }

  lemma WrapsModulo(x: int, q: int)
    ensures (x - 256 * q) % 32 == x % 32 && Int8(x - 256 * q) == Int8(x)
  {
    Laps256(x + 128, q, x - 256 * q + 128);
    Laps32(x, 8 * q, x - 256 * q);
  }

  lemma Laps256(x: int, q: int, y: int)
    requires y == x - 256 * q
    ensures y % 256 == x % 256
  {
  }

  lemma Laps32(x: int, q: int, y: int)
    requires y == x - 32 * q
    ensures y % 32 == x % 32
  {
  }

  /** An increment wraps around. */
  lemma Int8Next(a: int)
    ensures Int8(Int8(a) + 1) == Int8(a + 1) && (Int8(a) + 1) % 32 == (a + 1) % 32 && Int8(a) % 32 == a % 32
  {
    var q := Int8Wraps(a);
    WrapsModulo(a, q);
    assert Int8(a) + 1 == (a + 1) - 256 * q;
    WrapsModulo(a + 1, q);
  }

  /** `_queue_size` of counters that are `n` apart: it is `n` exactly if no counter wrapped around between them. */
  lemma SizeIsExact(a: int, n: nat)
    requires n <= 32
    ensures (Int8(a + n) - Int8(a)) % 0x1_0000_0000 == n <==> (a + 128) % 256 + n < 256
    ensures Int8(a + n) - Int8(a) == n || Int8(a + n) - Int8(a) == n - 256
  {
    var x := (a + 128) % 256;
    assert (a + n + 128) % 256 == if x + n < 256 then x + n else x + n - 256;
  }

  /** With 113 requests taken out, 32 pending ones are not seen as a full ring: the counters have wrapped. */
  lemma FullIsMissed()
    ensures (Int8(113 + MAX_COUNT - 1) - Int8(113 - 1)) % 0x1_0000_0000 != MAX_COUNT
  {
    SizeIsExact(112, MAX_COUNT);
  }

  /** A request stored behind 32 occupied slots takes the oldest of them. */
  lemma OldestSlot(first: nat, n: nat)
    requires n == first + MAX_COUNT
    ensures n % 32 == first % 32
  {
  }

  lemma SlotsDistinct(a: nat, b: nat)
    requires a < b < a + 32
    ensures a % 32 != b % 32
  {
  }

  datatype Slot = Slot(request: Request, status: Status)

  /** The slots from `base` on hold the pending requests. */
  ghost predicate Stored(slots: seq<Slot>, base: nat, pending: seq<Request>) {
    |slots| == MAX_COUNT && forall k :: 0 <= k < |pending| ==> Holds(slots, base + k, pending[k], {Unprocessed})
  }

  predicate Holds(slots: seq<Slot>, n: nat, r: Request, status: Status)
    requires |slots| == MAX_COUNT
  {
    slots[n % 32] == Slot(r, status)
  }

  /** A slot is as far from the others as it is from itself, one lap later. */
  lemma {:induction false} OtherSlot(slots: seq<Slot>, n: nat, s: Slot, m: nat, r: Request, status: Status)
    requires |slots| == MAX_COUNT && Holds(slots, m, r, status) && (m < n < m + 32 || n < m < n + 32)
    ensures Holds(slots[n % 32 := s], m, r, status)
  {
    if m < n { SlotsDistinct(m, n); } else { SlotsDistinct(n, m); }
  }

  lemma {:induction false} StoreOne(slots: seq<Slot>, base: nat, pending: seq<Request>, r: Request)
    requires Stored(slots, base, pending) && |pending| < MAX_COUNT
    ensures Stored(slots[(base + |pending|) % 32 := Slot(r, {Unprocessed})], base, pending + [r])
  {
    var n, s := base + |pending|, Slot(r, {Unprocessed});
    forall k | 0 <= k < |pending| + 1 ensures Holds(slots[n % 32 := s], base + k, (pending + [r])[k], {Unprocessed}) {
      if k < |pending| { OtherSlot(slots, n, s, base + k, pending[k], {Unprocessed}); }
    }
  }

  lemma {:induction false} TakeOne(slots: seq<Slot>, base: nat, pending: seq<Request>, s: Slot)
    requires Stored(slots, base, pending) && 0 < |pending| <= MAX_COUNT
    ensures Holds(slots, base, pending[0], {Unprocessed}) && Stored(slots[base % 32 := s], base + 1, pending[1..])
  {
    assert Holds(slots, base + 0, pending[0], {Unprocessed});
    forall k | 0 <= k < |pending| - 1
      ensures Holds(slots[base % 32 := s], base + 1 + k, pending[1..][k], {Unprocessed})
    {
      assert Holds(slots, base + (k + 1), pending[k + 1], {Unprocessed});
      OtherSlot(slots, base, s, base + 1 + k, pending[k + 1], {Unprocessed});
    }
  }

  class Ring {
    const requests: array<Slot>
    var head: int
    var tail: int
    var flushTail: int
    ghost var base: nat
    ghost var pending: seq<Request>

    ghost predicate Valid()
      reads this, requests
    {
      && |pending| <= MAX_COUNT && head == Int8(base - 1) && tail == Int8(base + |pending| - 1)
      && Stored(requests[..], base, pending)
    }

    /** The request before the pending ones is in its slot, being processed. */
    ghost predicate InFlight(r: Request)
      reads this, requests
    {
      && requests.Length == MAX_COUNT && base >= 1 && |pending| < MAX_COUNT
      && Holds(requests[..], base - 1, r, {Processing})
    }

    ghost predicate Flushing(left: nat)
      reads this
    {
      left <= |pending| && flushTail == Int8(base + left - 1)
    }

    /** `_queue_init`. */
    constructor ()
      ensures Valid() && pending == [] && base == 0 && fresh(requests)
    {
      requests := new Slot[MAX_COUNT](_ => Slot(Request(0, 0, 0), {}));
      head, tail, flushTail := -1, -1, -1;
      base, pending := 0, [];
    }

    /** `_queue_size`, an unsigned 32-bit number. */
    method Size() returns (n: nat)
      requires Valid()
      ensures n == |pending| <==> (base - 1 + 128) % 256 + |pending| < 256
    {
      SizeIsExact(base - 1, |pending|);
      n := (tail - head) % 0x1_0000_0000;
    }

    /** `_queue_full`: it never claims too much, and misses a full ring whose counters straddle the wrap. */
    method Full() returns (b: bool)
      requires Valid()
      ensures b <==> |pending| == MAX_COUNT && (base - 1 + 128) % 256 + MAX_COUNT < 256
      ensures b <==> tail - head == MAX_COUNT
    {
      SizeIsExact(base - 1, |pending|);
      b := (tail - head) % 0x1_0000_0000 == MAX_COUNT;
    }

    /** `_queue_empty`. */
    method Empty() returns (b: bool)
      requires Valid()
      ensures b <==> pending == []
    {
      Int8Distinct(base - 1, base + |pending| - 1);
      b := head == tail;
    }

    /** `_queue_flush_empty`. */
    method FlushEmpty(ghost left: nat) returns (b: bool)
      requires Valid() && Flushing(left)
      ensures b <==> left == 0
    {
      Int8Distinct(base - 1, base + left - 1);
      b := head == flushTail;
    }

    /**
     `_queue_enqueue`, and what `dma_queue_enqueue` stores in the slot. The pending requests keep their
     slots exactly if they do not fill the ring, and so does the request in flight if one slot more is free.
     */
    method Enqueue(r: Request, ghost flight: Option<Request>)
      requires Valid() && (flight.Some? ==> InFlight(flight.value))
      modifies this`tail, this`pending, requests
      ensures pending == old(pending) + [r] && tail == Int8(base + |pending| - 1)
      ensures requests[..] == old(requests[..])[(base + |old(pending)|) % 32 := Slot(r, {Unprocessed})]
      ensures Valid() <==> |old(pending)| < MAX_COUNT
      ensures flight.Some? ==> (InFlight(flight.value) <==> |old(pending)| + 1 < MAX_COUNT)
    {
      ghost var n, before := base + |pending|, requests[..];
      Int8Next(n - 1);
      var next := (tail + 1) % 32;
      if |pending| < MAX_COUNT { StoreOne(before, base, pending, r); }
      if flight.Some? && |pending| + 1 < MAX_COUNT {
        OtherSlot(before, n, Slot(r, {Unprocessed}), base - 1, flight.value, {Processing});
      }
      requests[next] := Slot(r, {Unprocessed});
      assert requests[..] == before[n % 32 := Slot(r, {Unprocessed})];
      tail := Int8(tail + 1);
      pending := pending + [r];
    }

    /** `_queue_dequeue`: the slot of the oldest pending request, which is now being processed. */
    method Dequeue() returns (i: nat)
      requires Valid() && pending != []
      modifies this`head, this`base, this`pending, requests
      ensures Valid() && pending == old(pending)[1..] && base == old(base) + 1 && InFlight(old(pending)[0])
      ensures i == (base - 1) % 32 && requests[i] == Slot(old(pending)[0], {Processing})
    {
      ghost var before, r := requests[..], pending[0];
      Int8Next(base - 1);
      TakeOne(before, base, pending, Slot(r, {Processing}));
      i := (head + 1) % 32;
      assert before[i].status - {Unprocessed} + {Processing} == {Processing};
      requests[i] := requests[i].(status := requests[i].status - {Unprocessed} + {Processing});
      assert requests[..] == before[base % 32 := Slot(r, {Processing})];
      head := Int8(head + 1);
      pending := pending[1..];
      base := base + 1;
    }

    /** `_queue_top`: the slot of the request in flight. */
    method Top(ghost r: Request) returns (i: nat)
      requires Valid() && InFlight(r)
      ensures i == (base - 1) % 32 && requests[i] == Slot(r, {Processing})
    {
      Int8Next(base - 1);
      i := head % 32;
    }

    /** The request in flight is over; its slot says so, and nothing else changes. */
    method Finish(ghost r: Request) returns (s: Slot)
      requires Valid() && InFlight(r)
      modifies requests
      ensures Valid() && s == Slot(r, {Complete})
    {
      var i := Top(r);
      ghost var before := requests[..];
      assert before[i].status - {Processing} + {Complete} == {Complete};
      s := requests[i].(status := requests[i].status - {Processing} + {Complete});
      forall k | 0 <= k < |pending| ensures Holds(before[i := s], base + k, pending[k], {Unprocessed}) {
        OtherSlot(before, base - 1, s, base + k, pending[k], {Unprocessed});
      }
      requests[i] := s;
      assert requests[..] == before[i := s];
    }

    /** The flush goes on with the oldest pending request, unless it is over. */
    method Advance(ghost left: nat) returns (next: Option<Request>)
      requires Valid() && Flushing(left)
      modifies this`head, this`base, this`pending, requests
      ensures Valid() && (next.None? <==> left == 0)
      ensures next.None? ==> pending == old(pending)
      ensures next.Some? ==>
        next.value == old(pending)[0] && pending == old(pending)[1..] && InFlight(next.value) && Flushing(left - 1)
    {
      var last := FlushEmpty(left);
      if last {
        return None;
      }
      var i := Dequeue();
      next := Some(requests[i].request);
    }

    /** The oldest pending request is canceled; its slot says so. */
    method Cancel() returns (s: Slot)
      requires Valid() && pending != []
      modifies this`head, this`base, this`pending, requests
      ensures Valid() && pending == old(pending)[1..] && s == Slot(old(pending)[0], {Processing, CanceledFlag})
    {
      ghost var r := pending[0];
      var i := Dequeue();
      ghost var before := requests[..];
      s := requests[i].(status := requests[i].status + {CanceledFlag});
      forall k | 0 <= k < |pending| ensures Holds(before[i := s], base + k, pending[k], {Unprocessed}) {
        OtherSlot(before, base - 1, s, base + k, pending[k], {Unprocessed});
      }
      requests[i] := s;
      assert requests[..] == before[i := s];
    }

    /** What is to be flushed is marked. */
    method Mark()
      requires Valid()
      modifies this`flushTail
      ensures Valid() && Flushing(|pending|)
    {
      flushTail := tail;
    }
  }
}
