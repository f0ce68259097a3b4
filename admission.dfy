/**
  The worker pool, as the service configures it: a fixed number of workers
  (core size equal to maximum size) in front of a bounded queue.  The model
  is sequential: it counts busy workers and queued tasks and says what one
  submission does.  Threads, timing and the queue's locking are not part of
  it.
*/
module Admission {
  import opened Wrappers
  import opened Http

  /** The bound on waiting tasks (the capacity of the pool's queue). */
  const QUEUE_CAPACITY: nat := 256

  /** `size` workers, a queue of `capacity` slots, and the current load. */
  datatype Pool = Pool(size: nat, capacity: nat, busy: nat, queued: nat, shutdown: bool)

  /** A task waits in the queue only while every worker is busy. */
  predicate Valid(p: Pool) {
    && 1 <= p.size
    && p.busy <= p.size
    && p.queued <= p.capacity
    && (p.queued > 0 ==> p.busy == p.size)
  }

  /** Tasks accepted and not yet finished. */
  function Load(p: Pool): nat {
    p.busy + p.queued
  }

  predicate Idle(p: Pool) {
    p.busy == 0 && p.queued == 0
  }

  /** Every worker busy and every queue slot taken. */
  predicate Saturated(p: Pool) {
    p.busy == p.size && p.queued == p.capacity
  }

  /** A freshly built pool: no task yet, accepting. */
  function New(size: nat, capacity: nat): (p: Pool)
    requires 1 <= size
    ensures Valid(p) && Idle(p) && !p.shutdown
    ensures p.size == size && p.capacity == capacity
  {
    Pool(size, capacity, 0, 0, false)
  }

  /** What a submission came to. */
  datatype Verdict = Started | Queued | Rejected

  /** One submission: a free worker takes the task at once, otherwise the
      queue takes it if it has room; a shut-down or saturated pool rejects
      it and stays as it was. */
  function Submit(p: Pool): (r: (Verdict, Pool))
    requires Valid(p)
    ensures Valid(r.1)
    ensures r.1.size == p.size && r.1.capacity == p.capacity && r.1.shutdown == p.shutdown
    ensures r.0 == Rejected <==> p.shutdown || Saturated(p)
    ensures r.0 == Started <==> !p.shutdown && p.busy < p.size
    ensures r.0 == Rejected ==> r.1 == p
    ensures r.0 == Started ==> r.1.busy == p.busy + 1 && r.1.queued == p.queued
    ensures r.0 == Queued ==> r.1.busy == p.busy && r.1.queued == p.queued + 1
  {
    if p.shutdown then (Rejected, p)
    else if p.busy < p.size then (Started, p.(busy := p.busy + 1))
    else if p.queued < p.capacity then (Queued, p.(queued := p.queued + 1))
    else (Rejected, p)
  }

  /** A worker finishes its task: it takes the next queued task if there is
      one, and becomes free otherwise. */
  function Finish(p: Pool): (r: Pool)
    requires Valid(p) && p.busy > 0
    ensures Valid(r) && Load(r) == Load(p) - 1
    ensures r.size == p.size && r.capacity == p.capacity && r.shutdown == p.shutdown
    ensures r.queued == if p.queued > 0 then p.queued - 1 else 0
  {
    if p.queued > 0 then p.(queued := p.queued - 1) else p.(busy := p.busy - 1)
  }

  /** Orderly shutdown: accepted tasks still run, new ones are rejected. */
  function Shutdown(p: Pool): (r: Pool)
    requires Valid(p)
    ensures Valid(r) && r.shutdown && Load(r) == Load(p)
    ensures r.size == p.size && r.capacity == p.capacity && r.busy == p.busy && r.queued == p.queued
    ensures Submit(r).0 == Rejected
  {
    p.(shutdown := true)
  }

  /** The verdicts of `n` submissions in a row with no task finishing. */
  function Burst(p: Pool, n: nat): (r: seq<Verdict>)
    requires Valid(p)
    ensures |r| == n
    decreases n
  {
    if n == 0 then [] else [Submit(p).0] + Burst(Submit(p).1, n - 1)
  }

  /** The verdict a submission gets when `load` tasks are already in. */
  function Expected(p: Pool, load: nat): Verdict {
    if p.shutdown then Rejected
    else if load < p.size then Started
    else if load < p.size + p.capacity then Queued
    else Rejected
  }

  /** The i-th submission of a burst is decided by the load in front of it. */
  lemma {:induction false} BurstAt(p: Pool, n: nat, i: nat)
    requires Valid(p) && i < n
    ensures Burst(p, n)[i] == Expected(p, Load(p) + i)
    decreases n
  {
    var (v, q) := Submit(p);
    if i == 0 {
      assert Burst(p, n)[0] == v;
    } else {
      BurstAt(q, n - 1, i - 1);
      assert Burst(p, n)[i] == Burst(q, n - 1)[i - 1];
      if !p.shutdown && v != Rejected {
        assert Load(q) == Load(p) + 1;
      } else {
        assert Load(p) >= p.size + p.capacity || p.shutdown;
      }
    }
  }

  /** Backpressure: on a fresh pool of P workers and Q queue slots, P + Q + 1
      simultaneous submissions start P tasks, queue Q and reject the last. */
  lemma Backpressure(size: nat, capacity: nat)
    requires 1 <= size
    ensures var r := Burst(New(size, capacity), size + capacity + 1);
      && (forall i :: 0 <= i < size ==> r[i] == Started)
      && (forall i :: size <= i < size + capacity ==> r[i] == Queued)
      && r[size + capacity] == Rejected
  {
    var p := New(size, capacity);
    var n := size + capacity + 1;
    forall i | 0 <= i < n
      ensures Burst(p, n)[i] == Expected(p, i)
    {
      BurstAt(p, n, i);
    }
  }

  /** The acceptor's answer to a submission as the service is written: a
      task handed to the pool is answered later by its worker (None); a
      rejection throws out of the acceptor callback, so nothing is sent. */
  function AcceptorReplyAsWritten(v: Verdict): (r: Option<Outcome>)
    ensures r.None? <==> v != Rejected
    ensures r.Some? ==> r.value.Fault?
  {
    if v == Rejected then Some(Fault) else None
  }

  /** The corrected answer: a rejection becomes an explicit 503. */
  function AcceptorReply(v: Verdict): (r: Option<Outcome>)
    ensures r.None? <==> v != Rejected
    ensures r.Some? ==> r.value == Empty(SERVICE_UNAVAILABLE)
  {
    if v == Rejected then Some(Empty(SERVICE_UNAVAILABLE)) else None
  }

  /** The defect: a saturated pool makes the request vanish without a
      response, e.g. 4 busy workers and 256 queued tasks. */
  lemma SaturatedPoolDropsRequest()
    ensures var p := Pool(4, QUEUE_CAPACITY, 4, QUEUE_CAPACITY, false);
      Valid(p) && AcceptorReplyAsWritten(Submit(p).0) == Some(Fault)
  {
  }

  /** With the correction every submission is either taken by the pool or
      answered with 503, and an overloaded pool always answers 503. */
  lemma OverloadAnswered(p: Pool)
    requires Valid(p)
    ensures AcceptorReply(Submit(p).0) != Some(Fault)
    ensures Saturated(p) ==> AcceptorReply(Submit(p).0) == Some(Empty(SERVICE_UNAVAILABLE))
  {
  }
}
