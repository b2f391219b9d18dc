/**
 * The thread pool's closable bounded FIFO and the pool's submission gate.
 *
 * Each condition-variable wait becomes a precondition: a call is modelled at
 * the moment its wait predicate holds and it takes the lock for the last time.
 * The pure step functions and Run describe one queue as a state machine over a
 * sequence of completed calls (a linearisation of what the threads did); the
 * classes apply the same steps in place.
 */
module TaskQueue {
  import opened Common

  /** The state SafeQueue guards with its mutex. */
  datatype QueueState<T> = QueueState(items: seq<T>, maxSize: nat, closed: bool)

  /** produce's wait predicate: room in the queue, or the queue is closed. */
  predicate ProduceReady<T>(q: QueueState<T>) {
    q.closed || |q.items| < q.maxSize
  }

  /** consume's wait predicate: an item to take, or the queue is closed. */
  predicate ConsumeReady<T>(q: QueueState<T>) {
    q.closed || q.items != []
  }

  /** produce once its wait is over: a closed queue refuses, an open one appends at the back. */
  function ProduceStep<T>(q: QueueState<T>, v: T): (r: (QueueState<T>, bool))
    requires ProduceReady(q)
    ensures r.0.maxSize == q.maxSize && r.0.closed == q.closed
    ensures |q.items| <= q.maxSize ==> |r.0.items| <= q.maxSize
  {
    if q.closed then (q, false) else (q.(items := q.items + [v]), true)
  }

  /** consume once its wait is over: the front item, or end-of-stream when the queue is empty. */
  function ConsumeStep<T>(q: QueueState<T>): (r: (QueueState<T>, Option<T>))
    requires ConsumeReady(q)
    ensures r.0.maxSize == q.maxSize && r.0.closed == q.closed
    ensures r.1.None? ==> q.closed
    ensures |r.0.items| <= |q.items|
  {
    if q.items == [] then (q, None) else (q.(items := q.items[1..]), Some(q.items[0]))
  }

  /** close: set the flag and keep every queued item. */
  function CloseStep<T>(q: QueueState<T>): (r: QueueState<T>)
    ensures r.closed && r.items == q.items && r.maxSize == q.maxSize
  {
    q.(closed := true)
  }

  /** One completed call on the queue. */
  datatype Call<T> = ProduceCall(value: T) | ConsumeCall | CloseCall

  /**
   * What a run of calls did: the final state, the values produce accepted and
   * consume handed out (in order), and how many consumes reported end-of-stream.
   */
  datatype Trace<T> = Trace(final: QueueState<T>, accepted: seq<T>, delivered: seq<T>, ends: nat)

  /**
   * Runs the calls in order.  None when some call's wait predicate is false at
   * its turn: such a call cannot complete there, so the sequence is not a
   * possible order of completed calls.
   */
  function Run<T>(q: QueueState<T>, calls: seq<Call<T>>): Option<Trace<T>>
    decreases |calls|
  {
    if calls == [] then Some(Trace(q, [], [], 0))
    else match calls[0]
      case ProduceCall(v) =>
        if !ProduceReady(q) then None
        else
          var (q', ok) := ProduceStep(q, v);
          (match Run(q', calls[1..])
           case None => None
           case Some(t) => Some(t.(accepted := (if ok then [v] else []) + t.accepted)))
      case ConsumeCall =>
        if !ConsumeReady(q) then None
        else
          var (q', r) := ConsumeStep(q);
          (match Run(q', calls[1..])
           case None => None
           case Some(t) =>
             Some(if r.Some? then t.(delivered := [r.value] + t.delivered) else t.(ends := t.ends + 1)))
      case CloseCall => Run(CloseStep(q), calls[1..])
  }

  /**
   * FIFO: what was queued at the start followed by every accepted value is
   * exactly what was handed out followed by what is still queued.  So the
   * values consumed are a prefix of the values produced, in the same order.
   */
  lemma {:induction false} RunFifo<T>(q: QueueState<T>, calls: seq<Call<T>>)
    requires Run(q, calls).Some?
    ensures var t := Run(q, calls).value;
      t.delivered + t.final.items == q.items + t.accepted && t.delivered <= q.items + t.accepted
    decreases |calls|
  {
    if calls != [] {
      match calls[0]
      case ProduceCall(v) =>
        RunFifo(ProduceStep(q, v).0, calls[1..]);
      case ConsumeCall =>
        var q' := ConsumeStep(q).0;
        RunFifo(q', calls[1..]);
        if q.items != [] {
          var t' := Run(q', calls[1..]).value;
          var x := q.items[0];
          assert t'.delivered + t'.final.items == q'.items + t'.accepted;
          assert q.items == [x] + q'.items;
          calc {
            [x] + t'.delivered + t'.final.items;
            [x] + (t'.delivered + t'.final.items);
            [x] + (q'.items + t'.accepted);
            ([x] + q'.items) + t'.accepted;
          }
        }
      case CloseCall =>
        RunFifo(CloseStep(q), calls[1..]);
    }
  }

  /** The capacity bound holds in every reachable state; the capacity and a set close flag never change. */
  lemma {:induction false} RunBound<T>(q: QueueState<T>, calls: seq<Call<T>>)
    requires |q.items| <= q.maxSize && Run(q, calls).Some?
    ensures var t := Run(q, calls).value;
      |t.final.items| <= t.final.maxSize == q.maxSize && (q.closed ==> t.final.closed)
    decreases |calls|
  {
    if calls != [] {
      match calls[0]
      case ProduceCall(v) => RunBound(ProduceStep(q, v).0, calls[1..]);
      case ConsumeCall => RunBound(ConsumeStep(q).0, calls[1..]);
      case CloseCall => RunBound(CloseStep(q), calls[1..]);
    }
  }

  /** Rejection after close: once the queue is closed no produce is accepted and the queue never grows. */
  lemma {:induction false} RunAfterClose<T>(q: QueueState<T>, calls: seq<Call<T>>)
    requires q.closed && Run(q, calls).Some?
    ensures var t := Run(q, calls).value;
      t.accepted == [] && t.final.closed && |t.final.items| <= |q.items|
    decreases |calls|
  {
    if calls != [] {
      match calls[0]
      case ProduceCall(v) => RunAfterClose(ProduceStep(q, v).0, calls[1..]);
      case ConsumeCall => RunAfterClose(ConsumeStep(q).0, calls[1..]);
      case CloseCall => RunAfterClose(CloseStep(q), calls[1..]);
    }
  }

  /** n consume calls in a row. */
  function Consumes<T>(n: nat): (calls: seq<Call<T>>)
    ensures |calls| == n && forall i :: 0 <= i < n ==> calls[i] == ConsumeCall
  {
    if n == 0 then [] else [ConsumeCall] + Consumes(n - 1)
  }

  function Min(a: nat, b: nat): nat {
    if a <= b then a else b
  }

  /**
   * Drain then end-of-stream: on a closed queue, n consumes hand out the first
   * n queued items in order and, once the queue is empty, every further consume
   * reports end-of-stream.  None of them ever waits.
   */
  lemma {:induction false} DrainThenEnd<T>(q: QueueState<T>, n: nat)
    requires q.closed
    ensures var m := Min(n, |q.items|);
      Run(q, Consumes(n)) == Some(Trace(q.(items := q.items[m..]), [], q.items[..m], n - m))
    decreases n
  {
    if n > 0 {
      var calls := Consumes<T>(n);
      assert calls[0] == ConsumeCall && calls[1..] == Consumes(n - 1);
      var q' := ConsumeStep(q).0;
      DrainThenEnd(q', n - 1);
      if q.items != [] {
        var m := Min(n, |q.items|);
        assert q'.items[Min(n - 1, |q'.items|)..] == q.items[m..];
        assert [q.items[0]] + q'.items[..Min(n - 1, |q'.items|)] == q.items[..m];
      } else {
        assert q.items[..0] == [] && q.items[0..] == q.items;
      }
    } else {
      assert q.items[0..] == q.items && q.items[..0] == [];
    }
  }

  /**
   * No accepted item is lost at shutdown: after any run from an empty queue,
   * closing it and consuming as many times as items remain hands out exactly the
   * accepted values not yet consumed and leaves the queue empty and closed.
   */
  lemma ShutdownDeliversAll<T>(q: QueueState<T>, calls: seq<Call<T>>)
    requires q.items == [] && Run(q, calls).Some?
    ensures var t := Run(q, calls).value;
      var d := Run(t.final, [CloseCall] + Consumes(|t.final.items|));
      && d.Some?
      && t.delivered + d.value.delivered == t.accepted
      && d.value.accepted == []
      && d.value.final.items == []
      && d.value.final.closed
  {
    var t := Run(q, calls).value;
    RunFifo(q, calls);
    var n := |t.final.items|;
    var c := CloseStep(t.final);
    DrainThenEnd(c, n);
    assert ([CloseCall] + Consumes<T>(n))[1..] == Consumes(n);
    assert c.items[..n] == t.final.items && c.items[n..] == [];
    assert q.items + t.accepted == t.accepted;
  }

  class SafeQueue<T> {
    /** queue_ */
    var items: seq<T>
    /** max_size */
    const maxSize: nat
    /** closed_ */
    var closed: bool
    /** Every value produce has accepted, and every value consume has handed out, in order. */
    ghost var accepted: seq<T>
    ghost var delivered: seq<T>

    ghost predicate Valid()
      reads this
    {
      |items| <= maxSize && delivered + items == accepted
    }

    function State(): QueueState<T>
      reads this
    {
      QueueState(items, maxSize, closed)
    }

    /** SafeQueue(size_t) accepts any size, zero included: with zero every produce waits until close. */
    constructor (size: nat)
      ensures Valid() && maxSize == size
      ensures items == [] && !closed && accepted == [] && delivered == []
    {
      items := [];
      maxSize := size;
      closed := false;
      accepted, delivered := [], [];
    }

    /** Sets closed_ for good; queued items stay.  Calling it again changes nothing. */
    method Close()
      requires Valid()
      modifies this
      ensures Valid()
      ensures State() == CloseStep(old(State()))
      ensures closed && items == old(items) && accepted == old(accepted) && delivered == old(delivered)
    {
      closed := true;
    }

    /** Waits for room or close; a closed queue refuses, otherwise value goes to the back. */
    method Produce(value: T) returns (ok: bool)
      requires Valid()
      requires closed || |items| < maxSize
      modifies this
      ensures Valid()
      ensures (State(), ok) == ProduceStep(old(State()), value)
      ensures ok == !old(closed)
      ensures items == if ok then old(items) + [value] else old(items)
      ensures accepted == if ok then old(accepted) + [value] else old(accepted)
      ensures closed == old(closed) && delivered == old(delivered)
    {
      if closed {
        return false;
      }
      items := items + [value];
      accepted := accepted + [value];
      ok := true;
    }

    /** Waits for an item or close; takes the front item, even after close, or reports end-of-stream. */
    method Consume() returns (r: Option<T>)
      requires Valid()
      requires closed || items != []
      modifies this
      ensures Valid()
      ensures (State(), r) == ConsumeStep(old(State()))
      ensures r.None? <==> old(items) == []
      ensures r.None? ==> old(closed) && items == old(items) && delivered == old(delivered)
      ensures r.Some? ==> r.value == old(items)[0] && items == old(items)[1..]
      ensures r.Some? ==> delivered == old(delivered) + [r.value]
      ensures closed == old(closed) && accepted == old(accepted)
    {
      if items == [] {
        return None;
      }
      r := Some(items[0]);
      delivered := delivered + [items[0]];
      items := items[1..];
    }
  }

  /** The queue capacity the pool's constructor hard-codes. */
  const PoolQueueCapacity: nat := 100

  /** The pool's submission side.  Worker threads, task execution and joining are not modelled. */
  class ThreadPool<Task> {
    const workerCount: nat
    /** tasks_ */
    const tasks: SafeQueue<Task>
    /** stop_ */
    var stop: bool

    /** The pool is the only user of its queue, and it closes the queue right after setting stop_. */
    ghost predicate Valid()
      reads this, tasks
    {
      tasks.Valid() && tasks.maxSize == PoolQueueCapacity && (stop <==> tasks.closed)
    }

    constructor (numThreads: nat)
      ensures Valid() && fresh(tasks) && workerCount == numThreads
      ensures !stop && tasks.items == [] && tasks.accepted == []
    {
      workerCount := numThreads;
      tasks := new SafeQueue(PoolQueueCapacity);
      stop := false;
    }

    /** Submits a task: refused without touching the queue once stop_ is set, otherwise produce's answer. */
    method Enqueue(task: Task) returns (ok: bool)
      requires Valid()
      requires stop || |tasks.items| < tasks.maxSize
      modifies tasks
      ensures Valid()
      ensures ok == !old(stop)
      ensures old(stop) ==> tasks.items == old(tasks.items) && tasks.accepted == old(tasks.accepted)
      ensures !old(stop) ==> tasks.items == old(tasks.items) + [task] && tasks.accepted == old(tasks.accepted) + [task]
      ensures tasks.delivered == old(tasks.delivered)
    {
      if stop {
        return false;
      }
      ok := tasks.Produce(task);
    }

    /** The start of the destructor: set stop_, then close the queue so idle workers wake up. */
    method Shutdown()
      requires Valid()
      modifies this, tasks
      ensures Valid()
      ensures stop && tasks.closed
      ensures tasks.items == old(tasks.items) && tasks.accepted == old(tasks.accepted)
      ensures tasks.delivered == old(tasks.delivered)
    {
      stop := true;
      tasks.Close();
    }
  }
}
