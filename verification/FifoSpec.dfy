/**
 What the two lock-free queues are supposed to be: one atomic first-in-first-out queue.
 */
module FifoSpec {
  import opened Options

  /** What a step does to the queue. */
  datatype Event = Silent | Enqueue(v: int) | Dequeue(v: int)

  ghost predicate Does(a: seq<int>, e: Event, b: seq<int>) {
    match e
    case Silent => b == a
    case Enqueue(v) => b == a + [v]
    case Dequeue(v) => a != [] && v == a[0] && b == a[1..]
  }

  function Enqueued(es: seq<Event>): seq<int> {
    if es == [] then [] else (if es[0].Enqueue? then [es[0].v] else []) + Enqueued(es[1..])
  }

  function Dequeued(es: seq<Event>): seq<int> {
    if es == [] then [] else (if es[0].Dequeue? then [es[0].v] else []) + Dequeued(es[1..])
  }

  /** Values in their order of arrival: those gone, then those held. */
  ghost predicate InOrder(before: seq<int>, es: seq<Event>, after: seq<int>) {
    Dequeued(es) + after == before + Enqueued(es)
  }

  lemma InOrderFirst(a: seq<int>, b: seq<int>, e: Event, es: seq<Event>, c: seq<int>)
    requires Does(a, e, b) && InOrder(b, es, c)
    ensures InOrder(a, [e] + es, c)
  {
    assert ([e] + es)[1..] == es;
    var d, n := Dequeued(es), Enqueued(es);
    if e.Dequeue? {
      assert [e.v] + d + c == [e.v] + (d + c) == [e.v] + b + n == a + n;
      assert [] + n == n;
    } else if e.Enqueue? {
      assert a + ([e.v] + n) == b + n && [] + d == d;
    } else {
      assert [] + d == d && [] + n == n;
    }
  }

  /**
   Any history of a queue whose every step does what its event says: values come out in the order
   in which they went in, and from an empty queue only values that went in come out.
   */
  lemma {:induction false} HistoryIsInOrder(states: seq<seq<int>>, es: seq<Event>)
    requires |states| == |es| + 1 && forall i | 0 <= i < |es| :: Does(states[i], es[i], states[i + 1])
    ensures InOrder(states[0], es, states[|es|])
    ensures states[0] == [] ==> Dequeued(es) <= Enqueued(es)
    decreases |es|
  {
    if es == [] {
      assert states[0] + [] == states[0];
    } else {
      HistoryIsInOrder(states[1..], es[1..]);
      InOrderFirst(states[0], states[1], es[0], es[1..], states[|es|]);
      assert [es[0]] + es[1..] == es;
    }
    if states[0] == [] {
      assert [] + Enqueued(es) == Enqueued(es);
      assert Dequeued(es) + states[|es|] == Enqueued(es);
    }
  }

  // ---------------------------------------------------------------------------------------
  // Callers of the atomic queue

  /** What a thread may be told to call. */
  datatype Call = ToEnqueue(v: int) | ToDequeue | NoCall

  /** Where a thread stands; a dequeuer may have seen the queue empty since its call began. */
  datatype Caller = Idle | Enqueuing(v: int) | EnqueueDone | Dequeuing(sawEmpty: bool) | DequeueDone(result: Option<int>)

  /** How a call begins. */
  function Begins(call: Call): Caller {
    match call
    case ToEnqueue(v) => Enqueuing(v)
    case ToDequeue => Dequeuing(false)
    case NoCall => Idle
  }

  /** What one step of one caller may do: an idle caller begins the call it is told to make, and
      nothing else; an enqueue appends its argument at one instant of the call, a dequeue takes the
      front value at one instant of the call and returns it, and one that returns nothing saw the
      queue empty at some instant of the call. */
  ghost predicate Atomically(a: seq<int>, x: Caller, call: Call, b: seq<int>, y: Caller) {
    match (x, y)
    case (Idle, _) => b == a && y == Begins(call)
    case (Enqueuing(v), EnqueueDone) => b == a + [v]
    case (Dequeuing(_), DequeueDone(Some(v))) => a != [] && v == a[0] && b == a[1..]
    case (Dequeuing(e), DequeueDone(None)) => e && b == a
    case (Dequeuing(e), Dequeuing(f)) => b == a && (f ==> e || a == [])
    case (EnqueueDone, Idle) => b == a
    case (DequeueDone(_), Idle) => b == a
    case _ => x == y && b == a
  }

  /** Inside a call it makes no difference what the thread is told. */
  lemma InsideCall(a: seq<int>, x: Caller, call: Call, b: seq<int>, y: Caller)
    requires x != Idle && Atomically(a, x, NoCall, b, y)
    ensures Atomically(a, x, call, b, y)
  {
  }
}
