/**
 The compare-and-swap queue under every interleaving of any number of threads.
 */
module CasQueue {
  import opened Options
  import opened FifoSpec
  import opened CasSteps

  // ---------------------------------------------------------------------------------------
  // Any number of threads

  datatype System = System(q: Queue, threads: seq<Thread>)

  datatype Move = Move(i: nat, c: Choice)

  /** init_queue, and n threads that have not called anything. */
  function Start(n: nat): System {
    System(Queue(Ptr(0, 0), Ptr(0, 0), [Node(0, Ptr(0, NULL))], [0]), seq(n, i => Outside))
  }

  function After(s: System, m: Move): System {
    if m.i < |s.threads| then
      var x := Step(s.q, s.threads[m.i], m.c);
      System(x.q, s.threads[m.i := x.t])
    else s
  }

  function EventOf(s: System, m: Move): Event {
    if m.i < |s.threads| then Step(s.q, s.threads[m.i], m.c).e else Silent
  }

  function Run(s: System, ms: seq<Move>): System
    decreases |ms|
  {
    if ms == [] then s else Run(After(s, ms[0]), ms[1..])
  }

  function Events(s: System, ms: seq<Move>): seq<Event>
    decreases |ms|
  {
    if ms == [] then [] else [EventOf(s, ms[0])] + Events(After(s, ms[0]), ms[1..])
  }

  ghost predicate Owners(threads: seq<Thread>) {
    forall i, j | 0 <= i < j < |threads| && Private(threads[i]).Some? :: Private(threads[i]) != Private(threads[j])
  }

  ghost predicate SystemInv(s: System) {
    Inv(s.q) && (forall i | 0 <= i < |s.threads| :: Knows(s.q, s.threads[i])) && Owners(s.threads)
  }

  lemma StartsWell(n: nat)
    ensures SystemInv(Start(n)) && Contents(Start(n).q) == []
  {
    var q := Start(n).q;
    assert LinkedAt(q, 0) && At(q, 0, 0);
  }

  lemma PrivateIsFresh(q: Queue, t: Thread)
    requires Knows(q, t)
    ensures Private(t).Some? ==> Fresh(q, Private(t).value)
  {
  }

  lemma StillOwners(s: System, m: Move, x: Result)
    requires SystemInv(s) && m.i < |s.threads| && x == Step(s.q, s.threads[m.i], m.c) && Keeps(s.q, s.threads[m.i], x)
    ensures Owners(s.threads[m.i := x.t])
  {
    forall i | 0 <= i < |s.threads| ensures Private(s.threads[i]) != Some(|s.q.nodes|) {
      PrivateIsFresh(s.q, s.threads[i]);
    }
  }

  lemma AfterKeeps(s: System, m: Move)
    requires SystemInv(s)
    ensures SystemInv(After(s, m)) && Moves(s.q, After(s, m).q)
    ensures m.i < |s.threads| ==> Keeps(s.q, s.threads[m.i], Step(s.q, s.threads[m.i], m.c))
  {
    if m.i < |s.threads| {
      var t := s.threads[m.i];
      var x := Step(s.q, t, m.c);
      StepKeeps(s.q, t, m.c);
      var after := s.threads[m.i := x.t];
      forall i | 0 <= i < |after| ensures Knows(x.q, after[i]) {
        if i != m.i {
          PrivateIsFresh(s.q, s.threads[i]);
          StillKnows(s.q, x.q, s.threads[i]);
        }
      }
      StillOwners(s, m, x);
    }
  }

  // ---------------------------------------------------------------------------------------
  // First in, first out

  lemma {:induction false} RunIsFifo(s: System, ms: seq<Move>)
    requires SystemInv(s)
    ensures SystemInv(Run(s, ms))
    ensures InOrder(Contents(s.q), Events(s, ms), Contents(Run(s, ms).q))
    ensures |Run(s, ms).q.chain| == |s.q.chain| + |Enqueued(Events(s, ms))|
    decreases |ms|
  {
    if ms == [] {
      assert Contents(s.q) + [] == Contents(s.q);
    } else {
      var r, e := After(s, ms[0]), EventOf(s, ms[0]);
      AfterKeeps(s, ms[0]);
      RunIsFifo(r, ms[1..]);
      var es := Events(r, ms[1..]);
      assert Events(s, ms)[1..] == es;
      InOrderFirst(Contents(s.q), Contents(r.q), e, es, Contents(Run(r, ms[1..]).q));
      GrowsByOne(s, ms[0]);
    }
  }

  lemma GrowsByOne(s: System, m: Move)
    requires SystemInv(s)
    ensures |After(s, m).q.chain| == |s.q.chain| + if EventOf(s, m).Enqueue? then 1 else 0
  {
  }

  /**
   In every run of any number of threads from init_queue, the values dequeued so far followed by
   the queue's contents are the values enqueued so far, in order.
   */
  lemma QueueIsFifo(n: nat, ms: seq<Move>)
    ensures
      var es := Events(Start(n), ms);
      Dequeued(es) + Contents(Run(Start(n), ms).q) == Enqueued(es)
  {
    StartsWell(n);
    RunIsFifo(Start(n), ms);
    assert [] + Enqueued(Events(Start(n), ms)) == Enqueued(Events(Start(n), ms));
  }

  /** In every reachable state the counts are list indices, and tail is neither behind head nor
      more than one node behind the end. */
  lemma CountsAreIndices(n: nat, ms: seq<Move>)
    ensures
      var q := Run(Start(n), ms).q;
      && 0 <= q.head.count <= q.tail.count < |q.chain| <= q.tail.count + 2
      && q.chain[q.head.count] == q.head.ptr && q.chain[q.tail.count] == q.tail.ptr
  {
    StartsWell(n);
    RunIsFifo(Start(n), ms);
    assert Inv(Run(Start(n), ms).q);
  }

  /** Neither count ever falls, over any stretch of any run. */
  lemma {:induction false} CountsNeverFall(s: System, ms: seq<Move>)
    requires SystemInv(s)
    ensures s.q.head.count <= Run(s, ms).q.head.count && s.q.tail.count <= Run(s, ms).q.tail.count
    decreases |ms|
  {
    if ms != [] {
      AfterKeeps(s, ms[0]);
      CountsNeverFall(After(s, ms[0]), ms[1..]);
    }
  }

  /** When an enqueue is through with its last compare-and-swap, by its own hand or another's the tail
      has reached its node. */
  lemma TailReachesTheNode(q: Queue, t: Thread, c: Choice)
    requires Inv(q) && Knows(q, t) && t.EnqSwing?
    ensures
      var x := Step(q, t, c);
      x.t == EnqDone && exists i :: 0 <= i <= x.q.tail.count && x.q.chain[i] == t.node
  {
    SamePlace(q, q.tail.ptr, q.tail.count, q.tail.count);
    assert q.chain[t.tail.count + 1] == t.node;
  }

  /** deq helping the tail with head.count + 1 installs the count the tail would have got. */
  lemma HelpingInstallsTheSameCount(q: Queue, t: Thread, c: Choice)
    requires Inv(q) && Knows(q, t) && t.DeqAct?
    requires Step(q, t, c).q.tail != q.tail
    ensures Step(q, t, c).q.tail.count == q.tail.count + 1 == t.head.count + 1
  {
    SamePlace(q, t.head.ptr, t.head.at, t.tail.at);
    Validated(q, t.tail, q.tail, t.pace);
  }

  // ---------------------------------------------------------------------------------------
  // Each call takes effect once, at an instant inside it

  function Status(q: Queue, t: Thread): Caller {
    match t
    case Outside => Idle
    case EnqTail(n, _, _) => Enqueuing(Val(q, n))
    case EnqNext(n, _, _, _) => Enqueuing(Val(q, n))
    case EnqCheck(n, _, _, _, _) => Enqueuing(Val(q, n))
    case EnqAct(n, _, _, _) => Enqueuing(Val(q, n))
    case EnqSwing(_, _) => EnqueueDone
    case EnqDone => EnqueueDone
    case DeqHead(_, _) => Dequeuing(false)
    case DeqTail(_, _, _) => Dequeuing(false)
    case DeqNext(_, _, _, empty, _) => Dequeuing(empty)
    case DeqCheck(_, _, _, empty, _, _) => Dequeuing(empty)
    case DeqAct(_, _, _, empty, _) => Dequeuing(empty)
    case DeqTake(_, _, _, _) => Dequeuing(false)
    case DeqDone(r, _) => DequeueDone(r)
  }

  function CallOf(c: Choice): Call {
    match c
    case CallEnq(v) => ToEnqueue(v)
    case CallDeq => ToDequeue
    case _ => NoCall
  }

  /**
   Every step refines the atomic queue: an enqueue appends exactly its argument at one instant
   of the call, a successful dequeue removes the front value and returns it, a dequeue that
   returns false saw the queue empty during the call, and nothing else changes anything.
   */
  lemma StepRefines(s: System, m: Move)
    requires SystemInv(s) && m.i < |s.threads|
    ensures
      var r := After(s, m);
      && SystemInv(r)
      && Atomically(Contents(s.q), Status(s.q, s.threads[m.i]), CallOf(m.c), Contents(r.q), Status(r.q, r.threads[m.i]))
      && forall j | 0 <= j < |s.threads| && j != m.i :: Status(r.q, r.threads[j]) == Status(s.q, s.threads[j])
  {
    AfterKeeps(s, m);
    var t := s.threads[m.i];
    OwnStatus(s.q, t, m.c);
    forall j | 0 <= j < |s.threads| && j != m.i ensures Status(After(s, m).q, s.threads[j]) == Status(s.q, s.threads[j]) {
      PrivateIsFresh(s.q, s.threads[j]);
    }
  }

  lemma OwnStatus(q: Queue, t: Thread, c: Choice)
    requires Inv(q) && Knows(q, t) && Keeps(q, t, Step(q, t, c))
    ensures Atomically(Contents(q), Status(q, t), CallOf(c), Contents(Step(q, t, c).q), Status(Step(q, t, c).q, Step(q, t, c).t))
  {
    PrivateIsFresh(q, t);
    if Private(t).Some? || t.EnqSwing? {
      EnqStatus(q, t, c);
    } else if !t.Outside? && !t.EnqDone? && !t.DeqDone? {
      DeqStatus(q, t, c);
    } else if c.CallEnq? {
      Allocates(q, c.v);
    }
  }

  lemma EnqStatus(q: Queue, t: Thread, c: Choice)
    requires Private(t).Some? || t.EnqSwing?
    requires Keeps(q, t, EnqStep(q, t, c)) && (Private(t).Some? ==> Fresh(q, Private(t).value))
    ensures Atomically(Contents(q), Status(q, t), CallOf(c), Contents(EnqStep(q, t, c).q), Status(EnqStep(q, t, c).q, EnqStep(q, t, c).t))
  {
    var x := EnqStep(q, t, c);
    assert Private(t).Some? ==> Val(x.q, Private(t).value) == Val(q, Private(t).value);
    assert x.e.Enqueue? <==> t.EnqAct? && t.next.ptr == NULL && Next(q, t.tail.ptr) == t.next;
  }

  lemma DeqStatus(q: Queue, t: Thread, c: Choice)
    requires Knows(q, t) && Keeps(q, t, DeqStep(q, t, c))
    requires t.DeqHead? || t.DeqTail? || t.DeqNext? || t.DeqCheck? || t.DeqAct? || t.DeqTake?
    ensures Atomically(Contents(q), Status(q, t), CallOf(c), Contents(DeqStep(q, t, c).q), Status(DeqStep(q, t, c).q, DeqStep(q, t, c).t))
  {
    if t.DeqAct? {
      ActStatus(q, t, c);
    } else if t.DeqTake? {
      TakeStatus(q, t, c);
    } else {
      ReadStatus(q, t, c);
    }
  }

  lemma ReadStatus(q: Queue, t: Thread, c: Choice)
    requires t.DeqHead? || t.DeqTail? || t.DeqNext? || t.DeqCheck?
    ensures Atomically(Contents(q), Status(q, t), CallOf(c), Contents(DeqStep(q, t, c).q), Status(DeqStep(q, t, c).q, DeqStep(q, t, c).t))
  {
    assert DeqStep(q, t, c).q == q;
  }

  /** What the last step before the compare-and-swap of the head leads to. */
  lemma ActLeads(q: Queue, t: Thread, c: Choice)
    requires t.DeqAct?
    ensures
      var x := DeqStep(q, t, c);
      x.e == Silent && (x.t.DeqHead? || x.t.DeqTake? || (x.t == DeqDone(None, t.empty) && t.next.ptr == NULL && x.q == q))
  {
  }

  lemma ActStatus(q: Queue, t: Thread, c: Choice)
    requires t.DeqAct? && Knows(q, t) && Keeps(q, t, DeqStep(q, t, c))
    ensures Atomically(Contents(q), Status(q, t), CallOf(c), Contents(DeqStep(q, t, c).q), Status(DeqStep(q, t, c).q, DeqStep(q, t, c).t))
  {
    var x := DeqStep(q, t, c);
    ActLeads(q, t, c);
    KeepsDoes(q, t, x);
    if x.t.DeqDone? { assert t.empty; }
  }

  lemma KeepsDoes(q: Queue, t: Thread, x: Result)
    requires Keeps(q, t, x)
    ensures Does(Contents(q), x.e, Contents(x.q))
  {
  }

  lemma TakeLeads(q: Queue, t: Thread, c: Choice)
    requires t.DeqTake?
    ensures
      var x := DeqStep(q, t, c);
      (x.e == Dequeue(t.val) && x.t == DeqDone(Some(t.val), false)) || (x.e == Silent && x.t.DeqHead?)
  {
  }

  lemma TakeStatus(q: Queue, t: Thread, c: Choice)
    requires t.DeqTake? && Keeps(q, t, DeqStep(q, t, c))
    ensures Atomically(Contents(q), Status(q, t), CallOf(c), Contents(DeqStep(q, t, c).q), Status(DeqStep(q, t, c).q, DeqStep(q, t, c).t))
  {
    TakeLeads(q, t, c);
    KeepsDoes(q, t, DeqStep(q, t, c));
  }

  // ---------------------------------------------------------------------------------------
  // Lock freedom

  function PaceOf(t: Thread): Option<Pace> {
    match t
    case EnqTail(_, _, p) => Some(p)
    case EnqNext(_, _, _, p) => Some(p)
    case EnqCheck(_, _, _, _, p) => Some(p)
    case EnqAct(_, _, _, p) => Some(p)
    case DeqHead(_, p) => Some(p)
    case DeqTail(_, _, p) => Some(p)
    case DeqNext(_, _, _, _, p) => Some(p)
    case DeqCheck(_, _, _, _, _, p) => Some(p)
    case DeqAct(_, _, _, _, p) => Some(p)
    case DeqTake(_, _, _, p) => Some(p)
    case _ => None
  }

  lemma RoundsArePaid(q: Queue, t: Thread)
    requires Inv(q) && Knows(q, t) && PaceOf(t).Some?
    ensures PaceOf(t).value.begun + PaceOf(t).value.rounds <= Progress(q)
  {
  }

  lemma {:induction false} ThreadsStay(s: System, ms: seq<Move>)
    ensures |Run(s, ms).threads| == |s.threads|
    decreases |ms|
  {
    if ms != [] {
      ThreadsStay(After(s, ms[0]), ms[1..]);
    }
  }

  /**
   A call goes round its loop only as often as compare-and-swaps have succeeded since it began,
   and those are at most three for each value ever enqueued: while a call retries, others finish.
   */
  lemma RetriesAreBounded(n: nat, ms: seq<Move>, i: nat)
    requires i < n
    ensures
      var s := Run(Start(n), ms);
      && |s.threads| == n && Progress(s.q) <= 3 * |Enqueued(Events(Start(n), ms))| + 1
      && (PaceOf(s.threads[i]).Some? ==>
            var p := PaceOf(s.threads[i]).value;
            p.rounds <= Progress(s.q) - p.begun)
  {
    StartsWell(n);
    ThreadsStay(Start(n), ms);
    RunIsFifo(Start(n), ms);
    var s := Run(Start(n), ms);
    if PaceOf(s.threads[i]).Some? {
      RoundsArePaid(s.q, s.threads[i]);
    }
  }
}
