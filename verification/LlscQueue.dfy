/**
 The load-linked/store-conditional queue under every interleaving of any number of threads.
 */
module LlscQueue {
  import opened Options
  import opened FifoSpec
  import opened LlscSteps

  // ---------------------------------------------------------------------------------------
  // Any number of threads

  datatype System = System(q: Queue, threads: seq<Thread>)

  datatype Move = Move(i: nat, c: Choice)

  /** init_queue, and n threads that have not called anything. */
  function Start(n: nat): System {
    var v := Var(0, BEFORE, Entry(0, 0));
    System(Queue(v, v, [Node(0, NULL, BEFORE, Exit(0, 2)), Node(0, NULL, NULL, Exit(0, 0))], [0], [0], 0),
           seq(n, i => Outside))
  }

  function After(s: System, m: Move): System {
    if m.i < |s.threads| then
      var x := Step(s.q, s.threads[m.i], m.c);
      System(x.q, s.threads[m.i := x.t])
    else s
  }

  function EventOf(s: System, m: Move): Event {
    if m.i < |s.threads| then Step(s.q, s.threads[m.i], m.c).e else Silent
  }

  function Run(s: System, ms: seq<Move>): System
    decreases |ms|
  {
    if ms == [] then s else Run(After(s, ms[0]), ms[1..])
  }

  function Events(s: System, ms: seq<Move>): seq<Event>
    decreases |ms|
  {
    if ms == [] then [] else [EventOf(s, ms[0])] + Events(After(s, ms[0]), ms[1..])
  }

  ghost predicate Owners(threads: seq<Thread>) {
    forall i, j | 0 <= i < j < |threads| && Mine(threads[i]).Some? :: Mine(threads[i]) != Mine(threads[j])
  }

  ghost predicate SystemInv(s: System) {
    Inv(s.q) && (forall i | 0 <= i < |s.threads| :: Knows(s.q, s.threads[i])) && Owners(s.threads)
  }

  lemma StartsWell(n: nat)
    ensures SystemInv(Start(n)) && Contents(Start(n).q) == []
  {
    assert LinkedAt(Start(n).q, 0);
  }

  lemma StillOwners(s: System, m: Move, x: Result)
    requires SystemInv(s) && m.i < |s.threads| && x == Step(s.q, s.threads[m.i], m.c) && Keeps(s.q, s.threads[m.i], x)
    ensures Owners(s.threads[m.i := x.t])
  {
    forall i | 0 <= i < |s.threads| ensures Mine(s.threads[i]) != Some(|s.q.nodes|) {
      MineIsFresh(s.q, s.threads[i]);
    }
  }

  lemma AfterKeeps(s: System, m: Move)
    requires SystemInv(s)
    ensures SystemInv(After(s, m)) && Moves(s.q, After(s, m).q)
    ensures m.i < |s.threads| ==> Keeps(s.q, s.threads[m.i], Step(s.q, s.threads[m.i], m.c))
  {
    if m.i < |s.threads| {
      var t := s.threads[m.i];
      var x := Step(s.q, t, m.c);
      StepKeeps(s.q, t, m.c);
      var after := s.threads[m.i := x.t];
      forall i | 0 <= i < |after| ensures Knows(x.q, after[i]) {
        if i != m.i {
          MineIsFresh(s.q, s.threads[i]);
          StillKnows(s.q, x.q, s.threads[i]);
        }
      }
      StillOwners(s, m, x);
    }
  }

  lemma {:induction false} RunIsFifo(s: System, ms: seq<Move>)
    requires SystemInv(s)
    ensures SystemInv(Run(s, ms)) && InOrder(Contents(s.q), Events(s, ms), Contents(Run(s, ms).q))
    decreases |ms|
  {
    if ms != [] {
      var r := After(s, ms[0]);
      AfterKeeps(s, ms[0]);
      RunIsFifo(r, ms[1..]);
      InOrderFirst(Contents(s.q), Contents(r.q), EventOf(s, ms[0]), Events(r, ms[1..]), Contents(Run(r, ms[1..]).q));
    } else {
      assert Contents(s.q) + [] == Contents(s.q);
    }
  }

  /**
   In every run of any number of threads from init_queue, the values dequeued so far followed by
   the queue's contents are the values enqueued so far, in order. Runs that pass through unlink
   are included.
   */
  lemma QueueIsFifo(n: nat, ms: seq<Move>)
    ensures
      var es := Events(Start(n), ms);
      Dequeued(es) + Contents(Run(Start(n), ms).q) == Enqueued(es)
  {
    StartsWell(n);
    RunIsFifo(Start(n), ms);
    assert [] + Enqueued(Events(Start(n), ms)) == Enqueued(Events(Start(n), ms));
  }

  // ---------------------------------------------------------------------------------------
  // Each call takes effect once, at an instant inside it

  function Status(q: Queue, t: Thread): Caller {
    if t.Outside? then Idle
    else if t.UnlinkRead? || t.UnlinkCas? then Dequeuing(true)
    else
      match t.op
      case Enq(nd, linked) => if linked || t.Done? then EnqueueDone else Enqueuing(At(q, nd).val)
      case DeqEmpty => if t.Done? then DequeueDone(None) else Dequeuing(true)
      case Deq =>
        if t.Done? then DequeueDone(t.result)
        else if Won(t) then DequeueDone(Some(At(q, t.nd).val))
        else Dequeuing(false)
  }

  predicate Won(t: Thread) {
    (t.ScRead? || t.ScEntry? || t.TransRead? || t.TransCas? || t.RelRead? || t.RelCas?) && t.won
  }

  function CallOf(c: Choice): Call {
    match c
    case CallEnq(v) => ToEnqueue(v)
    case CallDeq => ToDequeue
    case _ => NoCall
  }

  lemma StepRefines(s: System, m: Move)
    requires SystemInv(s) && m.i < |s.threads|
    ensures
      var r := After(s, m);
      && SystemInv(r)
      && Atomically(Contents(s.q), Status(s.q, s.threads[m.i]), CallOf(m.c), Contents(r.q), Status(r.q, r.threads[m.i]))
      && forall j | 0 <= j < |s.threads| && j != m.i :: Status(r.q, r.threads[j]) == Status(s.q, s.threads[j])
  {
    AfterKeeps(s, m);
    OwnStatus(s.q, s.threads[m.i], m.c);
    forall j | 0 <= j < |s.threads| && j != m.i ensures Status(After(s, m).q, s.threads[j]) == Status(s.q, s.threads[j]) {
      StillStatus(s.q, After(s, m).q, s.threads[j]);
    }
  }

  /** The value a thread is about to add or has won. */
  lemma StillStatus(q: Queue, r: Queue, t: Thread)
    requires Inv(q) && Knows(q, t) && Moves(q, r)
    ensures Status(r, t) == Status(q, t)
  {
    MineIsFresh(q, t);
  }

  lemma OwnStatus(q: Queue, t: Thread, c: Choice)
    requires Inv(q) && Knows(q, t) && Keeps(q, t, Step(q, t, c))
    ensures Atomically(Contents(q), Status(q, t), CallOf(c), Contents(Step(q, t, c).q), Status(Step(q, t, c).q, Step(q, t, c).t))
  {
    if t.Outside? {
      CallStatus(q, t, c);
    } else {
      InsideStatus(q, t, c);
      InsideCall(Contents(q), Status(q, t), CallOf(c), Contents(Step(q, t, c).q), Status(Step(q, t, c).q, Step(q, t, c).t));
    }
  }

  lemma CallStatus(q: Queue, t: Thread, c: Choice)
    requires Inv(q) && t.Outside? && Keeps(q, t, Step(q, t, c))
    ensures Atomically(Contents(q), Status(q, t), CallOf(c), Contents(Step(q, t, c).q), Status(Step(q, t, c).q, Step(q, t, c).t))
  {
    if c.CallEnq? { Allocates(q, c.v); }
  }

  lemma InsideStatus(q: Queue, t: Thread, c: Choice)
    requires Inv(q) && Knows(q, t) && Keeps(q, t, Step(q, t, c)) && !t.Outside?
    ensures Refined(q, t, Step(q, t, c)) == true
  {
    if t.Done? {
      DoneStatus(q, t, c);
    } else if t.LLRead? || t.LLNode? || t.LLCas? {
      LLStatus(q, t);
    } else if t.SetPred? || t.LinkCas? || t.NextRead? || t.UnlinkRead? || t.UnlinkCas? {
      BodyStatus(q, t);
    } else {
      SCStatus(q, t);
    }
  }

  ghost predicate Refined(q: Queue, t: Thread, x: Result) {
    Atomically(Contents(q), Status(q, t), NoCall, Contents(x.q), Status(x.q, x.t))
  }

  lemma DoneStatus(q: Queue, t: Thread, c: Choice)
    requires t.Done? && Keeps(q, t, Step(q, t, c))
    ensures Atomically(Contents(q), Status(q, t), NoCall, Contents(Step(q, t, c).q), Status(Step(q, t, c).q, Step(q, t, c).t))
  {
  }

  lemma LLStatus(q: Queue, t: Thread)
    requires Inv(q) && Knows(q, t) && Keeps(q, t, LLStep(q, t)) && (t.LLRead? || t.LLNode? || t.LLCas?)
    ensures Atomically(Contents(q), Status(q, t), NoCall, Contents(LLStep(q, t).q), Status(LLStep(q, t).q, LLStep(q, t).t))
  {
    var x := LLStep(q, t);
    StillStatus(q, x.q, t);
    LLGoesOn(q, t);
  }

  lemma LLGoesOn(q: Queue, t: Thread)
    requires t.LLRead? || t.LLNode? || t.LLCas?
    ensures
      var x := LLStep(q, t);
      && x.e == Silent && x.q.nodes == q.nodes && !x.t.Outside? && !x.t.Done? && !x.t.UnlinkRead? && !x.t.UnlinkCas?
      && x.t.op == t.op && !Won(x.t)
  {
  }

  lemma BodyStatus(q: Queue, t: Thread)
    requires Inv(q) && Knows(q, t) && Keeps(q, t, BodyStep(q, t))
    requires t.SetPred? || t.LinkCas? || t.NextRead? || t.UnlinkRead? || t.UnlinkCas?
    ensures Atomically(Contents(q), Status(q, t), NoCall, Contents(BodyStep(q, t).q), Status(BodyStep(q, t).q, BodyStep(q, t).t))
  {
    if t.UnlinkRead? || t.UnlinkCas? {
      UnlinkStatus(q, t);
    } else if t.NextRead? {
      NextStatus(q, t);
    } else {
      StillStatus(q, BodyStep(q, t).q, t);
    }
  }

  lemma UnlinkStatus(q: Queue, t: Thread)
    requires Keeps(q, t, BodyStep(q, t)) && (t.UnlinkRead? || t.UnlinkCas?)
    ensures Atomically(Contents(q), Status(q, t), NoCall, Contents(BodyStep(q, t).q), Status(BodyStep(q, t).q, BodyStep(q, t).t))
  {
    assert BodyStep(q, t).e == Silent;
  }

  lemma NextStatus(q: Queue, t: Thread)
    requires Inv(q) && Knows(q, t) && t.NextRead?
    ensures Atomically(Contents(q), Status(q, t), NoCall, Contents(BodyStep(q, t).q), Status(BodyStep(q, t).q, BodyStep(q, t).t))
  {
    NextIs(q, t.h.ver);
    if BodyStep(q, t).t.UnlinkRead? { EmptyHere(q, t.h); }
  }

  /** A null next pointer of the node held: at this instant the queue is empty. */
  lemma EmptyHere(q: Queue, h: Hold)
    requires Inv(q) && Holds(q, q.head, h) && h.ver == |q.chain| - 1
    ensures Contents(q) == []
  {
  }

  lemma SCStatus(q: Queue, t: Thread)
    requires Inv(q) && Knows(q, t) && Keeps(q, t, SCStep(q, t))
    requires t.ScPred? || t.ScCas? || t.ScRead? || t.ScEntry? || t.TransRead? || t.TransCas? || t.RelRead? || t.RelCas?
    ensures Atomically(Contents(q), Status(q, t), NoCall, Contents(SCStep(q, t).q), Status(SCStep(q, t).q, SCStep(q, t).t))
  {
    if t.ScCas? {
      StoreStatus(q, t);
    } else if t.RelCas? {
      ReleaseStatus(q, t);
    } else {
      GoesOn(q, t);
      SameStatus(q, SCStep(q, t).q, t, SCStep(q, t).t);
    }
  }

  lemma GoesOn(q: Queue, t: Thread)
    requires t.ScPred? || t.ScRead? || t.ScEntry? || t.TransRead? || t.TransCas? || t.RelRead?
    ensures
      var x := SCStep(q, t);
      && x.e == Silent && (x.t.ScCas? || x.t.ScRead? || x.t.ScEntry? || x.t.TransRead? || x.t.TransCas? || x.t.RelRead? || x.t.RelCas?)
      && x.t.op == t.op && x.t.nd == t.nd && Won(x.t) == Won(t)
  {
  }

  /** Going on in the same call with the same outcome so far. */
  lemma SameStatus(q: Queue, r: Queue, t: Thread, u: Thread)
    requires Inv(q) && Knows(q, t) && Moves(q, r) && Contents(r) == Contents(q)
    requires t.ScPred? || t.ScCas? || t.ScRead? || t.ScEntry? || t.TransRead? || t.TransCas? || t.RelRead?
    requires u.ScCas? || u.ScRead? || u.ScEntry? || u.TransRead? || u.TransCas? || u.RelRead? || u.RelCas?
    requires u.op == t.op && u.nd == t.nd && (t.op.Deq? ==> Won(u) == Won(t))
    ensures Atomically(Contents(q), Status(q, t), NoCall, Contents(r), Status(r, u))
  {
    StillStatus(q, r, t);
  }

  lemma StoreStatus(q: Queue, t: Thread)
    requires Inv(q) && Knows(q, t) && t.ScCas? && Keeps(q, t, StoreStep(q, t))
    ensures Atomically(Contents(q), Status(q, t), NoCall, Contents(StoreStep(q, t).q), Status(StoreStep(q, t).q, StoreStep(q, t).t))
  {
    if Cell(VarOf(q, t.op), t.h.ver + 1) == t.pred && t.op.Deq? {
      WinningStatus(q, t);
    } else {
      StoreGoesOn(q, t);
      SameStatus(q, StoreStep(q, t).q, t, StoreStep(q, t).t);
    }
  }

  lemma StoreGoesOn(q: Queue, t: Thread)
    requires t.ScCas? && !(Cell(VarOf(q, t.op), t.h.ver + 1) == t.pred && t.op.Deq?)
    ensures
      var x := StoreStep(q, t);
      x.e == Silent && x.t.ScRead? && x.t.op == t.op && x.t.nd == t.nd && (t.op.Deq? ==> !x.t.won)
  {
  }

  lemma WinningStatus(q: Queue, t: Thread)
    requires t.ScCas? && t.op.Deq? && Keeps(q, t, StoreStep(q, t)) && Cell(VarOf(q, t.op), t.h.ver + 1) == t.pred
    ensures Atomically(Contents(q), Status(q, t), NoCall, Contents(StoreStep(q, t).q), Status(StoreStep(q, t).q, StoreStep(q, t).t))
  {
    assert StoreStep(q, t).q.nodes == q.nodes;
  }

  lemma ReleaseStatus(q: Queue, t: Thread)
    requires Inv(q) && Knows(q, t) && t.RelCas? && Keeps(q, t, ReleaseStep(q, t))
    ensures Atomically(Contents(q), Status(q, t), NoCall, Contents(ReleaseStep(q, t).q), Status(ReleaseStep(q, t).q, ReleaseStep(q, t).t))
  {
    StillStatus(q, ReleaseStep(q, t).q, t);
    assert ReleaseStep(q, t).e == Silent;
  }
}
