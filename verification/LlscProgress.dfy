/**
 A call of the load-linked/store-conditional queue can always finish, but for the wait in the
 dequeue of an empty queue: a thread that steps alone has its answer, or waits there, within a
 fixed number of steps, wherever the others have been stopped.
 */
module LlscProgress {
  import opened Options
  import opened FifoSpec
  import opened LlscSteps
  import opened LlscQueue
  import opened LlscWaiting

  // ---------------------------------------------------------------------------------------
  // Who transfers a count has moved the version on, or seen it moved

  ghost predicate Ahead(q: Queue, t: Thread) {
    t.TransRead? || t.TransCas? ==> t.h.ver < VarOf(q, t.op).entry.ver
  }

  lemma StaysAhead(q: Queue, r: Queue, t: Thread)
    requires Moves(q, r) && Ahead(q, t)
    ensures Ahead(r, t)
  {
  }

  lemma StepAhead(q: Queue, t: Thread, c: Choice)
    requires Inv(q) && Knows(q, t) && Ahead(q, t)
    ensures Ahead(Step(q, t, c).q, Step(q, t, c).t)
  {
  }

  ghost predicate AllAhead(s: System) { forall i | 0 <= i < |s.threads| :: Ahead(s.q, s.threads[i]) }

  lemma AfterAhead(s: System, m: Move)
    requires SystemInv(s) && AllAhead(s)
    ensures AllAhead(After(s, m))
  {
    AfterKeeps(s, m);
    if m.i < |s.threads| {
      var r := After(s, m);
      StepAhead(s.q, s.threads[m.i], m.c);
      forall i | 0 <= i < |r.threads| ensures Ahead(r.q, r.threads[i]) {
        if i != m.i { StaysAhead(s.q, r.q, s.threads[i]); }
      }
    }
  }

  lemma {:induction false} RunAhead(s: System, ms: seq<Move>)
    requires SystemInv(s) && AllAhead(s)
    ensures SystemInv(Run(s, ms)) && AllAhead(Run(s, ms)) && |Run(s, ms).threads| == |s.threads|
    decreases |ms|
  {
    if ms != [] {
      AfterKeeps(s, ms[0]);
      AfterAhead(s, ms[0]);
      RunAhead(After(s, ms[0]), ms[1..]);
    }
  }

  // ---------------------------------------------------------------------------------------
  // How far a lone thread is from the end of its call

  /** A round that starts now helps somebody else and has to be followed by another. */
  predicate Helps(q: Queue, op: Op) {
    if op.Enq? then q.tail.entry.ver + 1 < |q.chain|
    else Stores(q, q.head) != q.head.entry.ver
  }

  function Count(b: bool): int { if b then 1 else 0 }

  /** Rounds after a round that fails holding version ver: that version is left by its end. */
  function AfterFailing(q: Queue, op: Op, h: Hold): int {
    if h.ver == VarOf(q, op).entry.ver then 1 else 1 + Count(Helps(q, op))
  }

  /** Rounds to go after this one. */
  function Rounds(q: Queue, t: Thread): int {
    match t
    case LLRead(op) => Count(Helps(q, op))
    case LLNode(op, _) => Count(Helps(q, op))
    case LLCas(op, _, _) => Count(Helps(q, op))
    case SetPred(op, h) => if At(q, h.node).next == NULL then 0 else AfterFailing(q, op, h)
    case LinkCas(op, h) => if At(q, h.node).next == NULL then 0 else AfterFailing(q, op, h)
    case NextRead(op, h) => Storing(q, op, h)
    case ScPred(op, h, _) => Storing(q, op, h)
    case ScCas(op, h, _, _) => Storing(q, op, h)
    case ScRead(op, h, _, won) => if Through(op, won) then 0 else AfterFailing(q, op, h)
    case ScEntry(op, h, _, won, _) => if Through(op, won) then 0 else AfterFailing(q, op, h)
    case TransRead(op, _, _, won, _) => if Through(op, won) then 0 else 1 + Count(Helps(q, op))
    case TransCas(op, _, _, won, _, _) => if Through(op, won) then 0 else 1 + Count(Helps(q, op))
    case RelRead(op, _, _, won) => if Through(op, won) then 0 else 1 + Count(Helps(q, op))
    case RelCas(op, _, _, won, _) => if Through(op, won) then 0 else 1 + Count(Helps(q, op))
    case _ => 0
  }

  function Storing(q: Queue, op: Op, h: Hold): int {
    if op.Enq? then (if op.linked then 0 else AfterFailing(q, op, h))
    else if Stores(q, q.head) == h.ver then 0 else AfterFailing(q, op, h)
  }

  /** The call returns at the end of this round. */
  predicate Through(op: Op, won: bool) {
    match op
    case Enq(_, linked) => linked
    case Deq => won
    case DeqEmpty => true
  }

  /** Steps to the end of this round. */
  function InRound(q: Queue, t: Thread): int {
    match t
    case LLRead(_) => 15
    case LLNode(op, e) => if VarOf(q, op).entry == e then 14 else 17
    case LLCas(op, e, _) => if VarOf(q, op).entry == e then 13 else 16
    case SetPred(_, _) => 12
    case LinkCas(_, _) => 11
    case NextRead(_, _) => 10
    case ScPred(_, _, _) => 9
    case ScCas(_, _, _, _) => 8
    case ScRead(op, h, _, _) => Settling(q, op, h)
    case ScEntry(op, h, _, _, e) => if VarOf(q, op).entry == e then 6 else 1 + Settling(q, op, h)
    case TransRead(_, _, _, _, _) => 5
    case TransCas(_, h, _, _, _, pre) => if At(q, h.node).exit == pre then 4 else 6
    case RelRead(_, _, _, _) => 2
    case RelCas(_, h, _, _, pre) => if At(q, h.node).exit == pre then 1 else 3
    case UnlinkRead(_) => 4
    case UnlinkCas(_, _) => 3
    case _ => 0
  }

  function Settling(q: Queue, op: Op, h: Hold): int { if VarOf(q, op).entry.ver == h.ver then 7 else 3 }

  /** An upper bound on the steps of its own to the end of the call. */
  function Distance(q: Queue, t: Thread): int {
    if t.Outside? then 0 else InRound(q, t) + 15 * Rounds(q, t) + 1
  }

  /** In the wait of unlink, the version being the one it holds. */
  predicate Stuck(q: Queue, t: Thread) { t.UnlinkRead? && q.head.entry.ver == t.h.ver }

  ghost predicate Nears(q: Queue, t: Thread, x: Result) {
    0 <= Distance(x.q, x.t) < Distance(q, t) <= 48
  }

  lemma LLNears(q: Queue, t: Thread)
    requires Inv(q) && Knows(q, t) && (t.LLRead? || t.LLNode?)
    ensures Nears(q, t, LLStep(q, t))
  {
  }

  /** What the first part of a round leads to. */
  lemma TakesNears(q: Queue, t: Thread)
    requires Inv(q) && Knows(q, t) && t.LLCas?
    ensures Nears(q, t, TakeStep(q, t))
  {
    if VarOf(q, t.op).entry == t.e { NextIs(q, t.e.ver); }
  }

  lemma SetPredNears(q: Queue, t: Thread)
    requires Inv(q) && Knows(q, t) && t.SetPred?
    ensures Nears(q, t, BodyStep(q, t))
  {
    assert t.op.nd != t.h.node;
  }

  lemma LinkNears(q: Queue, t: Thread)
    requires Inv(q) && Knows(q, t) && t.LinkCas?
    ensures Nears(q, t, BodyStep(q, t))
  {
    NextIs(q, t.h.ver);
  }

  lemma NextNears(q: Queue, t: Thread)
    requires Inv(q) && Knows(q, t) && (t.NextRead? || t.ScPred?)
    ensures Nears(q, t, Step(q, t, Go))
  {
  }

  lemma UnlinkNears(q: Queue, t: Thread)
    requires Inv(q) && Knows(q, t) && (t.UnlinkRead? || t.UnlinkCas?) && !Stuck(q, t)
    ensures Nears(q, t, BodyStep(q, t))
  {
  }

  lemma StoreNears(q: Queue, t: Thread)
    requires Inv(q) && Knows(q, t) && t.ScCas?
    ensures Nears(q, t, StoreStep(q, t))
  {
    StoreSucceedsExactly(q, t.op, t.h);
  }

  lemma ReadNears(q: Queue, t: Thread)
    requires Inv(q) && Knows(q, t) && t.ScRead?
    ensures Nears(q, t, SCStep(q, t))
  {
  }

  lemma AdvanceNears(q: Queue, t: Thread)
    requires Inv(q) && Knows(q, t) && t.ScEntry?
    ensures Nears(q, t, AdvanceStep(q, t))
  {
  }

  lemma TransferNears(q: Queue, t: Thread)
    requires Inv(q) && Knows(q, t) && Ahead(q, t) && (t.TransRead? || t.TransCas?)
    ensures Nears(q, t, SCStep(q, t))
  {
  }

  lemma ReleaseNears(q: Queue, t: Thread)
    requires Inv(q) && Knows(q, t) && (t.RelRead? || t.RelCas?)
    ensures Nears(q, t, SCStep(q, t))
  {
  }

  lemma StepNears(q: Queue, t: Thread)
    requires Inv(q) && Knows(q, t) && Ahead(q, t) && !t.Outside? && !Stuck(q, t)
    ensures Nears(q, t, Step(q, t, Go))
  {
    if t.LLRead? || t.LLNode? {
      LLNears(q, t);
    } else if t.LLCas? {
      TakesNears(q, t);
    } else if t.SetPred? {
      SetPredNears(q, t);
    } else if t.LinkCas? {
      LinkNears(q, t);
    } else if t.NextRead? || t.ScPred? {
      NextNears(q, t);
    } else if t.UnlinkRead? || t.UnlinkCas? {
      UnlinkNears(q, t);
    } else if t.ScCas? {
      StoreNears(q, t);
    } else if t.ScRead? {
      ReadNears(q, t);
    } else if t.ScEntry? {
      AdvanceNears(q, t);
    } else if t.TransRead? || t.TransCas? {
      TransferNears(q, t);
    } else if t.RelRead? || t.RelCas? {
      ReleaseNears(q, t);
    }
  }

  // ---------------------------------------------------------------------------------------

  /** k steps of thread i. */
  function Steps(i: nat, k: nat): seq<Move> { seq(k, j => Move(i, Go)) }

  lemma {:induction false} FinishesAlone(s: System, i: nat) returns (k: nat)
    requires SystemInv(s) && AllAhead(s) && i < |s.threads|
    ensures k <= Distance(s.q, s.threads[i])
    ensures
      var r := Run(s, Steps(i, k));
      |r.threads| == |s.threads| && (r.threads[i] == Outside || Stuck(r.q, r.threads[i]))
    decreases Distance(s.q, s.threads[i])
  {
    var t := s.threads[i];
    if t == Outside || Stuck(s.q, t) {
      k := 0;
      StuckDistance(s.q, t);
    } else {
      var m := Move(i, Go);
      AfterKeeps(s, m);
      AfterAhead(s, m);
      StepNears(s.q, t);
      var j := FinishesAlone(After(s, m), i);
      k := j + 1;
      assert Steps(i, k)[1..] == Steps(i, j);
    }
  }

  lemma StuckDistance(q: Queue, t: Thread)
    requires t == Outside || Stuck(q, t)
    ensures 0 <= Distance(q, t) <= 48
  {
  }

  /** From every state of every run of any number of threads, a thread that steps alone has, within
      48 steps, returned from its call, or waits in the dequeue of an empty queue. */
  lemma EveryCallCanFinish(n: nat, past: seq<Move>, i: nat) returns (k: nat)
    requires i < n
    ensures k <= 48
    ensures
      var r := Run(Start(n), past + Steps(i, k));
      && |r.threads| == n
      && (r.threads[i] == Outside || (Stuck(r.q, r.threads[i]) && Status(r.q, r.threads[i]) == Dequeuing(true)))
  {
    StartsWell(n);
    RunAhead(Start(n), past);
    var s := Run(Start(n), past);
    if s.threads[i] == Outside || Stuck(s.q, s.threads[i]) {
      StuckDistance(s.q, s.threads[i]);
    } else {
      StepNears(s.q, s.threads[i]);
    }
    k := FinishesAlone(s, i);
    RunJoin(Start(n), past, Steps(i, k));
  }
}
