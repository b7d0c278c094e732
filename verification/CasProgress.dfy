/**
 A call of the compare-and-swap queue can always finish: a thread that steps alone has its answer
 within a fixed number of steps, wherever the others have been stopped.
 */
module CasProgress {
  import opened Options
  import opened FifoSpec
  import opened CasSteps
  import opened CasQueue

  /** The word a lone thread reads next. */
  function Pick(t: Thread): Choice {
    match t
    case EnqTail(_, part, _) => Missing(part)
    case EnqNext(_, _, part, _) => Missing(part)
    case DeqHead(part, _) => Missing(part)
    case DeqTail(_, part, _) => Missing(part)
    case DeqNext(_, _, part, _, _) => Missing(part)
    case _ => Pointer
  }

  function Missing(part: Part): Choice { if part.count == None then Count else Pointer }

  function Words(part: Part): int { (if part.count.Some? then 1 else 0) + (if part.ptr.Some? then 1 else 0) }

  // ---------------------------------------------------------------------------------------
  // How far a lone thread is from the end of its call

  /** The words read so far are still those of x. */
  predicate UpToDate(part: Part, x: Ptr) {
    (part.count.Some? ==> part.count.value == x.count) && (part.ptr.Some? ==> part.ptr.value == x.ptr)
  }

  /** Everything the thread has read in this round is still so: the round will not fail. */
  predicate Current(q: Queue, t: Thread) {
    match t
    case EnqTail(_, part, _) => UpToDate(part, q.tail)
    case EnqNext(_, tail, part, _) => Same(tail, q.tail) && UpToDate(part, Next(q, q.tail.ptr))
    case EnqCheck(_, tail, next, _, _) => Same(tail, q.tail) && next == Next(q, q.tail.ptr)
    case EnqAct(_, tail, next, _) => Same(tail, q.tail) && next == Next(q, q.tail.ptr)
    case DeqHead(part, _) => UpToDate(part, q.head)
    case DeqTail(head, part, _) => Same(head, q.head) && UpToDate(part, q.tail)
    case DeqNext(head, tail, part, _, _) => Same(head, q.head) && Same(tail, q.tail) && UpToDate(part, Next(q, q.head.ptr))
    case DeqCheck(head, tail, next, _, _, _) => Same(head, q.head) && Same(tail, q.tail) && next == Next(q, q.head.ptr)
    case DeqAct(head, tail, next, _, _) => Same(head, q.head) && Same(tail, q.tail) && next == Next(q, q.head.ptr)
    case DeqTake(head, _, _, _) => Same(head, q.head)
    case _ => true
  }

  /** The tail has to be moved on for somebody else first. */
  predicate Lags(q: Queue) { q.tail.count + 1 < |q.chain| }

  predicate Blocked(q: Queue) { q.head.ptr == q.tail.ptr && Lags(q) }

  /** Rounds to go after this one. */
  function Rounds(q: Queue, t: Thread, helps: bool): int {
    (if Current(q, t) then 0 else 1) + (if helps then 1 else 0)
  }

  /** An upper bound on the steps of its own to the end of the call. */
  function Distance(q: Queue, t: Thread): int {
    match t
    case Outside => 0
    case EnqDone => 1
    case DeqDone(_, _) => 1
    case EnqSwing(_, _) => 2
    case EnqTail(_, part, _) => 11 - Words(part) + 9 * Rounds(q, t, Lags(q))
    case EnqNext(_, _, part, _) => 8 - Words(part) + 9 * Rounds(q, t, Lags(q))
    case EnqCheck(_, _, _, counted, _) => (if counted then 4 else 5) + 9 * Rounds(q, t, Lags(q))
    case EnqAct(_, _, _, _) => 3 + 9 * Rounds(q, t, Lags(q))
    case DeqHead(part, _) => 14 - Words(part) + 13 * Rounds(q, t, Blocked(q))
    case DeqTail(_, part, _) => 11 - Words(part) + 13 * Rounds(q, t, Blocked(q))
    case DeqNext(_, _, part, _, _) => 8 - Words(part) + 13 * Rounds(q, t, Blocked(q))
    case DeqCheck(_, _, _, _, counted, _) => (if counted then 4 else 5) + 13 * Rounds(q, t, Blocked(q))
    case DeqAct(_, _, _, _, _) => 3 + 13 * Rounds(q, t, Blocked(q))
    case DeqTake(_, _, _, _) => 2 + 13 * Rounds(q, t, Blocked(q))
  }

  ghost predicate Nears(q: Queue, t: Thread, x: Result) {
    Distance(x.q, x.t) < Distance(q, t) <= 39
  }

  lemma EnqReadingNears(q: Queue, t: Thread)
    requires Inv(q) && Knows(q, t) && (t.EnqTail? || t.EnqNext?)
    ensures Nears(q, t, EnqStep(q, t, Pick(t)))
  {
  }

  lemma DeqReadingNears(q: Queue, t: Thread)
    requires Inv(q) && Knows(q, t) && (t.DeqHead? || t.DeqTail? || t.DeqNext?)
    ensures Nears(q, t, DeqStep(q, t, Pick(t)))
  {
  }

  lemma CheckingNears(q: Queue, t: Thread)
    requires Inv(q) && Knows(q, t) && (t.EnqCheck? || t.DeqCheck?)
    ensures Nears(q, t, Step(q, t, Pick(t)))
  {
  }

  lemma EnqActNears(q: Queue, t: Thread)
    requires Inv(q) && Knows(q, t) && t.EnqAct?
    ensures Nears(q, t, Step(q, t, Pick(t)))
  {
    NextIs(q, q.tail.ptr, q.tail.count);
    NextIs(q, t.tail.ptr, t.tail.at);
  }

  lemma DeqActNears(q: Queue, t: Thread)
    requires Inv(q) && Knows(q, t) && t.DeqAct?
    ensures Nears(q, t, Step(q, t, Pick(t)))
  {
    NextIs(q, q.head.ptr, q.head.count);
    SamePlace(q, q.head.ptr, q.head.count, q.head.count);
  }

  lemma DeqTakeNears(q: Queue, t: Thread)
    requires Inv(q) && Knows(q, t) && t.DeqTake?
    ensures Nears(q, t, Step(q, t, Pick(t)))
  {
  }

  lemma StepNears(q: Queue, t: Thread)
    requires Inv(q) && Knows(q, t) && !t.Outside?
    ensures Nears(q, t, Step(q, t, Pick(t)))
  {
    if t.EnqCheck? || t.DeqCheck? {
      CheckingNears(q, t);
    } else if t.EnqAct? {
      EnqActNears(q, t);
    } else if t.DeqAct? {
      DeqActNears(q, t);
    } else if t.DeqTake? {
      DeqTakeNears(q, t);
    } else if t.EnqTail? || t.EnqNext? {
      EnqReadingNears(q, t);
    } else if t.DeqHead? || t.DeqTail? || t.DeqNext? {
      DeqReadingNears(q, t);
    }
  }

  // ---------------------------------------------------------------------------------------

  /** Thread i steps alone. */
  predicate Only(ms: seq<Move>, i: nat) { forall m | m in ms :: m.i == i }

  lemma {:induction false} FinishesAlone(s: System, i: nat) returns (ms: seq<Move>)
    requires SystemInv(s) && i < |s.threads|
    ensures Only(ms, i) && |ms| <= Distance(s.q, s.threads[i])
    ensures |Run(s, ms).threads| == |s.threads| && Run(s, ms).threads[i] == Outside
    decreases Distance(s.q, s.threads[i])
  {
    if s.threads[i] == Outside {
      ms := [];
    } else {
      var m := Move(i, Pick(s.threads[i]));
      AfterKeeps(s, m);
      StepNears(s.q, s.threads[i]);
      var rest := FinishesAlone(After(s, m), i);
      ms := [m] + rest;
      assert ms[1..] == rest;
    }
  }

  lemma {:induction false} RunJoin(s: System, a: seq<Move>, b: seq<Move>)
    ensures Run(s, a + b) == Run(Run(s, a), b)
    decreases |a|
  {
    if a == [] {
      assert a + b == b;
    } else {
      assert (a + b)[1..] == a[1..] + b;
      RunJoin(After(s, a[0]), a[1..], b);
    }
  }

  /** From every state of every run of any number of threads, a thread that steps alone has returned
      from its call within 39 steps. */
  lemma EveryCallCanFinish(n: nat, past: seq<Move>, i: nat) returns (ms: seq<Move>)
    requires i < n
    ensures Only(ms, i) && |ms| <= 39
    ensures |Run(Start(n), past + ms).threads| == n && Run(Start(n), past + ms).threads[i] == Outside
  {
    StartsWell(n);
    ThreadsStay(Start(n), past);
    RunIsFifo(Start(n), past);
    var s := Run(Start(n), past);
    if s.threads[i] != Outside { StepNears(s.q, s.threads[i]); }
    ms := FinishesAlone(s, i);
    RunJoin(Start(n), past, ms);
  }
}
