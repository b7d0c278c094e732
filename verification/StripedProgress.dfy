/**
 The striped hash table neither deadlocks nor goes round in circles: whatever steps are taken by
 threads inside their calls, all calls return.
 */
module StripedProgress {
  import opened Options
  import opened Chains
  import opened StripedTable
  import opened StripedSteps
  import opened StripedHash

  // ---------------------------------------------------------------------------------------
  // What a thread still has to do, in four parts that count one before the other

  function Less(a: int, b: int): nat { if b <= a then a - b else 0 }

  /** Attempts to go, and the steps of this one. */
  function Attempts(t: Thread): nat {
    match t
    case ReadSize(_, seen) => 8 * Less(ATTEMPTS, |seen|)
    case Hash(_, _, seen) => Less(8 * Less(ATTEMPTS, |seen|), 1)
    case Acquire(_, _, _, seen) => Less(8 * Less(ATTEMPTS, |seen|), 2)
    case Check(_, _, _, seen) => Less(8 * Less(ATTEMPTS, |seen|), 3)
    case Act(_, _, _, seen) => Less(8 * Less(ATTEMPTS, |seen|), 4)
    case Release(_, _, seen, answer) => if answer.Some? then 1 else 8 * Less(ATTEMPTS, |seen|) + 2
    case _ => 0
  }

  /** Steps before the table is, perhaps, doubled. */
  function Doublings(t: Thread, locks: int): nat {
    match t
    case Decide(_, _) => Less(locks, 0) + 5
    case GrowRead(_, _) => Less(locks, 0) + 4
    case GrowLock(_, _, _, next) => Less(locks, next) + 3
    case GrowTest(_, _, _) => 2
    case _ => 0
  }

  /** Nodes to move and old buckets to pass. */
  function Moves(t: Thread, tb: Table): nat {
    match t
    case GrowMove(_, _, k) => Count(tb.rest) + Less(|tb.rest|, k) + 1
    case _ => 0
  }

  /** Locks to release, and the return. */
  function Unlocks(t: Thread, locks: int): nat {
    match t
    case GrowUnlock(_, _, next) => Less(locks, next) + 2
    case Returned(_, _) => 1
    case _ => 0
  }

  function Sum(ts: seq<Thread>, f: Thread -> nat): nat {
    if ts == [] then 0 else f(ts[0]) + Sum(ts[1..], f)
  }

  lemma {:induction false} SumUpdate(ts: seq<Thread>, i: int, t: Thread, f: Thread -> nat)
    requires 0 <= i < |ts|
    ensures Sum(ts[i := t], f) == Sum(ts, f) - f(ts[i]) + f(t)
  {
    if i == 0 {
      assert ts[i := t][1..] == ts[1..];
    } else {
      assert ts[i := t][1..] == ts[1..][i - 1 := t];
      SumUpdate(ts[1..], i - 1, t, f);
    }
  }

  lemma {:induction false} SumOfOne(ts: seq<Thread>, i: int, f: Thread -> nat)
    requires 0 <= i < |ts| && forall j | 0 <= j < |ts| && j != i :: f(ts[j]) == 0
    ensures Sum(ts, f) == f(ts[i])
  {
    if i == 0 {
      SumOfNone(ts[1..], f);
    } else {
      SumOfOne(ts[1..], i - 1, f);
    }
  }

  lemma {:induction false} SumOfNone(ts: seq<Thread>, f: Thread -> nat)
    requires forall j | 0 <= j < |ts| :: f(ts[j]) == 0
    ensures Sum(ts, f) == 0
  {
    if ts != [] { SumOfNone(ts[1..], f); }
  }

  function AttemptsOf(): Thread -> nat { t => Attempts(t) }

  function DoublingsOf(locks: int): Thread -> nat { t => Doublings(t, locks) }

  function MovesOf(tb: Table): Thread -> nat { t => Moves(t, tb) }

  function UnlocksOf(locks: int): Thread -> nat { t => Unlocks(t, locks) }

  datatype Work = Work(attempts: nat, doublings: nat, moves: nat, unlocks: nat)

  function WorkLeft(s: System): Work {
    Work(Sum(s.threads, AttemptsOf()), Sum(s.threads, DoublingsOf(s.tb.locks)),
         Sum(s.threads, MovesOf(s.tb)), Sum(s.threads, UnlocksOf(s.tb.locks)))
  }

  predicate Lower(a: Work, b: Work) {
    || a.attempts < b.attempts
    || (a.attempts == b.attempts && a.doublings < b.doublings)
    || (a.attempts == b.attempts && a.doublings == b.doublings && a.moves < b.moves)
    || (a.attempts == b.attempts && a.doublings == b.doublings && a.moves == b.moves && a.unlocks < b.unlocks)
  }

  // ---------------------------------------------------------------------------------------
  // Every step leaves less to do

  lemma AttemptDescends(s: System, i: int, c: Choice)
    requires Inv(s) && 0 <= i < |s.threads| && Enabled(s, i)
    requires
      var t := s.threads[i];
      t.ReadSize? || t.Hash? || t.Acquire? || t.Check? || t.Act? || t.Release?
    ensures Attempts(Step(s, i, c).threads[i]) < Attempts(s.threads[i])
  {
    assert Knows(s.tb, s.threads[i]);
  }

  lemma GrowDescends(s: System, i: int, c: Choice)
    requires Inv(s) && 0 <= i < |s.threads| && Enabled(s, i)
    requires
      var t := s.threads[i];
      t.Decide? || t.GrowRead? || t.GrowLock? || t.GrowTest?
    ensures
      var t := Step(s, i, c).threads[i];
      Attempts(t) == 0 && Doublings(t, s.tb.locks) < Doublings(s.threads[i], s.tb.locks)
  {
    assert Knows(s.tb, s.threads[i]);
  }

  lemma MoveDescends(s: System, i: int, c: Choice)
    requires Inv(s) && 0 <= i < |s.threads| && s.threads[i].GrowMove?
    ensures
      var r := Step(s, i, c);
      var t := r.threads[i];
      Attempts(t) == 0 && Doublings(t, s.tb.locks) == 0 && Moves(t, r.tb) < Moves(s.threads[i], s.tb)
  {
    var k := s.threads[i].i;
    assert Knows(s.tb, s.threads[i]);
    if k < |s.tb.rest| && s.tb.rest[k] != [] {
      CountUpdate(s.tb.rest, k, s.tb.rest[k][1..]);
    }
  }

  lemma LocksStay(s: System, i: int, c: Choice)
    requires Inv(s) && 0 <= i < |s.threads|
    ensures Step(s, i, c).tb.locks == s.tb.locks
    ensures !s.threads[i].Act? && !s.threads[i].GrowTest? && !s.threads[i].GrowMove? ==> Step(s, i, c).tb == s.tb
  {
    assert Knows(s.tb, s.threads[i]);
  }

  /** While one thread moves nodes, no other does. */
  lemma OneMover(s: System, i: int)
    requires Inv(s) && 0 <= i < |s.threads| && s.threads[i].GrowMove?
    ensures forall j | 0 <= j < |s.threads| && j != i :: !s.threads[j].GrowMove?
  {
    assert Knows(s.tb, s.threads[i]);
    forall j | 0 <= j < |s.threads| && j != i ensures !s.threads[j].GrowMove? {
      if s.threads[j].GrowMove? { Alone(s, i, j, 0); }
    }
  }

  lemma UnlockDescends(s: System, i: int, c: Choice)
    requires Inv(s) && 0 <= i < |s.threads| && (s.threads[i].GrowUnlock? || s.threads[i].Returned?)
    ensures
      var t := Step(s, i, c).threads[i];
      && Attempts(t) == 0 && Doublings(t, s.tb.locks) == 0 && Moves(t, s.tb) == 0
      && Unlocks(t, s.tb.locks) < Unlocks(s.threads[i], s.tb.locks)
  {
    assert Knows(s.tb, s.threads[i]);
  }

  /** How a step of thread i changes the work of all. */
  lemma WorkAfter(s: System, i: int, c: Choice)
    requires Inv(s) && 0 <= i < |s.threads|
    ensures
      var r := Step(s, i, c);
      && |r.threads| == |s.threads|
      && var t, u, a, b := s.threads[i], r.threads[i], WorkLeft(s), WorkLeft(r);
      && b.attempts == a.attempts - Attempts(t) + Attempts(u)
      && b.doublings == a.doublings - Doublings(t, s.tb.locks) + Doublings(u, s.tb.locks)
      && b.unlocks == a.unlocks - Unlocks(t, s.tb.locks) + Unlocks(u, s.tb.locks)
      && (r.tb == s.tb ==> b.moves == a.moves - Moves(t, s.tb) + Moves(u, s.tb))
  {
    var r := Step(s, i, c);
    StepRefines(s, i, c);
    LocksStay(s, i, c);
    var u := r.threads[i];
    assert r.threads == s.threads[i := u];
    SumUpdate(s.threads, i, u, AttemptsOf());
    SumUpdate(s.threads, i, u, DoublingsOf(s.tb.locks));
    SumUpdate(s.threads, i, u, UnlocksOf(s.tb.locks));
    SumUpdate(s.threads, i, u, MovesOf(s.tb));
  }

  lemma MoverDescends(s: System, i: int, c: Choice)
    requires Inv(s) && 0 <= i < |s.threads| && s.threads[i].GrowMove?
    ensures WorkLeft(Step(s, i, c)).moves < WorkLeft(s).moves
  {
    var r := Step(s, i, c);
    StepRefines(s, i, c);
    OneMover(s, i);
    MoveDescends(s, i, c);
    SumOfOne(s.threads, i, MovesOf(s.tb));
    SumOfOne(r.threads, i, MovesOf(r.tb));
  }

  lemma StepDescends(s: System, i: int, c: Choice)
    requires Inv(s) && 0 <= i < |s.threads| && s.threads[i] != Outside && Enabled(s, i)
    ensures Lower(WorkLeft(Step(s, i, c)), WorkLeft(s))
  {
    var t := s.threads[i];
    WorkAfter(s, i, c);
    LocksStay(s, i, c);
    if t.Decide? || t.GrowRead? || t.GrowLock? || t.GrowTest? {
      GrowDescends(s, i, c);
    } else if t.GrowMove? {
      MoveDescends(s, i, c);
      MoverDescends(s, i, c);
    } else if t.GrowUnlock? || t.Returned? {
      UnlockDescends(s, i, c);
    } else {
      AttemptDescends(s, i, c);
    }
  }

  // ---------------------------------------------------------------------------------------
  // Whoever is scheduled

  predicate AllOutside(s: System) { forall i | 0 <= i < |s.threads| :: s.threads[i] == Outside }

  /** The move is a step that a thread inside a call can take. */
  predicate Goes(s: System, m: Move)
    requires 0 < s.tb.locks
  {
    m.i < |s.threads| && s.threads[m.i] != Outside && Enabled(s, m.i)
  }

  /** The moves are those that the schedule, knowing what has happened and the state, names one after
      the other, and each is such a step. */
  predicate Scheduled(s: System, past: seq<Move>, ms: seq<Move>, schedule: (seq<Move>, System) -> Move)
    requires Inv(s)
    decreases |ms|
  {
    ms == [] ||
    (ms[0] == schedule(past, s) && Goes(s, ms[0])
      && (StepKeeps(s, ms[0].i, ms[0].c); Scheduled(Step(s, ms[0].i, ms[0].c), past + [ms[0]], ms[1..], schedule)))
  }

  /**
   From any state of any run: a schedule that, as long as somebody is inside a call, names some step
   that can be taken there - and there always is one - brings all calls to their end.
   */
  lemma {:induction false} AllReturn(s: System, past: seq<Move>, schedule: (seq<Move>, System) -> Move) returns (ms: seq<Move>)
    requires Inv(s)
    requires forall h, r | Inv(r) && !AllOutside(r) :: Goes(r, schedule(h, r))
    ensures Scheduled(s, past, ms, schedule) && AllOutside(Run(s, ms))
    decreases WorkLeft(s).attempts, WorkLeft(s).doublings, WorkLeft(s).moves, WorkLeft(s).unlocks
  {
    if AllOutside(s) {
      ms := [];
    } else {
      var m := schedule(past, s);
      StepKeeps(s, m.i, m.c);
      StepDescends(s, m.i, m.c);
      var rest := AllReturn(Step(s, m.i, m.c), past + [m], schedule);
      ms := [m] + rest;
      assert ms[1..] == rest;
    }
  }
}
