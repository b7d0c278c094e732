/**
 The striped hash table under every interleaving of any number of threads.
 */
module StripedHash {
  import opened Options
  import opened StripedTable
  import opened StripedSteps

  // ---------------------------------------------------------------------------------------
  // What the calls do to the map

  /** A thread as the map sees it; `seen` are its failed attempts. */
  datatype Caller = Idle | Working(op: Op, seen: seq<Seen>) | Answered(op: Op, ans: Answer)

  function Status(t: Thread): Caller {
    match t
    case Outside => Idle
    case ReadSize(op, seen) => Working(op, seen)
    case Hash(op, _, seen) => Working(op, seen)
    case Acquire(op, _, _, seen) => Working(op, seen)
    case Check(op, _, _, seen) => Working(op, seen)
    case Act(op, _, _, seen) => Working(op, seen)
    case Release(op, _, seen, answer) => if answer.Some? then Answered(op, answer.value) else Working(op, seen)
    case Decide(op, ans) => Answered(op, ans)
    case GrowRead(op, ans) => Answered(op, ans)
    case GrowLock(op, ans, _, _) => Answered(op, ans)
    case GrowTest(op, ans, _) => Answered(op, ans)
    case GrowMove(op, ans, _) => Answered(op, ans)
    case GrowUnlock(op, ans, _) => Answered(op, ans)
    case Returned(op, ans) => Answered(op, ans)
  }

  ghost predicate SameMap(a: Table, b: Table) {
    forall k :: Get(b, k) == Get(a, k)
  }

  ghost predicate Blocks(a: Table, op: Op) {
    if op.Add? then Get(a, op.k).Some? else Get(a, op.k) == None
  }

  ghost predicate Effect(a: Table, op: Op, ans: Answer, b: Table) {
    match op
    case Add(k, v) => ans == Yes(v) && Get(a, k) == None && forall x :: Get(b, x) == if x == k then Some(v) else Get(a, x)
    case Delete(k) => ans.Yes? && Get(a, k) == Some(ans.v) && forall x :: Get(b, x) == if x == k then None else Get(a, x)
  }

  /** The atomic map: an idle thread begins the call it is told to make, and nothing else; a call that answers yes changes the map at that one instant; every failed
      attempt met an obstacle in the map or a resize; a call answers no after three of those. */
  ghost predicate Atomically(a: Table, x: Caller, c: Choice, b: Table, y: Caller) {
    match (x, y)
    case (Idle, _) => SameMap(a, b) && y == if c.Call? then Working(c.op, []) else Idle
    case (Working(op, s), Working(op1, s1)) =>
      op1 == op && SameMap(a, b) && (s1 == s || s1 == s + [Resized] || (s1 == s + [Obstacle] && Blocks(a, op)))
    case (Working(op, s), Answered(op1, ans)) =>
      op1 == op && if ans == No then SameMap(a, b) && |s| == 3 else Effect(a, op, ans, b)
    case (Answered(_, _), Idle) => SameMap(a, b)
    case _ => x == y && SameMap(a, b)
  }

  lemma ActRefines(s: System, i: int, c: Choice)
    requires Inv(s) && 0 <= i < |s.threads| && s.threads[i].Act?
    ensures
      var t := s.threads[i];
      && 0 < t.m == |s.tb.buckets|
      && Atomically(s.tb, Status(t), c, Acted(s.tb, t.op, t.m, t.seen).0, Status(Acted(s.tb, t.op, t.m, t.seen).1))
  {
    var t := s.threads[i];
    assert Knows(s.tb, t);
    match t.op {
      case Add(k, v) => AddGets(s.tb, k, v);
      case Delete(k) => DeleteGets(s.tb, k);
    }
  }

  lemma GrowRefines(s: System, i: int, c: Choice)
    requires Inv(s) && 0 <= i < |s.threads| && (s.threads[i].GrowTest? || s.threads[i].GrowMove?)
    ensures SameMap(s.tb, Step(s, i, c).tb) && Status(Step(s, i, c).threads[i]) == Status(s.threads[i])
  {
    var t := s.threads[i];
    assert Knows(s.tb, t);
    if t.GrowTest? {
      DoubledKeeps(s.tb);
    } else if t.i == |s.tb.rest| {
      SettledKeeps(s.tb);
    } else if s.tb.rest[t.i] != [] {
      forall k ensures Get(Moved(s.tb, t.i), k) == Get(s.tb, k) {
        MovedGets(s.tb, t.i, k);
      }
    }
  }

  /**
   Every step refines the atomic map: add and delete take effect once, at an instant inside the
   call; a resize changes nothing; and add or delete answer no only after three attempts each of
   which found the key present (absent) or saw the table resized.
   */
  lemma StepRefines(s: System, i: int, c: Choice)
    requires Inv(s) && 0 <= i < |s.threads|
    ensures
      var r := Step(s, i, c);
      && Inv(r) && |r.threads| == |s.threads| && Atomically(s.tb, Status(s.threads[i]), c, r.tb, Status(r.threads[i]))
      && forall j | 0 <= j < |s.threads| && j != i :: r.threads[j] == s.threads[j]
  {
    StepKeeps(s, i, c);
    var t := s.threads[i];
    assert Knows(s.tb, t);
    if t.Act? {
      ActRefines(s, i, c);
    } else if t.GrowTest? || t.GrowMove? {
      GrowRefines(s, i, c);
    } else {
      OthersRefine(s, i, c);
    }
  }

  lemma OthersRefine(s: System, i: int, c: Choice)
    requires Inv(s) && 0 <= i < |s.threads|
    requires !s.threads[i].Act? && !s.threads[i].GrowTest? && !s.threads[i].GrowMove?
    ensures Step(s, i, c).tb == s.tb && |Step(s, i, c).threads| == |s.threads|
    ensures Atomically(s.tb, Status(s.threads[i]), c, s.tb, Status(Step(s, i, c).threads[i]))
  {
    assert Knows(s.tb, s.threads[i]);
  }

  /** An attempt that counts as resized saw the table really grow after it began. */
  lemma ResizedMeansGrown(s: System, i: int, c: Choice)
    requires Inv(s) && 0 <= i < |s.threads| && s.threads[i].Check?
    requires Step(s, i, c).threads[i].Release? && Step(s, i, c).threads[i].seen == s.threads[i].seen + [Resized]
    ensures s.threads[i].n < s.tb.size
  {
    assert Knows(s.tb, s.threads[i]);
  }

  datatype Move = Move(i: nat, c: Choice)

  function Run(s: System, ms: seq<Move>): (r: System)
    requires Inv(s)
    ensures Inv(r)
    decreases |ms|
  {
    if ms == [] then s
    else if ms[0].i < |s.threads| then
      StepKeeps(s, ms[0].i, ms[0].c);
      Run(Step(s, ms[0].i, ms[0].c), ms[1..])
    else Run(s, ms[1..])
  }

  /** The table is larger than n, or the thread is on its way to see to that. */
  ghost predicate WillGrow(s: System, i: int, n: int)
    requires 0 <= i < |s.threads|
  {
    var t := s.threads[i];
    n < s.tb.size || (n == s.tb.size && t.GrowRead?) || ((t.GrowLock? || t.GrowTest?) && n <= t.n)
  }

  lemma StillWillGrow(s: System, i: int, j: int, c: Choice, n: int)
    requires Inv(s) && 0 <= i < |s.threads| && 0 <= j < |s.threads| && WillGrow(s, i, n)
    ensures |Step(s, j, c).threads| == |s.threads| && WillGrow(Step(s, j, c), i, n)
  {
    StepRefines(s, j, c);
    assert Knows(s.tb, s.threads[i]) && Knows(s.tb, s.threads[j]);
  }

  lemma {:induction false} RunWillGrow(s: System, i: int, n: int, ms: seq<Move>)
    requires Inv(s) && 0 <= i < |s.threads| && WillGrow(s, i, n)
    ensures |Run(s, ms).threads| == |s.threads| && WillGrow(Run(s, ms), i, n)
    decreases |ms|
  {
    if ms != [] {
      if ms[0].i < |s.threads| {
        StillWillGrow(s, i, ms[0].i, ms[0].c, n);
        StepKeeps(s, ms[0].i, ms[0].c);
        RunWillGrow(Step(s, ms[0].i, ms[0].c), i, n, ms[1..]);
      } else {
        RunWillGrow(s, i, n, ms[1..]);
      }
    }
  }

  /** A call that the policy tells to resize does not return before the table has grown, whichever
      thread it is that doubles it; one that is not told so returns and leaves the table alone. */
  lemma GrowsBeforeReturning(s: System, i: nat, ms: seq<Move>)
    requires Inv(s) && i < |s.threads| && s.threads[i].Decide? && ms != [] && ms[0].i == i
    ensures |Run(s, ms).threads| == |s.threads|
    ensures ms[0].c.Grow? && (Run(s, ms).threads[i].Returned? || Run(s, ms).threads[i].Outside?) ==> s.tb.size < Run(s, ms).tb.size
    ensures !ms[0].c.Grow? ==> Step(s, i, ms[0].c).threads[i].Returned? && Step(s, i, ms[0].c).tb == s.tb
  {
    var r := Step(s, i, ms[0].c);
    StepRefines(s, i, ms[0].c);
    if ms[0].c.Grow? {
      RunWillGrow(r, i, s.tb.size, ms[1..]);
    } else {
      RunThreads(r, ms[1..]);
    }
  }

  lemma {:induction false} RunThreads(s: System, ms: seq<Move>)
    requires Inv(s)
    ensures |Run(s, ms).threads| == |s.threads|
    decreases |ms|
  {
    if ms != [] {
      if ms[0].i < |s.threads| {
        StepRefines(s, ms[0].i, ms[0].c);
        RunThreads(Step(s, ms[0].i, ms[0].c), ms[1..]);
      } else {
        RunThreads(s, ms[1..]);
      }
    }
  }

  /** Where the bucket is touched: under the lock of its keys, with the index of the present size
      and no resize going on, and by one thread only. */
  lemma ActsSafely(s: System, i: int, j: int)
    requires Inv(s) && 0 <= i < |s.threads| && 0 <= j < |s.threads| && s.threads[i].Act?
    ensures
      var t := s.threads[i];
      var l := t.op.k % s.tb.locks;
      && t.m == s.tb.size && s.tb.rest == [] && s.owner[l] == i
      && (s.threads[j].Act? && s.threads[j].op.k % s.tb.size == t.op.k % s.tb.size ==> j == i)
      && !s.threads[j].GrowMove?
  {
    var t := s.threads[i];
    assert Knows(s.tb, t);
    LockOfKey(s.tb, t.op.k);
    LockInRange(t.op, t.m, s.tb.locks);
    var l := t.op.k % s.tb.locks;
    assert Owns(s, l, i);
    var u := s.threads[j];
    if u.Act? && u.op.k % s.tb.size == t.op.k % s.tb.size {
      assert Knows(s.tb, u);
      Alone(s, i, j, l);
    }
    if u.GrowMove? {
      Alone(s, i, j, l);
    }
  }

  // ---------------------------------------------------------------------------------------
  // No deadlock

  ghost predicate Waits(s: System, i: int)
    requires 0 <= i < |s.threads| && 0 < s.tb.locks
  {
    !Enabled(s, i)
  }

  /** The lock a thread waits for, and who holds it. */
  lemma WaitsFor(s: System, i: int) returns (l: int, j: int)
    requires Inv(s) && 0 <= i < |s.threads| && Waits(s, i)
    ensures 0 <= l < s.tb.locks && s.owner[l] == j && 0 <= j < |s.threads| && HoldsLock(s.threads[j], l, s.tb.locks)
    ensures s.threads[i].GrowLock? ==> l == s.threads[i].next
  {
    var t := s.threads[i];
    assert Knows(s.tb, t);
    if t.Acquire? {
      l := LockOf(t.op, t.m, s.tb.locks);
      LockInRange(t.op, t.m, s.tb.locks);
    } else {
      l := t.next;
    }
    j := s.owner[l];
    assert Owns(s, l, j);
  }

  /** Whoever holds a lock that is waited for can step, or waits for a higher one. */
  lemma {:induction false} SomeoneSteps(s: System, i: int) returns (j: int)
    requires Inv(s) && 0 <= i < |s.threads| && s.threads[i] != Outside
    ensures 0 <= j < |s.threads| && s.threads[j] != Outside && Enabled(s, j)
    decreases if s.threads[i].GrowLock? then s.tb.locks - s.threads[i].next else s.tb.locks + 1
  {
    if Enabled(s, i) {
      j := i;
    } else {
      var l, h := WaitsFor(s, i);
      if Enabled(s, h) {
        j := h;
      } else {
        assert Knows(s.tb, s.threads[h]);
        j := SomeoneSteps(s, h);
      }
    }
  }

  /** No run deadlocks: while some thread is inside a call, some thread inside a call can step. */
  lemma NoDeadlock(size: int, n: nat, ms: seq<Move>, i: int)
    requires 0 < size
    requires 0 <= i < |Run(Start(size, n), ms).threads| && Run(Start(size, n), ms).threads[i] != Outside
    ensures
      var s := Run(Start(size, n), ms);
      exists j :: 0 <= j < |s.threads| && s.threads[j] != Outside && 0 < s.tb.locks && Enabled(s, j)
  {
    var j := SomeoneSteps(Run(Start(size, n), ms), i);
  }

  // ---------------------------------------------------------------------------------------
  // Over whole runs

  /** The call each thread is in, or made last: what it was told to call when it was in none. */
  function Told(s: System, calls: seq<Option<Op>>, m: Move): seq<Option<Op>>
    requires |calls| == |s.threads|
  {
    if m.i < |calls| && s.threads[m.i].Outside? && m.c.Call? then calls[m.i := Some(m.c.op)] else calls
  }

  /** A call at the instant it changed the map, with the answer it will give. */
  datatype Done = Done(op: Op, ans: Answer)

  /** The call, if any, that this move carries out. */
  function DoneBy(s: System, calls: seq<Option<Op>>, m: Move): seq<Done>
    requires Inv(s) && |calls| == |s.threads|
  {
    if m.i < |s.threads| && calls[m.i].Some? && Status(s.threads[m.i]).Working? then
      StepKeeps(s, m.i, m.c);
      var y := Status(Step(s, m.i, m.c).threads[m.i]);
      if y.Answered? && y.ans.Yes? then [Done(calls[m.i].value, y.ans)] else []
    else []
  }

  function AllDone(s: System, calls: seq<Option<Op>>, ms: seq<Move>): seq<Done>
    requires Inv(s) && |calls| == |s.threads|
    decreases |ms|
  {
    if ms == [] then []
    else
      ThreadsStay(s, ms[0]);
      DoneBy(s, calls, ms[0]) + AllDone(Run(s, [ms[0]]), Told(s, calls, ms[0]), ms[1..])
  }

  lemma ThreadsStay(s: System, m: Move)
    requires Inv(s)
    ensures |Run(s, [m]).threads| == |s.threads|
    ensures m.i < |s.threads| ==> Run(s, [m]) == Step(s, m.i, m.c)
  {
    assert [m][1..] == [];
    if m.i < |s.threads| { StepRefines(s, m.i, m.c); }
  }

  function OpOf(t: Caller): Option<Op> {
    match t
    case Idle => None
    case Working(op, _) => Some(op)
    case Answered(op, _) => Some(op)
  }

  /** Whoever is in a call is in the one it was told to make. */
  ghost predicate AsTold(s: System, calls: seq<Option<Op>>) {
    |calls| == |s.threads| && forall i | 0 <= i < |calls| :: OpOf(Status(s.threads[i])).Some? ==> OpOf(Status(s.threads[i])) == calls[i]
  }

  lemma StaysAsTold(s: System, calls: seq<Option<Op>>, m: Move)
    requires Inv(s) && AsTold(s, calls)
    ensures AsTold(Run(s, [m]), Told(s, calls, m))
  {
    ThreadsStay(s, m);
    if m.i < |s.threads| {
      StepRefines(s, m.i, m.c);
      assert OpOf(Status(s.threads[m.i])).Some? ==> OpOf(Status(s.threads[m.i])) == calls[m.i];
    }
  }

  /** Replaying the calls on a plain map: each must give the answer it gave. */
  ghost predicate Replays(m: map<int, int>, ds: seq<Done>, r: map<int, int>)
    decreases |ds|
  {
    if ds == [] then r == m
    else
      match ds[0]
      case Done(Add(k, v), ans) => ans == Yes(v) && k !in m && Replays(m[k := v], ds[1..], r)
      case Done(Delete(k), ans) => k in m && ans == Yes(m[k]) && Replays(m - {k}, ds[1..], r)
  }

  ghost predicate Agrees(tb: Table, m: map<int, int>) {
    forall k :: Get(tb, k) == if k in m then Some(m[k]) else None
  }

  lemma ReplayStep(s: System, calls: seq<Option<Op>>, mv: Move, m: map<int, int>) returns (r: map<int, int>)
    requires Inv(s) && AsTold(s, calls) && Agrees(s.tb, m)
    ensures Replays(m, DoneBy(s, calls, mv), r) && Agrees(Run(s, [mv]).tb, r)
  {
    ThreadsStay(s, mv);
    r := m;
    if mv.i < |s.threads| {
      StepRefines(s, mv.i, mv.c);
      var x, y := Status(s.threads[mv.i]), Status(Step(s, mv.i, mv.c).threads[mv.i]);
      assert OpOf(x).Some? ==> OpOf(x) == calls[mv.i];
      if x.Working? && y.Answered? && y.ans.Yes? {
        r := ReplayEffect(s.tb, x.op, y.ans, Step(s, mv.i, mv.c).tb, m);
      }
    }
  }

  lemma ReplayEffect(a: Table, op: Op, ans: Answer, b: Table, m: map<int, int>) returns (r: map<int, int>)
    requires Effect(a, op, ans, b) && Agrees(a, m)
    ensures Replays(m, [Done(op, ans)], r) && Agrees(b, r)
  {
    assert [Done(op, ans)][1..] == [];
    match op {
      case Add(k, v) => r := m[k := v];
      case Delete(k) => r := m - {k};
    }
  }

  lemma {:induction false} ReplaysAppend(m: map<int, int>, a: seq<Done>, n: map<int, int>, b: seq<Done>, r: map<int, int>)
    requires Replays(m, a, n) && Replays(n, b, r)
    ensures Replays(m, a + b, r)
    decreases |a|
  {
    if a == [] {
      assert a + b == b;
    } else {
      assert (a + b)[1..] == a[1..] + b;
      match a[0] {
        case Done(Add(k, v), ans) => ReplaysAppend(m[k := v], a[1..], n, b, r);
        case Done(Delete(k), ans) => ReplaysAppend(m - {k}, a[1..], n, b, r);
      }
    }
  }

  lemma {:induction false} RunReplays(s: System, calls: seq<Option<Op>>, ms: seq<Move>, m: map<int, int>) returns (r: map<int, int>)
    requires Inv(s) && AsTold(s, calls) && Agrees(s.tb, m)
    ensures Replays(m, AllDone(s, calls, ms), r) && Agrees(Run(s, ms).tb, r)
    decreases |ms|
  {
    if ms == [] {
      r := m;
    } else {
      var n := ReplayStep(s, calls, ms[0], m);
      StaysAsTold(s, calls, ms[0]);
      var told := Told(s, calls, ms[0]);
      r := RunReplays(Run(s, [ms[0]]), told, ms[1..], n);
      ReplaysAppend(m, DoneBy(s, calls, ms[0]), n, AllDone(Run(s, [ms[0]]), told, ms[1..]), r);
      OneThenRest(s, ms);
    }
  }

  lemma OneThenRest(s: System, ms: seq<Move>)
    requires Inv(s) && ms != []
    ensures Run(s, ms) == Run(Run(s, [ms[0]]), ms[1..])
  {
    assert [ms[0]][1..] == [];
  }

  /**
   In every run of any number of threads, the calls the threads were told to make and answer yes,
   taken in the order of the instants they take effect, are a run of a plain map from empty with the
   same answers, and the table holds that map at the end, in the middle of a resize or not.
   */
  lemma TableIsAMap(size: int, n: nat, ms: seq<Move>) returns (r: map<int, int>)
    requires 0 < size
    ensures Replays(map[], AllDone(Start(size, n), seq(n, i => None), ms), r) && Agrees(Run(Start(size, n), ms).tb, r)
  {
    r := RunReplays(Start(size, n), seq(n, i => None), ms, map[]);
  }
}
