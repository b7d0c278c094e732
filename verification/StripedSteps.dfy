/**
 The striped hash table, one step of one thread at a time, for any number of threads that add,
 delete and resize. A step is one unlocked read, one lock or unlock, one bucket operation made
 under its lock, or the move of one node by a resize. Mutual exclusion and the shape of the table
 are kept by every step.
 */
module StripedSteps {
  import opened Options
  import opened Chains
  import opened StripedTable

  const FREE := -1 // nobody holds the lock

  datatype Op = Add(k: nat, v: int) | Delete(k: nat)

  /** How an attempt failed: the key was there (add) or not there (delete), or the table's size
      had changed since the attempt began. */
  datatype Seen = Obstacle | Resized

  datatype Answer = Yes(v: int) | No

  const ATTEMPTS := 3

  /** `n` is the size read first and `m` the size that hashCode used for the bucket k % m. */
  datatype Thread =
    | Outside
    | ReadSize(op: Op, seen: seq<Seen>)
    | Hash(op: Op, n: int, seen: seq<Seen>)
    | Acquire(op: Op, n: int, m: int, seen: seq<Seen>)
    | Check(op: Op, n: int, m: int, seen: seq<Seen>)
    | Act(op: Op, n: int, m: int, seen: seq<Seen>)
    | Release(op: Op, m: int, seen: seq<Seen>, answer: Option<Answer>)
    | Decide(op: Op, ans: Answer)                     // policy
    | GrowRead(op: Op, ans: Answer)
    | GrowLock(op: Op, ans: Answer, n: int, next: int)
    | GrowTest(op: Op, ans: Answer, n: int)
    | GrowMove(op: Op, ans: Answer, i: int)
    | GrowUnlock(op: Op, ans: Answer, next: int)
    | Returned(op: Op, ans: Answer)

  /** What a thread calls; whether policy asks for a resize (it reads a count that is not exact). */
  datatype Choice = Call(op: Op) | Grow | Go

  datatype System = System(tb: Table, owner: seq<int>, threads: seq<Thread>)

  function LockOf(op: Op, m: int, locks: int): int
    requires 0 < m && 0 < locks
  {
    op.k % m % locks
  }

  /** init_hashtable, and n threads that have not called anything. */
  function Start(size: int, n: nat): (s: System)
    requires 0 < size
    ensures Inv(s) && forall k :: Get(s.tb, k) == None
  {
    FreshIsEmpty(size);
    System(Fresh(size), seq(size, i => FREE), seq(n, i => Outside))
  }

  predicate IsFree(s: System, l: int) { 0 <= l < |s.owner| && s.owner[l] == FREE }

  /** Only a thread that waits for a lock held by another cannot step. */
  predicate Enabled(s: System, i: int)
    requires 0 <= i < |s.threads| && 0 < s.tb.locks
  {
    match s.threads[i]
    case Acquire(op, _, m, _) => 0 < m && IsFree(s, LockOf(op, m, s.tb.locks))
    case GrowLock(_, _, _, next) => next == s.tb.locks || IsFree(s, next)
    case _ => true
  }

  function Put(s: System, i: int, t: Thread): System
    requires 0 <= i < |s.threads|
  {
    s.(threads := s.threads[i := t])
  }

  function Own(s: System, l: int, who: int): System {
    if 0 <= l < |s.owner| then s.(owner := s.owner[l := who]) else s
  }

  /** After an attempt: the answer, another attempt, or false. */
  function Next(op: Op, seen: seq<Seen>, answer: Option<Answer>): Thread {
    match answer
    case Some(a) => if op.Add? then Decide(op, a) else Returned(op, a)
    case None =>
      if |seen| < ATTEMPTS then ReadSize(op, seen) else if op.Add? then Decide(op, No) else Returned(op, No)
  }

  /** The bucket operation. */
  function Acted(tb: Table, op: Op, m: int, seen: seq<Seen>): (Table, Thread)
    requires 0 < m && |tb.buckets| == m
  {
    var b := op.k % m;
    var found := Find(tb.buckets[b], op.k);
    match op
    case Add(k, v) =>
      if found == None then (WithChain(tb, b, Insert(tb.buckets[b], Pair(k, v))), Release(op, m, seen, Some(Yes(v))))
      else (tb, Release(op, m, seen + [Obstacle], None))
    case Delete(k) =>
      if found.Some? then (WithChain(tb, b, Remove(tb.buckets[b], k)), Release(op, m, seen, Some(Yes(found.value))))
      else (tb, Release(op, m, seen + [Obstacle], None))
  }

  function Step(s: System, i: int, c: Choice): System
    requires 0 <= i < |s.threads| && 0 < s.tb.locks && 0 < s.tb.size == |s.tb.buckets|
  {
    if !Enabled(s, i) then s
    else
      match s.threads[i]
      case Outside => if c.Call? then Put(s, i, ReadSize(c.op, [])) else s
      case ReadSize(op, seen) => Put(s, i, Hash(op, s.tb.size, seen))
      case Hash(op, n, seen) => Put(s, i, Acquire(op, n, s.tb.size, seen))
      case Acquire(op, n, m, seen) => Put(Own(s, LockOf(op, m, s.tb.locks), i), i, Check(op, n, m, seen))
      case Check(op, n, m, seen) =>
        Put(s, i, if n == s.tb.size then Act(op, n, m, seen) else Release(op, m, seen + [Resized], None))
      case Act(op, n, m, seen) =>
        if 0 < m == |s.tb.buckets| then
          var r := Acted(s.tb, op, m, seen);
          Put(s.(tb := r.0), i, r.1)
        else s
      case Release(op, m, seen, answer) =>
        if 0 < m then Put(Own(s, LockOf(op, m, s.tb.locks), FREE), i, Next(op, seen, answer)) else s
      case Decide(op, ans) => Put(s, i, if c.Grow? then GrowRead(op, ans) else Returned(op, ans))
      case GrowRead(op, ans) => Put(s, i, GrowLock(op, ans, s.tb.size, 0))
      case GrowLock(op, ans, n, next) =>
        if next == s.tb.locks then Put(s, i, GrowTest(op, ans, n))
        else Put(Own(s, next, i), i, GrowLock(op, ans, n, next + 1))
      case GrowTest(op, ans, n) =>
        if n != s.tb.size then Put(s, i, GrowUnlock(op, ans, 0))
        else Put(s.(tb := Doubled(s.tb)), i, GrowMove(op, ans, 0))
      case GrowMove(op, ans, k) =>
        if !(0 <= k < |s.tb.rest|) then Put(s.(tb := Settled(s.tb)), i, GrowUnlock(op, ans, 0))
        else if s.tb.rest[k] == [] then Put(s, i, GrowMove(op, ans, k + 1))
        else s.(tb := Moved(s.tb, k))
      case GrowUnlock(op, ans, next) =>
        if next == s.tb.locks then Put(s, i, Returned(op, ans))
        else Put(Own(s, next, FREE), i, GrowUnlock(op, ans, next + 1))
      case Returned(_, _) => Put(s, i, Outside)
  }

  // ---------------------------------------------------------------------------------------
  // The invariant

  ghost predicate HoldsLock(t: Thread, l: int, locks: int)
    requires 0 < locks
  {
    match t
    case Check(op, _, m, _) => 0 < m && l == LockOf(op, m, locks)
    case Act(op, _, m, _) => 0 < m && l == LockOf(op, m, locks)
    case Release(op, m, _, _) => 0 < m && l == LockOf(op, m, locks)
    case GrowLock(_, _, _, next) => 0 <= l < next
    case GrowTest(_, _, _) => 0 <= l < locks
    case GrowMove(_, _, _) => 0 <= l < locks
    case GrowUnlock(_, _, next) => next <= l < locks
    case _ => false
  }

  /** Sizes only grow, so the sizes an attempt has read are in order. */
  ghost predicate Sizes(tb: Table, n: int, m: int) {
    0 < n <= m <= tb.size && 0 < tb.locks && m % tb.locks == 0
  }

  ghost predicate Knows(tb: Table, t: Thread) {
    match t
    case ReadSize(_, seen) => |seen| < ATTEMPTS
    case Hash(_, n, seen) => |seen| < ATTEMPTS && 0 < n <= tb.size
    case Acquire(_, n, m, seen) => |seen| < ATTEMPTS && Sizes(tb, n, m)
    case Check(_, n, m, seen) => |seen| < ATTEMPTS && Sizes(tb, n, m)
    case Act(_, n, m, seen) => |seen| < ATTEMPTS && n == m == tb.size && tb.rest == []
    case Release(_, m, seen, answer) => |seen| <= ATTEMPTS && Sizes(tb, m, m)
    case GrowLock(_, _, n, next) => 0 < n <= tb.size && 0 <= next <= tb.locks
    case GrowTest(_, _, n) => 0 < n <= tb.size && tb.rest == []
    case GrowMove(_, _, k) => tb.rest != [] && 0 <= k <= |tb.rest| && forall j | 0 <= j < k :: tb.rest[j] == []
    case GrowUnlock(_, _, next) => 0 <= next <= tb.locks
    case _ => true
  }

  ghost predicate Owns(s: System, l: int, i: int)
    requires 0 <= l < |s.owner| && 0 <= i < |s.threads| && 0 < s.tb.locks
  {
    s.owner[l] == i <==> HoldsLock(s.threads[i], l, s.tb.locks)
  }

  ghost predicate Inv(s: System) {
    && TableInv(s.tb) && |s.owner| == s.tb.locks
    && (forall l | 0 <= l < |s.owner| :: s.owner[l] == FREE || 0 <= s.owner[l] < |s.threads|)
    && (forall l, i | 0 <= l < |s.owner| && 0 <= i < |s.threads| :: Owns(s, l, i))
    && (forall i | 0 <= i < |s.threads| :: Knows(s.tb, s.threads[i]))
    && (s.tb.rest != [] ==> exists i :: 0 <= i < |s.threads| && s.threads[i].GrowMove?)
  }

  /** Two threads never hold the same lock. */
  lemma Alone(s: System, i: int, j: int, l: int)
    requires Inv(s) && 0 <= i < |s.threads| && 0 <= j < |s.threads| && 0 <= l < s.tb.locks
    requires HoldsLock(s.threads[i], l, s.tb.locks) && HoldsLock(s.threads[j], l, s.tb.locks)
    ensures i == j
  {
    assert Owns(s, l, i) && Owns(s, l, j);
  }

  /** While one thread holds a lock, no other is resizing. */
  lemma NoResize(s: System, i: int, l: int)
    requires Inv(s) && 0 <= i < |s.threads| && 0 <= l < s.tb.locks
    requires HoldsLock(s.threads[i], l, s.tb.locks) && !s.threads[i].GrowMove?
    ensures s.tb.rest == []
  {
    if s.tb.rest != [] {
      var j :| 0 <= j < |s.threads| && s.threads[j].GrowMove?;
      Alone(s, i, j, l);
      assert false;
    }
  }

  lemma LockInRange(op: Op, m: int, locks: int)
    requires 0 < m && 0 < locks
    ensures 0 <= LockOf(op, m, locks) < locks
  {
  }

  // ---------------------------------------------------------------------------------------
  // Steps that change only the thread and one lock

  /** The step leaves the table alone; thread i becomes t and holds what it held. */
  lemma Quiet(s: System, i: int, t: Thread)
    requires Inv(s) && 0 <= i < |s.threads| && Knows(s.tb, t)
    requires forall l | 0 <= l < s.tb.locks :: HoldsLock(t, l, s.tb.locks) == HoldsLock(s.threads[i], l, s.tb.locks)
    requires t.GrowMove? == s.threads[i].GrowMove?
    ensures Inv(Put(s, i, t))
  {
    var r := Put(s, i, t);
    forall l, j | 0 <= l < |r.owner| && 0 <= j < |r.threads| ensures Owns(r, l, j) {
      assert Owns(s, l, j);
    }
    StillMoving(s, r, i);
  }

  lemma StillMoving(s: System, r: System, i: int)
    requires Inv(s) && 0 <= i < |s.threads| && |r.threads| == |s.threads| && r.tb.rest == s.tb.rest
    requires forall j | 0 <= j < |s.threads| && j != i :: r.threads[j] == s.threads[j]
    requires r.threads[i].GrowMove? == s.threads[i].GrowMove?
    ensures r.tb.rest != [] ==> exists j :: 0 <= j < |r.threads| && r.threads[j].GrowMove?
  {
    if s.tb.rest != [] {
      var j :| 0 <= j < |s.threads| && s.threads[j].GrowMove?;
      assert r.threads[j].GrowMove?;
    }
  }

  /** Taking a free lock, or giving one back. */
  lemma Relocks(s: System, i: int, t: Thread, l: int, who: int)
    requires Inv(s) && 0 <= i < |s.threads| && Knows(s.tb, t) && 0 <= l < s.tb.locks
    requires (who == i && s.owner[l] == FREE) || (who == FREE && s.owner[l] == i)
    requires HoldsLock(t, l, s.tb.locks) <==> who == i
    requires forall k | 0 <= k < s.tb.locks && k != l :: HoldsLock(t, k, s.tb.locks) == HoldsLock(s.threads[i], k, s.tb.locks)
    requires t.GrowMove? == s.threads[i].GrowMove?
    ensures Inv(Put(Own(s, l, who), i, t))
  {
    var r := Put(Own(s, l, who), i, t);
    forall k, j | 0 <= k < |r.owner| && 0 <= j < |r.threads| ensures Owns(r, k, j) {
      assert Owns(s, k, j) && Owns(s, l, i);
    }
    StillMoving(s, r, i);
  }

  lemma ReadSteps(s: System, i: int, c: Choice)
    requires Inv(s) && 0 <= i < |s.threads|
    requires
      var t := s.threads[i];
      t.Outside? || t.ReadSize? || t.Hash? || t.Decide? || t.GrowRead? || t.Returned?
    ensures Inv(Step(s, i, c))
  {
    assert Knows(s.tb, s.threads[i]);
    match s.threads[i] {
      case Outside => if c.Call? { Quiet(s, i, ReadSize(c.op, [])); }
      case ReadSize(op, seen) => Quiet(s, i, Hash(op, s.tb.size, seen));
      case Hash(op, n, seen) => Quiet(s, i, Acquire(op, n, s.tb.size, seen));
      case Decide(op, ans) => Quiet(s, i, if c.Grow? then GrowRead(op, ans) else Returned(op, ans));
      case GrowRead(op, ans) => Quiet(s, i, GrowLock(op, ans, s.tb.size, 0));
      case Returned(_, _) => Quiet(s, i, Outside);
    }
  }

  lemma AcquireStep(s: System, i: int, c: Choice)
    requires Inv(s) && 0 <= i < |s.threads| && s.threads[i].Acquire?
    ensures Inv(Step(s, i, c))
  {
    assert Knows(s.tb, s.threads[i]);
    var t := s.threads[i];
    if Enabled(s, i) {
      var l := LockOf(t.op, t.m, s.tb.locks);
      LockInRange(t.op, t.m, s.tb.locks);
      Relocks(s, i, Check(t.op, t.n, t.m, t.seen), l, i);
    }
  }

  lemma CheckStep(s: System, i: int, c: Choice)
    requires Inv(s) && 0 <= i < |s.threads| && s.threads[i].Check?
    ensures Inv(Step(s, i, c))
  {
    assert Knows(s.tb, s.threads[i]);
    var t := s.threads[i];
    if t.n == s.tb.size {
      LockInRange(t.op, t.m, s.tb.locks);
      NoResize(s, i, LockOf(t.op, t.m, s.tb.locks));
      Quiet(s, i, Act(t.op, t.n, t.m, t.seen));
    } else {
      Quiet(s, i, Release(t.op, t.m, t.seen + [Resized], None));
    }
  }

  lemma ReleaseStep(s: System, i: int, c: Choice)
    requires Inv(s) && 0 <= i < |s.threads| && s.threads[i].Release?
    ensures Inv(Step(s, i, c))
  {
    assert Knows(s.tb, s.threads[i]);
    var t := s.threads[i];
    var l := LockOf(t.op, t.m, s.tb.locks);
    LockInRange(t.op, t.m, s.tb.locks);
    assert Owns(s, l, i);
    Relocks(s, i, Next(t.op, t.seen, t.answer), l, FREE);
  }

  lemma GrowLockStep(s: System, i: int, c: Choice)
    requires Inv(s) && 0 <= i < |s.threads| && s.threads[i].GrowLock?
    ensures Inv(Step(s, i, c))
  {
    assert Knows(s.tb, s.threads[i]);
    var t := s.threads[i];
    if Enabled(s, i) {
      if t.next == s.tb.locks {
        NoResize(s, i, 0);
        Quiet(s, i, GrowTest(t.op, t.ans, t.n));
      } else {
        Relocks(s, i, GrowLock(t.op, t.ans, t.n, t.next + 1), t.next, i);
      }
    }
  }

  lemma GrowUnlockStep(s: System, i: int, c: Choice)
    requires Inv(s) && 0 <= i < |s.threads| && s.threads[i].GrowUnlock?
    ensures Inv(Step(s, i, c))
  {
    assert Knows(s.tb, s.threads[i]);
    var t := s.threads[i];
    if t.next == s.tb.locks {
      Quiet(s, i, Returned(t.op, t.ans));
    } else {
      assert Owns(s, t.next, i);
      Relocks(s, i, GrowUnlock(t.op, t.ans, t.next + 1), t.next, FREE);
    }
  }

  // ---------------------------------------------------------------------------------------
  // Steps that change the table

  /** The same locks, other buckets. */
  lemma NewTable(s: System, i: int, t: Thread, tb: Table)
    requires Inv(s) && 0 <= i < |s.threads| && TableInv(tb) && tb.locks == s.tb.locks && Knows(tb, t)
    requires forall l | 0 <= l < s.tb.locks :: HoldsLock(t, l, s.tb.locks) == HoldsLock(s.threads[i], l, s.tb.locks)
    requires forall j | 0 <= j < |s.threads| && j != i :: Knows(tb, s.threads[j])
    requires tb.rest != [] ==> t.GrowMove?
    ensures Inv(Put(s.(tb := tb), i, t))
  {
    var r := Put(s.(tb := tb), i, t);
    forall l, j | 0 <= l < |r.owner| && 0 <= j < |r.threads| ensures Owns(r, l, j) {
      assert Owns(s, l, j);
    }
    if tb.rest != [] {
      assert r.threads[i].GrowMove?;
    }
  }

  lemma ActStep(s: System, i: int, c: Choice)
    requires Inv(s) && 0 <= i < |s.threads| && s.threads[i].Act?
    ensures Inv(Step(s, i, c))
  {
    assert Knows(s.tb, s.threads[i]);
    var t := s.threads[i];
    var r := Acted(s.tb, t.op, t.m, t.seen);
    match t.op {
      case Add(k, v) => AddGets(s.tb, k, v);
      case Delete(k) => DeleteGets(s.tb, k);
    }
    forall j | 0 <= j < |s.threads| && j != i ensures Knows(r.0, s.threads[j]) {
      assert Knows(s.tb, s.threads[j]);
    }
    NewTable(s, i, r.1, r.0);
  }

  /** The others, while thread i holds every lock, are not using the table. */
  lemma OthersWait(s: System, i: int, j: int)
    requires Inv(s) && 0 <= i < |s.threads| && 0 <= j < |s.threads| && i != j
    requires s.threads[i].GrowTest? || s.threads[i].GrowMove?
    ensures !s.threads[j].Act? && !s.threads[j].GrowTest? && !s.threads[j].GrowMove?
  {
    var t := s.threads[j];
    assert Knows(s.tb, t);
    if t.Act? {
      LockInRange(t.op, t.m, s.tb.locks);
      Alone(s, i, j, LockOf(t.op, t.m, s.tb.locks));
    } else if t.GrowTest? || t.GrowMove? {
      Alone(s, i, j, 0);
    }
  }

  lemma GrowTable(s: System, i: int, t: Thread, tb: Table)
    requires Inv(s) && 0 <= i < |s.threads| && (s.threads[i].GrowTest? || s.threads[i].GrowMove?)
    requires TableInv(tb) && tb.locks == s.tb.locks && s.tb.size <= tb.size && Knows(tb, t)
    requires t.GrowMove? || (t.GrowUnlock? && t.next == 0 && tb.rest == [])
    ensures Inv(Put(s.(tb := tb), i, t))
  {
    forall j | 0 <= j < |s.threads| && j != i ensures Knows(tb, s.threads[j]) {
      OthersWait(s, i, j);
      assert Knows(s.tb, s.threads[j]);
    }
    NewTable(s, i, t, tb);
  }

  lemma GrowTestStep(s: System, i: int, c: Choice)
    requires Inv(s) && 0 <= i < |s.threads| && s.threads[i].GrowTest?
    ensures Inv(Step(s, i, c))
  {
    assert Knows(s.tb, s.threads[i]);
    var t := s.threads[i];
    if t.n != s.tb.size {
      Quiet(s, i, GrowUnlock(t.op, t.ans, 0));
    } else {
      DoubledKeeps(s.tb);
      GrowTable(s, i, GrowMove(t.op, t.ans, 0), Doubled(s.tb));
    }
  }

  lemma GrowMoveStep(s: System, i: int, c: Choice)
    requires Inv(s) && 0 <= i < |s.threads| && s.threads[i].GrowMove?
    ensures Inv(Step(s, i, c))
  {
    var t := s.threads[i];
    assert Knows(s.tb, t);
    if t.i == |s.tb.rest| {
      SettledKeeps(s.tb);
      GrowTable(s, i, GrowUnlock(t.op, t.ans, 0), Settled(s.tb));
    } else if s.tb.rest[t.i] == [] {
      Quiet(s, i, GrowMove(t.op, t.ans, t.i + 1));
    } else {
      MovedInv(s.tb, t.i);
      GrowTable(s, i, t, Moved(s.tb, t.i));
      assert Put(s.(tb := Moved(s.tb, t.i)), i, t) == s.(tb := Moved(s.tb, t.i));
    }
  }

  /** Mutual exclusion, the up-to-date bucket index and the table's shape hold after every step. */
  lemma StepKeeps(s: System, i: int, c: Choice)
    requires Inv(s) && 0 <= i < |s.threads|
    ensures Inv(Step(s, i, c))
  {
    match s.threads[i] {
      case Acquire(_, _, _, _) => AcquireStep(s, i, c);
      case Check(_, _, _, _) => CheckStep(s, i, c);
      case Act(_, _, _, _) => ActStep(s, i, c);
      case Release(_, _, _, _) => ReleaseStep(s, i, c);
      case GrowLock(_, _, _, _) => GrowLockStep(s, i, c);
      case GrowTest(_, _, _) => GrowTestStep(s, i, c);
      case GrowMove(_, _, _) => GrowMoveStep(s, i, c);
      case GrowUnlock(_, _, _) => GrowUnlockStep(s, i, c);
      case _ => ReadSteps(s, i, c);
    }
  }
}
