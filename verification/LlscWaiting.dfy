/**
 When a dequeue of an empty queue returns: not before another thread has stored into the head.
 */
module LlscWaiting {
  import opened Options
  import opened LlscSteps
  import opened LlscQueue
  import opened LlscCounts

  lemma {:induction false} RunJoin(s: System, a: seq<Move>, b: seq<Move>)
    ensures Run(s, a + b) == Run(Run(s, a), b)
    decreases |a|
  {
    if a == [] {
      assert a + b == b;
    } else {
      assert (a + b)[1..] == a[1..] + b;
      RunJoin(After(s, a[0]), a[1..], b);
    }
  }

  /** The state after the first k moves. */
  function Upto(s: System, ms: seq<Move>, k: int): System
    requires 0 <= k <= |ms|
  {
    Run(s, ms[..k])
  }

  lemma NextState(s: System, ms: seq<Move>, k: int)
    requires 0 <= k < |ms|
    ensures Upto(s, ms, k + 1) == After(Upto(s, ms, k), ms[k])
  {
    assert ms[..k + 1] == ms[..k] + [ms[k]];
    RunJoin(s, ms[..k], [ms[k]]);
    assert Run(Upto(s, ms, k), [ms[k]]) == Run(After(Upto(s, ms, k), ms[k]), [ms[k]][1..]);
  }

  lemma {:induction false} RunKeeps(s: System, ms: seq<Move>)
    requires SystemInv(s)
    ensures SystemInv(Run(s, ms)) && |Run(s, ms).threads| == |s.threads|
    decreases |ms|
  {
    if ms != [] {
      AfterKeeps(s, ms[0]);
      RunKeeps(After(s, ms[0]), ms[1..]);
    }
  }

  // ---------------------------------------------------------------------------------------
  // Leaving the loop

  /** Thread i waits, holding h. */
  predicate Waits(s: System, i: int, h: Hold) {
    0 <= i < |s.threads| && s.threads[i] == UnlinkRead(h)
  }

  /** One move: the waiting thread goes on exactly when it looks at a version that is not its own. */
  lemma WaitsOn(s: System, m: Move, i: int, h: Hold)
    requires SystemInv(s) && Waits(s, i, h)
    ensures Waits(After(s, m), i, h) <==> !(m.i == i && s.q.head.entry.ver > h.ver)
  {
    assert Knows(s.q, s.threads[i]);
  }

  /** Thread i looks at the head after its version has gone past that of h. */
  ghost predicate LooksPast(s: System, ms: seq<Move>, i: int, h: Hold, j: int) {
    0 <= j < |ms| && ms[j].i == i && Upto(s, ms, j).q.head.entry.ver > h.ver
  }

  ghost predicate Left(s: System, ms: seq<Move>, i: int, h: Hold, k: int) {
    0 <= k <= |ms| && !Waits(Upto(s, ms, k), i, h)
  }

  lemma {:induction false} FirstLook(s: System, ms: seq<Move>, i: int, h: Hold, k: nat) returns (j: nat)
    requires SystemInv(s) && Waits(s, i, h) && Left(s, ms, i, h, k)
    ensures j < k && LooksPast(s, ms, i, h, j) && Waits(Upto(s, ms, j), i, h)
  {
    assert k > 0 by { assert Upto(s, ms, 0) == s; }
    if Waits(Upto(s, ms, k - 1), i, h) {
      j := k - 1;
      NextState(s, ms, j);
      RunKeeps(s, ms[..j]);
      WaitsOn(Upto(s, ms, j), ms[j], i, h);
    } else {
      j := FirstLook(s, ms, i, h, k - 1);
    }
  }

  lemma LooksAndLeaves(s: System, ms: seq<Move>, i: int, h: Hold, j: nat)
    requires SystemInv(s) && LooksPast(s, ms, i, h, j)
    ensures Left(s, ms, i, h, j) || Left(s, ms, i, h, j + 1)
  {
    RunKeeps(s, ms[..j]);
    if Waits(Upto(s, ms, j), i, h) {
      NextState(s, ms, j);
      WaitsOn(Upto(s, ms, j), ms[j], i, h);
    }
  }

  // ---------------------------------------------------------------------------------------
  // Who moves the version on

  /** The move that wins version v of the head. */
  ghost predicate WinsAt(s: System, ms: seq<Move>, k: int, v: int) {
    && 0 <= k < |ms| && ms[k].i < |Upto(s, ms, k).threads|
    && Wins(Upto(s, ms, k).q, Upto(s, ms, k).threads[ms[k].i], false) == Some(v)
  }

  /** Every version that has been stored for was won by some move. */
  lemma {:induction false} SomeoneWon(s: System, ms: seq<Move>, n: nat, v: int) returns (k: nat)
    requires SystemInv(s) && n <= |ms|
    requires Stores(s.q, s.q.head) <= v < Stores(Upto(s, ms, n).q, Upto(s, ms, n).q.head)
    ensures k < n && WinsAt(s, ms, k, v)
  {
    assert n > 0 by { assert Upto(s, ms, 0) == s; }
    var r := Upto(s, ms, n - 1);
    NextState(s, ms, n - 1);
    RunKeeps(s, ms[..n - 1]);
    if v < Stores(r.q, r.q.head) {
      k := SomeoneWon(s, ms, n - 1, v);
    } else {
      k := n - 1;
      assert ms[k].i < |r.threads|;
      StoresAfter(r.q, r.threads[ms[k].i], ms[k].c, false);
    }
  }

  /** The version of the head that a thread holds and has not stored for. */
  function HeadHold(t: Thread): Option<int> {
    if t.UnlinkRead? || t.UnlinkCas? then Some(t.h.ver)
    else if (t.NextRead? || t.ScPred? || t.ScCas?) && t.op.Deq? then Some(t.h.ver)
    else None
  }

  predicate Storing(t: Thread, v: int) {
    (t.ScRead? || t.ScEntry? || t.TransRead? || t.TransCas?) && t.op.Deq? && t.h.ver == v
  }

  /** Thread t has won version v, and never holds it again. */
  ghost predicate Spent(q: Queue, t: Thread, v: int) {
    v <= q.head.entry.ver && HeadHold(t) != Some(v) && (q.head.entry.ver == v ==> Storing(t, v))
  }

  lemma WinnerSpends(q: Queue, t: Thread, c: Choice, v: int)
    requires Inv(q) && Knows(q, t) && Wins(q, t, false) == Some(v)
    ensures Spent(Step(q, t, c).q, Step(q, t, c).t, v)
  {
    StoreSucceedsExactly(q, t.op, t.h);
  }

  lemma StaysSpent(q: Queue, t: Thread, c: Choice, v: int)
    requires Inv(q) && Knows(q, t) && Spent(q, t, v)
    ensures Spent(Step(q, t, c).q, Step(q, t, c).t, v)
  {
    if t.LLRead? || t.LLNode? || t.LLCas? {
      SpentTries(q, t, v);
    } else if t.SetPred? || t.LinkCas? || t.NextRead? || t.UnlinkRead? || t.UnlinkCas? {
      SpentInBody(q, t, v);
    } else if !t.Outside? && !t.Done? {
      SpentStores(q, t, v);
    }
  }

  lemma SpentTries(q: Queue, t: Thread, v: int)
    requires Inv(q) && Knows(q, t) && Spent(q, t, v) && (t.LLRead? || t.LLNode? || t.LLCas?)
    ensures Spent(LLStep(q, t).q, LLStep(q, t).t, v)
  {
  }

  lemma SpentInBody(q: Queue, t: Thread, v: int)
    requires Inv(q) && Knows(q, t) && Spent(q, t, v)
    requires t.SetPred? || t.LinkCas? || t.NextRead? || t.UnlinkRead? || t.UnlinkCas?
    ensures Spent(BodyStep(q, t).q, BodyStep(q, t).t, v)
  {
  }

  lemma SpentStores(q: Queue, t: Thread, v: int)
    requires Inv(q) && Knows(q, t) && Spent(q, t, v) && !t.Outside? && !t.Done?
    requires !(t.LLRead? || t.LLNode? || t.LLCas?)
    requires !(t.SetPred? || t.LinkCas? || t.NextRead? || t.UnlinkRead? || t.UnlinkCas?)
    ensures Spent(SCStep(q, t).q, SCStep(q, t).t, v)
  {
  }

  ghost predicate SpentBy(s: System, i: nat, v: int) {
    i < |s.threads| && Spent(s.q, s.threads[i], v)
  }

  lemma SpentAfter(s: System, m: Move, i: nat, v: int)
    requires SystemInv(s) && SpentBy(s, i, v)
    ensures SpentBy(After(s, m), i, v)
  {
    if m.i == i {
      StaysSpent(s.q, s.threads[i], m.c, v);
    } else {
      AfterKeeps(s, m);
    }
  }

  lemma WinnerSpent(s: System, m: Move, v: int)
    requires SystemInv(s) && m.i < |s.threads| && Wins(s.q, s.threads[m.i], false) == Some(v)
    ensures SpentBy(After(s, m), m.i, v)
  {
    WinnerSpends(s.q, s.threads[m.i], m.c, v);
  }

  lemma {:induction false} SpentForGood(s: System, ms: seq<Move>, k: nat, i: nat, v: int, n: nat)
    requires SystemInv(s) && WinsAt(s, ms, k, v) && ms[k].i == i && k < n <= |ms|
    ensures SpentBy(Upto(s, ms, n), i, v)
  {
    var r := Upto(s, ms, n - 1);
    NextState(s, ms, n - 1);
    RunKeeps(s, ms[..n - 1]);
    if n - 1 == k {
      WinnerSpent(r, ms[k], v);
    } else {
      SpentForGood(s, ms, k, i, v, n - 1);
      SpentAfter(r, ms[n - 1], i, v);
    }
  }

  /** If the version of the head has gone past a waiting thread's, another thread's store did it. */
  lemma AnotherStored(n: nat, ms: seq<Move>, i: nat, h: Hold) returns (k: nat)
    requires Waits(Run(Start(n), ms), i, h) && Run(Start(n), ms).q.head.entry.ver > h.ver
    ensures WinsAt(Start(n), ms, k, h.ver) && ms[k].i != i
  {
    StartsWell(n);
    RunKeeps(Start(n), ms);
    var s := Run(Start(n), ms);
    assert ms[..|ms|] == ms;
    assert Knows(s.q, s.threads[i]);
    k := SomeoneWon(Start(n), ms, |ms|, h.ver);
    if ms[k].i == i {
      SpentForGood(Start(n), ms, k, i, h.ver, |ms|);
    }
  }

  lemma JoinedWin(s: System, a: seq<Move>, b: seq<Move>, k: nat, v: int)
    requires k < |a| && WinsAt(s, a, k, v)
    ensures WinsAt(s, a + b, k, v)
  {
    assert (a + b)[..k] == a[..k];
  }

  /**
   Any reachable state with thread i in the loop of unlink, and any moves from there on: the
   thread leaves the loop if and only if it takes a step after the version of the head has gone
   past its own; and it never does unless, somewhere in the run, another thread stored into the
   head for that version.
   */
  lemma EmptyDequeueWaitsExactly(n: nat, past: seq<Move>, i: nat, h: Hold, ms: seq<Move>)
    requires Waits(Run(Start(n), past), i, h)
    ensures
      var s := Run(Start(n), past);
      (exists k :: Left(s, ms, i, h, k)) <==> (exists j :: LooksPast(s, ms, i, h, j))
    ensures (exists k :: Left(Run(Start(n), past), ms, i, h, k)) ==>
              exists k :: WinsAt(Start(n), past + ms, k, h.ver) && (past + ms)[k].i != i
  {
    StartsWell(n);
    RunKeeps(Start(n), past);
    var s := Run(Start(n), past);
    if j :| LooksPast(s, ms, i, h, j) {
      LooksAndLeaves(s, ms, i, h, j);
    }
    if k :| Left(s, ms, i, h, k) {
      var j := FirstLook(s, ms, i, h, k);
      RunJoin(Start(n), past, ms[..j]);
      var w := AnotherStored(n, past + ms[..j], i, h);
      JoinedWin(Start(n), past + ms[..j], ms[j..], w, h.ver);
      assert past + ms[..j] + ms[j..] == past + ms;
    }
  }

  /** A lone thread that dequeues from a new queue never returns. */
  lemma {:induction false} LoneDequeueNeverReturns(ms: seq<Move>)
    ensures
      var s := Run(Start(1), [Move(0, CallDeq), Move(0, Go), Move(0, Go), Move(0, Go), Move(0, Go)]);
      s.threads == [UnlinkRead(Hold(0, 0))] && Run(s, ms) == s
  {
    var s0 := Start(1);
    var g := Move(0, Go);
    var s1 := After(s0, Move(0, CallDeq));
    var s2 := After(s1, g);
    var s3 := After(s2, g);
    var s4 := After(s3, g);
    var s5 := After(s4, g);
    assert s0.threads == [Outside];
    assert s1.threads == [LLRead(Deq)];
    assert s2.threads == [LLNode(Deq, Entry(0, 0))];
    assert s3.threads == [LLCas(Deq, Entry(0, 0), 0)];
    assert s4.threads == [NextRead(Deq, Hold(0, 0))];
    assert s5.threads == [UnlinkRead(Hold(0, 0))];
    RunFive(s0, Move(0, CallDeq), g);
    Stuck(s5, ms);
  }

  lemma RunFive(s: System, a: Move, g: Move)
    ensures Run(s, [a, g, g, g, g]) == After(After(After(After(After(s, a), g), g), g), g)
  {
    assert [a, g, g, g, g][1..] == [g, g, g, g] && [g, g, g, g][1..] == [g, g, g];
    assert [g, g, g][1..] == [g, g] && [g, g][1..] == [g] && [g][1..] == [];
    assert Run(s, [a, g, g, g, g]) == Run(After(s, a), [g, g, g, g]);
    assert forall x :: Run(x, [g, g, g, g]) == Run(After(x, g), [g, g, g]);
    assert forall x :: Run(x, [g, g, g]) == Run(After(x, g), [g, g]);
    assert forall x :: Run(x, [g, g]) == Run(After(x, g), [g]);
    assert forall x :: Run(x, [g]) == Run(After(x, g), []);
  }

  lemma {:induction false} Stuck(s: System, ms: seq<Move>)
    requires s.threads == [UnlinkRead(Hold(0, 0))] && s.q.head.entry.ver == 0
    ensures Run(s, ms) == s
    decreases |ms|
  {
    if ms != [] {
      assert After(s, ms[0]) == s;
      Stuck(s, ms[1..]);
    }
  }
}
