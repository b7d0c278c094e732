/**
 The reference counts of the load-linked/store-conditional queue: one successful store per
 version, the entry/exit count law, and what the decrement in unlink does to it.
 */
module LlscCounts {
  import opened Options
  import opened FifoSpec
  import opened LlscSteps
  import opened LlscQueue

  // ---------------------------------------------------------------------------------------
  // One success per version

  /** The version won by a move that stores into the head (or the tail), if it is one. */
  function Wins(q: Queue, t: Thread, tail: bool): Option<int> {
    if t.ScCas? && t.op.Enq? == tail && Cell(VarOf(q, t.op), t.h.ver + 1) == t.pred then Some(t.h.ver) else None
  }

  function Side(q: Queue, tail: bool): Var { if tail then q.tail else q.head }

  lemma StoresAfterLL(q: Queue, t: Thread, tail: bool)
    requires Inv(q) && Knows(q, t) && (t.LLRead? || t.LLNode? || t.LLCas?)
    ensures Stores(LLStep(q, t).q, Side(LLStep(q, t).q, tail)) == Stores(q, Side(q, tail))
  {
  }

  lemma StoresAfterBody(q: Queue, t: Thread, tail: bool)
    requires Inv(q) && Knows(q, t) && (t.SetPred? || t.LinkCas? || t.NextRead? || t.UnlinkRead? || t.UnlinkCas?)
    ensures Stores(BodyStep(q, t).q, Side(BodyStep(q, t).q, tail)) == Stores(q, Side(q, tail))
  {
    if t.LinkCas? && At(q, t.h.node).next == NULL {
      NoStore(q, BodyStep(q, t).q, q.head, t.op.nd);
      NoStore(q, BodyStep(q, t).q, q.tail, t.op.nd);
    }
  }

  lemma StoresAfterStore(q: Queue, t: Thread, tail: bool)
    requires Inv(q) && Knows(q, t) && t.ScCas?
    ensures
      var n := Stores(q, Side(q, tail));
      Stores(StoreStep(q, t).q, Side(StoreStep(q, t).q, tail)) == (if Wins(q, t, tail).Some? then n + 1 else n)
      && (Wins(q, t, tail).Some? ==> Wins(q, t, tail).value == n)
  {
    StoreSucceedsExactly(q, t.op, t.h);
    var v := VarOf(q, t.op);
    if Cell(v, t.h.ver + 1) == t.pred {
      StoredVar(q, v, SetCell(v, t.h.ver + 1, t.nd), t.h.ver, t.nd);
    }
  }

  lemma StoresAfterAdvance(q: Queue, t: Thread, tail: bool)
    requires Inv(q) && Knows(q, t) && t.ScEntry?
    ensures Stores(AdvanceStep(q, t).q, Side(AdvanceStep(q, t).q, tail)) == Stores(q, Side(q, tail))
  {
    if VarOf(q, t.op).entry == t.e {
      AdvancedVar(q, VarOf(q, t.op), VarOf(q, t.op).(entry := Entry(t.e.ver + 1, 0)));
    }
  }

  lemma StoresAfter(q: Queue, t: Thread, c: Choice, tail: bool)
    requires Inv(q) && Knows(q, t)
    ensures
      var n := Stores(q, Side(q, tail));
      var r := Step(q, t, c).q;
      Stores(r, Side(r, tail)) == (if Wins(q, t, tail).Some? then n + 1 else n)
      && (Wins(q, t, tail).Some? ==> Wins(q, t, tail).value == n)
  {
    if t.LLRead? || t.LLNode? || t.LLCas? {
      StoresAfterLL(q, t, tail);
    } else if t.SetPred? || t.LinkCas? || t.NextRead? || t.UnlinkRead? || t.UnlinkCas? {
      StoresAfterBody(q, t, tail);
    } else if t.ScCas? {
      StoresAfterStore(q, t, tail);
    } else if t.ScEntry? {
      StoresAfterAdvance(q, t, tail);
    }
  }

  /** The versions won in a run, in order. */
  function WonVersions(s: System, ms: seq<Move>, tail: bool): seq<int>
    decreases |ms|
  {
    if ms == [] then []
    else
      var rest := WonVersions(After(s, ms[0]), ms[1..], tail);
      if ms[0].i < |s.threads| && Wins(s.q, s.threads[ms[0].i], tail).Some?
      then [Wins(s.q, s.threads[ms[0].i], tail).value] + rest else rest
  }

  /** n, n + 1, n + 2, ... */
  ghost predicate CountsUp(w: seq<int>, n: int) {
    forall k | 0 <= k < |w| :: w[k] == n + k
  }

  lemma CountsUpFrom(w: seq<int>, n: int)
    requires CountsUp(w, n + 1)
    ensures CountsUp([n] + w, n)
  {
  }

  /**
   In every run, the successful store-conditionals on each variable are of versions 0, 1, 2, ...:
   every version has at most one success, and a stale store-conditional never succeeds.
   */
  lemma {:induction false} VersionsAreWonInOrder(s: System, ms: seq<Move>, tail: bool)
    requires SystemInv(s)
    ensures CountsUp(WonVersions(s, ms, tail), Stores(s.q, Side(s.q, tail)))
    decreases |ms|
  {
    if ms != [] {
      var r := After(s, ms[0]);
      var n := Stores(s.q, Side(s.q, tail));
      AfterKeeps(s, ms[0]);
      VersionsAreWonInOrder(r, ms[1..], tail);
      if ms[0].i < |s.threads| {
        StoresAfter(s.q, s.threads[ms[0].i], ms[0].c, tail);
        if Wins(s.q, s.threads[ms[0].i], tail).Some? {
          CountsUpFrom(WonVersions(r, ms[1..], tail), n);
        }
      }
    }
  }

  // ---------------------------------------------------------------------------------------
  // The count law

  /** The node a thread holds between a successful LL and its release. */
  function Holding(t: Thread): Option<int> {
    if t.Outside? || t.LLRead? || t.LLNode? || t.LLCas? || t.Done? then None else Some(t.h.node)
  }

  /** What a thread's hold and its transfer in flight contribute for node n. */
  function Weight(t: Thread, n: int): int {
    (if Holding(t) == Some(n) then 1 else 0) - (if (t.TransRead? || t.TransCas?) && t.h.node == n then t.count else 0)
  }

  function Moving(t: Thread, n: int): int {
    if (t.TransRead? || t.TransCas?) && t.h.node == n then 1 else 0
  }

  function Weights(ts: seq<Thread>, n: int): int {
    if ts == [] then 0 else Weight(ts[0], n) + Weights(ts[1..], n)
  }

  function Movings(ts: seq<Thread>, n: int): int {
    if ts == [] then 0 else Moving(ts[0], n) + Movings(ts[1..], n)
  }

  function Current(v: Var, i: int): int { if v.entry.ver == i then v.entry.count else 0 }

  function Passed(v: Var, i: int): int { if v.entry.ver > i then 1 else 0 }

  /** The exit count of node i plus the entry counts still owed to it. */
  function Counted(q: Queue, i: int): int {
    At(q, Nth(q, i)).exit.count + Current(q.head, i) + Current(q.tail, i)
  }

  function Transfers(q: Queue, i: int): int {
    At(q, Nth(q, i)).exit.left + Passed(q.head, i) + Passed(q.tail, i)
  }

  ghost predicate LawAt(s: System, i: int)
    requires 0 <= i < |s.q.drift|
  {
    && Counted(s.q, i) == Weights(s.threads, Nth(s.q, i)) + s.q.drift[i]
    && Transfers(s.q, i) == 2 + Movings(s.threads, Nth(s.q, i))
  }

  ghost predicate Law(s: System) {
    forall i | 0 <= i < |s.q.drift| :: LawAt(s, i)
  }

  lemma {:induction false} WeightsUpdate(ts: seq<Thread>, k: int, t: Thread, n: int)
    requires 0 <= k < |ts|
    ensures Weights(ts[k := t], n) == Weights(ts, n) - Weight(ts[k], n) + Weight(t, n)
    ensures Movings(ts[k := t], n) == Movings(ts, n) - Moving(ts[k], n) + Moving(t, n)
  {
    if k > 0 {
      assert ts[k := t][1..] == ts[1..][k - 1 := t];
      WeightsUpdate(ts[1..], k - 1, t, n);
    } else {
      assert ts[k := t][1..] == ts[1..];
    }
  }

  lemma {:induction false} NobodyHolds(ts: seq<Thread>, n: int)
    requires forall t | t in ts :: Holding(t) != Some(n)
    ensures Weights(ts, n) == 0 && Movings(ts, n) == 0
  {
    if ts != [] {
      assert ts[0] in ts;
      NobodyHolds(ts[1..], n);
    }
  }

  /** A step changes what is counted for node i by what the thread contributes. */
  ghost predicate Balanced(q: Queue, t: Thread, x: Result, i: int)
    requires 0 <= i < |q.drift| <= |x.q.drift|
  {
    && Counted(x.q, i) - x.q.drift[i] - Weight(x.t, Nth(q, i)) == Counted(q, i) - q.drift[i] - Weight(t, Nth(q, i))
    && Transfers(x.q, i) - Moving(x.t, Nth(q, i)) == Transfers(q, i) - Moving(t, Nth(q, i))
  }

  lemma HeldIndex(q: Queue, h: Hold, i: int)
    requires ChainInv(q) && 0 <= h.ver < |q.chain| && 0 <= i < |q.chain| && h.node == Nth(q, h.ver)
    ensures h.node == Nth(q, i) <==> i == h.ver
  {
    if h.node == Nth(q, i) { SamePlace(q, h.ver, i); }
  }

  lemma TakeBalances(q: Queue, t: Thread, i: int)
    requires Inv(q) && Knows(q, t) && t.LLCas? && 0 <= i < |q.chain|
    ensures Balanced(q, t, TakeStep(q, t), i)
  {
    if VarOf(q, t.op).entry == t.e {
      HeldIndex(q, Hold(t.e.ver, t.node), i);
    }
  }

  lemma LinkBalances(q: Queue, t: Thread, i: int)
    requires Inv(q) && Knows(q, t) && t.LinkCas? && 0 <= i < |q.chain|
    ensures Balanced(q, t, BodyStep(q, t), i)
  {
  }

  lemma UnlinkBalances(q: Queue, t: Thread, i: int)
    requires Inv(q) && Knows(q, t) && t.UnlinkCas? && 0 <= i < |q.chain|
    ensures Balanced(q, t, UnlinkStep(q, t), i)
  {
    HeldIndex(q, t.h, i);
  }

  lemma AdvanceBalances(q: Queue, t: Thread, i: int)
    requires Inv(q) && Knows(q, t) && t.ScEntry? && 0 <= i < |q.chain|
    ensures Balanced(q, t, AdvanceStep(q, t), i)
  {
    HeldIndex(q, t.h, i);
  }

  lemma TransferBalances(q: Queue, t: Thread, i: int)
    requires Inv(q) && Knows(q, t) && t.TransCas? && 0 <= i < |q.chain|
    ensures Balanced(q, t, TransferStep(q, t), i)
  {
    HeldIndex(q, t.h, i);
    assert 0 <= t.h.node < |q.nodes|;
  }

  lemma ReleaseBalances(q: Queue, t: Thread, i: int)
    requires Inv(q) && Knows(q, t) && t.RelCas? && 0 <= i < |q.chain|
    ensures Balanced(q, t, ReleaseStep(q, t), i)
  {
    HeldIndex(q, t.h, i);
    assert 0 <= t.h.node < |q.nodes|;
    assert Holding(Released(q, t.op, t.nd, t.won)) == None;
  }

  lemma StepBalances(q: Queue, t: Thread, c: Choice, i: int)
    requires Inv(q) && Knows(q, t) && 0 <= i < |q.chain|
    requires |q.drift| <= |Step(q, t, c).q.drift|
    ensures Balanced(q, t, Step(q, t, c), i)
  {
    if t.LLCas? {
      TakeBalances(q, t, i);
    } else if t.LinkCas? {
      LinkBalances(q, t, i);
    } else if t.UnlinkCas? {
      UnlinkBalances(q, t, i);
    } else if t.ScEntry? {
      AdvanceBalances(q, t, i);
    } else if t.TransCas? {
      TransferBalances(q, t, i);
    } else if t.RelCas? {
      ReleaseBalances(q, t, i);
    } else if t.SetPred? {
      assert t.op.nd != Nth(q, i);
    } else {
      QuietBalances(q, t, c, i);
    }
  }

  /** A step that touches no tag and no hold. */
  lemma Quiet(q: Queue, t: Thread, x: Result, i: int)
    requires 0 <= i < |q.chain| && |q.drift| == |q.chain|
    requires x.q.drift == q.drift && x.q.chain == q.chain && x.q.head.entry == q.head.entry && x.q.tail.entry == q.tail.entry
    requires At(x.q, Nth(q, i)).exit == At(q, Nth(q, i)).exit
    requires Holding(x.t) == Holding(t) && Weight(x.t, Nth(q, i)) == Weight(t, Nth(q, i)) && Moving(x.t, Nth(q, i)) == Moving(t, Nth(q, i))
    ensures Balanced(q, t, x, i)
  {
  }

  /** The remaining steps touch no count. */
  lemma QuietBalances(q: Queue, t: Thread, c: Choice, i: int)
    requires Inv(q) && Knows(q, t) && 0 <= i < |q.chain|
    requires !t.LLCas? && !t.LinkCas? && !t.UnlinkCas? && !t.ScEntry? && !t.TransCas? && !t.RelCas? && !t.SetPred?
    requires |q.drift| <= |Step(q, t, c).q.drift|
    ensures Balanced(q, t, Step(q, t, c), i)
  {
    if t.Outside? || t.Done? {
      Quiet(q, t, Step(q, t, c), i);
    } else if t.LLRead? || t.LLNode? {
      Quiet(q, t, LLStep(q, t), i);
    } else if t.NextRead? || t.UnlinkRead? {
      Quiet(q, t, BodyStep(q, t), i);
    } else {
      Quiet(q, t, SCStep(q, t), i);
    }
  }

  // ---------------------------------------------------------------------------------------
  // What unlink does to the law

  function Total(d: seq<int>): int {
    if d == [] then 0 else d[0] + Total(d[1..])
  }

  /** Units missing, weighted by list position. */
  function Moment(d: seq<int>): int {
    if d == [] then 0 else Total(d[1..]) + Moment(d[1..])
  }

  lemma {:induction false} MomentUpdate(d: seq<int>, k: int, v: int)
    requires 0 <= k < |d| && (v == d[k] + 1 || v == d[k] - 1)
    ensures Total(d[k := v]) == Total(d) + v - d[k]
    ensures Moment(d[k := v]) == if v > d[k] then Moment(d) + k else Moment(d) - k
  {
    var e := d[k := v];
    if k > 0 {
      assert e[1..] == d[1..][k - 1 := v];
      MomentUpdate(d[1..], k - 1, v);
    } else {
      assert e[1..] == d[1..];
    }
  }

  lemma {:induction false} MomentAppend(d: seq<int>)
    ensures Total(d + [0]) == Total(d) && Moment(d + [0]) == Moment(d)
  {
    if d == [] {
      assert [0][1..] == [];
    } else {
      assert (d + [0])[1..] == d[1..] + [0];
      MomentAppend(d[1..]);
    }
  }

  lemma {:induction false} ZeroMoment(d: seq<int>)
    requires forall i | 0 <= i < |d| :: d[i] == 0
    ensures Total(d) == 0 && Moment(d) == 0
  {
    if d != [] { ZeroMoment(d[1..]); }
  }

  lemma {:induction false} TiltMoment(d: seq<int>, i: int, j: int)
    requires 0 <= i < j < |d|
    ensures Moment(Tilt(d, i, j)) <= Moment(d) - 1
  {
    var e := d[i := d[i] + 1];
    MomentUp(d, i);
    MomentDown(e, j);
    assert Tilt(d, i, j) == e[j := e[j] - 1];
  }

  lemma {:induction false} MomentUp(d: seq<int>, i: int)
    requires 0 <= i < |d|
    ensures Moment(d[i := d[i] + 1]) == Moment(d) + i
  {
    MomentUpdate(d, i, d[i] + 1);
  }

  lemma {:induction false} MomentDown(d: seq<int>, i: int)
    requires 0 <= i < |d|
    ensures Moment(d[i := d[i] - 1]) == Moment(d) - i
  {
    MomentUpdate(d, i, d[i] - 1);
  }

  /** unlink always takes its unit from a later node than the one it held, so the moment records
      every decrement. */
  ghost predicate DriftInv(q: Queue) {
    Moment(q.drift) + q.unlinks <= 0 && (q.unlinks == 0 ==> forall i | 0 <= i < |q.drift| :: q.drift[i] == 0)
  }

  lemma DriftAfter(q: Queue, t: Thread, c: Choice)
    requires Inv(q) && Knows(q, t) && DriftInv(q)
    ensures DriftInv(Step(q, t, c).q)
  {
    var r := Step(q, t, c).q;
    if t.UnlinkCas? && q.head.entry == t.e {
      TiltMoment(q.drift, t.h.ver, t.e.ver);
    } else if t.LinkCas? {
      MomentAppend(q.drift);
    } else {
      SameDrift(q, t, c);
    }
  }

  lemma SameDrift(q: Queue, t: Thread, c: Choice)
    requires Knows(q, t) && !t.LinkCas? && (t.UnlinkCas? ==> q.head.entry != t.e)
    ensures Step(q, t, c).q.drift == q.drift && Step(q, t, c).q.unlinks == q.unlinks
  {
  }

  // ---------------------------------------------------------------------------------------
  // Over whole runs

  ghost predicate CountInv(s: System) {
    SystemInv(s) && Law(s) && DriftInv(s.q)
  }

  lemma {:induction false} AllOutside(n: nat, p: int)
    ensures Weights(seq(n, i => Outside), p) == 0 && Movings(seq(n, i => Outside), p) == 0
  {
    NobodyHolds(seq(n, i => Outside), p);
  }

  lemma StartsBalanced(n: nat)
    ensures CountInv(Start(n))
  {
    StartsWell(n);
    AllOutside(n, 0);
    assert LawAt(Start(n), 0);
    ZeroMoment([0]);
  }

  lemma NobodyHoldsNew(s: System, n: int)
    requires SystemInv(s) && n !in s.q.chain
    ensures Weights(s.threads, n) == 0 && Movings(s.threads, n) == 0
  {
    forall t | t in s.threads ensures Holding(t) != Some(n) {
      HoldsListed(s.q, t);
    }
    NobodyHolds(s.threads, n);
  }

  lemma HoldsListed(q: Queue, t: Thread)
    requires Inv(q) && Knows(q, t)
    ensures Holding(t).Some? ==> Holding(t).value in q.chain
  {
    if Holding(t).Some? {
      assert t.h.node == Nth(q, t.h.ver) && 0 <= t.h.ver < |q.chain|;
    }
  }

  lemma AfterBalances(s: System, m: Move)
    requires CountInv(s)
    ensures CountInv(After(s, m))
  {
    AfterKeeps(s, m);
    if m.i < |s.threads| {
      var t := s.threads[m.i];
      var x := Step(s.q, t, m.c);
      DriftAfter(s.q, t, m.c);
      forall i | 0 <= i < |x.q.drift| ensures LawAt(After(s, m), i) {
        if i < |s.q.drift| {
          OldNodeBalances(s, m, i);
        } else {
          NewNodeBalances(s, m, i);
        }
      }
    }
  }

  lemma OldNodeBalances(s: System, m: Move, i: int)
    requires CountInv(s) && m.i < |s.threads| && SystemInv(After(s, m)) && Moves(s.q, After(s, m).q) && 0 <= i < |s.q.drift|
    ensures 0 <= i < |After(s, m).q.drift| && LawAt(After(s, m), i)
  {
    var t := s.threads[m.i];
    var x := Step(s.q, t, m.c);
    StepBalances(s.q, t, m.c, i);
    WeightsUpdate(s.threads, m.i, x.t, Nth(s.q, i));
    assert LawAt(s, i) && Nth(x.q, i) == Nth(s.q, i);
  }

  lemma NewNodeBalances(s: System, m: Move, i: int)
    requires CountInv(s) && m.i < |s.threads| && SystemInv(After(s, m)) && |s.q.drift| <= i < |After(s, m).q.drift|
    ensures LawAt(After(s, m), i)
  {
    var t := s.threads[m.i];
    var x := Step(s.q, t, m.c);
    OnlyLinkGrows(s.q, t, m.c);
    var n := t.op.nd;
    assert Nth(x.q, i) == n && n !in s.q.chain;
    NobodyHoldsNew(s, n);
    HoldsListed(s.q, t);
    WeightsUpdate(s.threads, m.i, x.t, n);
  }

  lemma OnlyLinkGrows(q: Queue, t: Thread, c: Choice)
    requires Knows(q, t) && |q.drift| < |Step(q, t, c).q.drift|
    ensures t.LinkCas? && t.op.Enq? && At(q, t.h.node).next == NULL
  {
  }

  lemma {:induction false} RunBalances(s: System, ms: seq<Move>)
    requires CountInv(s)
    ensures CountInv(Run(s, ms))
    decreases |ms|
  {
    if ms != [] {
      AfterBalances(s, ms[0]);
      RunBalances(After(s, ms[0]), ms[1..]);
    }
  }

  /** The intended law for node i: what is counted for it is the threads that hold it, and its
      transfers left are two less those completed. */
  ghost predicate Counts(s: System, i: int) {
    Counted(s.q, i) == Weights(s.threads, Nth(s.q, i)) && Transfers(s.q, i) == 2 + Movings(s.threads, Nth(s.q, i))
  }

  /**
   In every reachable state the count law holds of all nodes exactly when no unlink has
   completed its decrement so far.
   */
  lemma CountLawExactly(n: nat, ms: seq<Move>)
    ensures
      var s := Run(Start(n), ms);
      (forall i | 0 <= i < |s.q.chain| :: Counts(s, i)) <==> s.q.unlinks == 0
  {
    StartsBalanced(n);
    RunBalances(Start(n), ms);
    var s := Run(Start(n), ms);
    forall i | 0 <= i < |s.q.chain| ensures Counts(s, i) <==> s.q.drift[i] == 0 {
      assert LawAt(s, i);
    }
    if forall i | 0 <= i < |s.q.chain| :: Counts(s, i) {
      forall i | 0 <= i < |s.q.drift| ensures s.q.drift[i] == 0 {
        assert Counts(s, i);
      }
      ZeroMoment(s.q.drift);
    }
  }

  lemma {:induction false} MovingsNonNegative(ts: seq<Thread>, n: int)
    ensures Movings(ts, n) >= 0
    ensures Movings(ts, n) == 0 ==> forall t | t in ts :: Moving(t, n) == 0
  {
    if ts != [] { MovingsNonNegative(ts[1..], n); }
  }

  lemma {:induction false} WeightsAreHolds(ts: seq<Thread>, n: int)
    requires forall t | t in ts :: Moving(t, n) == 0
    ensures Weights(ts, n) >= 0
    ensures Weights(ts, n) == 0 ==> forall t | t in ts :: Holding(t) != Some(n)
  {
    if ts != [] {
      assert ts[0] in ts;
      WeightsAreHolds(ts[1..], n);
    }
  }

  /** CLEAN */
  predicate Clean(e: Exit) { e.count == 0 && e.left == 0 }

  /** On runs without an unlink decrement, a clean node is held by nobody. */
  lemma CleanMeansUnheld(n: nat, ms: seq<Move>, i: int)
    requires Run(Start(n), ms).q.unlinks == 0 && 0 <= i < |Run(Start(n), ms).q.chain|
    requires Clean(At(Run(Start(n), ms).q, Nth(Run(Start(n), ms).q, i)).exit)
    ensures
      var s := Run(Start(n), ms);
      forall t | t in s.threads :: Holding(t) != Some(Nth(s.q, i))
  {
    CountLawExactly(n, ms);
    var s := Run(Start(n), ms);
    assert Counts(s, i);
    MovingsNonNegative(s.threads, Nth(s.q, i));
    WeightsAreHolds(s.threads, Nth(s.q, i));
  }
}
