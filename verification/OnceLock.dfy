/**
 get_lock: a lock that the first thread of a run initialises, guarded by one shared run-id word
 that is changed by compare-and-swap. A step is one read, one compare-and-swap, or the start or
 the end of init_lock.
 */
module OnceLock {

  datatype Thread =
    | Outside
    | Read                // tmp_runid = *runid
    | Claim(tmp: int)     // cas from tmp_runid to pop_runid - 1
    | Init                // inside init_lock
    | Undo                // init_lock failed
    | Publish             // cas from pop_runid - 1 to pop_runid
    | Got                 // returns the lock
    | Null                // returns NULL

  /** `run` is pop_runid. Auxiliary: `ready` says that the lock is initialised for this run and
      `inits` counts the successful initialisations of this run. */
  datatype System = System(run: int, runid: int, ready: bool, inits: int, threads: seq<Thread>)

  datatype Choice = Call | Succeed | Fail

  datatype Move = Move(i: nat, c: Choice)

  function Start(run: int, runid: int, n: nat): System {
    System(run, runid, runid == run, 0, seq(n, i => Outside))
  }

  function Put(s: System, i: int, t: Thread): System
    requires 0 <= i < |s.threads|
  {
    s.(threads := s.threads[i := t])
  }

  function Step(s: System, i: int, c: Choice): System
    requires 0 <= i < |s.threads|
  {
    match s.threads[i]
    case Outside => if c == Call then Put(s, i, Read) else s
    case Read =>
      if s.runid == s.run then Put(s, i, Got)
      else if s.runid == s.run - 1 then s
      else Put(s, i, Claim(s.runid))
    case Claim(tmp) =>
      if s.runid == tmp then Put(s.(runid := s.run - 1), i, Init) else Put(s, i, Read)
    case Init =>
      if c == Fail then Put(s, i, Undo) else Put(s.(ready := true, inits := s.inits + 1), i, Publish)
    case Undo => Put(s.(runid := 0), i, Null)
    case Publish =>
      if s.runid == s.run - 1 then Put(s.(runid := s.run), i, Got) else Put(s, i, Null)
    case Got => Put(s, i, Outside)
    case Null => Put(s, i, Outside)
  }

  function Run(s: System, ms: seq<Move>): System
    decreases |ms|
  {
    if ms == [] then s
    else Run(if ms[0].i < |s.threads| then Step(s, ms[0].i, ms[0].c) else s, ms[1..])
  }

  // ---------------------------------------------------------------------------------------

  /** Between claiming the run id and leaving it. */
  predicate Busy(t: Thread) { t == Init || t == Undo || t == Publish }

  ghost predicate KnowsClaim(s: System, t: Thread) { t.Claim? ==> t.tmp != s.run - 1 && t.tmp != s.run }

  ghost predicate Inv(s: System) {
    && s.run % 2 == 0 && s.run != 0
    && (forall i, j | 0 <= i < j < |s.threads| :: !(Busy(s.threads[i]) && Busy(s.threads[j])))
    && (s.runid == s.run - 1 <==> exists i :: 0 <= i < |s.threads| && Busy(s.threads[i]))
    && (forall i | 0 <= i < |s.threads| :: KnowsClaim(s, s.threads[i]))
    && (s.runid == s.run ==> s.ready)
    && (s.ready ==> s.runid == s.run || exists i :: 0 <= i < |s.threads| && s.threads[i] == Publish)
    && (forall i | 0 <= i < |s.threads| && Busy(s.threads[i]) :: s.ready <==> s.threads[i] == Publish)
    && (forall i | 0 <= i < |s.threads| && s.threads[i] == Got :: s.ready)
    && 0 <= s.inits <= 1 && (s.inits == 1 ==> s.ready)
  }

  lemma StartsWell(run: int, runid: int, n: nat)
    requires run % 2 == 0 && run != 0 && runid != run - 1
    ensures Inv(Start(run, runid, n))
  {
  }

  lemma StepKeeps(s: System, i: int, c: Choice)
    requires Inv(s) && 0 <= i < |s.threads|
    ensures Inv(Step(s, i, c))
  {
    var t, r := s.threads[i], Step(s, i, c);
    if Busy(t) {
      BusyStep(s, i, c);
    } else {
      assert KnowsClaim(s, t);
      IdleStep(s, i, c);
    }
  }

  /** Nobody else is busy. */
  lemma Alone(s: System, i: int)
    requires Inv(s) && 0 <= i < |s.threads| && Busy(s.threads[i])
    ensures s.runid == s.run - 1 && forall j | 0 <= j < |s.threads| && j != i :: !Busy(s.threads[j])
  {
  }

  lemma BusyStep(s: System, i: int, c: Choice)
    requires Inv(s) && 0 <= i < |s.threads| && Busy(s.threads[i])
    ensures Inv(Step(s, i, c))
  {
    Alone(s, i);
    var r := Step(s, i, c);
    assert forall j | 0 <= j < |s.threads| && j != i :: r.threads[j] == s.threads[j] && !Busy(r.threads[j]) && KnowsClaim(s, s.threads[j]);
    if Busy(r.threads[i]) {
      assert exists j :: 0 <= j < |r.threads| && Busy(r.threads[j]);
    }
    if r.threads[i] == Publish {
      assert exists j :: 0 <= j < |r.threads| && r.threads[j] == Publish;
    }
  }

  lemma IdleStep(s: System, i: int, c: Choice)
    requires Inv(s) && 0 <= i < |s.threads| && !Busy(s.threads[i])
    ensures Inv(Step(s, i, c))
  {
    var t, r := s.threads[i], Step(s, i, c);
    assert KnowsClaim(s, t);
    assert forall j | 0 <= j < |s.threads| && j != i :: r.threads[j] == s.threads[j];
    if t.Claim? && s.runid == t.tmp {
      assert Busy(r.threads[i]);
    } else {
      forall j | 0 <= j < |s.threads| ensures Busy(r.threads[j]) == Busy(s.threads[j])
          && (r.threads[j] == Publish) == (s.threads[j] == Publish) {}
      SameBusy(s, r);
    }
  }

  lemma SameBusy(s: System, r: System)
    requires Inv(s) && |r.threads| == |s.threads|
    requires forall j | 0 <= j < |s.threads| ::
      Busy(r.threads[j]) == Busy(s.threads[j]) && (r.threads[j] == Publish) == (s.threads[j] == Publish)
    ensures (exists j :: 0 <= j < |r.threads| && Busy(r.threads[j])) <==> s.runid == s.run - 1
    ensures s.ready ==> s.runid == s.run || exists j :: 0 <= j < |r.threads| && r.threads[j] == Publish
  {
    if j :| 0 <= j < |s.threads| && Busy(s.threads[j]) {
      assert Busy(r.threads[j]);
    }
    if j :| 0 <= j < |s.threads| && s.threads[j] == Publish {
      assert r.threads[j] == Publish;
    }
  }

  lemma {:induction false} RunKeeps(s: System, ms: seq<Move>)
    requires Inv(s)
    ensures Inv(Run(s, ms)) && Run(s, ms).run == s.run && |Run(s, ms).threads| == |s.threads|
    decreases |ms|
  {
    if ms != [] {
      var r := if ms[0].i < |s.threads| then Step(s, ms[0].i, ms[0].c) else s;
      if ms[0].i < |s.threads| { StepKeeps(s, ms[0].i, ms[0].c); }
      RunKeeps(r, ms[1..]);
    }
  }

  /**
   In every run of any number of threads, with an even run id and a word not already one below
   it: at most one thread is inside init_lock, nobody has been given the lock before it was
   initialised, the initialisation succeeds at most once, and no second one is going on once it
   has.
   */
  lemma InitialisedOnce(run: int, runid: int, n: nat, ms: seq<Move>)
    requires run % 2 == 0 && run != 0 && runid != run - 1
    ensures
      var s := Run(Start(run, runid, n), ms);
      && (forall i, j | 0 <= i < j < |s.threads| :: !(s.threads[i] == Init && s.threads[j] == Init))
      && (forall i | 0 <= i < |s.threads| && s.threads[i] == Got :: s.ready)
      && s.inits <= 1 && (s.ready ==> forall i | 0 <= i < |s.threads| :: s.threads[i] != Init)
  {
    StartsWell(run, runid, n);
    RunKeeps(Start(run, runid, n), ms);
  }

  /** The second compare-and-swap never fails, so only a failed init_lock returns NULL. */
  lemma PublishSucceeds(s: System, i: int, c: Choice)
    requires Inv(s) && 0 <= i < |s.threads|
    ensures Step(s, i, c).threads[i] == Null && s.threads[i] != Null ==> s.threads[i] == Undo
  {
    if s.threads[i] == Publish { Alone(s, i); }
  }

  /** Whoever initialises the lock is through two steps later, with the lock and the word current if
      init_lock succeeded, with NULL and the word reset if it failed. */
  lemma InitDecides(s: System, i: nat, c: Choice, d: Choice)
    requires Inv(s) && i < |s.threads| && s.threads[i] == Init
    ensures
      var r := Step(Step(s, i, c), i, d);
      && r.threads[i] == (if c == Fail then Null else Got) && r.runid == (if c == Fail then 0 else s.run)
      && r.inits == (if c == Fail then s.inits else s.inits + 1)
  {
    Alone(s, i);
  }

  // ---------------------------------------------------------------------------------------
  // Who gets the lock

  /** From a word one below the run id every thread stays in the loop. */
  lemma {:induction false} Spins(s: System, ms: seq<Move>)
    requires s.runid == s.run - 1 && forall i | 0 <= i < |s.threads| :: s.threads[i] == Outside || s.threads[i] == Read
    ensures |Run(s, ms).threads| == |s.threads|
    ensures forall i | 0 <= i < |Run(s, ms).threads| :: Run(s, ms).threads[i] == Outside || Run(s, ms).threads[i] == Read
    decreases |ms|
  {
    if ms != [] {
      Spins(if ms[0].i < |s.threads| then Step(s, ms[0].i, ms[0].c) else s, ms[1..]);
    }
  }

  /**
   A word one below the run id is the only one that hangs: from it no thread of any run ever
   gets out of the loop; from any other, a lone caller leaves with the lock initialised for this
   run, whether the word is from an earlier run, half-initialised in one (odd), or current.
   */
  lemma GetsTheLockExactly(run: int, runid: int)
    requires run % 2 == 0 && run != 0
    ensures runid != run - 1 <==> exists ms :: Run(Start(run, runid, 1), ms).threads == [Got]
  {
    if runid == run - 1 {
      forall ms ensures Run(Start(run, runid, 1), ms).threads != [Got] {
        Spins(Start(run, runid, 1), ms);
        assert Run(Start(run, runid, 1), ms).threads[0] != Got;
      }
    } else if runid == run {
      var ms := [Move(0, Call), Move(0, Succeed)];
      RunTwo(Start(run, runid, 1), ms);
      assert Run(Start(run, runid, 1), ms).threads == [Got];
    } else {
      var ms := [Move(0, Call), Move(0, Succeed), Move(0, Succeed), Move(0, Succeed), Move(0, Succeed)];
      RunFive(Start(run, runid, 1), ms);
      assert Run(Start(run, runid, 1), ms).threads == [Got];
    }
  }

  lemma RunTwo(s: System, ms: seq<Move>)
    requires |ms| == 2 && |s.threads| == 1 && forall m | m in ms :: m.i == 0
    ensures Run(s, ms) == Step(Step(s, 0, ms[0].c), 0, ms[1].c)
  {
    var r := Step(s, 0, ms[0].c);
    assert ms[0] in ms && ms[1] in ms;
    assert Run(s, ms) == Run(r, ms[1..]);
    assert ms[1..][0] == ms[1] && ms[1..][1..] == [];
    assert Run(r, ms[1..]) == Run(Step(r, 0, ms[1].c), []);
  }

  lemma RunFive(s: System, ms: seq<Move>)
    requires |ms| == 5 && |s.threads| == 1 && forall m | m in ms :: m.i == 0
    ensures
      var a := Step(s, 0, ms[0].c);
      var b := Step(a, 0, ms[1].c);
      var d := Step(b, 0, ms[2].c);
      Run(s, ms) == Step(Step(d, 0, ms[3].c), 0, ms[4].c)
  {
    var a := Step(s, 0, ms[0].c);
    var b := Step(a, 0, ms[1].c);
    var d := Step(b, 0, ms[2].c);
    assert ms[0] in ms && ms[1] in ms && ms[2] in ms;
    assert Run(s, ms) == Run(a, ms[1..]);
    assert ms[1..][0] == ms[1] && ms[1..][1..] == ms[2..];
    assert Run(a, ms[1..]) == Run(b, ms[2..]);
    assert ms[2..][0] == ms[2] && ms[2..][1..] == ms[3..];
    assert Run(b, ms[2..]) == Run(d, ms[3..]);
    RunTwo(d, ms[3..]);
  }

  // ---------------------------------------------------------------------------------------
  // Everybody gets it

  /** Inside get_lock, on the way to the lock. */
  predicate Trying(t: Thread) { t == Read || t.Claim? || t == Init || t == Publish }

  function Own(ms: seq<Move>, i: int): nat {
    if ms == [] then 0 else (if ms[0].i == i then 1 else 0) + Own(ms[1..], i)
  }

  function After(s: System, m: Move): System { if m.i < |s.threads| then Step(s, m.i, m.c) else s }

  /** Once the word is current it stays so, and nobody else moves thread i. */
  lemma CurrentStays(s: System, m: Move)
    requires Inv(s) && s.runid == s.run
    ensures Inv(After(s, m)) && After(s, m).runid == After(s, m).run == s.run && |After(s, m).threads| == |s.threads|
    ensures forall i | 0 <= i < |s.threads| && i != m.i :: After(s, m).threads[i] == s.threads[i]
    ensures m.i < |s.threads| && s.threads[m.i] == Read ==> After(s, m).threads[m.i] == Got
    ensures m.i < |s.threads| && s.threads[m.i].Claim? ==> After(s, m).threads[m.i] == Read
  {
    if m.i < |s.threads| {
      StepKeeps(s, m.i, m.c);
      assert KnowsClaim(s, s.threads[m.i]);
    }
  }

  /**
   Once the lock is initialised for this run, a thread at the head of the loop has it after one
   step of its own, and one whose compare-and-swap is still to come, and will fail, after two,
   whatever the others do in between.
   */
  lemma {:induction false} LosersGetIt(s: System, ms: seq<Move>, i: nat) returns (k: nat)
    requires Inv(s) && s.runid == s.run && i < |s.threads| && (s.threads[i] == Read || s.threads[i].Claim?)
    requires Own(ms, i) >= if s.threads[i] == Read then 1 else 2
    ensures k <= |ms| && |Run(s, ms[..k]).threads| == |s.threads| && Run(s, ms[..k]).threads[i] == Got
    ensures Own(ms[..k], i) == if s.threads[i] == Read then 1 else 2
    decreases |ms|
  {
    var r := After(s, ms[0]);
    CurrentStays(s, ms[0]);
    if r.threads[i] == Got {
      k := 1;
      assert ms[..1] == [ms[0]] && [ms[0]][1..] == [];
      assert Run(s, ms[..1]) == Run(r, []);
    } else {
      var j := LosersGetIt(r, ms[1..], i);
      k := j + 1;
      assert ms[..k][1..] == ms[1..][..j] && ms[..k][0] == ms[0];
      assert Run(s, ms[..k]) == Run(r, ms[1..][..j]);
    }
  }

  lemma {:induction false} RunJoin(s: System, a: seq<Move>, b: seq<Move>)
    ensures Run(s, a + b) == Run(Run(s, a), b)
    decreases |a|
  {
    if a == [] {
      assert a + b == b;
    } else {
      assert (a + b)[1..] == a[1..] + b;
      RunJoin(After(s, a[0]), a[1..], b);
    }
  }

  /** Thread i steps alone. */
  predicate Only(ms: seq<Move>, i: nat) { forall m | m in ms :: m.i == i }

  /** How many steps of its own, init_lock succeeding, thread i is away from the lock. */
  function Distance(s: System, i: int): int
    requires 0 <= i < |s.threads|
  {
    match s.threads[i]
    case Read => if s.runid == s.run then 1 else 4
    case Claim(tmp) => if s.runid == tmp then 3 else if s.runid == s.run then 2 else 5
    case Init => 2
    case Publish => 1
    case _ => 0
  }

  lemma Closer(s: System, i: nat)
    requires Inv(s) && i < |s.threads| && Trying(s.threads[i])
    requires Busy(s.threads[i]) || s.runid != s.run - 1
    ensures
      var r := Step(s, i, Succeed);
      && Inv(r) && |r.threads| == |s.threads| && Distance(r, i) == Distance(s, i) - 1
      && (r.threads[i] == Got || (Trying(r.threads[i]) && (Busy(r.threads[i]) || r.runid != r.run - 1)))
  {
    StepKeeps(s, i, Succeed);
    if Busy(s.threads[i]) { Alone(s, i); }
    assert KnowsClaim(s, s.threads[i]);
  }

  /** If nobody else is busy, a thread gets the lock within five steps of its own. */
  lemma AloneGetsIt(s: System, i: nat) returns (ms: seq<Move>)
    requires Inv(s) && i < |s.threads| && Trying(s.threads[i])
    requires Busy(s.threads[i]) || forall j | 0 <= j < |s.threads| :: !Busy(s.threads[j])
    ensures Only(ms, i) && |ms| == Distance(s, i) <= 5
    ensures |Run(s, ms).threads| == |s.threads| && Run(s, ms).threads[i] == Got
  {
    ms := StepsToGot(s, i);
  }

  lemma {:induction false} StepsToGot(s: System, i: nat) returns (ms: seq<Move>)
    requires Inv(s) && i < |s.threads| && Trying(s.threads[i])
    requires Busy(s.threads[i]) || s.runid != s.run - 1
    ensures Only(ms, i) && |ms| == Distance(s, i) && |Run(s, ms).threads| == |s.threads| && Run(s, ms).threads[i] == Got
    decreases Distance(s, i)
  {
    var m := Move(i, Succeed);
    var r := Step(s, i, Succeed);
    Closer(s, i);
    if r.threads[i] == Got {
      ms := [m];
      assert [m][1..] == [];
    } else {
      var rest := StepsToGot(r, i);
      ms := [m] + rest;
      assert ms[1..] == rest;
    }
  }

  /** From any state of any run, however far the others have got, everybody on the way to the lock
      can still get it: whoever is initialising it finishes first. */
  lemma EverybodyCanGetIt(run: int, runid: int, n: nat, past: seq<Move>, i: nat) returns (ms: seq<Move>)
    requires run % 2 == 0 && run != 0 && runid != run - 1
    requires i < n && i < |Run(Start(run, runid, n), past).threads| && Trying(Run(Start(run, runid, n), past).threads[i])
    ensures |Run(Start(run, runid, n), past + ms).threads| == n && Run(Start(run, runid, n), past + ms).threads[i] == Got
  {
    var s := Run(Start(run, runid, n), past);
    StartsWell(run, runid, n);
    RunKeeps(Start(run, runid, n), past);
    var first := [];
    if b :| 0 <= b < |s.threads| && Busy(s.threads[b]) && b != i {
      first := BusyEnds(s, b, i);
    }
    RunKeeps(s, first);
    var rest := AloneGetsIt(Run(s, first), i);
    ms := first + rest;
    RunJoin(s, first, rest);
    RunJoin(Start(run, runid, n), past, ms);
  }

  /** The busy thread, left alone, is through in at most two steps, and then nobody is busy. */
  lemma BusyEnds(s: System, b: nat, i: nat) returns (ms: seq<Move>)
    requires Inv(s) && b < |s.threads| && Busy(s.threads[b]) && i < |s.threads| && i != b && Trying(s.threads[i])
    ensures Only(ms, b) && |ms| <= 2
    ensures
      var r := Run(s, ms);
      |r.threads| == |s.threads| && r.threads[i] == s.threads[i] && forall j | 0 <= j < |r.threads| :: !Busy(r.threads[j])
  {
    Alone(s, b);
    var m := Move(b, Succeed);
    var r := Step(s, b, Succeed);
    StepKeeps(s, b, Succeed);
    assert [m][1..] == [];
    if s.threads[b] == Init {
      Alone(r, b);
      ms := [m, m];
      assert ms[1..] == [m];
      assert Run(s, ms) == Run(r, [m]) == Run(Step(r, b, Succeed), []);
    } else {
      ms := [m];
      assert Run(s, ms) == Run(r, []);
    }
  }

  // ---------------------------------------------------------------------------------------
  // From run to run

  /** What a run can leave in the word: its own id, one below it if it was cut short, nothing, or
      what it found. */
  ghost predicate Left(run: int, runid: int, word: int) {
    word == run || word == run - 1 || word == 0 || word == runid
  }

  lemma {:induction false} RunLeaves(s: System, ms: seq<Move>, runid: int)
    requires Inv(s) && Left(s.run, runid, s.runid)
    ensures Left(s.run, runid, Run(s, ms).runid)
    decreases |ms|
  {
    if ms != [] {
      if ms[0].i < |s.threads| {
        StepKeeps(s, ms[0].i, ms[0].c);
        RunLeaves(Step(s, ms[0].i, ms[0].c), ms[1..], runid);
      } else {
        RunLeaves(s, ms[1..], runid);
      }
    }
  }

  /** Run ids that grow by two from a positive even one never meet a word one below them, however
      each run ended: every run initialises the lock afresh. */
  lemma NextRunCanStart(run: int, runid: int, n: nat, ms: seq<Move>)
    requires run % 2 == 0 && 0 < run && runid < run - 1
    ensures Run(Start(run, runid, n), ms).runid < run + 2 - 1
  {
    StartsWell(run, runid, n);
    RunLeaves(Start(run, runid, n), ms, runid);
  }

  /** With ids that grow by one it would: the word of a finished run hangs the next. */
  lemma StepsOfOneHang(run: int, ms: seq<Move>)
    requires run % 2 == 0 && run != 0
    ensures Run(Start(run + 1, run, 1), ms).threads != [Got]
  {
    Spins(Start(run + 1, run, 1), ms);
    assert Run(Start(run + 1, run, 1), ms).threads[0] != Got;
  }
}
