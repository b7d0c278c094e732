/**
 When pmemalloc_activate and pmemalloc_free are not atomic: a redo list with two different
 values for one word. The lists are cleared in one persist, so a crash may leave only the first
 entries, and recovery then executes those alone.
 */
module Conflicts {
  import opened PersistentMemory
  import opened Clumps
  import opened PoolLogic
  import opened AllocatorPrograms
  import opened CrashSafety
  import opened RecoveryWalk
  import opened Recovery
  import opened Atomicity

  // ---------------------------------------------------------------------------------------
  // What recovery does to cells outside headers, conflicts or not

  /** Outside headers, cells hold what entries i.. of clump c make of them. */
  ghost predicate Redone(m: Mem, n: Mem, c: int, i: int, end: int)
    requires Pool(m, end)
  {
    && Pool(n, end) && AllHeads(n, end) == AllHeads(m, end)
    && (forall k | k in AllHeads(m, end) :: SameHeader(m, n, k))
    && (forall a | !HeaderCell(m, end, a) :: Read(n, a) == Effect(m, c, i, a, Read(m, a)))
  }

  /** One entry executed, then the others. */
  lemma RedoneAfter(m: Mem, n: Mem, p: Mem, c: int, i: int, end: int)
    requires Pool(m, end) && c in AllHeads(m, end) && 0 <= i < NUM_ON && Off(m, c, i) != 0
    requires !HeaderCell(m, end, Off(m, c, i)) && CellStep(m, n, Off(m, c, i), Ptr(m, c, i))
    requires Pool(n, end) && Redone(n, p, c, i + 1, end)
    ensures Redone(m, p, c, i, end)
  {
    HeadersUntouched(m, n, end);
    SameHeaderFacts(m, n, c);
    forall k | k in AllHeads(m, end) ensures SameHeader(m, p, k) {
      assert SameHeader(m, n, k) && SameHeader(n, p, k);
    }
    forall a | !HeaderCell(m, end, a) ensures Read(p, a) == Effect(m, c, i, a, Read(m, a)) {
      SameEffect(m, n, c, i + 1, a, Read(n, a));
    }
  }

  lemma {:induction false} RedoValues(m: Mem, c: int, i: int, end: int)
    requires Pool(m, end) && c in AllHeads(m, end) && SafeTargets(m, end, c)
    requires 0 <= i <= NUM_ON && forall j | 0 <= j < i :: Off(m, c, j) != 0
    ensures Redone(m, ApplyBlocks(m, Redo(m, c, i)), c, i, end)
    decreases NUM_ON - i
  {
    if i < NUM_ON && Off(m, c, i) != 0 {
      var w := Write(Off(m, c, i), Ptr(m, c, i));
      var n := Apply(m, [w]);
      ApplyOne(m, w);
      assert Entry(m, c, i);
      HeadersUntouched(m, n, end);
      SameHeaderFacts(m, n, c);
      RedoValues(n, c, i + 1, end);
      assert ApplyBlocks(m, Redo(m, c, i)) == ApplyBlocks(n, Redo(n, c, i + 1)) by {
        var b := Block([w], w.addr, WORD);
        assert ([b] + Redo(n, c, i + 1))[1..] == Redo(n, c, i + 1);
      }
      RedoneAfter(m, n, ApplyBlocks(n, Redo(n, c, i + 1)), c, i, end);
    }
  }

  /** Header writes of clump c that keep its size: what they leave alone. */
  lemma TailValues(m: Mem, c: int, state: int, end: int)
    requires Pool(m, end) && c in AllHeads(m, end) && 0 <= state <= FREEING
    ensures
      var n := ApplyBlocks(m, [ClearOffs(c), SetWord(c, Size(m, c) + state)]);
      && Turned(m, n, c, end) && State(n, c) == state && (forall i | 0 <= i < NUM_ON :: Off(n, c, i) == 0)
      && (forall a | !HeaderCell(m, end, a) :: Read(n, a) == Read(m, a))
  {
    var n1 := Apply(m, ClearOffs(c).writes);
    ApplyIsTorn(m, ClearOffs(c).writes);
    TornClear(m, c, end, n1);
    ApplyClearOffs(m, c);
    HeaderStepFrame(m, n1, end, c);
    var w := Write(c, Size(m, c) + state);
    var n2 := Apply(n1, [w]);
    ApplyOne(n1, w);
    SetWordArithmetic(n1, n2, end, c, Size(m, c), state);
    HeaderStepFrame(n1, n2, end, c);
    var bs := [ClearOffs(c), SetWord(c, Size(m, c) + state)];
    assert bs[1..] == [SetWord(c, Size(m, c) + state)] && bs[1..][1..] == [];
    assert ApplyBlocks(m, bs) == ApplyBlocks(n1, bs[1..]) == ApplyBlocks(n2, bs[1..][1..]);
    TurnedTrans(m, n1, n2, c, end);
  }

  /** What is left of c once its entries have been executed, its list cleared and its state stored. */
  ghost predicate Finished(m: Mem, p: Mem, c: int, state: int, end: int)
    requires Pool(m, end)
  {
    && Turned(m, p, c, end) && State(p, c) == state && (forall i | 0 <= i < NUM_ON :: Off(p, c, i) == 0)
    && (forall a | !HeaderCell(m, end, a) :: Read(p, a) == Effect(m, c, 0, a, Read(m, a)))
  }

  lemma TailAfterRedo(m: Mem, n: Mem, c: int, state: int, end: int)
    requires Pool(m, end) && c in AllHeads(m, end) && 0 <= state <= FREEING && Redone(m, n, c, 0, end)
    ensures Finished(m, ApplyBlocks(n, [ClearOffs(c), SetWord(c, Size(m, c) + state)]), c, state, end)
  {
    SameHeaderFacts(m, n, c);
    TailValues(n, c, state, end);
    SameHeaderCells(m, n, end);
    TurnedTrans(m, n, ApplyBlocks(n, [ClearOffs(c), SetWord(c, Size(m, c) + state)]), c, end);
  }

  lemma FinishValues(m: Mem, c: int, state: int, end: int)
    requires Pool(m, end) && c in AllHeads(m, end) && SafeTargets(m, end, c) && 0 <= state <= FREEING
    ensures Finished(m, ApplyBlocks(m, Finish(m, c, Size(m, c), state)), c, state, end)
  {
    RedoValues(m, c, 0, end);
    TailAfterRedo(m, ApplyBlocks(m, Redo(m, c, 0)), c, state, end);
    ApplyBlocksAppend(m, Redo(m, c, 0), [ClearOffs(c), SetWord(c, Size(m, c) + state)]);
  }

  lemma RecoverClumpValues(m: Mem, c: int, end: int)
    requires Pool(m, end) && c in AllHeads(m, end) && (Busy(m, c) ==> SafeTargets(m, end, c))
    ensures
      var n := ApplyBlocks(m, RecoverClump(m, c));
      && Turned(m, n, c, end) && !Busy(n, c)
      && (State(n, c) == ACTIVE <==> State(m, c) == ACTIVATING || State(m, c) == ACTIVE)
      && (forall a | !HeaderCell(m, end, a) ::
            Read(n, a) == if Busy(m, c) then Effect(m, c, 0, a, Read(m, a)) else Read(m, a))
  {
    HeadFacts(m, end, c);
    if State(m, c) == RESERVED {
      TailValues(m, c, FREE, end);
    } else if Busy(m, c) {
      FinishValues(m, c, if State(m, c) == ACTIVATING then ACTIVE else FREE, end);
    }
  }

  lemma SameHeaderCells(m: Mem, n: Mem, end: int)
    requires Pool(m, end) && Pool(n, end) && AllHeads(m, end) == AllHeads(n, end)
    ensures forall a :: HeaderCell(m, end, a) <==> HeaderCell(n, end, a)
  {
  }

  /** What pmemalloc_recover, run from clump c, makes of m when only b may be busy. */
  ghost predicate RecoveredFrom(m: Mem, n: Mem, c: int, end: int, b: int)
    requires Pool(m, end)
  {
    && Pool(n, end) && AllHeads(n, end) == AllHeads(m, end)
    && (forall h | h in AllHeads(n, end) && h != b :: !Busy(n, h))
    && (if c <= b then !Busy(n, b) && (State(n, b) == ACTIVE <==> State(m, b) == ACTIVATING || State(m, b) == ACTIVE)
        else SameHeader(m, n, b))
    && (forall a | !HeaderCell(m, end, a) ::
          Read(n, a) == if c <= b && Busy(m, b) then Effect(m, b, 0, a, Read(m, a)) else Read(m, a))
  }

  lemma {:induction false} RecoverFromValues(m: Mem, c: int, end: int, b: int)
    requires Pool(m, end) && HeadOrEnd(m, end, c) && b in AllHeads(m, end) && (c <= b ==> SafeTargets(m, end, b))
    requires forall h | h in AllHeads(m, end) && h != b :: !Busy(m, h)
    ensures RecoveredFrom(m, ApplyBlocks(m, RecoverFrom(m, c, end)), c, end, b)
    decreases end - c
  {
    if c == end {
      HeadFacts(m, end, b);
      assert RecoveredFrom(m, m, c, end, b) && RecoverFrom(m, c, end) == [];
    } else {
      HeadFacts(m, end, c);
      NextHead(m, FIRST, end, c);
      RecoverClumpValues(m, c, end);
      var bs := RecoverClump(m, c);
      var n := ApplyBlocks(m, bs);
      var next := c + Size(m, c);
      RecoverOneHeader(m, n, c, next, end, b);
      RecoverFromValues(n, next, end, b);
      ApplyBlocksAppend(m, bs, RecoverFrom(n, next, end));
      var p := ApplyBlocks(n, RecoverFrom(n, next, end));
      assert p == ApplyBlocks(m, RecoverFrom(m, c, end));
      RecoveredStep(m, n, p, c, next, end, b);
    }
  }

  /** One clump recovered, then the rest. */
  lemma RecoveredStep(m: Mem, n: Mem, p: Mem, c: int, next: int, end: int, b: int)
    requires Pool(m, end) && b in AllHeads(m, end) && Turned(m, n, c, end) && RecoveredFrom(n, p, next, end, b)
    requires !Busy(n, c) && (State(n, c) == ACTIVE <==> State(m, c) == ACTIVATING || State(m, c) == ACTIVE)
    requires forall a | !HeaderCell(m, end, a) ::
               Read(n, a) == if Busy(m, c) then Effect(m, c, 0, a, Read(m, a)) else Read(m, a)
    requires Busy(m, c) ==> c == b
    requires if b == c then next > b else (next <= b <==> c <= b)
    ensures RecoveredFrom(m, p, c, end, b)
  {
    SameHeaderCells(m, n, end);
    if b == c {
      SameHeaderFacts(n, p, b);
    } else if c > b {
      assert SameHeader(m, n, b) && SameHeader(n, p, b);
    } else {
      SameHeaderFacts(m, n, b);
    }
  }

  lemma RecoverOneHeader(m: Mem, n: Mem, c: int, next: int, end: int, b: int)
    requires Pool(m, end) && c in AllHeads(m, end) && b in AllHeads(m, end) && Turned(m, n, c, end)
    requires next == c + Size(m, c) && (c <= b ==> SafeTargets(m, end, b))
    requires forall h | h in AllHeads(m, end) && h != b :: !Busy(m, h)
    requires !Busy(n, c)
    ensures next <= b ==> SafeTargets(n, end, b)
    ensures b != c ==> (next <= b <==> c <= b)
    ensures b == c ==> next > b
    ensures forall h | h in AllHeads(n, end) && h != b :: !Busy(n, h)
  {
    HeadsTile(m, FIRST, end);
    SameHeaderCells(m, n, end);
    forall h | h in AllHeads(n, end) && h != b ensures !Busy(n, h) {
      if h != c { SameHeaderFacts(m, n, h); }
    }
    if b != c {
      SameHeaderFacts(m, n, b);
    }
  }

  /** The whole of recovery: the busy clump settled, its redo entries executed in order. */
  lemma InitValues(m: Mem, end: int, b: int)
    requires Pool(m, end) && b in AllHeads(m, end) && Busy(m, b) && SafeTargets(m, end, b)
    requires forall h | h in AllHeads(m, end) && h != b :: !Busy(m, h)
    ensures
      var r := ApplyBlocks(m, Init(m, end));
      && Pool(r, end) && (b in AllHeads(r, end) && State(r, b) == ACTIVE <==> State(m, b) == ACTIVATING)
      && (forall a | !HeaderCell(m, end, a) :: Read(r, a) == Effect(m, b, 0, a, Read(m, a)))
  {
    FirstHead(m, end);
    HeadFacts(m, end, b);
    RecoverFromValues(m, FIRST, end, b);
    var bs := RecoverFrom(m, FIRST, end);
    var n := ApplyBlocks(m, bs);
    CoalesceAll(n, end);
    ApplyBlocksAppend(m, bs, Coalesce(n, end));
    SameHeaderCells(m, n, end);
    assert forall h | h in AllHeads(n, end) :: HeaderCell(n, end, h);
  }

  // ---------------------------------------------------------------------------------------
  // The crash that exposes a conflict

  lemma {:induction false} TornRunTail(m: Mem, a: seq<Block>, b: seq<Block>, img: Mem)
    requires TornRun(ApplyBlocks(m, a), b, img)
    ensures TornRun(m, a + b, img)
    decreases |a|
  {
    if a == [] {
      assert a + b == b;
    } else {
      assert (a + b)[1..] == a[1..] + b;
      TornRunTail(Apply(m, a[0].writes), a[1..], b, img);
    }
  }

  /** Without a disagreeing entry there is no conflict. */
  lemma LastDisagreement(m: Mem, c: int) returns (i: int)
    requires !ConflictFree(m, c)
    ensures Entry(m, c, i) && Effect(m, c, 0, Off(m, c, i), 0) != Ptr(m, c, i)
    ensures forall v :: Effect(m, c, 0, Off(m, c, i), v) == Effect(m, c, 0, Off(m, c, i), 0)
  {
    var p, q :| Entry(m, c, p) && Entry(m, c, q) && Off(m, c, p) == Off(m, c, q) && Ptr(m, c, p) != Ptr(m, c, q);
    i := if Effect(m, c, 0, Off(m, c, p), 0) != Ptr(m, c, p) then p else q;
    forall v ensures Effect(m, c, 0, Off(m, c, i), v) == Effect(m, c, 0, Off(m, c, i), 0) {
      EffectOfTarget(m, c, i, v, 0);
    }
  }

  lemma EffectOfTarget(m: Mem, c: int, i: int, v: int, w: int)
    requires Entry(m, c, i)
    ensures Effect(m, c, 0, Off(m, c, i), v) == Effect(m, c, 0, Off(m, c, i), w)
  {
    var a := Off(m, c, i);
    assert Effect(m, c, 3, a, v) == v && Effect(m, c, 3, a, w) == w;
    EffectTail(m, c, a, v);
    EffectTail(m, c, a, w);
  }

  /** With the entries after i gone, entry i is the last to set its word. */
  lemma EffectOfPrefix(m: Mem, n: Mem, c: int, i: int, v: int)
    requires Entry(m, c, i)
    requires forall j | 0 <= j < NUM_ON :: Off(n, c, j) == if j <= i then Off(m, c, j) else 0
    requires forall j | 0 <= j < NUM_ON :: Ptr(n, c, j) == Ptr(m, c, j)
    ensures Effect(n, c, 0, Off(m, c, i), v) == Ptr(m, c, i)
  {
    var a := Off(m, c, i);
    assert Effect(n, c, 3, a, v) == v;
    EffectTail(n, c, a, v);
    EffectTail(n, c, a, Ptr(n, c, 0));
  }

  function ClearAfter(n: Mem, c: int, i: int): Mem {
    var n1 := if i < 1 then n[OffAddr(c, 1) := 0] else n;
    if i < 2 then n1[OffAddr(c, 2) := 0] else n1
  }

  lemma ClearAfterFacts(n: Mem, c: int, i: int)
    requires 0 <= i
    ensures
      var x := ClearAfter(n, c, i);
      && Torn(n, ClearOffs(c).writes, x) && Read(x, c) == Read(n, c)
      && (forall a | !(c <= a < c + CHUNK) :: Read(x, a) == Read(n, a))
      && (forall j | 0 <= j < NUM_ON :: Off(x, c, j) == if j <= i then Off(n, c, j) else 0)
      && (forall j | 0 <= j < NUM_ON :: Ptr(x, c, j) == Ptr(n, c, j))
  {
  }

  /** The image in which the redo stores are done and only entries 0..i are left. */
  lemma PartlyCleared(m: Mem, c: int, end: int, i: int) returns (x: Mem)
    requires Pool(m, end) && c in AllHeads(m, end) && SafeTargets(m, end, c) && Entry(m, c, i)
    ensures Torn(ApplyBlocks(m, Redo(m, c, 0)), ClearOffs(c).writes, x)
    ensures Pool(x, end) && AllHeads(x, end) == AllHeads(m, end)
    ensures Read(x, c) == Read(m, c) && forall k | k in AllHeads(m, end) && k != c :: SameHeader(m, x, k)
    ensures forall j | 0 <= j < NUM_ON :: Off(x, c, j) == if j <= i then Off(m, c, j) else 0
    ensures forall j | 0 <= j < NUM_ON :: Ptr(x, c, j) == Ptr(m, c, j)
    ensures forall a :: HeaderCell(x, end, a) <==> HeaderCell(m, end, a)
  {
    RedoValues(m, c, 0, end);
    var n := ApplyBlocks(m, Redo(m, c, 0));
    SameHeaderFacts(m, n, c);
    x := ClearAfter(n, c, i);
    ClearAfterFacts(n, c, i);
    HeadFacts(m, end, c);
    assert HeaderStep(n, x, end, c);
    HeaderStepFrame(n, x, end, c);
    forall k | k in AllHeads(m, end) && k != c ensures SameHeader(m, x, k) {
      assert SameHeader(m, n, k) && SameHeader(n, x, k);
    }
    SameHeaderCells(m, x, end);
  }

  /** A conflict lets a crash of the committed operation recover to a wrong value of a target. */
  lemma ConflictGoesWrong(m: Mem, c: int, state: int, final: int, end: int) returns (x: Mem, a: int)
    requires Idle(m, end) && c in AllHeads(m, end) && SafeTargets(m, end, c) && !ConflictFree(m, c)
    requires (state == ACTIVATING && final == ACTIVE) || (state == FREEING && final == FREE)
    ensures TornRun(m, [SetWord(c, Size(m, c) + state)] + Finish(Committed(m, c, state), c, Size(m, c), final), x)
    ensures exists i :: Entry(m, c, i) && a == Off(m, c, i)
    ensures
      var r := ApplyBlocks(x, Init(x, end));
      && Pool(r, end) && (c in AllHeads(r, end) && State(r, c) == ACTIVE <==> state == ACTIVATING)
      && Read(r, a) != Effect(m, c, 0, a, Read(m, a))
  {
    CommittedFrame(m, c, state, end);
    var n := Committed(m, c, state);
    var i := LastDisagreement(m, c);
    a := Off(m, c, i);
    assert Entry(n, c, i);
    forall j ensures Entry(n, c, j) <==> Entry(m, c, j) {}
    assert SafeTargets(n, end, c);
    x := PartlyCleared(n, c, end, i);
    forall h | h in AllHeads(x, end) && h != c ensures !Busy(x, h) {
      SameHeaderFacts(n, x, h);
    }
    forall j | Entry(x, c, j) ensures Entry(n, c, j) {}
    InitValues(x, end, c);
    EffectOfPrefix(n, x, c, i, Read(x, a));
    assert a == Off(m, c, i) && Entry(m, c, i);
    ExposedBy(m, c, state, final, x);
  }

  lemma ExposedBy(m: Mem, c: int, state: int, final: int, x: Mem)
    requires Torn(ApplyBlocks(Committed(m, c, state), Redo(Committed(m, c, state), c, 0)), ClearOffs(c).writes, x)
    ensures TornRun(m, [SetWord(c, Size(m, c) + state)] + Finish(Committed(m, c, state), c, Size(m, c), final), x)
  {
    var n := Committed(m, c, state);
    var redo, tail := Redo(n, c, 0), [ClearOffs(c), SetWord(c, Size(m, c) + final)];
    assert tail[0] == ClearOffs(c) && TornRun(ApplyBlocks(n, redo), tail, x);
    TornRunTail(n, redo, tail, x);
    var b := SetWord(c, Size(m, c) + state);
    assert ([b] + (redo + tail))[1..] == redo + tail;
  }

  // ---------------------------------------------------------------------------------------
  // Exactly when the operations are atomic

  /** Crash the operation `bs` on clump c, run from s, between any two instructions, then crash
      recovery any number of times: the next completed recovery has undone or completed it. */
  ghost predicate Atomic(s: Machine, bs: seq<Block>, end: int, c: int, active: bool)
    requires Pool(View(s), end)
  {
    forall x, k: nat, img | CrashFrom(s, bs, x) && CrashedRecoveries(x, end, k, img) ::
      || Undone(View(s), ApplyBlocks(img, Init(img, end)), end)
      || Completed(View(s), ApplyBlocks(img, Init(img, end)), end, c, active)
  }

  /**
   pmemalloc_activate, run while any of the caller's stores into the payload are still pending, is
   atomic exactly when its redo list does not give one word two values.
   */
  lemma ActivateAtomicExactly(d: Mem, loose: seq<Write>, c: int, end: int)
    requires Idle(Apply(d, loose), end) && c in AllHeads(Apply(d, loose), end) && State(Apply(d, loose), c) == RESERVED
    requires LiveTargets(Apply(d, loose), end, c, true) && Filling(Apply(d, loose), c, loose)
    ensures Atomic(Machine(d, loose), Activation(Apply(d, loose), c), end, c, true) <==> ConflictFree(Apply(d, loose), c)
  {
    if ConflictFree(Apply(d, loose), c) {
      forall x, k: nat, img | CrashFrom(Machine(d, loose), Activation(Apply(d, loose), c), x) && CrashedRecoveries(x, end, k, img)
        ensures Undone(Apply(d, loose), ApplyBlocks(img, Init(img, end)), end)
             || Completed(Apply(d, loose), ApplyBlocks(img, Init(img, end)), end, c, true)
      {
        ActivateIsAtomic(d, loose, c, end, x, k, img);
      }
    } else {
      ActivateConflictGoesWrong(d, loose, c, end);
    }
  }

  lemma ActivateConflictGoesWrong(d: Mem, loose: seq<Write>, c: int, end: int)
    requires Idle(Apply(d, loose), end) && c in AllHeads(Apply(d, loose), end) && State(Apply(d, loose), c) == RESERVED
    requires LiveTargets(Apply(d, loose), end, c, true) && Filling(Apply(d, loose), c, loose)
    requires !ConflictFree(Apply(d, loose), c)
    ensures !Atomic(Machine(d, loose), Activation(Apply(d, loose), c), end, c, true)
  {
    var m := Apply(d, loose);
    LiveTargetsAreSafe(m, end, c, true);
    HeadFacts(m, end, c);
    var x, a := ConflictGoesWrong(m, c, ACTIVATING, ACTIVE, end);
    CommitCrash(d, loose, c, x);
    NeitherOutcome(m, ApplyBlocks(x, Init(x, end)), c, end, a);
    Refutes(Machine(d, loose), Activation(m, c), end, c, true, x);
  }

  lemma CommitCrash(d: Mem, loose: seq<Write>, c: int, x: Mem)
    requires c % CHUNK == 0 && Filling(Apply(d, loose), c, loose)
    requires
      var m := Apply(d, loose);
      TornRun(m, [SetWord(c, Size(m, c) + ACTIVATING)] + Finish(Committed(m, c, ACTIVATING), c, Size(m, c), ACTIVE), x)
    ensures CrashFrom(Machine(d, loose), Activation(Apply(d, loose), c), x)
  {
    ActivationCrashes(d, loose, c, x);
  }

  lemma NeitherOutcome(m: Mem, r: Mem, c: int, end: int, a: int)
    requires Pool(m, end) && State(m, c) == RESERVED && StillLive(m, end, c, true, a)
    requires Pool(r, end) && c in AllHeads(r, end) && State(r, c) == ACTIVE && Read(r, a) != Effect(m, c, 0, a, Read(m, a))
    ensures !Undone(m, r, end) && !Completed(m, r, end, c, true)
  {
    assert !Live(m, end, c);
  }

  /** One crash after which recovery has neither undone nor completed the operation. */
  lemma Refutes(s: Machine, bs: seq<Block>, end: int, c: int, active: bool, x: Mem)
    requires Pool(View(s), end) && CrashFrom(s, bs, x)
    requires !Undone(View(s), ApplyBlocks(x, Init(x, end)), end)
    requires !Completed(View(s), ApplyBlocks(x, Init(x, end)), end, c, active)
    ensures !Atomic(s, bs, end, c, active)
  {
    assert CrashedRecoveries(x, end, 0, x);
  }

  /** pmemalloc_free of an ACTIVE clump likewise. */
  lemma FreeAtomicExactly(m: Mem, c: int, end: int)
    requires Idle(m, end) && c in AllHeads(m, end) && State(m, c) == ACTIVE && LiveTargets(m, end, c, false)
    ensures Atomic(Machine(m, []), FreeClump(m, c, end), end, c, false) <==> ConflictFree(m, c)
  {
    HeadFacts(m, end, c);
    FreeFlushes(m, c, end);
    if ConflictFree(m, c) {
      forall x, k: nat, img | CrashPoint(m, FreeClump(m, c, end), x) && CrashedRecoveries(x, end, k, img)
        ensures Undone(m, ApplyBlocks(img, Init(img, end)), end)
             || Completed(m, ApplyBlocks(img, Init(img, end)), end, c, false)
      {
        CrashPointsAreTornRuns(m, FreeClump(m, c, end), x);
        FreeIsAtomic(m, c, end, x, k, img);
      }
    } else {
      FreeConflictGoesWrong(m, c, end);
    }
  }

  lemma FreeConflictGoesWrong(m: Mem, c: int, end: int)
    requires Idle(m, end) && c in AllHeads(m, end) && State(m, c) == ACTIVE && LiveTargets(m, end, c, false)
    requires SelfFlushingAll(FreeClump(m, c, end)) && !ConflictFree(m, c)
    ensures !Atomic(Machine(m, []), FreeClump(m, c, end), end, c, false)
  {
    LiveTargetsAreSafe(m, end, c, false);
    var x, a := ConflictGoesWrong(m, c, FREEING, FREE, end);
    TornRunPrefix(m, Release(m, c), Coalesce(ApplyBlocks(m, Release(m, c)), end), x);
    CrashPointsAreTornRuns(m, FreeClump(m, c, end), x);
    assert StillLive(m, end, c, false, a);
    assert Live(m, end, c);
    Refutes(Machine(m, []), FreeClump(m, c, end), end, c, false, x);
  }

  lemma {:induction false} TornRunPrefix(m: Mem, a: seq<Block>, b: seq<Block>, img: Mem)
    requires TornRun(m, a, img)
    ensures TornRun(m, a + b, img)
    decreases |a|
  {
    if a == [] {
      assert a + b == b;
      if b != [] {
        forall x ensures Read(img, x) == Read(m, x) || Write(x, Read(img, x)) in b[0].writes {
          assert Torn(m, [], img);
        }
      }
    } else {
      assert (a + b)[1..] == a[1..] + b;
      if !Torn(m, a[0].writes, img) {
        TornRunPrefix(Apply(m, a[0].writes), a[1..], b, img);
      }
    }
  }
}
