/**
 Wherever tree_insert or tree_free crashes, the pool holds a tree and nothing leaks.
 */
module TreeCrashes {
  import opened PersistentMemory
  import opened Clumps
  import opened PoolLogic
  import opened AllocatorPrograms
  import opened RecoveryWalk
  import opened Recovery
  import opened Reservation
  import opened Atomicity
  import opened SearchTree
  import opened PersistentTree
  import opened TreeInsert
  import opened TreeFree

  // ---------------------------------------------------------------------------------------
  // tree_insert

  /**
   Creating a node is all or nothing: after a crash between any two instructions the pool holds
   the old tree or the tree with s inserted, and nothing else is live; if nothing crashes it
   holds the new one.
   */
  lemma InsertIsAtomic(i: Insertion, end: int, t: Tree, k: nat, img: Mem)
    requires Inserting(i, end, t) && k <= |i.Program()| && CrashAfter(Machine(i.m, []), i.Program(), k, img)
    ensures Holds(img, end, t) || Holds(img, end, Insert(t, i.s, i.P()))
  {
    InsertRuns(i, end, t);
    var s0 := Machine(i.m, []);
    var a, b, c := Ops(i.Reserve()), Stores(i.Fill()), Ops(i.OnActive());
    CrashAfterAppend(s0, a + b + c, Ops(i.Activate()), k, img);
    if k > |a + b + c| {
      ActivateCrash(i, end, t, k - |a + b + c|, img);
    } else {
      CrashAfterAppend(s0, a + b, c, k, img);
      if k > |a + b| {
        PendingFill(i, end, t, k - |a + b|, img);
      } else {
        CrashAfterAppend(s0, a, b, k, img);
        EarlyCrash(i, end, t, k, img);
      }
    }
  }

  /** Up to the last store into the node. */
  lemma EarlyCrash(i: Insertion, end: int, t: Tree, k: nat, img: Mem)
    requires Inserting(i, end, t)
    requires k <= |Ops(i.Reserve())| ==> CrashAfter(Machine(i.m, []), Ops(i.Reserve()), k, img)
    requires k > |Ops(i.Reserve())| ==>
      && k - |Ops(i.Reserve())| <= |Stores(i.Fill())|
      && CrashAfter(Machine(i.Reserved_(), []), Stores(i.Fill()), k - |Ops(i.Reserve())|, img)
    ensures Holds(img, end, t)
  {
    if k > |Ops(i.Reserve())| {
      FillCrash(i, end, t, k - |Ops(i.Reserve())|, img);
    } else {
      ReserveCrash(i, end, t, k, img);
    }
  }

  lemma FillCrash(i: Insertion, end: int, t: Tree, k: nat, img: Mem)
    requires Inserting(i, end, t) && k <= |Stores(i.Fill())|
    requires CrashAfter(Machine(i.Reserved_(), []), Stores(i.Fill()), k, img)
    ensures Holds(img, end, t)
  {
    ReservedFacts(i, end, t);
    CrashAmongStores(i.Reserved_(), i.Fill(), k, img);
    ScratchHolds(i.Reserved_(), img, end, i.c, i.Fill(), t);
  }

  lemma ReserveCrash(i: Insertion, end: int, t: Tree, k: nat, img: Mem)
    requires Inserting(i, end, t) && k <= |Ops(i.Reserve())| && CrashAfter(Machine(i.m, []), Ops(i.Reserve()), k, img)
    ensures Holds(img, end, t)
  {
    ReservedFacts(i, end, t);
    assert CrashPoint(i.m, i.Reserve(), img);
    CrashPointsAreTornRuns(i.m, i.Reserve(), img);
    ReserveTorn(i, end, t, img);
  }

  lemma ActivateCrash(i: Insertion, end: int, t: Tree, k: nat, img: Mem)
    requires Inserting(i, end, t) && k <= |Ops(i.Activate())|
    requires CrashAfter(Machine(ApplyBlocks(i.Reserved_(), i.OnActive()), i.Fill()), Ops(i.Activate()), k, img)
    ensures Holds(img, end, t) || Holds(img, end, Insert(t, i.s, i.P()))
  {
    ActivateOps(i);
    ReadyIsFilled(i);
    PayloadPersisted(i, end, t);
    var s2 := Machine(ApplyBlocks(i.Reserved_(), i.OnActive()), i.Fill());
    var flush := [Persist(i.P(), Read(i.Ready(), i.c) - CHUNK)];
    CrashAfterAppend(s2, flush, Ops(Commit(i.Ready(), i.c)), k, img);
    assert flush[1..] == [] && Run(s2, flush) == Run(Exec(s2, flush[0]), flush[1..]);
    if k > 1 {
      ActivateHolds(i, end, t, k - 1, img);
    } else if k == 1 {
      assert flush[..1] == flush;
      assert CrashAfter(Machine(Filled(i), []), Ops(Commit(Filled(i), i.c)), 0, img);
      ActivateHolds(i, end, t, 0, img);
    } else {
      var n := |Ops(i.OnActive())|;
      assert Ops(i.OnActive())[..n] == Ops(i.OnActive());
      OnActiveRuns(i, end, t);
      assert flush[..0] == [];
      PendingFill(i, end, t, n, img);
    }
  }

  /** Without a crash. */
  lemma InsertCompletes(i: Insertion, end: int, t: Tree)
    requires Inserting(i, end, t)
    ensures
      var r := ApplyBlocks(i.Ready(), i.Activate());
      && Run(Machine(i.m, []), i.Program()) == Machine(r, [])
      && Holds(r, end, Insert(t, i.s, i.P())) && Idle(r, end) && Coalesced(r, end)
  {
    ReadyIsFilled(i);
    CommitHolds(i, end, t);
    var m3 := Filled(i);
    CommitEither(m3, i.c, end);
    var r := ApplyBlocks(m3, Commit(m3, i.c));
    HoldsSame(Committed(m3, i.c, ACTIVATING), r, end, Insert(t, i.s, i.P()));
    TurnedCoalesced(m3, r, end, i.c);
    InsertRunsOn(i, end, t, r);
  }

  lemma InsertRunsOn(i: Insertion, end: int, t: Tree, r: Mem)
    requires Inserting(i, end, t) && r == ApplyBlocks(Filled(i), Commit(Filled(i), i.c))
    ensures Run(Machine(i.m, []), i.Program()) == Machine(r, []) && r == ApplyBlocks(i.Ready(), i.Activate())
  {
    InsertRuns(i, end, t);
    ReadyIsFilled(i);
    PayloadPersisted(i, end, t);
    FilledFacts(i, end, t);
    var s0, m3 := Machine(i.m, []), Filled(i);
    ActivateOps(i);
    RunAppend(s0, Ops(i.Reserve()) + Stores(i.Fill()) + Ops(i.OnActive()), Ops(i.Activate()));
    var s2 := Machine(ApplyBlocks(i.Reserved_(), i.OnActive()), i.Fill());
    var flush := [Persist(i.P(), Read(i.Ready(), i.c) - CHUNK)];
    assert flush[1..] == [] && Run(s2, flush) == Run(Exec(s2, flush[0]), flush[1..]);
    RunAppend(s2, flush, Ops(Commit(m3, i.c)));
    HeadFacts(m3, end, i.c);
    CommitFlushes(m3, i.c);
    CrashIsTornRun(m3, Commit(m3, i.c), m3);
    ApplyBlocksAppend(m3, [PersistPayload(m3, i.c)], Commit(m3, i.c));
    assert [PersistPayload(m3, i.c)][1..] == [] && ApplyBlocks(m3, [PersistPayload(m3, i.c)]) == m3;
  }

  // ---------------------------------------------------------------------------------------
  // tree_free

  lemma HoldsIsLocal(m: Mem, end: int, t: Tree)
    ensures Holds(m, end, t) <==> Local(m, end, ROOT, t, {}, 0) && Sorted(t)
  {
  }

  /**
   tree_free: after a crash between any two instructions the pool holds the tree with subtrees
   cut off (so its map is a restriction of the old one) and nothing else is live; it gets to
   its end exactly when every node has an empty redo slot, and then the tree is empty.
   */
  lemma FreeOnlyPrunes(m: Mem, end: int, t: Tree, img: Mem) returns (u: Tree)
    requires Holds(m, end, t) && Idle(m, end) && CrashPoint(m, FreeTree(m, end, ROOT, t).blocks, img)
    ensures Pruned(u, t) && Holds(img, end, u)
    ensures forall k | k in Counts(u) :: k in Counts(t) && Counts(u)[k] == Counts(t)[k]
  {
    HoldsIsLocal(m, end, t);
    FreeTreeTurns(m, end, ROOT, t, {}, 0);
    CrashPointsAreTornRuns(m, FreeTree(m, end, ROOT, t).blocks, img);
    assert Cut(m, img, end, ROOT, t, {}, 0);
    u :| Pruned(u, t) && Stage(m, img, end, ROOT, u, {}, 0);
    PrunedSorted(u, t);
    PrunedCounts(u, t);
    HoldsIsLocal(img, end, u);
  }

  lemma FreeEmpties(m: Mem, end: int, t: Tree)
    requires Holds(m, end, t) && Idle(m, end)
    ensures
      var f := FreeTree(m, end, ROOT, t);
      var r := ApplyBlocks(m, f.blocks);
      && (f.ok <==> SlotsLeft(m, t)) && (f.ok ==> Holds(r, end, Leaf))
      && Idle(r, end) && (Rested(m, end) ==> Rested(r, end))
      && Run(Machine(m, []), Ops(f.blocks)) == Machine(r, [])
  {
    HoldsIsLocal(m, end, t);
    FreeTreeTurns(m, end, ROOT, t, {}, 0);
    var f := FreeTree(m, end, ROOT, t);
    CrashIsTornRun(m, f.blocks, m);
    HoldsIsLocal(ApplyBlocks(m, f.blocks), end, Leaf);
  }
}
