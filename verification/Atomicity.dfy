/**
 The all-or-nothing effect of pmemalloc_activate and pmemalloc_free under any number of crashes.
 */
module Atomicity {
  import opened PersistentMemory
  import opened PendingStores
  import opened Clumps
  import opened PoolLogic
  import opened AllocatorPrograms
  import opened CrashSafety
  import opened RecoveryWalk
  import opened Recovery
  import opened Reservation

  // ---------------------------------------------------------------------------------------
  // Activating and freeing

  /** Setting clump c to a busy state: from here on recovery completes the operation. */
  function Committed(m: Mem, c: int, state: int): Mem { Apply(m, SetWord(c, Size(m, c) + state).writes) }

  /** Live once clump c has been activated (or freed). */
  ghost predicate StillLive(m: Mem, end: int, c: int, active: bool, a: int)
    requires Pool(m, end)
  {
    if PayloadCell(m, c, a) then active else LiveCell(m, end, a)
  }

  /** The targets that c records are live words once the operation on c has completed. */
  ghost predicate LiveTargets(m: Mem, end: int, c: int, active: bool)
    requires Pool(m, end)
  {
    forall i | Entry(m, c, i) :: StillLive(m, end, c, active, Off(m, c, i))
  }

  lemma LiveTargetsAreSafe(m: Mem, end: int, c: int, active: bool)
    requires Pool(m, end) && c in AllHeads(m, end) && LiveTargets(m, end, c, active)
    ensures SafeTargets(m, end, c)
  {
    forall i | Entry(m, c, i) ensures !HeaderCell(m, end, Off(m, c, i)) {
      if PayloadCell(m, c, Off(m, c, i)) {
        PayloadsDisjoint(m, end, c, c, Off(m, c, i));
      } else {
        LiveCellsAreNotHeaders(m, end, Off(m, c, i));
      }
    }
  }

  /** The committed memory: c busy, everything else as before. */
  lemma CommittedFrame(m: Mem, c: int, state: int, end: int)
    requires Idle(m, end) && c in AllHeads(m, end) && (state == ACTIVATING || state == FREEING)
    ensures
      var n := Committed(m, c, state);
      && Pool(n, end) && OneBusy(n, end) && AllHeads(n, end) == AllHeads(m, end)
      && State(n, c) == state && Size(n, c) == Size(m, c)
      && CellStep(m, n, c, Size(m, c) + state)
      && (forall a :: HeaderCell(n, end, a) <==> HeaderCell(m, end, a))
      && (forall i | 0 <= i < NUM_ON :: Off(n, c, i) == Off(m, c, i) && Ptr(n, c, i) == Ptr(m, c, i))
      && (forall h | h in AllHeads(m, end) && h != c :: SameHeader(m, n, h) && State(n, h) == State(m, h))
  {
    var w := Write(c, Size(m, c) + state);
    var n := Apply(m, [w]);
    ApplyOne(m, w);
    SetWordArithmetic(m, n, end, c, Size(m, c), state);
    HeaderStepFrame(m, n, end, c);
    forall h | h in AllHeads(m, end) && h != c ensures SameHeader(m, n, h) && State(n, h) == State(m, h) {
      SameHeaderFacts(m, n, h);
    }
  }

  /** Its meaning: c live or not, and cells promised their redo values. */
  lemma CommittedMeaning(m: Mem, c: int, state: int, end: int)
    requires Idle(m, end) && c in AllHeads(m, end) && (state == ACTIVATING || state == FREEING)
    requires SafeTargets(m, end, c)
    ensures
      var n := Committed(m, c, state);
      && Pool(n, end) && OneBusy(n, end) && AllHeads(n, end) == AllHeads(m, end)
      && State(n, c) == state && Size(n, c) == Size(m, c) && CellStep(m, n, c, Size(m, c) + state)
      && SafeTargets(n, end, c) && Good(n, end)
      && (forall a :: Contested(n, end, a) <==> !Agreed(m, c, a))
      && (forall h :: Live(n, end, h) <==> if h == c then state == ACTIVATING else Live(m, end, h))
      && (forall h | h in AllHeads(m, end) && h != c :: SameHeader(m, n, h))
      && (forall a | !HeaderCell(m, end, a) :: Final(n, end, a) == Effect(m, c, 0, a, Read(m, a)))
  {
    CommittedFrame(m, c, state, end);
    var n := Committed(m, c, state);
    forall i ensures Entry(n, c, i) <==> Entry(m, c, i) {}
    forall a | !HeaderCell(m, end, a) ensures Final(n, end, a) == Effect(m, c, 0, a, Read(m, a)) {
      BusyFinal(n, end, c, a);
      SameEffect(m, n, c, 0, a, Read(m, a));
      assert a != c by { assert HeaderCell(m, end, c); }
    }
    forall a ensures Contested(n, end, a) <==> !Agreed(m, c, a) {
      BusyContested(n, end, c, a);
    }
  }

  /** Every crash image of the program means what m means or what n means. */
  ghost predicate Either(m: Mem, n: Mem, bs: seq<Block>, end: int) {
    && Pool(m, end) && Pool(n, end)
    && forall img | TornRun(m, bs, img) :: Good(img, end) && (SameLogic(m, img, end) || SameLogic(n, img, end))
  }

  lemma EitherKeeps(m: Mem, n: Mem, b: Block, rest: seq<Block>, end: int)
    requires Good(m, end) && Good(n, end) && n == Apply(m, b.writes) && |b.writes| == 1
    requires Keeps(n, rest, end)
    ensures Either(m, n, [b] + rest, end)
    ensures ApplyBlocks(m, [b] + rest) == ApplyBlocks(n, rest)
  {
    var w := b.writes[0];
    assert b.writes == [w];
    ApplyOne(m, w);
    assert ([b] + rest)[1..] == rest;
    forall img | TornRun(m, [b] + rest, img)
      ensures Good(img, end) && (SameLogic(m, img, end) || SameLogic(n, img, end))
    {
      if Torn(m, [w], img) {
        if CellStep(m, img, w.addr, w.val) {
          forall a ensures Read(img, a) == Read(n, a) {}
          ScratchKeeps(n, img, end);
        } else {
          ScratchKeeps(m, img, end);
        }
      }
    }
  }

  lemma CommitEither(m: Mem, c: int, end: int)
    requires Idle(m, end) && c in AllHeads(m, end) && State(m, c) == RESERVED
    requires SafeTargets(m, end, c)
    ensures
      var n := Committed(m, c, ACTIVATING);
      var r := ApplyBlocks(m, Commit(m, c));
      && Good(n, end) && Either(m, n, Commit(m, c), end) && Good(r, end) && SameLogic(n, r, end)
      && Idle(r, end) && State(r, c) == ACTIVE && Turned(m, r, c, end)
      && (forall i | 0 <= i < NUM_ON :: Off(r, c, i) == 0)
  {
    CommittedMeaning(m, c, ACTIVATING, end);
    IdleIsGood(m, end);
    var n := Committed(m, c, ACTIVATING);
    FinishKeeps(n, c, ACTIVE, end);
    var rest := Finish(n, c, Size(m, c), ACTIVE);
    EitherKeeps(m, n, SetWord(c, Size(m, c) + ACTIVATING), rest, end);
    KeepsEnd(n, rest, end);
    FinishedIdle(m, n, ApplyBlocks(n, rest), c, end);
  }

  lemma FinishedIdle(m: Mem, n: Mem, r: Mem, c: int, end: int)
    requires Idle(m, end) && Pool(n, end) && AllHeads(n, end) == AllHeads(m, end) && Size(n, c) == Size(m, c)
    requires forall h | h in AllHeads(m, end) && h != c :: SameHeader(m, n, h)
    requires Turned(n, r, c, end) && !Busy(r, c)
    ensures Idle(r, end) && Turned(m, r, c, end)
  {
    forall h | h in AllHeads(m, end) && h != c ensures SameHeader(m, r, h) && !Busy(r, h) {
      assert SameHeader(m, n, h) && SameHeader(n, r, h);
      SameHeaderFacts(m, r, h);
    }
  }

  lemma ReleaseEither(m: Mem, c: int, end: int)
    requires Idle(m, end) && c in AllHeads(m, end) && State(m, c) == ACTIVE
    requires SafeTargets(m, end, c)
    ensures
      var n := Committed(m, c, FREEING);
      var r := ApplyBlocks(m, Release(m, c));
      && Good(n, end) && Either(m, n, Release(m, c), end) && Good(r, end) && SameLogic(n, r, end)
      && Idle(r, end) && State(r, c) == FREE && Turned(m, r, c, end)
  {
    CommittedMeaning(m, c, FREEING, end);
    IdleIsGood(m, end);
    var n := Committed(m, c, FREEING);
    FinishKeeps(n, c, FREE, end);
    var rest := Finish(n, c, Size(m, c), FREE);
    EitherKeeps(m, n, SetWord(c, Size(m, c) + FREEING), rest, end);
    KeepsEnd(n, rest, end);
    FinishedIdle(m, n, ApplyBlocks(n, rest), c, end);
  }

  /** pmemalloc_free of an ACTIVE clump, coalescing included. */
  lemma FreeEither(m: Mem, c: int, end: int)
    requires Idle(m, end) && c in AllHeads(m, end) && State(m, c) == ACTIVE
    requires SafeTargets(m, end, c)
    ensures
      var n := Committed(m, c, FREEING);
      var r := ApplyBlocks(m, FreeClump(m, c, end));
      && Good(n, end) && Either(m, n, FreeClump(m, c, end), end)
      && Idle(r, end) && Coalesced(r, end) && SameLogic(n, r, end)
  {
    ReleaseEither(m, c, end);
    var n := Committed(m, c, FREEING);
    var bs := Release(m, c);
    var p := ApplyBlocks(m, bs);
    CoalesceAll(p, end);
    KeepsEnd(p, Coalesce(p, end), end);
    SameLogicTrans(n, p, ApplyBlocks(p, Coalesce(p, end)), end);
    ApplyBlocksAppend(m, bs, Coalesce(p, end));
    forall img | TornRun(m, FreeClump(m, c, end), img)
      ensures Good(img, end) && (SameLogic(m, img, end) || SameLogic(n, img, end))
    {
      TornRunAppend(m, bs, Coalesce(p, end), img);
      if !TornRun(m, bs, img) {
        SameLogicTrans(n, p, img, end);
      }
    }
  }

  /** pmemalloc_free of a reservation that was never activated. */
  lemma FreeReservation(m: Mem, c: int, end: int)
    requires Idle(m, end) && c in AllHeads(m, end) && State(m, c) == RESERVED
    ensures Keeps(m, FreeClump(m, c, end), end)
    ensures
      var r := ApplyBlocks(m, FreeClump(m, c, end));
      Idle(r, end) && Coalesced(r, end)
  {
    IdleIsGood(m, end);
    HeadsTile(m, FIRST, end);
    SetStateKeeps(m, c, FREE, end);
    var bs := Release(m, c);
    var p := ApplyBlocks(m, bs);
    forall h | h in AllHeads(p, end) ensures !Busy(p, h) {
      if h != c { SameHeaderFacts(m, p, h); }
    }
    CoalesceAll(p, end);
    KeepsAppend(m, bs, Coalesce(p, end), end);
  }

  /** The pool recovered from r holds the old contents of m: clump c not activated (not freed),
      no target changed. */
  ghost predicate Undone(m: Mem, r: Mem, end: int)
    requires Pool(m, end)
  {
    && Rested(r, end)
    && (forall h :: h in AllHeads(r, end) && State(r, h) == ACTIVE <==> Live(m, end, h))
    && (forall a | LiveCell(m, end, a) :: Read(r, a) == Read(m, a))
  }

  /** It holds the new contents: c ACTIVE (resp. gone) and every recorded assignment made. */
  ghost predicate Completed(m: Mem, r: Mem, end: int, c: int, active: bool)
    requires Pool(m, end)
  {
    && Rested(r, end)
    && (forall h :: h in AllHeads(r, end) && State(r, h) == ACTIVE <==> if h == c then active else Live(m, end, h))
    && (forall a | StillLive(m, end, c, active, a) :: Read(r, a) == Effect(m, c, 0, a, Read(m, a)))
  }

  /** The same, but for words to which the redo list of c gives two values. */
  ghost predicate CompletedWhereAgreed(m: Mem, r: Mem, end: int, c: int, active: bool)
    requires Pool(m, end)
  {
    && Rested(r, end)
    && (forall h :: h in AllHeads(r, end) && State(r, h) == ACTIVE <==> if h == c then active else Live(m, end, h))
    && (forall a | StillLive(m, end, c, active, a) && Agreed(m, c, a) :: Read(r, a) == Effect(m, c, 0, a, Read(m, a)))
  }

  lemma OutcomeIfAgreed(m: Mem, r: Mem, end: int, c: int, active: bool)
    requires Pool(m, end) && (Undone(m, r, end) || CompletedWhereAgreed(m, r, end, c, active))
    ensures ConflictFree(m, c) ==> Undone(m, r, end) || Completed(m, r, end, c, active)
  {
    if ConflictFree(m, c) {
      forall a ensures Agreed(m, c, a) {}
    }
  }

  lemma RecoveredFromSame(m: Mem, x: Mem, r: Mem, end: int)
    requires Pool(m, end) && Pool(x, end) && SameLogic(m, x, end) && Settled(r, end) && SameLogic(x, r, end)
    ensures forall h :: h in AllHeads(r, end) && State(r, h) == ACTIVE <==> Live(m, end, h)
    ensures forall a | LiveCell(m, end, a) && !Contested(m, end, a) :: Read(r, a) == Final(m, end, a)
  {
    SameLogicTrans(m, x, r, end);
    SettledFacts(r, end);
  }

  /** An image that means what m means recovers to the contents of m. */
  lemma UndoneFromSame(m: Mem, end: int, x: Mem, k: nat, img: Mem)
    requires Idle(m, end) && Good(x, end) && SameLogic(m, x, end) && CrashedRecoveries(x, end, k, img)
    ensures Undone(m, ApplyBlocks(img, Init(img, end)), end)
  {
    RecoveryIsCrashProof(x, end, k, img);
    RecoveredFromSame(m, x, ApplyBlocks(img, Init(img, end)), end);
    IdleIsGood(m, end);
  }

  /** An image meaning the old or the committed memory recovers to the old or new contents. */
  lemma OutcomeOf(m: Mem, c: int, state: int, end: int, x: Mem, k: nat, img: Mem)
    requires Idle(m, end) && c in AllHeads(m, end) && SafeTargets(m, end, c)
    requires (state == ACTIVATING && State(m, c) == RESERVED) || (state == FREEING && State(m, c) == ACTIVE)
    requires Pool(Committed(m, c, state), end) && Good(x, end)
    requires SameLogic(m, x, end) || SameLogic(Committed(m, c, state), x, end)
    requires CrashedRecoveries(x, end, k, img)
    ensures
      var r := ApplyBlocks(img, Init(img, end));
      Undone(m, r, end) || CompletedWhereAgreed(m, r, end, c, state == ACTIVATING)
  {
    if SameLogic(m, x, end) {
      UndoneFromSame(m, end, x, k, img);
    } else {
      CompletedFromSame(m, c, state, end, x, k, img);
    }
  }

  /** An image that means what the committed memory means recovers to the new contents. */
  lemma CompletedFromSame(m: Mem, c: int, state: int, end: int, x: Mem, k: nat, img: Mem)
    requires Idle(m, end) && c in AllHeads(m, end) && SafeTargets(m, end, c)
    requires (state == ACTIVATING && State(m, c) == RESERVED) || (state == FREEING && State(m, c) == ACTIVE)
    requires Pool(Committed(m, c, state), end) && Good(x, end) && SameLogic(Committed(m, c, state), x, end)
    requires CrashedRecoveries(x, end, k, img)
    ensures CompletedWhereAgreed(m, ApplyBlocks(img, Init(img, end)), end, c, state == ACTIVATING)
  {
    var n, r := Committed(m, c, state), ApplyBlocks(img, Init(img, end));
    RecoveryIsCrashProof(x, end, k, img);
    RecoveredFromSame(n, x, r, end);
    CommittedLive(m, c, state, end);
    CompletedFacts(m, n, r, c, state, end);
  }

  lemma CommittedLive(m: Mem, c: int, state: int, end: int)
    requires Idle(m, end) && c in AllHeads(m, end) && (state == ACTIVATING || state == FREEING) && SafeTargets(m, end, c)
    requires Pool(Committed(m, c, state), end)
    ensures forall h :: Live(Committed(m, c, state), end, h) <==> if h == c then state == ACTIVATING else Live(m, end, h)
  {
    CommittedMeaning(m, c, state, end);
  }

  lemma CompletedFacts(m: Mem, n: Mem, r: Mem, c: int, state: int, end: int)
    requires Idle(m, end) && c in AllHeads(m, end) && SafeTargets(m, end, c)
    requires (state == ACTIVATING && State(m, c) == RESERVED) || (state == FREEING && State(m, c) == ACTIVE)
    requires n == Committed(m, c, state)
    requires Pool(n, end)
    requires forall a | LiveCell(n, end, a) && !Contested(n, end, a) :: Read(r, a) == Final(n, end, a)
    ensures forall a | StillLive(m, end, c, state == ACTIVATING, a) && Agreed(m, c, a) ::
              Read(r, a) == Effect(m, c, 0, a, Read(m, a))
  {
    CommittedMeaning(m, c, state, end);
    forall a | StillLive(m, end, c, state == ACTIVATING, a) && Agreed(m, c, a)
      ensures Read(r, a) == Effect(m, c, 0, a, Read(m, a))
    {
      if PayloadCell(m, c, a) && state == ACTIVATING {
        PayloadsDisjoint(m, end, c, c, a);
        assert Live(n, end, c) && PayloadCell(n, c, a);
      } else {
        LiveCellsAreNotHeaders(m, end, a);
        if !(STATIC <= a < STATIC_END) {
          var h :| Live(m, end, h) && PayloadCell(m, h, a);
          SameHeaderFacts(m, n, h);
          assert Live(n, end, h) && PayloadCell(n, h, a);
        }
      }
      assert LiveCell(n, end, a);
    }
  }

  /** From the committing store on. */
  lemma CommitIsAtomic(m: Mem, c: int, end: int, x: Mem, k: nat, img: Mem)
    requires Idle(m, end) && c in AllHeads(m, end) && State(m, c) == RESERVED
    requires LiveTargets(m, end, c, true)
    requires TornRun(m, Commit(m, c), x) && CrashedRecoveries(x, end, k, img)
    ensures
      var r := ApplyBlocks(img, Init(img, end));
      Undone(m, r, end) || CompletedWhereAgreed(m, r, end, c, true)
  {
    LiveTargetsAreSafe(m, end, c, true);
    CommitEither(m, c, end);
    OutcomeOf(m, c, ACTIVATING, end, x, k, img);
  }

  /** The caller's stores into the payload of c that are still pending. */
  ghost predicate Filling(m: Mem, c: int, loose: seq<Write>) {
    forall w | w in loose :: PayloadCell(m, c, w.addr)
  }

  /** The persist that activation starts with makes the payload durable; before it is through,
      nothing but that payload is at stake. */
  lemma ActivationSplits(d: Mem, loose: seq<Write>, c: int, x: Mem)
    requires c % CHUNK == 0 && Filling(Apply(d, loose), c, loose)
    ensures
      var m := Apply(d, loose);
      CrashDuring(Machine(d, loose), Activation(m, c), x) <==> Torn(d, loose, x) || TornRun(m, Commit(m, c), x)
  {
    var m := Apply(d, loose);
    var b := PersistPayload(m, c);
    forall w | w in loose ensures Flushes(b.addr, b.len, w.addr) {
      PayloadFlushes(c, Read(m, c), w.addr);
    }
    assert loose + b.writes == loose && Activation(m, c)[1..] == Commit(m, c);
    FlushAll(loose, b.addr, b.len);
    assert ExecBlock(Machine(d, loose), b) == Machine(m, []);
    CommitFlushes(m, c);
    CrashIsTornRun(m, Commit(m, c), x);
  }

  lemma ActivationCrashes(d: Mem, loose: seq<Write>, c: int, x: Mem)
    requires c % CHUNK == 0 && Filling(Apply(d, loose), c, loose)
    ensures
      var m := Apply(d, loose);
      CrashFrom(Machine(d, loose), Activation(m, c), x) <==> Torn(d, loose, x) || TornRun(m, Commit(m, c), x)
  {
    ActivationSplits(d, loose, c, x);
    CrashPointsAreBlockCrashes(Machine(d, loose), Activation(Apply(d, loose), c), x);
  }

  /** A torn fill means what the filled memory means: c is not live yet. */
  lemma TornFillKeeps(d: Mem, loose: seq<Write>, c: int, end: int, x: Mem)
    requires Idle(Apply(d, loose), end) && c in AllHeads(Apply(d, loose), end) && State(Apply(d, loose), c) == RESERVED
    requires Filling(Apply(d, loose), c, loose) && Torn(d, loose, x)
    ensures Good(x, end) && SameLogic(Apply(d, loose), x, end)
  {
    var m := Apply(d, loose);
    IdleIsGood(m, end);
    forall a | HeaderCell(m, end, a) || LiveCell(m, end, a) ensures Read(x, a) == Read(m, a) {
      if PayloadCell(m, c, a) {
        UnusedPayload(m, end, c, a);
      }
      ApplyElsewhere(d, loose, a);
    }
    ScratchKeeps(m, x, end);
  }

  /**
   pmemalloc_activate under crashes, with any of the caller's stores into the payload still
   pending: crash it between any two instructions, crash recovery any number of times, and the
   next completed recovery has either undone it or completed it, the new payload included. Redo
   entries that contradict each other spoil no word but their own.
   */
  lemma ActivateIsAtomic(d: Mem, loose: seq<Write>, c: int, end: int, x: Mem, k: nat, img: Mem)
    requires Idle(Apply(d, loose), end) && c in AllHeads(Apply(d, loose), end) && State(Apply(d, loose), c) == RESERVED
    requires LiveTargets(Apply(d, loose), end, c, true) && Filling(Apply(d, loose), c, loose)
    requires CrashFrom(Machine(d, loose), Activation(Apply(d, loose), c), x) && CrashedRecoveries(x, end, k, img)
    ensures
      var m, r := Apply(d, loose), ApplyBlocks(img, Init(img, end));
      && (Undone(m, r, end) || CompletedWhereAgreed(m, r, end, c, true))
      && (ConflictFree(m, c) ==> Undone(m, r, end) || Completed(m, r, end, c, true))
  {
    var m := Apply(d, loose);
    HeadFacts(m, end, c);
    ActivationCrashes(d, loose, c, x);
    if TornRun(m, Commit(m, c), x) {
      CommitIsAtomic(m, c, end, x, k, img);
      OutcomeIfAgreed(m, ApplyBlocks(img, Init(img, end)), end, c, true);
    } else {
      TornFillKeeps(d, loose, c, end, x);
      UndoneFromSame(m, end, x, k, img);
    }
  }

  /** The same for pmemalloc_free, coalescing included. */
  lemma FreeIsAtomic(m: Mem, c: int, end: int, x: Mem, k: nat, img: Mem)
    requires Idle(m, end) && c in AllHeads(m, end) && State(m, c) == ACTIVE
    requires LiveTargets(m, end, c, false)
    requires TornRun(m, FreeClump(m, c, end), x) && CrashedRecoveries(x, end, k, img)
    ensures
      var r := ApplyBlocks(img, Init(img, end));
      && (Undone(m, r, end) || CompletedWhereAgreed(m, r, end, c, false))
      && (ConflictFree(m, c) ==> Undone(m, r, end) || Completed(m, r, end, c, false))
  {
    LiveTargetsAreSafe(m, end, c, false);
    FreeEither(m, c, end);
    OutcomeOf(m, c, FREEING, end, x, k, img);
    OutcomeIfAgreed(m, ApplyBlocks(img, Init(img, end)), end, c, false);
  }
}
