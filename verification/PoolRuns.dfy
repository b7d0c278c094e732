/**
 Whole runs of the allocator for any client: calls, stores and crashes in any order.
 */
module PoolRuns {
  import opened Options
  import opened PersistentMemory
  import opened PendingStores
  import opened Clumps
  import opened PoolLogic
  import opened AllocatorPrograms
  import opened CrashSafety
  import opened RecoveryWalk
  import opened Recovery
  import opened Reservation
  import opened Atomicity

  // ---------------------------------------------------------------------------------------
  // Calls

  /** A call of the allocator; clumps are named by their headers. */
  datatype Call =
    | Reserve(size: nat)
    | OnActive(c: int, target: int, val: int)
    | OnFree(c: int, target: int, val: int)
    | Activate(c: int)
    | Free(c: int)

  /** What the call's assertions, and the meaning of redo entries, ask of the caller. */
  ghost predicate Allowed(m: Mem, end: int, call: Call)
    requires Pool(m, end)
  {
    match call
    case Reserve(_) => true
    case OnActive(c, _, _) => c in AllHeads(m, end) && State(m, c) == RESERVED
    case OnFree(c, _, _) => c in AllHeads(m, end) && State(m, c) == ACTIVE
    case Activate(c) => c in AllHeads(m, end) && State(m, c) == RESERVED && SafeTargets(m, end, c)
    case Free(c) => c in AllHeads(m, end) && (State(m, c) == RESERVED || (State(m, c) == ACTIVE && SafeTargets(m, end, c)))
  }

  function RecordNext(m: Mem, c: int, target: int, val: int): seq<Block> {
    if FreeSlot(m, c) < NUM_ON then Record(c, FreeSlot(m, c), target, val) else []
  }

  /** What the call issues, the processor reading m. */
  function CallBlocks(m: Mem, end: int, call: Call): seq<Block> {
    match call
    case Reserve(size) =>
      (match FirstFit(m, FIRST, end, ClumpSize(size))
       case None => []
       case Some(c) => ReserveAt(m, c, ClumpSize(size)))
    case OnActive(c, target, val) => RecordNext(m, c, target, val)
    case OnFree(c, target, val) => RecordNext(m, c, target, val)
    case Activate(c) => Activation(m, c)
    case Free(c) => FreeClump(m, c, end)
  }

  /** No call is in progress and no two neighbours are free. */
  ghost predicate Resting(m: Mem, end: int) {
    Idle(m, end) && Coalesced(m, end) && FIRST < end
  }

  /** Header cells of n are header cells of m, or on lines that the program has persisted. */
  ghost predicate HeadersKnown(m: Mem, n: Mem, end: int, bs: seq<Block>)
    requires Pool(m, end) && Pool(n, end)
  {
    forall a | HeaderCell(n, end, a) :: HeaderCell(m, end, a) || exists b :: b in bs && Flushes(b.addr, b.len, a)
  }

  /** What every call does: each crash image of it is good, and it ends at rest. */
  ghost predicate Safe(m: Mem, end: int, bs: seq<Block>) {
    && SelfFlushingAll(bs)
    && (forall img | TornRun(m, bs, img) :: Good(img, end))
    && Pool(m, end) && Resting(ApplyBlocks(m, bs), end) && HeadersKnown(m, ApplyBlocks(m, bs), end, bs)
  }

  lemma CallIsSafe(m: Mem, end: int, call: Call)
    requires Resting(m, end) && Allowed(m, end, call)
    ensures Safe(m, end, CallBlocks(m, end, call))
  {
    match call {
      case Reserve(size) => ReserveCallIsSafe(m, end, size);
      case OnActive(c, target, val) => RecordCallIsSafe(m, end, c, target, val);
      case OnFree(c, target, val) => RecordCallIsSafe(m, end, c, target, val);
      case Activate(c) => ActivateCallIsSafe(m, end, c);
      case Free(c) => FreeCallIsSafe(m, end, c);
    }
  }

  lemma NothingIsSafe(m: Mem, end: int)
    requires Resting(m, end)
    ensures Safe(m, end, [])
  {
    IdleIsGood(m, end);
    KeepsNothing(m, end);
  }

  lemma ReserveCallIsSafe(m: Mem, end: int, size: nat)
    requires Resting(m, end)
    ensures Safe(m, end, CallBlocks(m, end, Reserve(size)))
  {
    var nsize := ClumpSize(size);
    ReserveIsSafe(m, end, size);
    match FirstFit(m, FIRST, end, nsize) {
      case None => NothingIsSafe(m, end);
      case Some(c) =>
        HeadFacts(m, end, c);
        HeadsTile(m, FIRST, end);
        FirstFitFinds(m, FIRST, end, nsize);
        ReserveFlushes(m, c, nsize);
        ReservedHeaders(m, end, c, nsize);
    }
  }

  /** The only new header is on the line that is persisted before it becomes one. */
  lemma ReservedHeaders(m: Mem, end: int, c: int, nsize: int)
    requires Pool(m, end) && c in AllHeads(m, end) && c % CHUNK == 0 && nsize % CHUNK == 0
    requires Reserved(m, ApplyBlocks(m, ReserveAt(m, c, nsize)), end, c, nsize)
    ensures HeadersKnown(m, ApplyBlocks(m, ReserveAt(m, c, nsize)), end, ReserveAt(m, c, nsize))
  {
    var bs := ReserveAt(m, c, nsize);
    var n := ApplyBlocks(m, bs);
    forall a | HeaderCell(n, end, a) && !HeaderCell(m, end, a)
      ensures exists b :: b in bs && Flushes(b.addr, b.len, a)
    {
      var k := c + Size(n, c);
      assert k <= a < k + CHUNK && Size(m, c) != Size(n, c);
      NewHeaderAt(m, c, nsize, k, n, end);
      assert bs[0] in bs && Flushes(bs[0].addr, bs[0].len, a);
    }
  }

  lemma NewHeaderAt(m: Mem, c: int, nsize: int, k: int, n: Mem, end: int)
    requires Pool(m, end) && n == ApplyBlocks(m, ReserveAt(m, c, nsize)) && Reserved(m, n, end, c, nsize)
    requires k == c + Size(n, c) && Size(m, c) != Size(n, c) && c % CHUNK == 0 && nsize % CHUNK == 0
    ensures ReserveAt(m, c, nsize)[0] == NewClump(k, Size(m, c) - nsize) && k % CHUNK == 0
  {
    var bs := ReserveAt(m, c, nsize);
    var split := Size(m, c) - nsize >= CHUNK * 2;
    var word := if split then nsize + RESERVED else Size(m, c) + RESERVED;
    assert bs == bs[..|bs| - 1] + [SetWord(c, word)];
    ApplyBlocksAppend(m, bs[..|bs| - 1], [SetWord(c, word)]);
    var n1 := ApplyBlocks(m, bs[..|bs| - 1]);
    ApplyOne(n1, Write(c, word));
    assert [SetWord(c, word)][1..] == [];
    assert ApplyBlocks(n1, [SetWord(c, word)]) == Apply(n1, [Write(c, word)]);
    assert Read(n, c) == word;
  }

  lemma RecordCallIsSafe(m: Mem, end: int, c: int, target: int, val: int)
    requires Resting(m, end) && c in AllHeads(m, end) && State(m, c) != FREE
    ensures Safe(m, end, RecordNext(m, c, target, val))
  {
    var i := FreeSlot(m, c);
    if i < NUM_ON {
      HeadFacts(m, end, c);
      RecordKeeps(m, c, i, target, val, end);
      RecordFlushes(c, i, target, val);
      var n := ApplyBlocks(m, Record(c, i, target, val));
      TurnedCoalesced(m, n, end, c);
    } else {
      NothingIsSafe(m, end);
    }
  }

  lemma ActivateCallIsSafe(m: Mem, end: int, c: int)
    requires Resting(m, end) && Allowed(m, end, Activate(c))
    ensures Safe(m, end, Activation(m, c))
  {
    HeadFacts(m, end, c);
    CommitEither(m, c, end);
    ActivationFlushes(m, c);
    assert Activation(m, c)[1..] == Commit(m, c) && Apply(m, PersistPayload(m, c).writes) == m;
    var r := ApplyBlocks(m, Commit(m, c));
    TurnedCoalesced(m, r, end, c);
    IdleIsGood(m, end);
    forall img | TornRun(m, Activation(m, c), img) ensures Good(img, end) {
      if !TornRun(m, Commit(m, c), img) {
        ScratchKeeps(m, img, end);
      }
    }
  }

  lemma FreeCallIsSafe(m: Mem, end: int, c: int)
    requires Resting(m, end) && Allowed(m, end, Free(c))
    ensures Safe(m, end, FreeClump(m, c, end))
  {
    HeadFacts(m, end, c);
    FreeFlushes(m, c, end);
    if State(m, c) == ACTIVE {
      FreeEither(m, c, end);
      ReleaseEither(m, c, end);
    } else {
      FreeReservation(m, c, end);
      SetStateKeeps(m, c, FREE, end);
      TurnedIdle(m, ApplyBlocks(m, Release(m, c)), c, end);
    }
    var p := ApplyBlocks(m, Release(m, c));
    CoalesceAll(p, end);
    ApplyBlocksAppend(m, Release(m, c), Coalesce(p, end));
  }

  // ---------------------------------------------------------------------------------------
  // Calls read headers only

  /** The headers of m are those of n. */
  ghost predicate SameHeaders(m: Mem, n: Mem, end: int)
    requires Pool(m, end)
  {
    forall a | HeaderCell(m, end, a) :: Read(n, a) == Read(m, a)
  }

  lemma SameHeadersFacts(m: Mem, n: Mem, end: int)
    requires Resting(m, end) && SameHeaders(m, n, end)
    ensures Resting(n, end) && AllHeads(n, end) == AllHeads(m, end)
    ensures forall h | h in AllHeads(m, end) :: SameHeader(m, n, h)
    ensures forall a :: HeaderCell(n, end, a) <==> HeaderCell(m, end, a)
    ensures forall h | h in AllHeads(m, end) :: SafeTargets(n, end, h) <==> SafeTargets(m, end, h)
  {
    HeadersUntouched(m, n, end);
    forall h | h in AllHeads(m, end)
      ensures Read(n, h) == Read(m, h) && !Busy(n, h) && (SafeTargets(n, end, h) <==> SafeTargets(m, end, h))
    {
      SameHeaderFacts(m, n, h);
      SameSafeTargets(m, n, end, h);
    }
    SameApart(m, n, end);
  }

  lemma SameSafeTargets(m: Mem, n: Mem, end: int, h: int)
    requires Pool(m, end) && Pool(n, end) && SameHeader(m, n, h)
    requires forall a :: HeaderCell(n, end, a) <==> HeaderCell(m, end, a)
    ensures SafeTargets(n, end, h) <==> SafeTargets(m, end, h)
  {
    SameHeaderFacts(m, n, h);
    forall i | Entry(m, h, i) ensures Off(n, h, i) == Off(m, h, i) && Ptr(n, h, i) == Ptr(m, h, i) {}
  }

  lemma SameApart(m: Mem, n: Mem, end: int)
    requires Coalesced(m, end) && Pool(n, end) && AllHeads(n, end) == AllHeads(m, end)
    requires forall h | h in AllHeads(m, end) :: Read(n, h) == Read(m, h)
    ensures Coalesced(n, end)
  {
    forall h | h in AllHeads(n, end) && State(n, h) == FREE ensures Apart(n, end, h) {
      NextHead(m, FIRST, end, h);
      assert Apart(m, end, h);
    }
  }

  lemma {:induction false} SameFirstFit(m: Mem, n: Mem, c: int, end: int, nsize: int)
    requires Pool(m, end) && HeadOrEnd(m, end, c)
    requires forall h | h in AllHeads(m, end) :: Read(n, h) == Read(m, h)
    ensures FirstFit(n, c, end, nsize) == FirstFit(m, c, end, nsize)
    decreases end - c
  {
    HeadsTile(m, FIRST, end);
    if c != end {
      NextHead(m, FIRST, end, c);
      SameFirstFit(m, n, c + Size(m, c), end, nsize);
    }
  }

  lemma {:induction false} SameRedo(m: Mem, n: Mem, c: int, i: int)
    requires SameHeader(m, n, c) && 0 <= i
    ensures Redo(n, c, i) == Redo(m, c, i)
    decreases NUM_ON - i
  {
    SameHeaderFacts(m, n, c);
    if i < NUM_ON && Off(m, c, i) != 0 {
      var w := Write(Off(m, c, i), Ptr(m, c, i));
      ApplyOne(m, w);
      ApplyOne(n, w);
      SameRedo(Apply(m, [w]), Apply(n, [w]), c, i + 1);
    }
  }

  /** The size words from c on are the same. */
  ghost predicate SameFrom(m: Mem, n: Mem, c: int, end: int) {
    Tiled(m, c, end) && Read(n, end) == Read(m, end) && forall h | h in Heads(m, c, end) :: Read(n, h) == Read(m, h)
  }

  lemma {:induction false} SameCoalesce(m: Mem, n: Mem, c: int, end: int, firstFree: int, lastFree: int, csize: int)
    requires SameFrom(m, n, c, end) && 0 <= firstFree < c
    ensures CoalesceFrom(n, c, end, firstFree, lastFree, csize) == CoalesceFrom(m, c, end, firstFree, lastFree, csize)
    decreases end - c
  {
    HeadsTile(m, c, end);
    if c < end {
      var next := c + Size(m, c);
      HeadsTile(m, next, end);
      if State(m, c) == FREE {
        if firstFree == 0 {
          SameCoalesce(m, n, next, end, c, lastFree, csize + Size(m, c));
        } else {
          SameCoalesce(m, n, next, end, firstFree, c, csize + Size(m, c));
        }
      } else if firstFree != 0 && lastFree != 0 {
        var b := SetWord(firstFree, csize + FREE);
        MergedSameFrom(m, n, next, end, b.writes[0]);
        assert [b][1..] == [];
        SameCoalesce(Apply(m, b.writes), Apply(n, b.writes), next, end, 0, 0, 0);
      } else {
        SameCoalesce(m, n, next, end, 0, 0, 0);
      }
    }
  }

  lemma MergedSameFrom(m: Mem, n: Mem, c: int, end: int, w: Write)
    requires SameFrom(m, n, c, end) && w.addr < c
    ensures SameFrom(Apply(m, [w]), Apply(n, [w]), c, end)
  {
    ApplyOne(m, w);
    ApplyOne(n, w);
    HeadsTile(m, c, end);
    FrameTiled(m, Apply(m, [w]), c, end);
  }

  lemma SameAllowed(m: Mem, n: Mem, end: int, call: Call)
    requires Resting(m, end) && SameHeaders(m, n, end) && Allowed(m, end, call)
    ensures Resting(n, end) && Allowed(n, end, call)
  {
    SameHeadersFacts(m, n, end);
    forall h | h in AllHeads(m, end) ensures State(n, h) == State(m, h) {
      SameHeaderFacts(m, n, h);
    }
  }

  lemma SameFit(m: Mem, n: Mem, end: int, nsize: int)
    requires Resting(m, end) && SameHeaders(m, n, end)
    ensures FirstFit(n, FIRST, end, nsize) == FirstFit(m, FIRST, end, nsize)
    ensures match FirstFit(m, FIRST, end, nsize) case None => true case Some(c) => ReserveAt(n, c, nsize) == ReserveAt(m, c, nsize)
  {
    HeadersUntouched(m, n, end);
    forall h | h in AllHeads(m, end) ensures Read(n, h) == Read(m, h) {
      SameHeaderFacts(m, n, h);
    }
    HeadsTile(m, FIRST, end);
    SameFirstFit(m, n, FIRST, end, nsize);
    FirstFitFinds(m, FIRST, end, nsize);
  }

  lemma SameReserve(m: Mem, n: Mem, end: int, size: nat)
    requires Resting(m, end) && SameHeaders(m, n, end)
    ensures CallBlocks(n, end, Reserve(size)) == CallBlocks(m, end, Reserve(size))
  {
    SameFit(m, n, end, ClumpSize(size));
  }

  lemma SameRecord(m: Mem, n: Mem, c: int, target: int, val: int)
    requires SameHeader(m, n, c)
    ensures RecordNext(n, c, target, val) == RecordNext(m, c, target, val)
  {
    SameHeaderFacts(m, n, c);
  }

  /** A call issues the same from memories with the same headers. */
  lemma SameCall(m: Mem, n: Mem, end: int, call: Call)
    requires Resting(m, end) && SameHeaders(m, n, end) && Allowed(m, end, call)
    ensures CallBlocks(n, end, call) == CallBlocks(m, end, call)
  {
    match call {
      case Reserve(size) => SameReserve(m, n, end, size);
      case OnActive(c, target, val) =>
        HeadersUntouched(m, n, end);
        SameRecord(m, n, c, target, val);
      case OnFree(c, target, val) =>
        HeadersUntouched(m, n, end);
        SameRecord(m, n, c, target, val);
      case Activate(c) =>
        HeadersUntouched(m, n, end);
        SameActivation(m, n, c);
      case Free(c) => SameFree(m, n, c, end);
    }
  }

  lemma SameCommit(m: Mem, n: Mem, c: int, v: int)
    requires SameHeader(m, n, c)
    ensures Redo(Apply(n, [Write(c, v)]), c, 0) == Redo(Apply(m, [Write(c, v)]), c, 0)
  {
    ApplyOne(m, Write(c, v));
    ApplyOne(n, Write(c, v));
    SameRedo(Apply(m, [Write(c, v)]), Apply(n, [Write(c, v)]), c, 0);
  }

  lemma SameActivation(m: Mem, n: Mem, c: int)
    requires SameHeader(m, n, c)
    ensures Activation(n, c) == Activation(m, c)
  {
    SameHeaderFacts(m, n, c);
    SameCommit(m, n, c, Size(m, c) + ACTIVATING);
  }

  lemma SameFree(m: Mem, n: Mem, c: int, end: int)
    requires Resting(m, end) && SameHeaders(m, n, end) && Allowed(m, end, Free(c))
    ensures FreeClump(n, c, end) == FreeClump(m, c, end)
  {
    SameHeadersFacts(m, n, end);
    SameHeaderFacts(m, n, c);
    SameCommit(m, n, c, Size(m, c) + FREEING);
    var bs := Release(m, c);
    assert Release(n, c) == bs;
    FreeCallIsSafe(m, end, c);
    var p, q := ApplyBlocks(m, bs), ApplyBlocks(n, bs);
    ReleasedSame(m, n, c, end);
    HeadsTile(p, FIRST, end);
    SameCoalesce(p, q, FIRST, end, 0, 0, 0);
  }

  lemma {:induction false} SameAfter(m: Mem, n: Mem, bs: seq<Block>, a: int)
    requires Read(m, a) == Read(n, a)
    ensures Read(ApplyBlocks(m, bs), a) == Read(ApplyBlocks(n, bs), a)
    decreases |bs|
  {
    if bs != [] {
      ApplyReads(m, bs[0].writes, a);
      ApplyReads(n, bs[0].writes, a);
      SameAfter(Apply(m, bs[0].writes), Apply(n, bs[0].writes), bs[1..], a);
    }
  }

  lemma ReleasedSame(m: Mem, n: Mem, c: int, end: int)
    requires Resting(m, end) && SameHeaders(m, n, end) && Allowed(m, end, Free(c))
    ensures SameFrom(ApplyBlocks(m, Release(m, c)), ApplyBlocks(n, Release(m, c)), FIRST, end)
  {
    var bs := Release(m, c);
    var p, q := ApplyBlocks(m, bs), ApplyBlocks(n, bs);
    HeadFacts(m, end, c);
    if State(m, c) == ACTIVE {
      ReleaseEither(m, c, end);
    } else {
      IdleIsGood(m, end);
      SetStateKeeps(m, c, FREE, end);
    }
    assert Pool(p, end) && AllHeads(p, end) == AllHeads(m, end);
    forall h | h in AllHeads(m, end) || h == end ensures Read(q, h) == Read(p, h) {
      assert HeaderCell(m, end, h);
      SameAfter(m, n, bs, h);
    }
  }

  // ---------------------------------------------------------------------------------------
  // Runs

  /** What can happen: a call completes; a call crashes between any two of its instructions (before
      the first counts as a crash between calls), recovery crashes any number of times and then
      completes; the client stores a word, or persists some range. */
  datatype Event = Does(call: Call) | Crashes(call: Call) | Stores(w: Write) | Persists(addr: int, len: int)

  /** Nobody is in the middle of a call; what is pending are stores of the client to user words. */
  ghost predicate AtRest(s: Machine, end: int) {
    && Resting(View(s), end)
    && forall w | w in s.pending :: !HeaderCell(View(s), end, w.addr)
  }

  ghost predicate Happens(s: Machine, end: int, e: Event, t: Machine)
    requires AtRest(s, end)
  {
    match e
    case Does(call) => Allowed(View(s), end, call) && t == Run(s, Ops(CallBlocks(View(s), end, call)))
    case Crashes(call) => Allowed(View(s), end, call) && t.pending == [] && CrashedInto(s, CallBlocks(View(s), end, call), end, t.durable)
    case Stores(w) => !HeaderCell(View(s), end, w.addr) && t == Exec(s, Store(w))
    case Persists(addr, len) => t == Exec(s, Persist(addr, len))
  }

  ghost predicate CrashedInto(s: Machine, bs: seq<Block>, end: int, n: Mem) {
    exists img :: CrashFrom(s, bs, img) && Reopened(img, end, n)
  }

  /** The images a crash during the event may leave. */
  ghost predicate CrashImageOf(s: Machine, end: int, e: Event, img: Mem)
    requires AtRest(s, end)
  {
    match e
    case Does(call) => Allowed(View(s), end, call) && CrashFrom(s, CallBlocks(View(s), end, call), img)
    case Crashes(call) => Allowed(View(s), end, call) && CrashFrom(s, CallBlocks(View(s), end, call), img)
    case Stores(w) => !HeaderCell(View(s), end, w.addr) && CrashImage(Exec(s, Store(w)), img)
    case Persists(addr, len) => CrashImage(s, img)
  }

  /** Every crash image of a call, whatever the client has pending, is one of the call run from a
      memory with the same headers. */
  lemma CallCrashIsGood(s: Machine, end: int, call: Call, img: Mem)
    requires AtRest(s, end) && Allowed(View(s), end, call) && CrashFrom(s, CallBlocks(View(s), end, call), img)
    ensures Good(img, end)
  {
    var v := View(s);
    var bs := CallBlocks(v, end, call);
    CallIsSafe(v, end, call);
    CrashPointsAreBlockCrashes(s, bs, img);
    var m := LooseCrash(s.durable, s.pending, bs, img);
    forall a | HeaderCell(v, end, a) ensures Read(m, a) == Read(v, a) {
      ApplyElsewhere(s.durable, s.pending, a);
    }
    SameAllowed(v, m, end, call);
    SameCall(v, m, end, call);
    CallIsSafe(m, end, call);
  }

  lemma PendingCrashIsGood(s: Machine, end: int, img: Mem)
    requires AtRest(s, end) && CrashImage(s, img)
    ensures Good(img, end)
  {
    var v := View(s);
    forall a | HeaderCell(v, end, a) ensures Read(img, a) == Read(v, a) {
      ApplyElsewhere(s.durable, s.pending, a);
    }
    SameHeadersFacts(v, img, end);
    IdleIsGood(img, end);
  }

  lemma CallRests(s: Machine, end: int, call: Call)
    requires AtRest(s, end) && Allowed(View(s), end, call)
    ensures AtRest(Run(s, Ops(CallBlocks(View(s), end, call))), end)
  {
    var v := View(s);
    var bs := CallBlocks(v, end, call);
    var t := Run(s, Ops(bs));
    CallIsSafe(v, end, call);
    ProgramRuns(s, bs);
    SameHeadersFacts(ApplyBlocks(v, bs), View(t), end);
    forall w | w in t.pending ensures !HeaderCell(View(t), end, w.addr) {
      assert HeadersKnown(v, ApplyBlocks(v, bs), end, bs);
    }
  }

  lemma StoreRests(s: Machine, end: int, w: Write)
    requires AtRest(s, end) && !HeaderCell(View(s), end, w.addr)
    ensures AtRest(Exec(s, Store(w)), end)
  {
    StoresView(s, [w]);
    ApplyOne(View(s), w);
    var t := Exec(s, Store(w));
    forall a | HeaderCell(View(s), end, a) ensures Read(View(t), a) == Read(View(s), a) {}
    SameHeadersFacts(View(s), View(t), end);
  }

  lemma PersistRests(s: Machine, end: int, addr: int, len: int)
    requires AtRest(s, end)
    ensures AtRest(Exec(s, Persist(addr, len)), end)
  {
    PersistKeepsView(s, addr, len);
    SameHeadersFacts(View(s), View(Exec(s, Persist(addr, len))), end);
  }

  lemma EventRests(s: Machine, end: int, e: Event, t: Machine)
    requires AtRest(s, end) && Happens(s, end, e, t)
    ensures AtRest(t, end)
  {
    match e {
      case Does(call) => CallRests(s, end, call);
      case Crashes(call) =>
        var img :| CrashFrom(s, CallBlocks(View(s), end, call), img) && Reopened(img, end, t.durable);
        CallCrashIsGood(s, end, call, img);
        var k: nat, last :| CrashedRecoveries(img, end, k, last) && t.durable == ApplyBlocks(last, Init(last, end));
        RecoveryIsCrashProof(img, end, k, last);
        SettledFacts(t.durable, end);
      case Stores(w) => StoreRests(s, end, w);
      case Persists(addr, len) => PersistRests(s, end, addr, len);
    }
  }

  lemma EventCrashIsGood(s: Machine, end: int, e: Event, img: Mem)
    requires AtRest(s, end) && CrashImageOf(s, end, e, img)
    ensures Good(img, end)
  {
    match e {
      case Does(call) => CallCrashIsGood(s, end, call, img);
      case Crashes(call) => CallCrashIsGood(s, end, call, img);
      case Stores(w) =>
        StoreRests(s, end, w);
        PendingCrashIsGood(Exec(s, Store(w)), end, img);
      case Persists(_, _) => PendingCrashIsGood(s, end, img);
    }
  }

  /** ss[i + 1] is what event es[i] makes of ss[i], from a freshly created pool on. Events are only
      described for pools at rest; that a pool always is at rest is what is proved below. */
  ghost predicate Course(total: int, ss: seq<Machine>, es: seq<Event>) {
    && MIN_POOL <= total && |ss| == |es| + 1 && ss[0] == Machine(FreshPool(total), [])
    && forall i | 0 <= i < |es| :: AtRest(ss[i], LastClump(total)) ==> Happens(ss[i], LastClump(total), es[i], ss[i + 1])
  }

  lemma FreshRests(total: int)
    requires MIN_POOL <= total
    ensures AtRest(Machine(FreshPool(total), []), LastClump(total))
  {
    FreshPoolTiles(total);
    HeadsTile(FreshPool(total), FIRST, LastClump(total));
  }

  lemma {:induction false} CourseRests(total: int, ss: seq<Machine>, es: seq<Event>, i: nat)
    requires Course(total, ss, es) && i < |ss|
    ensures AtRest(ss[i], LastClump(total))
  {
    if i == 0 {
      FreshRests(total);
    } else {
      CourseRests(total, ss, es, i - 1);
      EventRests(ss[i - 1], LastClump(total), es[i - 1], ss[i]);
    }
  }

  /** A reservation fails exactly when no stretch of free bytes is large enough. */
  ghost predicate FailsExactly(m: Mem, end: int) {
    && Pool(m, end)
    && forall size: nat, n | Rounded(size, n) ::
         FirstFit(m, FIRST, end, ClumpSize(size)) == None <==> !exists a :: FreeStretch(m, end, a, n)
  }

  /**
   Any client, any run: between events the pool is idle and coalesced, so that a reservation fails
   exactly when no stretch of free bytes is large enough; and every image a crash may leave, with
   whatever the client has pending, tiles the pool and is one that recovery handles.
   */
  lemma EveryCourseIsSound(total: int, ss: seq<Machine>, es: seq<Event>)
    requires Course(total, ss, es)
    ensures forall i | 0 <= i < |ss| :: AtRest(ss[i], LastClump(total))
    ensures forall i | 0 <= i < |ss| :: FailsExactly(View(ss[i]), LastClump(total))
    ensures forall i, img | 0 <= i < |es| && CrashImageOf(ss[i], LastClump(total), es[i], img) ::
      Good(img, LastClump(total)) && Tiled(img, FIRST, LastClump(total))
  {
    var end := LastClump(total);
    forall i | 0 <= i < |ss| ensures AtRest(ss[i], end) {
      CourseRests(total, ss, es, i);
    }
    forall i | 0 <= i < |ss| ensures FailsExactly(View(ss[i]), end) {
      forall size: nat, n | Rounded(size, n) {
        ReserveFailsExactly(View(ss[i]), end, size, n);
      }
    }
    forall i, img | 0 <= i < |es| && CrashImageOf(ss[i], end, es[i], img) ensures Good(img, end) {
      EventCrashIsGood(ss[i], end, es[i], img);
    }
  }
}
