/**
 Recovery as run by pmemalloc_init, and what survives any number of crashes during it.
 */
module Recovery {
  import opened PersistentMemory
  import opened Clumps
  import opened PoolLogic
  import opened AllocatorPrograms
  import opened CrashSafety
  import opened RecoveryWalk

  // ---------------------------------------------------------------------------------------
  // The recovery theorem

  /** `img` is what a pool found as `m` looks like after k recoveries that each crashed, each
      between two arbitrary instructions. */
  ghost predicate CrashedRecoveries(m: Mem, end: int, k: nat, img: Mem) {
    if k == 0 then img == m
    else exists mid :: CrashedRecoveries(m, end, k - 1, mid) && CrashPoint(mid, Init(mid, end), img)
  }

  /** n is what pmemalloc_init leaves of img after any number of crashed attempts. */
  ghost predicate Reopened(img: Mem, end: int, n: Mem) {
    exists r: nat, last :: CrashedRecoveries(img, end, r, last) && n == ApplyBlocks(last, Init(last, end))
  }

  ghost predicate Rested(m: Mem, end: int) {
    Settled(m, end) && Coalesced(m, end)
  }

  lemma InitKeeps(m: Mem, end: int)
    requires Good(m, end)
    ensures Keeps(m, Init(m, end), end) && Rested(ApplyBlocks(m, Init(m, end)), end)
  {
    HeadsTile(m, FIRST, end);
    RecoverFromKeeps(m, FIRST, end);
    var bs := RecoverFrom(m, FIRST, end);
    var n := ApplyBlocks(m, bs);
    HeadsTile(n, FIRST, end);
    assert Idle(n, end);
    CoalesceAll(n, end);
    KeepsAppend(m, bs, Coalesce(n, end), end);
    HeadsTile(ApplyBlocks(n, Coalesce(n, end)), FIRST, end);
  }

  lemma CrashedRecoveryKeeps(m: Mem, end: int, img: Mem)
    requires Good(m, end) && CrashPoint(m, Init(m, end), img)
    ensures Good(img, end) && SameLogic(m, img, end)
  {
    InitFlushes(m, end);
    CrashPointsAreTornRuns(m, Init(m, end), img);
    InitKeeps(m, end);
  }

  lemma {:induction false} CrashedRecoveriesKeep(m: Mem, end: int, k: nat, img: Mem)
    requires Good(m, end) && CrashedRecoveries(m, end, k, img)
    ensures Good(img, end) && SameLogic(m, img, end)
  {
    if k == 0 {
      ScratchKeeps(m, m, end);
    } else {
      var mid :| CrashedRecoveries(m, end, k - 1, mid) && CrashPoint(mid, Init(mid, end), img);
      CrashedRecoveriesKeep(m, end, k - 1, mid);
      OneMoreCrashKeeps(m, mid, end, img);
    }
  }

  lemma OneMoreCrashKeeps(m: Mem, mid: Mem, end: int, img: Mem)
    requires Good(m, end) && Good(mid, end) && SameLogic(m, mid, end)
    requires CrashPoint(mid, Init(mid, end), img)
    ensures Good(img, end) && SameLogic(m, img, end)
  {
    CrashedRecoveryKeeps(mid, end, img);
    SameLogicTrans(m, mid, img, end);
  }

  /**
   However often recovery itself crashes, the next one that completes leaves only FREE and
   ACTIVE clumps, no two free neighbours, exactly the live clumps of the image it started from
   (sizes and redo lists included), and in every live cell the value promised by that image,
   unless its redo entries give that cell two values.
   */
  lemma RecoveryIsCrashProof(m: Mem, end: int, k: nat, img: Mem)
    requires Good(m, end) && CrashedRecoveries(m, end, k, img)
    ensures
      var r := ApplyBlocks(img, Init(img, end));
      && Rested(r, end) && Good(r, end) && SameLogic(m, r, end)
      && (forall h :: h in AllHeads(r, end) && State(r, h) == ACTIVE <==> Live(m, end, h))
      && (forall a | LiveCell(m, end, a) && !Contested(m, end, a) :: Read(r, a) == Final(m, end, a))
  {
    CrashedRecoveriesKeep(m, end, k, img);
    InitKeeps(img, end);
    KeepsEnd(img, Init(img, end), end);
    var r := ApplyBlocks(img, Init(img, end));
    SameLogicTrans(m, img, r, end);
    SettledFacts(r, end);
  }

  lemma SettledFacts(r: Mem, end: int)
    requires Settled(r, end)
    ensures Idle(r, end)
    ensures forall h :: h in AllHeads(r, end) && State(r, h) == ACTIVE <==> Live(r, end, h)
    ensures forall a :: Final(r, end, a) == Read(r, a)
  {
    HeadsTile(r, FIRST, end);
  }

  // ---------------------------------------------------------------------------------------
  // Idempotence

  lemma {:induction false} NothingToRecover(m: Mem, c: int, end: int)
    requires Settled(m, end) && HeadOrEnd(m, end, c)
    ensures RecoverFrom(m, c, end) == []
    decreases end - c
  {
    HeadsTile(m, FIRST, end);
    if c != end {
      NextHead(m, FIRST, end, c);
      NothingToRecover(m, c + Size(m, c), end);
    }
  }

  lemma {:induction false} NothingToCoalesce(m: Mem, c: int, end: int, firstFree: int, csize: int)
    requires Coalesced(m, end) && HeadOrEnd(m, end, c)
    requires firstFree != 0 && c != end ==> State(m, c) != FREE
    ensures CoalesceFrom(m, c, end, firstFree, 0, csize) == []
    decreases end - c
  {
    HeadsTile(m, FIRST, end);
    if c != end {
      NextHead(m, FIRST, end, c);
      var next := c + Size(m, c);
      if State(m, c) == FREE {
        assert Apart(m, end, c);
        NothingToCoalesce(m, next, end, c, csize + Size(m, c));
      } else {
        NothingToCoalesce(m, next, end, 0, 0);
      }
    }
  }

  /** Recovering a recovered pool stores nothing. */
  lemma RecoveryIsIdempotent(m: Mem, end: int)
    requires Good(m, end)
    ensures
      var r := ApplyBlocks(m, Init(m, end));
      Init(r, end) == []
  {
    InitKeeps(m, end);
    var r := ApplyBlocks(m, Init(m, end));
    HeadsTile(r, FIRST, end);
    NothingToRecover(r, FIRST, end);
    NothingToCoalesce(r, FIRST, end, 0, 0);
  }
}
