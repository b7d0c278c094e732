/**
 pmemalloc_check demands that FREE and ACTIVE clumps have empty redo lists. That is not an
 invariant of the allocator; this module says exactly when a recovered pool passes.
 */
module PoolCheck {
  import opened PersistentMemory
  import opened Clumps
  import opened PoolLogic
  import opened AllocatorPrograms
  import opened CrashSafety
  import opened RecoveryWalk
  import opened Recovery
  import opened Reservation
  import opened Atomicity

  predicate NoEntries(m: Mem, h: int) {
    Off(m, h, 0) == 0 && Off(m, h, 1) == 0 && Off(m, h, 2) == 0
  }

  /** The assertions of pmemalloc_check about clump states and redo lists. */
  ghost predicate CheckAccepts(m: Mem, end: int) {
    && Pool(m, end) && FIRST < end
    && forall h | h in AllHeads(m, end) && (State(m, h) == FREE || State(m, h) == ACTIVE) :: NoEntries(m, h)
  }

  // ---------------------------------------------------------------------------------------
  // The checker

  /** The clumps from c on, as the checker meets them one after the other. */
  ghost predicate AcceptedFrom(m: Mem, c: int, end: int)
    decreases end - c
  {
    if c >= end then c == end && Read(m, c) == 0
    else
      && Read(m, c) >= CHUNK && State(m, c) <= FREEING
      && (State(m, c) == FREE || State(m, c) == ACTIVE ==> NoEntries(m, c))
      && AcceptedFrom(m, c + Size(m, c), end)
  }

  lemma {:induction false} AcceptedMeans(m: Mem, c: int, end: int)
    requires c % CHUNK == 0
    ensures AcceptedFrom(m, c, end) <==>
      && Tiled(m, c, end)
      && forall h | h in Heads(m, c, end) && (State(m, h) == FREE || State(m, h) == ACTIVE) :: NoEntries(m, h)
    decreases end - c
  {
    if c < end && Read(m, c) >= CHUNK {
      AcceptedMeans(m, c + Size(m, c), end);
    }
  }

  /**
   The checker accepts exactly the files of at least the minimum size whose clumps tile the pool up
   to its last one, have known states, and meet the assertions. On all others the original stops
   with a message, runs off the file, or stays at a clump of size zero.
   */
  method Check(m: Mem, total: int) returns (ok: bool)
    ensures ok <==> MIN_POOL <= total && CheckAccepts(m, LastClump(total))
  {
    if total < MIN_POOL {
      return false;
    }
    var clp := FIRST;
    var last := total / CHUNK * CHUNK - CHUNK;
    AcceptedMeans(m, FIRST, last);
    var clumptotal := last - clp;
    if FIRST + clumptotal + total % CHUNK + CHUNK != total {
      return false;
    }
    if Read(m, clp) == 0 {
      return false;
    }
    while Read(m, clp) != 0 && clp < last
      invariant AcceptedFrom(m, clp, last) <==> AcceptedFrom(m, FIRST, last)
      decreases last - clp
    {
      var sz := Size(m, clp);
      var state := State(m, clp);
      if state > FREEING || ((state == FREE || state == ACTIVE) && !NoEntries(m, clp)) || sz <= 0 {
        return false;
      }
      clp := clp + sz;
    }
    ok := clp == last && Read(m, clp) == 0;
  }

  // ---------------------------------------------------------------------------------------
  // Which heads coalescing leaves

  /** Clump h directly follows a free one. */
  ghost predicate AfterFree(m: Mem, end: int, h: int)
    requires Pool(m, end)
  {
    exists p :: p in AllHeads(m, end) && State(m, p) == FREE && p + Size(m, p) == h
  }

  /** The clump that ends where clump h starts. */
  lemma {:induction false} ClumpBefore(m: Mem, c: int, end: int, h: int) returns (p: int)
    requires Tiled(m, c, end) && h in Heads(m, c, end) && c < h
    ensures p in Heads(m, c, end) && p + Size(m, p) == h
    decreases end - c
  {
    HeadsTile(m, c, end);
    p := c;
    if c + Size(m, c) != h {
      HeadsTile(m, c + Size(m, c), end);
      p := ClumpBefore(m, c + Size(m, c), end, h);
    }
  }

  /** A free clump that follows a free one is gone from a coalesced pool. */
  lemma SwallowedAfterFree(m: Mem, r: Mem, end: int, h: int)
    requires Pool(m, end) && OnlyFreeChanges(m, r, end) && Coalesced(r, end)
    requires h in AllHeads(m, end) && State(m, h) == FREE && AfterFree(m, end, h)
    ensures h !in AllHeads(r, end)
  {
    HeadsTile(m, FIRST, end);
    HeadsTile(r, FIRST, end);
    if h in AllHeads(r, end) {
      var p :| p in AllHeads(m, end) && State(m, p) == FREE && p + Size(m, p) == h;
      var q := ClumpBefore(r, FIRST, end, h);
    }
  }

  /** Every other clump stays. */
  lemma StaysOtherwise(m: Mem, r: Mem, end: int, h: int)
    requires Pool(m, end) && OnlyFreeChanges(m, r, end)
    requires h in AllHeads(m, end) && !(State(m, h) == FREE && AfterFree(m, end, h))
    ensures h in AllHeads(r, end)
  {
    HeadsTile(m, FIRST, end);
    HeadsTile(r, FIRST, end);
    if State(m, h) == FREE {
      var g := HeadsCover(r, FIRST, end, h);
      if g != h {
        var p := ClumpBefore(m, FIRST, end, h);
      }
    }
  }

  lemma CoalescedHeads(m: Mem, r: Mem, end: int)
    requires Pool(m, end) && OnlyFreeChanges(m, r, end) && Coalesced(r, end)
    ensures forall h :: h in AllHeads(r, end) <==>
              h in AllHeads(m, end) && !(State(m, h) == FREE && AfterFree(m, end, h))
    ensures forall h | h in AllHeads(r, end) :: NoEntries(r, h) <==> NoEntries(m, h)
  {
    forall h ensures h in AllHeads(r, end) <==>
                h in AllHeads(m, end) && !(State(m, h) == FREE && AfterFree(m, end, h))
    {
      if h in AllHeads(m, end) {
        if State(m, h) == FREE && AfterFree(m, end, h) {
          SwallowedAfterFree(m, r, end, h);
        } else {
          StaysOtherwise(m, r, end, h);
        }
      }
    }
    forall h | h in AllHeads(r, end) ensures NoEntries(r, h) <==> NoEntries(m, h) {
      HeadOffsNotHeads(m, end, h);
    }
  }

  /** The redo offsets of a clump are not size words of other clumps. */
  lemma HeadOffsNotHeads(m: Mem, end: int, h: int)
    requires Pool(m, end) && h in AllHeads(m, end)
    ensures forall i | 0 <= i < NUM_ON :: OffAddr(h, i) !in AllHeads(m, end)
  {
    HeadsTile(m, FIRST, end);
  }

  /** A coalesced pool passes exactly when the clumps that coalescing leaves have no entries. */
  lemma CoalescedPassesExactly(m: Mem, r: Mem, end: int)
    requires Pool(m, end) && FIRST < end && OnlyFreeChanges(m, r, end) && Coalesced(r, end)
    ensures CheckAccepts(r, end) <==>
      && (forall h | h in AllHeads(m, end) && State(m, h) == ACTIVE :: NoEntries(m, h))
      && (forall h | h in AllHeads(m, end) && State(m, h) == FREE && !AfterFree(m, end, h) :: NoEntries(m, h))
  {
    CoalescedHeads(m, r, end);
    HeadsTile(m, FIRST, end);
  }

  // ---------------------------------------------------------------------------------------
  // After recovery

  /** What the recovery walk makes of the list of one clump: it empties those of the clumps it has
      a case for. */
  ghost predicate ListAfter(m: Mem, n: Mem, h: int) {
    && Size(n, h) == Size(m, h)
    && State(n, h) == (if State(m, h) == ACTIVATING || State(m, h) == ACTIVE then ACTIVE else FREE)
    && (NoEntries(n, h) <==> (State(m, h) == FREE || State(m, h) == ACTIVE ==> NoEntries(m, h)))
  }

  lemma RecoverClumpList(m: Mem, c: int, end: int)
    requires Good(m, end) && c in AllHeads(m, end)
    ensures ListAfter(m, ApplyBlocks(m, RecoverClump(m, c)), c)
  {
    HeadFacts(m, end, c);
    RecoverClumpKeeps(m, c, end);
    var sz := Size(m, c);
    if State(m, c) == RESERVED {
      var n := ApplyBlocks(m, [ClearOffs(c)]);
      assert [ClearOffs(c)][1..] == [] && [SetWord(c, sz + FREE)][1..] == [];
      ApplyClearOffs(m, c);
      ApplyOne(n, Write(c, sz + FREE));
      ApplyBlocksAppend(m, [ClearOffs(c)], [SetWord(c, sz + FREE)]);
      assert [ClearOffs(c)] + [SetWord(c, sz + FREE)] == [ClearOffs(c), SetWord(c, sz + FREE)];
      assert ApplyBlocks(n, [SetWord(c, sz + FREE)]) == Apply(n, [Write(c, sz + FREE)]);
    } else if Busy(m, c) {
      FinishKeeps(m, c, if State(m, c) == ACTIVATING then ACTIVE else FREE, end);
    }
  }

  lemma {:induction false} RecoverFromLists(m: Mem, c: int, end: int)
    requires Good(m, end) && HeadOrEnd(m, end, c)
    ensures
      var n := ApplyBlocks(m, RecoverFrom(m, c, end));
      && Pool(n, end) && AllHeads(n, end) == AllHeads(m, end)
      && forall h | h in AllHeads(m, end) :: if h < c then SameHeader(m, n, h) else ListAfter(m, n, h)
    decreases end - c
  {
    HeadsTile(m, FIRST, end);
    if c != end {
      RecoverClumpKeeps(m, c, end);
      RecoverClumpList(m, c, end);
      NextHead(m, FIRST, end, c);
      var bs := RecoverClump(m, c);
      var n := ApplyBlocks(m, bs);
      var next := c + Size(m, c);
      RecoverFromLists(n, next, end);
      ApplyBlocksAppend(m, bs, RecoverFrom(n, next, end));
      var p := ApplyBlocks(n, RecoverFrom(n, next, end));
      forall h | h in AllHeads(m, end) ensures if h < c then SameHeader(m, p, h) else ListAfter(m, p, h) {
        if h < c {
          assert SameHeader(m, n, h) && SameHeader(n, p, h);
        } else if h == c {
          SameHeaderFacts(n, p, h);
        } else {
          SameHeaderFacts(m, n, h);
          assert ListAfter(n, p, h);
        }
      }
    }
  }

  /** The clump before h, if any, will not be free. */
  ghost predicate Surviving(m: Mem, end: int, h: int)
    requires Pool(m, end)
  {
    forall p | p in AllHeads(m, end) && p + Size(m, p) == h :: Live(m, end, p)
  }

  /**
   A recovered pool passes pmemalloc_check exactly when no ACTIVE clump kept entries recorded by an
   interrupted pmemalloc_onfree, and no FREE clump that coalescing leaves kept entries of a freed
   reservation.
   */
  lemma RecoveredPassesExactly(m: Mem, end: int)
    requires Good(m, end) && FIRST < end
    ensures CheckAccepts(ApplyBlocks(m, Init(m, end)), end) <==>
      && (forall h | h in AllHeads(m, end) && State(m, h) == ACTIVE :: NoEntries(m, h))
      && (forall h | h in AllHeads(m, end) && State(m, h) == FREE && Surviving(m, end, h) :: NoEntries(m, h))
  {
    FirstHead(m, end);
    RecoverFromKeeps(m, FIRST, end);
    RecoverFromLists(m, FIRST, end);
    var bs := RecoverFrom(m, FIRST, end);
    var n := ApplyBlocks(m, bs);
    HeadsTile(m, FIRST, end);
    HeadsTile(n, FIRST, end);
    CoalesceAll(n, end);
    ApplyBlocksAppend(m, bs, Coalesce(n, end));
    CoalescedPassesExactly(n, ApplyBlocks(n, Coalesce(n, end)), end);
    forall h | h in AllHeads(m, end) ensures ListAfter(m, n, h) && (AfterFree(n, end, h) <==> !Surviving(m, end, h)) {
      AfterFreeAfterRecovery(m, n, end, h);
    }
  }

  lemma AfterFreeAfterRecovery(m: Mem, n: Mem, end: int, h: int)
    requires Pool(m, end) && Pool(n, end) && AllHeads(n, end) == AllHeads(m, end)
    requires forall k | k in AllHeads(m, end) :: ListAfter(m, n, k)
    ensures AfterFree(n, end, h) <==> !Surviving(m, end, h)
  {
    forall p | p in AllHeads(m, end) ensures State(n, p) == FREE <==> !Live(m, end, p) {
      assert ListAfter(m, n, p);
    }
    if !Surviving(m, end, h) {
      var p :| p in AllHeads(m, end) && p + Size(m, p) == h && !Live(m, end, p);
      assert ListAfter(m, n, p);
      assert State(n, p) == FREE && p + Size(n, p) == h;
    }
    if AfterFree(n, end, h) {
      var p :| p in AllHeads(n, end) && State(n, p) == FREE && p + Size(n, p) == h;
      assert ListAfter(m, n, p);
    }
  }

  // ---------------------------------------------------------------------------------------
  // How a pool comes to fail the check

  /** pmemalloc_onfree, then a crash before pmemalloc_free: recovery leaves the entry, and the
      check rejects the recovered pool. */
  lemma OnFreeThenCrash(m: Mem, c: int, target: int, val: int, end: int)
    requires Idle(m, end) && c in AllHeads(m, end) && State(m, c) == ACTIVE
    requires FreeSlot(m, c) < NUM_ON && target != 0
    ensures
      var n := ApplyBlocks(m, Record(c, FreeSlot(m, c), target, val));
      Good(n, end) && !CheckAccepts(ApplyBlocks(n, Init(n, end)), end)
  {
    var i := FreeSlot(m, c);
    RecordKeeps(m, c, i, target, val, end);
    var n := ApplyBlocks(m, Record(c, i, target, val));
    IdleIsGood(n, end);
    HeadFacts(m, end, c);
    RecoveredPassesExactly(n, end);
    assert Off(n, c, i) == target && !NoEntries(n, c);
  }

  /**
   Freeing a reservation leaves its entries in place. The pool passes afterwards exactly when every
   ACTIVE clump, and every free one that does not follow another free one, has none; the freed
   clump c counts as free.
   */
  lemma FreedReservationPasses(m: Mem, c: int, end: int)
    requires Idle(m, end) && c in AllHeads(m, end) && State(m, c) == RESERVED
    ensures CheckAccepts(ApplyBlocks(m, FreeClump(m, c, end)), end) <==>
      && (forall h | h in AllHeads(m, end) && State(m, h) == ACTIVE :: NoEntries(m, h))
      && (forall h | h in AllHeads(m, end) && (State(m, h) == FREE || h == c)
            && !AfterFree(m, end, h) && h != c + Size(m, c) :: NoEntries(m, h))
  {
    HeadFacts(m, end, c);
    IdleIsGood(m, end);
    SetStateKeeps(m, c, FREE, end);
    var bs := Release(m, c);
    var n := ApplyBlocks(m, bs);
    TurnedIdle(m, n, c, end);
    CoalesceAll(n, end);
    ApplyBlocksAppend(m, bs, Coalesce(n, end));
    CoalescedPassesExactly(n, ApplyBlocks(n, Coalesce(n, end)), end);
    forall h | h in AllHeads(m, end)
      ensures State(n, h) == (if h == c then FREE else State(m, h)) && (NoEntries(n, h) <==> NoEntries(m, h))
      ensures AfterFree(n, end, h) <==> AfterFree(m, end, h) || h == c + Size(m, c)
    {
      if h != c { SameHeaderFacts(m, n, h); }
      FreedNeighbours(m, n, c, end, h);
    }
  }

  lemma FreedNeighbours(m: Mem, n: Mem, c: int, end: int, h: int)
    requires Pool(m, end) && c in AllHeads(m, end) && Turned(m, n, c, end) && State(m, c) == RESERVED && State(n, c) == FREE
    ensures AfterFree(n, end, h) <==> AfterFree(m, end, h) || h == c + Size(m, c)
  {
    forall p | p in AllHeads(m, end) && p != c ensures State(n, p) == State(m, p) && Size(n, p) == Size(m, p) {
      SameHeaderFacts(m, n, p);
    }
    if AfterFree(m, end, h) {
      var p :| p in AllHeads(m, end) && State(m, p) == FREE && p + Size(m, p) == h;
      assert p != c && State(n, p) == FREE && p + Size(n, p) == h;
    }
  }

  /** Freed from a pool that passes, a reservation spoils it exactly when it had entries and does
      not disappear into a free clump before it. */
  lemma FreedReservationPassesExactly(m: Mem, c: int, end: int)
    requires Idle(m, end) && CheckAccepts(m, end) && c in AllHeads(m, end) && State(m, c) == RESERVED
    ensures CheckAccepts(ApplyBlocks(m, FreeClump(m, c, end)), end) <==> NoEntries(m, c) || AfterFree(m, end, c)
  {
    FreedReservationPasses(m, c, end);
    HeadFacts(m, end, c);
  }

  /** pmemalloc_onactive, then pmemalloc_free: the check rejects every pool in which no free clump
      comes before the reservation. */
  lemma OnActiveThenFree(m: Mem, c: int, target: int, val: int, end: int)
    requires Idle(m, end) && c in AllHeads(m, end) && State(m, c) == RESERVED && !AfterFree(m, end, c)
    requires FreeSlot(m, c) < NUM_ON && target != 0
    ensures
      var n := ApplyBlocks(m, Record(c, FreeSlot(m, c), target, val));
      Idle(n, end) && !CheckAccepts(ApplyBlocks(n, FreeClump(n, c, end)), end)
  {
    var i := FreeSlot(m, c);
    RecordKeeps(m, c, i, target, val, end);
    var n := ApplyBlocks(m, Record(c, i, target, val));
    HeadFacts(m, end, c);
    forall p | p in AllHeads(m, end) && p != c ensures State(n, p) == State(m, p) && Size(n, p) == Size(m, p) {
      SameHeaderFacts(m, n, p);
    }
    FreedReservationPasses(n, c, end);
    assert Off(n, c, i) == target && !NoEntries(n, c) && !AfterFree(n, end, c);
  }
}
