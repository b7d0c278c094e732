/**
 The two walks of recovery: pmemalloc_recover, which takes every clump to FREE or ACTIVE, and
 pmemalloc_coalesce_free, which merges runs of free clumps. Both are proved to keep the meaning of
 the pool at every crash point, whatever they have done so far, and to leave it as promised at the
 end of the walk.
 */
module RecoveryWalk {
  import opened PersistentMemory
  import opened Clumps
  import opened PoolLogic
  import opened AllocatorPrograms
  import opened CrashSafety

  ghost predicate SettledBelow(m: Mem, end: int, c: int)
    requires Pool(m, end)
  {
    forall h | h in AllHeads(m, end) && h < c :: State(m, h) == FREE || State(m, h) == ACTIVE
  }

  /** Only FREE and ACTIVE clumps. */
  ghost predicate Settled(m: Mem, end: int) {
    Pool(m, end) && SettledBelow(m, end, end)
  }

  ghost predicate HeadOrEnd(m: Mem, end: int, c: int)
    requires Pool(m, end)
  {
    c in AllHeads(m, end) || c == end
  }

  lemma FirstHead(m: Mem, end: int)
    requires Pool(m, end)
    ensures HeadOrEnd(m, end, FIRST) && SettledBelow(m, end, FIRST)
  {
    HeadsTile(m, FIRST, end);
  }

  lemma {:induction false} RecoverFromKeeps(m: Mem, c: int, end: int)
    requires Good(m, end) && HeadOrEnd(m, end, c) && SettledBelow(m, end, c)
    ensures Keeps(m, RecoverFrom(m, c, end), end)
    ensures Settled(ApplyBlocks(m, RecoverFrom(m, c, end)), end)
    decreases end - c
  {
    HeadsTile(m, FIRST, end);
    if c == end {
      KeepsNothing(m, end);
    } else {
      RecoverClumpKeeps(m, c, end);
      NextHead(m, FIRST, end, c);
      var bs := RecoverClump(m, c);
      var n := ApplyBlocks(m, bs);
      var next := c + Size(m, c);
      forall h | h in AllHeads(n, end) && h < next ensures State(n, h) == FREE || State(n, h) == ACTIVE {
        if h != c {
          assert h < c;
          SameHeaderFacts(m, n, h);
        }
      }
      RecoverFromKeeps(n, next, end);
      KeepsAppend(m, bs, RecoverFrom(n, next, end), end);
    }
  }

  // ---------------------------------------------------------------------------------------
  // Coalescing

  /** The clump after h, if any, is not free. */
  ghost predicate Apart(m: Mem, end: int, h: int) {
    h + Size(m, h) == end || State(m, h + Size(m, h)) != FREE
  }

  /** No two adjacent clumps are free. */
  ghost predicate Coalesced(m: Mem, end: int) {
    Pool(m, end) && forall h | h in AllHeads(m, end) && State(m, h) == FREE :: Apart(m, end, h)
  }

  /** Free clumps below c are followed, still below c, by a clump that is not free. */
  ghost predicate ApartBelow(m: Mem, end: int, c: int)
    requires Pool(m, end)
  {
    forall h | h in AllHeads(m, end) && h < c && State(m, h) == FREE :: h + Size(m, h) < c && Apart(m, end, h)
  }

  /** What the walk knows when it reaches clump c. */
  ghost predicate Walking(m: Mem, c: int, end: int, firstFree: int, lastFree: int, csize: int) {
    && Idle(m, end) && HeadOrEnd(m, end, c)
    && if firstFree == 0 then lastFree == 0 && csize == 0 && ApartBelow(m, end, c)
       else
         && firstFree in AllHeads(m, end) && firstFree < c && csize == c - firstFree
         && (forall h | h in AllHeads(m, end) && firstFree <= h < c :: State(m, h) == FREE)
         && (lastFree == 0 ==> firstFree + Size(m, firstFree) == c)
         && ApartBelow(m, end, firstFree)
  }

  /** Coalescing only rewrites size words of free clumps, and only free clumps disappear. */
  ghost predicate OnlyFreeChanges(m: Mem, n: Mem, end: int)
    requires Pool(m, end)
  {
    && Pool(n, end)
    && (forall h | h in AllHeads(n, end) :: h in AllHeads(m, end) && State(n, h) == State(m, h))
    && (forall h | h in AllHeads(m, end) && State(m, h) != FREE :: h in AllHeads(n, end))
    && (forall a :: Read(n, a) == Read(m, a) || (a in AllHeads(m, end) && State(m, a) == FREE))
  }

  lemma OnlyFreeChangesTrans(m: Mem, n: Mem, p: Mem, end: int)
    requires Pool(m, end) && OnlyFreeChanges(m, n, end) && OnlyFreeChanges(n, p, end)
    ensures OnlyFreeChanges(m, p, end)
  {
  }

  /** The store that ends a run of free clumps at c. */
  lemma MergeRun(m: Mem, c: int, end: int, firstFree: int, lastFree: int, csize: int)
    requires Walking(m, c, end, firstFree, lastFree, csize)
    requires c != end ==> State(m, c) != FREE
    ensures
      var bs := if firstFree != 0 && lastFree != 0 then [SetWord(firstFree, csize + FREE)] else [];
      var n := ApplyBlocks(m, bs);
      && Keeps(m, bs, end) && Idle(n, end) && OnlyFreeChanges(m, n, end) && HeadOrEnd(n, end, c)
      && (forall h | h in AllHeads(n, end) && h < c && State(n, h) == FREE :: Apart(n, end, h))
  {
    HeadsTile(m, FIRST, end);
    IdleIsGood(m, end);
    if firstFree != 0 && lastFree != 0 {
      var w := Write(firstFree, csize);
      var n := Apply(m, [w]);
      ApplyOne(m, w);
      forall img | Torn(m, [w], img) ensures Good(img, end) && SameLogic(m, img, end) {
        if CellStep(m, img, firstFree, csize) {
          MergeKeeps(m, img, end, firstFree, c);
          IdleIsGood(img, end);
        } else {
          ScratchKeeps(m, img, end);
        }
      }
      KeepsOne(m, SetWord(firstFree, csize + FREE), end);
      MergeKeeps(m, n, end, firstFree, c);
      assert ApplyBlocks(m, [SetWord(firstFree, csize + FREE)]) == n by {
        assert [SetWord(firstFree, csize + FREE)][1..] == [];
      }
      MergedApart(m, n, c, end, firstFree);
    } else {
      KeepsNothing(m, end);
      if firstFree != 0 {
        forall h | h in AllHeads(m, end) && h < c && State(m, h) == FREE ensures Apart(m, end, h) {
          assert h <= firstFree;
        }
      }
    }
  }

  lemma MergedApart(m: Mem, n: Mem, c: int, end: int, first: int)
    requires Idle(m, end) && Idle(n, end) && HeadOrEnd(m, end, c) && first in AllHeads(m, end) && first < c
    requires c != end ==> State(m, c) != FREE
    requires ApartBelow(m, end, first)
    requires forall x :: x in AllHeads(n, end) <==> x in AllHeads(m, end) && (x <= first || c <= x)
    requires CellStep(m, n, first, c - first) && Size(n, first) == c - first
    ensures forall h | h in AllHeads(n, end) && h < c && State(n, h) == FREE :: Apart(n, end, h)
  {
    HeadsTile(m, FIRST, end);
    forall h | h in AllHeads(n, end) && h < c && State(n, h) == FREE ensures Apart(n, end, h) {
      if h != first {
        assert h < first && State(m, h) == FREE && h + Size(m, h) < first && Apart(m, end, h);
      }
    }
  }

  /** What a coalescing program achieves, crash or no crash. */
  ghost predicate CoalescedBy(m: Mem, bs: seq<Block>, end: int) {
    var n := ApplyBlocks(m, bs);
    Keeps(m, bs, end) && Idle(n, end) && OnlyFreeChanges(m, n, end) && Coalesced(n, end)
  }

  lemma CoalescedMore(m: Mem, a: seq<Block>, b: seq<Block>, end: int)
    requires Keeps(m, a, end) && OnlyFreeChanges(m, ApplyBlocks(m, a), end) && CoalescedBy(ApplyBlocks(m, a), b, end)
    ensures CoalescedBy(m, a + b, end)
  {
    KeepsAppend(m, a, b, end);
    OnlyFreeChangesTrans(m, ApplyBlocks(m, a), ApplyBlocks(m, a + b), end);
  }

  lemma {:induction false} CoalesceKeeps(m: Mem, c: int, end: int, firstFree: int, lastFree: int, csize: int)
    requires Walking(m, c, end, firstFree, lastFree, csize)
    ensures CoalescedBy(m, CoalesceFrom(m, c, end, firstFree, lastFree, csize), end)
    decreases end - c
  {
    HeadsTile(m, FIRST, end);
    var merge := if firstFree != 0 && lastFree != 0 then [SetWord(firstFree, csize + FREE)] else [];
    if c == end {
      MergeRun(m, c, end, firstFree, lastFree, csize);
      HeadsTile(ApplyBlocks(m, merge), FIRST, end);
    } else {
      var next := c + Size(m, c);
      NextHead(m, FIRST, end, c);
      if State(m, c) == FREE {
        WalkOn(m, c, end, firstFree, lastFree, csize);
        if firstFree == 0 {
          CoalesceKeeps(m, next, end, c, lastFree, csize + Size(m, c));
        } else {
          CoalesceKeeps(m, next, end, firstFree, c, csize + Size(m, c));
        }
      } else {
        var n := ApplyBlocks(m, merge);
        PassLive(m, c, end, firstFree, lastFree, csize);
        CoalesceKeeps(n, next, end, 0, 0, 0);
        CoalescedMore(m, merge, CoalesceFrom(n, next, end, 0, 0, 0), end);
      }
    }
  }

  lemma WalkOn(m: Mem, c: int, end: int, firstFree: int, lastFree: int, csize: int)
    requires Walking(m, c, end, firstFree, lastFree, csize) && c in AllHeads(m, end) && State(m, c) == FREE
    ensures if firstFree == 0 then Walking(m, c + Size(m, c), end, c, lastFree, csize + Size(m, c))
            else Walking(m, c + Size(m, c), end, firstFree, c, csize + Size(m, c))
  {
    HeadsTile(m, FIRST, end);
    NextHead(m, FIRST, end, c);
    forall h | h in AllHeads(m, end) && h < c + Size(m, c) ensures h <= c {}
  }

  /** At a live clump the run before it is merged and the walk starts afresh behind it. */
  lemma PassLive(m: Mem, c: int, end: int, firstFree: int, lastFree: int, csize: int)
    requires Walking(m, c, end, firstFree, lastFree, csize) && c in AllHeads(m, end) && State(m, c) != FREE
    ensures
      var bs := if firstFree != 0 && lastFree != 0 then [SetWord(firstFree, csize + FREE)] else [];
      var n := ApplyBlocks(m, bs);
      && Keeps(m, bs, end) && OnlyFreeChanges(m, n, end)
      && Walking(n, c + Size(m, c), end, 0, 0, 0)
  {
    var bs := if firstFree != 0 && lastFree != 0 then [SetWord(firstFree, csize + FREE)] else [];
    var n := ApplyBlocks(m, bs);
    MergeRun(m, c, end, firstFree, lastFree, csize);
    assert Read(n, c) == Read(m, c);
    WalkPast(n, c, end);
  }

  lemma WalkPast(n: Mem, c: int, end: int)
    requires Idle(n, end) && c in AllHeads(n, end) && State(n, c) != FREE
    requires forall h | h in AllHeads(n, end) && h < c && State(n, h) == FREE :: Apart(n, end, h)
    ensures Walking(n, c + Size(n, c), end, 0, 0, 0)
  {
    HeadsTile(n, FIRST, end);
    NextHead(n, FIRST, end, c);
    forall h | h in AllHeads(n, end) && h < c + Size(n, c) && State(n, h) == FREE
      ensures h + Size(n, h) < c + Size(n, c) && Apart(n, end, h)
    {
      assert h < c && h + Size(n, h) <= c;
    }
  }

  lemma CoalesceAll(m: Mem, end: int)
    requires Idle(m, end)
    ensures
      var n := ApplyBlocks(m, Coalesce(m, end));
      Keeps(m, Coalesce(m, end), end) && Idle(n, end) && OnlyFreeChanges(m, n, end) && Coalesced(n, end)
  {
    HeadsTile(m, FIRST, end);
    CoalesceKeeps(m, FIRST, end, 0, 0, 0);
  }
}
