/**
 What a pool image means: the contents that recovery will expose. A clump is live if it is ACTIVE
 or on its way there; the value of a live word is what is left once the redo entries of the busy
 clump, if there is one, have been executed. Two images with the same meaning recover to the same
 allocations, with the same sizes and redo lists, holding the same values. The lemmas go through
 the kinds of stores an operation makes (scratch words, header words, redo targets, cutting and
 merging of free clumps) and say which of them keep the meaning.
 */
module PoolLogic {
  import opened PersistentMemory
  import opened Clumps

  /** A clump whose redo entries recovery executes. */
  predicate Busy(m: Mem, h: int) {
    State(m, h) == ACTIVATING || State(m, h) == FREEING
  }

  /** Entry i is reached by the redo loop, which stops at the first empty slot. */
  predicate Entry(m: Mem, c: int, i: int) {
    0 <= i < NUM_ON && forall j | 0 <= j <= i :: Off(m, c, j) != 0
  }

  /** The value of cell a after entries i.. of clump c have been executed, if it was v. */
  function Effect(m: Mem, c: int, i: int, a: int, v: int): int
    decreases NUM_ON - i
  {
    if i >= NUM_ON || Off(m, c, i) == 0 then v
    else Effect(m, c, i + 1, a, if Off(m, c, i) == a then Ptr(m, c, i) else v)
  }

  /** No two entries that the redo loop reaches set cell a to different values. */
  ghost predicate Agreed(m: Mem, c: int, a: int) {
    forall i, j | Entry(m, c, i) && Entry(m, c, j) && Off(m, c, i) == a == Off(m, c, j) ::
      Ptr(m, c, i) == Ptr(m, c, j)
  }

  /** They set no word to different values. */
  ghost predicate ConflictFree(m: Mem, c: int) {
    forall i, j | Entry(m, c, i) && Entry(m, c, j) && Off(m, c, i) == Off(m, c, j) ::
      Ptr(m, c, i) == Ptr(m, c, j)
  }

  /** The redo entries of c point at user words. */
  ghost predicate SafeTargets(m: Mem, end: int, c: int)
    requires Pool(m, end)
  {
    forall i | Entry(m, c, i) :: !HeaderCell(m, end, Off(m, c, i))
  }

  ghost predicate OneBusy(m: Mem, end: int)
    requires Pool(m, end)
  {
    forall h, k | h in AllHeads(m, end) && k in AllHeads(m, end) && Busy(m, h) && Busy(m, k) :: h == k
  }

  /** Images from which recovery is well behaved. */
  ghost predicate Good(m: Mem, end: int) {
    && Pool(m, end) && OneBusy(m, end)
    && forall h | h in AllHeads(m, end) && Busy(m, h) :: SafeTargets(m, end, h)
  }

  /** The redo entries that recovery would execute disagree about cell a. */
  ghost predicate Contested(m: Mem, end: int, a: int)
    requires Pool(m, end)
  {
    exists b :: b in AllHeads(m, end) && Busy(m, b) && !Agreed(m, b, a)
  }

  /** They disagree about nothing. */
  ghost predicate Calm(m: Mem, end: int)
    requires Pool(m, end)
  {
    forall a :: !Contested(m, end, a)
  }

  lemma BusyContested(m: Mem, end: int, b: int, a: int)
    requires Pool(m, end) && OneBusy(m, end) && b in AllHeads(m, end) && Busy(m, b)
    ensures Contested(m, end, a) <==> !Agreed(m, b, a)
  {
  }

  /** No operation is in progress. */
  ghost predicate Idle(m: Mem, end: int) {
    Pool(m, end) && forall h | h in AllHeads(m, end) :: !Busy(m, h)
  }

  // ---------------------------------------------------------------------------------------
  // The meaning of an image

  /** The clumps that are, or that recovery will make, ACTIVE. */
  ghost predicate Live(m: Mem, end: int, h: int)
    requires Pool(m, end)
  {
    h in AllHeads(m, end) && (State(m, h) == ACTIVATING || State(m, h) == ACTIVE)
  }

  ghost predicate LiveCell(m: Mem, end: int, a: int)
    requires Pool(m, end)
  {
    STATIC <= a < STATIC_END || exists h :: Live(m, end, h) && PayloadCell(m, h, a)
  }

  /** The value cell a will have once the pending redo work, if any, is done. */
  ghost function Final(m: Mem, end: int, a: int): int
    requires Pool(m, end)
  {
    if b :| b in AllHeads(m, end) && Busy(m, b) then Effect(m, b, 0, a, Read(m, a)) else Read(m, a)
  }

  /** The redo entries an ACTIVE clump keeps; a busy one ends with none. */
  function FinalOff(m: Mem, h: int, i: int): int {
    if State(m, h) == ACTIVE then Off(m, h, i) else 0
  }

  ghost predicate SameClump(m: Mem, n: Mem, h: int) {
    && Size(m, h) == Size(n, h)
    && forall i | 0 <= i < NUM_ON ::
         FinalOff(m, h, i) == FinalOff(n, h, i) && (FinalOff(m, h, i) != 0 ==> Ptr(m, h, i) == Ptr(n, h, i))
  }

  /** n means what m means: the same live clumps, and the same promise for every live cell that
      the redo entries of m, if any are to be executed, agree about. */
  ghost predicate SameLogic(m: Mem, n: Mem, end: int)
    requires Pool(m, end) && Pool(n, end)
  {
    && (forall h :: Live(m, end, h) <==> Live(n, end, h))
    && (forall h | Live(m, end, h) :: SameClump(m, n, h))
    && (forall a | Contested(n, end, a) :: Contested(m, end, a))
    && (forall a | LiveCell(m, end, a) && !Contested(m, end, a) :: Final(m, end, a) == Final(n, end, a))
  }

  lemma SameLiveCells(m: Mem, n: Mem, end: int)
    requires Pool(m, end) && Pool(n, end) && SameLogic(m, n, end)
    ensures forall a :: LiveCell(m, end, a) <==> LiveCell(n, end, a)
  {
    forall a ensures LiveCell(m, end, a) <==> LiveCell(n, end, a) {
      if LiveCell(m, end, a) && !(STATIC <= a < STATIC_END) {
        var h :| Live(m, end, h) && PayloadCell(m, h, a);
        assert SameClump(m, n, h) && Live(n, end, h) && PayloadCell(n, h, a);
      }
      if LiveCell(n, end, a) && !(STATIC <= a < STATIC_END) {
        var h :| Live(n, end, h) && PayloadCell(n, h, a);
        assert Live(m, end, h);
        assert SameClump(m, n, h) && PayloadCell(m, h, a);
      }
    }
  }

  lemma SameLogicTrans(m: Mem, n: Mem, p: Mem, end: int)
    requires Pool(m, end) && Pool(n, end) && Pool(p, end)
    requires SameLogic(m, n, end) && SameLogic(n, p, end)
    ensures SameLogic(m, p, end)
  {
    SameLiveCells(m, n, end);
    forall h | Live(m, end, h) ensures SameClump(m, p, h) {
      assert Live(n, end, h) && SameClump(m, n, h) && SameClump(n, p, h);
    }
  }

  lemma BusyFinal(m: Mem, end: int, b: int, a: int)
    requires Pool(m, end) && OneBusy(m, end) && b in AllHeads(m, end) && Busy(m, b)
    ensures Final(m, end, a) == Effect(m, b, 0, a, Read(m, a))
  {
  }

  // ---------------------------------------------------------------------------------------
  // Redo entries

  /** The last entry for a cell wins; where the entries agree, so does every other. */
  lemma EffectOfEntries(m: Mem, c: int, a: int, v: int)
    requires Agreed(m, c, a)
    ensures forall i | Entry(m, c, i) && Off(m, c, i) == a :: Effect(m, c, 0, a, v) == Ptr(m, c, i)
    ensures (forall i | Entry(m, c, i) :: Off(m, c, i) != a) ==> Effect(m, c, 0, a, v) == v
  {
    assert Effect(m, c, 3, a, v) == v;
    assert Off(m, c, 0) != 0 ==> Entry(m, c, 0);
    assert Off(m, c, 0) != 0 && Off(m, c, 1) != 0 ==> Entry(m, c, 1);
    assert Off(m, c, 0) != 0 && Off(m, c, 1) != 0 && Off(m, c, 2) != 0 ==> Entry(m, c, 2);
    EffectTail(m, c, a, v);
    EffectTail(m, c, a, Ptr(m, c, 0));
  }

  lemma EffectTail(m: Mem, c: int, a: int, v: int)
    ensures Effect(m, c, 1, a, v) ==
            if Off(m, c, 1) == 0 then v
            else
              var w := if Off(m, c, 1) == a then Ptr(m, c, 1) else v;
              if Off(m, c, 2) == 0 then w else if Off(m, c, 2) == a then Ptr(m, c, 2) else w
  {
  }

  /** Where they do not agree, the last of them wins. */
  lemma LastEntryWins(m: Mem, c: int, i: int, a: int, v: int)
    requires Entry(m, c, i) && Off(m, c, i) == a && forall j | Entry(m, c, j) && i < j :: Off(m, c, j) != a
    ensures Effect(m, c, 0, a, v) == Ptr(m, c, i)
  {
    assert forall u :: Effect(m, c, 3, a, u) == u;
    assert i < 1 && Off(m, c, 1) != 0 ==> Entry(m, c, 1);
    assert i < 2 && Off(m, c, 1) != 0 && Off(m, c, 2) != 0 ==> Entry(m, c, 2);
    EffectTail(m, c, a, v);
    EffectTail(m, c, a, Ptr(m, c, 0));
  }

  /** Every target that the entries agree about already holds its new value, so executing them
      changes nothing there. */
  ghost predicate Done(m: Mem, c: int) {
    forall i | Entry(m, c, i) && Agreed(m, c, Off(m, c, i)) :: Read(m, Off(m, c, i)) == Ptr(m, c, i)
  }

  lemma DoneEffect(m: Mem, c: int, a: int)
    requires forall i | Entry(m, c, i) && Off(m, c, i) == a :: Read(m, a) == Ptr(m, c, i)
    ensures Effect(m, c, 0, a, Read(m, a)) == Read(m, a)
  {
    EffectOfEntries(m, c, a, Read(m, a));
  }

  // ---------------------------------------------------------------------------------------
  // Steps that keep the meaning

  /** Changes to one header that keep its size. */
  ghost predicate HeaderStep(m: Mem, n: Mem, end: int, h: int)
    requires Pool(m, end)
  {
    && h in AllHeads(m, end)
    && (forall a | !(h <= a < h + CHUNK) :: Read(n, a) == Read(m, a))
    && Size(n, h) == Size(m, h) && State(n, h) <= FREEING
  }

  lemma HeaderStepFrame(m: Mem, n: Mem, end: int, h: int)
    requires Pool(m, end) && HeaderStep(m, n, end, h)
    ensures Pool(n, end) && AllHeads(n, end) == AllHeads(m, end)
    ensures forall k | k in AllHeads(m, end) && k != h :: SameHeader(m, n, k)
    ensures forall a :: HeaderCell(n, end, a) <==> HeaderCell(m, end, a)
    ensures forall a | !HeaderCell(m, end, a) :: Read(n, a) == Read(m, a)
  {
    HeadsTile(m, FIRST, end);
    FrameTiled(m, n, FIRST, end);
    forall k | k in AllHeads(m, end) && k != h ensures SameHeader(m, n, k) {}
  }

  ghost predicate SameHeader(m: Mem, n: Mem, k: int) {
    forall a | k <= a < k + CHUNK :: Read(n, a) == Read(m, a)
  }

  lemma SameHeaderFacts(m: Mem, n: Mem, k: int)
    requires SameHeader(m, n, k)
    ensures Read(n, k) == Read(m, k)
    ensures forall i | 0 <= i < NUM_ON :: Off(n, k, i) == Off(m, k, i) && Ptr(n, k, i) == Ptr(m, k, i)
    ensures forall i :: Entry(n, k, i) <==> Entry(m, k, i)
    ensures forall a :: Agreed(n, k, a) <==> Agreed(m, k, a)
    ensures forall a, v :: Effect(n, k, 0, a, v) == Effect(m, k, 0, a, v)
    ensures SameClump(m, n, k)
  {
    forall i | 0 <= i < NUM_ON ensures Off(n, k, i) == Off(m, k, i) && Ptr(n, k, i) == Ptr(m, k, i) {
      assert k <= OffAddr(k, i) < k + CHUNK && k <= PtrAddr(k, i) < k + CHUNK;
    }
    forall a, v ensures Effect(n, k, 0, a, v) == Effect(m, k, 0, a, v) {
      SameEffect(m, n, k, 0, a, v);
    }
  }

  lemma {:induction false} SameEffect(m: Mem, n: Mem, k: int, i: int, a: int, v: int)
    requires 0 <= i
    requires forall j | 0 <= j < NUM_ON :: Off(n, k, j) == Off(m, k, j) && Ptr(n, k, j) == Ptr(m, k, j)
    ensures Effect(n, k, i, a, v) == Effect(m, k, i, a, v)
    decreases NUM_ON - i
  {
    if i < NUM_ON && Off(m, k, i) != 0 {
      SameEffect(m, n, k, i + 1, a, if Off(m, k, i) == a then Ptr(m, k, i) else v);
    }
  }

  /** A clump that is not live before or after may change its header freely, and an ACTIVE one
      may change anything but its redo entries. */
  lemma HeaderStepKeeps(m: Mem, n: Mem, end: int, h: int)
    requires Good(m, end) && HeaderStep(m, n, end, h)
    requires !Busy(m, h) && !Busy(n, h)
    requires State(m, h) == ACTIVE <==> State(n, h) == ACTIVE
    requires State(m, h) == ACTIVE ==> SameClump(m, n, h)
    ensures Good(n, end) && SameLogic(m, n, end)
  {
    HeaderStepFrame(m, n, end, h);
    forall k | k in AllHeads(m, end) && k != h ensures SameHeader(m, n, k) && SameClump(m, n, k)
        && State(n, k) == State(m, k)
    {
      SameHeaderFacts(m, n, k);
    }
    forall k | k in AllHeads(n, end) && Busy(n, k) ensures SafeTargets(n, end, k) {
      SameHeaderFacts(m, n, k);
      assert SafeTargets(m, end, k);
    }
    forall a | Contested(n, end, a) ensures Contested(m, end, a) {
      ContestedSame(m, n, end, a);
    }
    forall a | LiveCell(m, end, a) ensures Final(m, end, a) == Final(n, end, a) {
      LiveCellsAreNotHeaders(m, end, a);
      FinalSame(m, n, end, a);
    }
  }

  lemma LiveCellsAreNotHeaders(m: Mem, end: int, a: int)
    requires Pool(m, end) && LiveCell(m, end, a)
    ensures !HeaderCell(m, end, a)
  {
    HeadsTile(m, FIRST, end);
  }

  /** The final value of a cell depends on the cell and on the busy header. */
  lemma FinalSame(m: Mem, n: Mem, end: int, a: int)
    requires Pool(m, end) && Pool(n, end) && OneBusy(m, end) && OneBusy(n, end)
    requires Read(n, a) == Read(m, a)
    requires forall k | k in AllHeads(m, end) && Busy(m, k) :: k in AllHeads(n, end) && Busy(n, k) && SameHeader(m, n, k)
    requires forall k | k in AllHeads(n, end) && Busy(n, k) :: k in AllHeads(m, end) && Busy(m, k)
    ensures Final(n, end, a) == Final(m, end, a)
  {
    if b :| b in AllHeads(m, end) && Busy(m, b) {
      SameHeaderFacts(m, n, b);
      BusyFinal(m, end, b, a);
      BusyFinal(n, end, b, a);
    }
  }

  lemma ContestedSame(m: Mem, n: Mem, end: int, a: int)
    requires Pool(m, end) && Pool(n, end) && Contested(n, end, a)
    requires forall k | k in AllHeads(n, end) && Busy(n, k) :: k in AllHeads(m, end) && Busy(m, k) && SameHeader(m, n, k)
    ensures Contested(m, end, a)
  {
    var b :| b in AllHeads(n, end) && Busy(n, b) && !Agreed(n, b, a);
    SameHeaderFacts(m, n, b);
  }

  /** While the redo stores of b are done, clearing entries and then leaving the busy state. */
  ghost predicate Retire(m: Mem, n: Mem, b: int) {
    && (forall i | 0 <= i < NUM_ON :: Off(n, b, i) == Off(m, b, i) || Off(n, b, i) == 0)
    && (forall i | 0 <= i < NUM_ON :: Ptr(n, b, i) == Ptr(m, b, i))
    && (|| State(n, b) == State(m, b)
        || (State(m, b) == ACTIVATING && State(n, b) == ACTIVE && forall i | 0 <= i < NUM_ON :: Off(n, b, i) == 0)
        || (State(m, b) == FREEING && State(n, b) == FREE))
  }

  lemma RetiredContested(m: Mem, n: Mem, end: int, b: int, a: int)
    requires Pool(m, end) && Pool(n, end) && b in AllHeads(m, end) && Busy(m, b) && Contested(n, end, a) && Retire(m, n, b)
    requires OneBusy(m, end) && AllHeads(n, end) == AllHeads(m, end)
    requires forall k | k in AllHeads(m, end) && k != b :: SameHeader(m, n, k)
    ensures Contested(m, end, a)
  {
    var h :| h in AllHeads(n, end) && Busy(n, h) && !Agreed(n, h, a);
    if h == b {
      forall i | Entry(n, b, i) ensures Entry(m, b, i) && Off(n, b, i) == Off(m, b, i) && Ptr(n, b, i) == Ptr(m, b, i) {}
    } else {
      SameHeaderFacts(m, n, h);
    }
  }

  lemma RetireKeeps(m: Mem, n: Mem, end: int, b: int)
    requires Good(m, end) && HeaderStep(m, n, end, b) && Busy(m, b) && Done(m, b) && Retire(m, n, b)
    ensures Good(n, end) && SameLogic(m, n, end)
  {
    HeaderStepFrame(m, n, end, b);
    forall i | Entry(n, b, i) ensures Entry(m, b, i) && Off(n, b, i) == Off(m, b, i) && Ptr(n, b, i) == Ptr(m, b, i) {}
    assert SafeTargets(m, end, b);
    forall a | Contested(n, end, a) ensures Contested(m, end, a) {
      RetiredContested(m, n, end, b, a);
    }
    forall k | k in AllHeads(m, end) && k != b ensures SameClump(m, n, k) && State(n, k) == State(m, k) && !Busy(n, k) {
      SameHeaderFacts(m, n, k);
    }
    assert OneBusy(n, end);
    forall a | LiveCell(m, end, a) && !Contested(m, end, a) ensures Final(m, end, a) == Final(n, end, a) {
      LiveCellsAreNotHeaders(m, end, a);
      BusyContested(m, end, b, a);
      BusyFinal(m, end, b, a);
      DoneEffect(m, b, a);
      DoneEffect(n, b, a);
    }
  }

  /** Executing one redo entry, possibly again. */
  ghost predicate CellStep(m: Mem, n: Mem, a: int, v: int) {
    forall x :: Read(n, x) == if x == a then v else Read(m, x)
  }

  lemma RedoStoreKeeps(m: Mem, n: Mem, end: int, b: int, i: int)
    requires Good(m, end) && b in AllHeads(m, end) && Busy(m, b) && Entry(m, b, i)
    requires CellStep(m, n, Off(m, b, i), Ptr(m, b, i))
    ensures Good(n, end) && SameLogic(m, n, end)
    ensures AllHeads(n, end) == AllHeads(m, end) && SameHeader(m, n, b)
    ensures forall k | k in AllHeads(m, end) :: SameHeader(m, n, k)
  {
    var t := Off(m, b, i);
    assert SafeTargets(m, end, b) && !HeaderCell(m, end, t);
    HeadersUntouched(m, n, end);
    forall k | k in AllHeads(m, end) ensures SameClump(m, n, k) && State(n, k) == State(m, k) {
      SameHeaderFacts(m, n, k);
    }
    SameHeaderFacts(m, n, b);
    assert SafeTargets(n, end, b);
    forall a | LiveCell(m, end, a) && !Contested(m, end, a) ensures Final(m, end, a) == Final(n, end, a) {
      BusyContested(m, end, b, a);
      BusyFinal(m, end, b, a);
      BusyFinal(n, end, b, a);
      EffectOfEntries(m, b, a, Read(m, a));
      EffectOfEntries(m, b, a, Read(n, a));
    }
  }

  /** Writes that avoid every header keep the tiling and all headers. */
  lemma HeadersUntouched(m: Mem, n: Mem, end: int)
    requires Pool(m, end)
    requires forall a | HeaderCell(m, end, a) :: Read(n, a) == Read(m, a)
    ensures Pool(n, end) && AllHeads(n, end) == AllHeads(m, end)
    ensures forall k | k in AllHeads(m, end) :: SameHeader(m, n, k)
    ensures forall a :: HeaderCell(n, end, a) <==> HeaderCell(m, end, a)
  {
    HeadsTile(m, FIRST, end);
    forall h | h in AllHeads(m, end) ensures Read(n, h) == Read(m, h) {
      assert HeaderCell(m, end, h);
    }
    assert HeaderCell(m, end, end);
    FrameTiled(m, n, FIRST, end);
    forall k | k in AllHeads(m, end) ensures SameHeader(m, n, k) {
      forall a | k <= a < k + CHUNK ensures Read(n, a) == Read(m, a) {
        assert HeaderCell(m, end, a);
      }
    }
  }

  lemma SameHeadersGood(m: Mem, n: Mem, end: int)
    requires Good(m, end) && Pool(n, end) && AllHeads(n, end) == AllHeads(m, end)
    requires forall k | k in AllHeads(m, end) :: SameHeader(m, n, k)
    ensures Good(n, end)
    ensures forall k | k in AllHeads(m, end) :: SameClump(m, n, k) && State(n, k) == State(m, k)
  {
    forall k | k in AllHeads(m, end) ensures SameClump(m, n, k) && State(n, k) == State(m, k) {
      SameHeaderFacts(m, n, k);
    }
    forall k | k in AllHeads(n, end) && Busy(n, k) ensures SafeTargets(n, end, k) {
      SameHeaderFacts(m, n, k);
      assert SafeTargets(m, end, k);
    }
  }

  /** Cells outside headers, live payloads and the static area carry no meaning. */
  lemma ScratchKeeps(m: Mem, n: Mem, end: int)
    requires Good(m, end)
    requires forall a | HeaderCell(m, end, a) :: Read(n, a) == Read(m, a)
    requires forall a | LiveCell(m, end, a) :: Read(n, a) == Read(m, a)
    ensures Good(n, end) && SameLogic(m, n, end)
    ensures AllHeads(n, end) == AllHeads(m, end)
    ensures forall k | k in AllHeads(m, end) :: SameHeader(m, n, k)
  {
    HeadersUntouched(m, n, end);
    SameHeadersGood(m, n, end);
    forall a | Contested(n, end, a) ensures Contested(m, end, a) {
      ContestedSame(m, n, end, a);
    }
    forall a | LiveCell(m, end, a) ensures Final(m, end, a) == Final(n, end, a) {
      FinalSame(m, n, end, a);
    }
  }

  /** Cutting a free clump in two. */
  lemma SplitKeeps(m: Mem, n: Mem, end: int, h: int, k: int, state: int)
    requires Idle(m, end) && h in AllHeads(m, end) && State(m, h) == FREE
    requires h < k < h + Size(m, h) && k % CHUNK == 0
    requires Read(m, k) == h + Size(m, h) - k
    requires state == FREE || state == RESERVED
    requires CellStep(m, n, h, k - h + state)
    ensures Idle(n, end) && SameLogic(m, n, end)
    ensures AllHeads(n, end) == AllHeads(m, end) + {k}
    ensures State(n, k) == FREE && Size(n, k) == h + Size(m, h) - k && Size(n, h) == k - h && State(n, h) == state
  {
    HeadsTile(m, FIRST, end);
    SplitArithmetic(m, n, end, h, k, state);
    SplitTiled(m, n, FIRST, end, h, k);
    ReshapeKeeps(m, n, end, h);
  }

  lemma SplitArithmetic(m: Mem, n: Mem, end: int, h: int, k: int, state: int)
    requires Pool(m, end) && h in AllHeads(m, end)
    requires h < k < h + Size(m, h) && k % CHUNK == 0
    requires Read(m, k) == h + Size(m, h) - k
    requires state == FREE || state == RESERVED
    requires CellStep(m, n, h, k - h + state)
    ensures Read(n, h) >= CHUNK && Size(n, h) == k - h && State(n, h) == state
    ensures Read(n, k) >= CHUNK && Size(n, k) == h + Size(m, h) - k && State(n, k) == FREE
  {
    HeadFacts(m, end, h);
    ChunkArithmetic((k - h) / CHUNK, state);
    ChunkArithmetic((h + Size(m, h) - k) / CHUNK, FREE);
    assert Read(n, h) == (k - h) / CHUNK * CHUNK + state && Read(n, k) == (h + Size(m, h) - k) / CHUNK * CHUNK;
  }

  lemma ChunkArithmetic(q: int, state: int)
    requires 0 <= state < CHUNK
    ensures (q * CHUNK + state) / CHUNK * CHUNK == q * CHUNK && (q * CHUNK + state) % CHUNK == state
  {
  }

  /** Merging a run of free clumps. */
  lemma MergeKeeps(m: Mem, n: Mem, end: int, h: int, k: int)
    requires Idle(m, end) && h in AllHeads(m, end) && (k in AllHeads(m, end) || k == end) && h < k
    requires forall x | x in AllHeads(m, end) && h <= x < k :: State(m, x) == FREE
    requires CellStep(m, n, h, k - h)
    ensures Idle(n, end) && SameLogic(m, n, end)
    ensures forall x :: x in AllHeads(n, end) <==> x in AllHeads(m, end) && (x <= h || k <= x)
    ensures Size(n, h) == k - h && State(n, h) == FREE
  {
    HeadsTile(m, FIRST, end);
    assert Read(n, h) == k - h;
    assert Read(n, h) >= CHUNK && Size(n, h) == k - h && State(n, h) == FREE;
    MergeTiled(m, n, FIRST, end, h, k);
    ReshapeKeeps(m, n, end, h);
  }

  lemma IdleIsGood(m: Mem, end: int)
    requires Idle(m, end)
    ensures Good(m, end) && Calm(m, end)
    ensures forall a :: Final(m, end, a) == Read(m, a)
  {
  }

  /** Rewriting one free or reserved size word, around untouched live clumps. */
  lemma ReshapeKeeps(m: Mem, n: Mem, end: int, h: int)
    requires Idle(m, end) && Pool(n, end)
    requires h in AllHeads(m, end) && State(m, h) != ACTIVE
    requires forall a | a != h :: Read(n, a) == Read(m, a)
    requires State(n, h) == FREE || State(n, h) == RESERVED
    requires forall k | k in AllHeads(m, end) && State(m, k) == ACTIVE :: k in AllHeads(n, end)
    requires forall k | k in AllHeads(n, end) && k != h && State(n, k) != FREE :: k in AllHeads(m, end)
    ensures Idle(n, end) && SameLogic(m, n, end)
  {
    forall k | k != h ensures State(n, k) == State(m, k) && Size(n, k) == Size(m, k) {}
    HeadsTile(m, FIRST, end);
    forall k | Live(m, end, k) ensures Live(n, end, k) && SameClump(m, n, k) {
      assert SameHeader(m, n, k);
      SameHeaderFacts(m, n, k);
    }
    IdleIsGood(m, end);
    IdleIsGood(n, end);
    forall a | LiveCell(m, end, a) ensures Final(m, end, a) == Final(n, end, a) {
      LiveCellsAreNotHeaders(m, end, a);
      assert HeaderCell(m, end, h);
    }
  }
}
