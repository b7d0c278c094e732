/**
 Crash safety of the allocator: programs that keep the meaning of a pool at every one of their
 crash points. Such programs can be put one after the other, so an operation is taken apart into
 blocks and each block is judged by itself. The lemmas cover the pieces that recovery, activation
 and freeing are made of: executing the redo entries, clearing the list, and leaving the busy
 state. Executing entries again, in part or in whole, is harmless as long as the clump stays busy,
 for every word that no two entries disagree about.
 */
module CrashSafety {
  import opened PersistentMemory
  import opened Clumps
  import opened PoolLogic
  import opened AllocatorPrograms

  /** Every crash image of the program is good and means the same as the starting memory. */
  ghost predicate Keeps(m: Mem, bs: seq<Block>, end: int) {
    Pool(m, end) && forall img | TornRun(m, bs, img) :: Good(img, end) && SameLogic(m, img, end)
  }

  lemma {:induction false} ApplyIsTorn(m: Mem, ws: seq<Write>)
    ensures Torn(m, ws, Apply(m, ws))
    decreases |ws|
  {
    if ws != [] {
      var n := m[ws[0].addr := ws[0].val];
      ApplyIsTorn(n, ws[1..]);
      forall a ensures Read(Apply(m, ws), a) == Read(m, a) || Write(a, Read(Apply(m, ws), a)) in ws {
        if Read(Apply(m, ws), a) == Read(n, a) && a == ws[0].addr {
          assert ws[0] in ws;
        }
      }
    }
  }

  lemma {:induction false} ApplyIsTornRun(m: Mem, bs: seq<Block>)
    ensures TornRun(m, bs, ApplyBlocks(m, bs))
    decreases |bs|
  {
    if bs != [] {
      ApplyIsTornRun(Apply(m, bs[0].writes), bs[1..]);
    }
  }

  lemma KeepsEnd(m: Mem, bs: seq<Block>, end: int)
    requires Keeps(m, bs, end)
    ensures Good(ApplyBlocks(m, bs), end) && SameLogic(m, ApplyBlocks(m, bs), end)
  {
    ApplyIsTornRun(m, bs);
  }

  lemma KeepsAppend(m: Mem, a: seq<Block>, b: seq<Block>, end: int)
    requires Keeps(m, a, end) && Keeps(ApplyBlocks(m, a), b, end)
    ensures Keeps(m, a + b, end) && ApplyBlocks(m, a + b) == ApplyBlocks(ApplyBlocks(m, a), b)
  {
    KeepsEnd(m, a, end);
    ApplyBlocksAppend(m, a, b);
    forall img | TornRun(m, a + b, img) ensures Good(img, end) && SameLogic(m, img, end) {
      TornRunAppend(m, a, b, img);
      if !TornRun(m, a, img) {
        SameLogicTrans(m, ApplyBlocks(m, a), img, end);
      }
    }
  }

  lemma KeepsOne(m: Mem, b: Block, end: int)
    requires Good(m, end)
    requires forall img | Torn(m, b.writes, img) :: Good(img, end) && SameLogic(m, img, end)
    ensures Keeps(m, [b], end)
  {
    ApplyIsTorn(m, b.writes);
    forall img | TornRun(m, [b], img) ensures Torn(m, b.writes, img) {
      if !Torn(m, b.writes, img) {
        assert [b][1..] == [] && TornRun(Apply(m, b.writes), [b][1..], img);
        assert Torn(Apply(m, b.writes), [], img);
        forall a ensures Read(img, a) == Read(m, a) || Write(a, Read(img, a)) in b.writes {
          assert Read(img, a) == Read(Apply(m, b.writes), a);
        }
      }
    }
  }

  lemma KeepsNothing(m: Mem, end: int)
    requires Good(m, end)
    ensures Keeps(m, [], end)
  {
    forall img | TornRun(m, [], img) ensures Good(img, end) && SameLogic(m, img, end) {
      ScratchKeeps(m, img, end);
    }
  }

  // ---------------------------------------------------------------------------------------
  // Recovery of one clump

  lemma ApplyOne(m: Mem, w: Write)
    ensures Apply(m, [w]) == m[w.addr := w.val]
    ensures CellStep(m, Apply(m, [w]), w.addr, w.val)
    ensures forall img | Torn(m, [w], img) ::
              CellStep(m, img, w.addr, w.val) || forall a :: Read(img, a) == Read(m, a)
  {
    assert Apply(m[w.addr := w.val], []) == m[w.addr := w.val];
  }

  lemma {:induction false} RedoKeeps(m: Mem, c: int, i: int, end: int)
    requires Good(m, end) && c in AllHeads(m, end) && Busy(m, c) && 0 <= i
    requires i <= NUM_ON && forall j | 0 <= j < i :: Off(m, c, j) != 0
    requires forall j | 0 <= j < i && Agreed(m, c, Off(m, c, j)) :: Read(m, Off(m, c, j)) == Ptr(m, c, j)
    ensures Keeps(m, Redo(m, c, i), end)
    ensures
      var n := ApplyBlocks(m, Redo(m, c, i));
      && Good(n, end) && AllHeads(n, end) == AllHeads(m, end) && Done(n, c)
      && forall k | k in AllHeads(m, end) :: SameHeader(m, n, k)
    decreases NUM_ON - i
  {
    if i >= NUM_ON || Off(m, c, i) == 0 {
      KeepsNothing(m, end);
    } else {
      var w := Write(Off(m, c, i), Ptr(m, c, i));
      var b := Block([w], w.addr, WORD);
      var n := Apply(m, [w]);
      ApplyOne(m, w);
      assert Entry(m, c, i);
      forall img | Torn(m, [w], img) ensures Good(img, end) && SameLogic(m, img, end) {
        if CellStep(m, img, w.addr, w.val) {
          RedoStoreKeeps(m, img, end, c, i);
        } else {
          ScratchKeeps(m, img, end);
        }
      }
      KeepsOne(m, b, end);
      RedoStoreKeeps(m, n, end, c, i);
      SameHeaderFacts(m, n, c);
      forall j | 0 <= j < i + 1 && Agreed(n, c, Off(n, c, j)) ensures Read(n, Off(n, c, j)) == Ptr(n, c, j) {
        assert Entry(m, c, j) && Agreed(m, c, Off(m, c, j));
      }
      RedoKeeps(n, c, i + 1, end);
      assert ApplyBlocks(m, [b]) == n;
      KeepsAppend(m, [b], Redo(n, c, i + 1), end);
    }
  }

  lemma ApplyClearOffs(m: Mem, c: int)
    ensures
      var n := Apply(m, ClearOffs(c).writes);
      forall a :: Read(n, a) == if a == OffAddr(c, 0) || a == OffAddr(c, 1) || a == OffAddr(c, 2) then 0 else Read(m, a)
  {
    var m1 := m[OffAddr(c, 2) := 0];
    var m2 := m1[OffAddr(c, 1) := 0];
    var ws := ClearOffs(c).writes;
    ApplyOne(m2, Write(OffAddr(c, 0), 0));
    assert ws[1..][1..] == [Write(OffAddr(c, 0), 0)];
    assert Apply(m1, ws[1..]) == Apply(m2, ws[1..][1..]);
  }

  lemma TornClear(m: Mem, c: int, end: int, img: Mem)
    requires Pool(m, end) && c in AllHeads(m, end) && Torn(m, ClearOffs(c).writes, img)
    ensures HeaderStep(m, img, end, c) && State(img, c) == State(m, c)
    ensures forall i | 0 <= i < NUM_ON :: Off(img, c, i) == Off(m, c, i) || Off(img, c, i) == 0
    ensures forall i | 0 <= i < NUM_ON :: Ptr(img, c, i) == Ptr(m, c, i)
  {
    HeadsTile(m, FIRST, end);
  }

  /** Clearing the redo list of a busy clump whose redo stores are done. */
  lemma ClearDoneKeeps(m: Mem, c: int, end: int)
    requires Good(m, end) && c in AllHeads(m, end) && Busy(m, c) && Done(m, c)
    ensures Keeps(m, [ClearOffs(c)], end)
    ensures
      var n := ApplyBlocks(m, [ClearOffs(c)]);
      && Good(n, end) && HeaderStep(m, n, end, c) && State(n, c) == State(m, c)
      && (forall i | 0 <= i < NUM_ON :: Off(n, c, i) == 0)
  {
    var ws := ClearOffs(c).writes;
    forall img | Torn(m, ws, img) ensures Good(img, end) && SameLogic(m, img, end) {
      TornClear(m, c, end, img);
      RetireKeeps(m, img, end, c);
    }
    KeepsOne(m, ClearOffs(c), end);
    ClearOffsEnd(m, c, end);
  }

  lemma ClearOffsEnd(m: Mem, c: int, end: int)
    requires Keeps(m, [ClearOffs(c)], end) && c in AllHeads(m, end)
    ensures
      var n := ApplyBlocks(m, [ClearOffs(c)]);
      && Good(n, end) && HeaderStep(m, n, end, c) && State(n, c) == State(m, c)
      && (forall i | 0 <= i < NUM_ON :: Off(n, c, i) == 0)
  {
    var ws := ClearOffs(c).writes;
    var n := Apply(m, ws);
    assert ApplyBlocks(m, [ClearOffs(c)]) == n by {
      assert [ClearOffs(c)][1..] == [];
    }
    KeepsEnd(m, [ClearOffs(c)], end);
    ApplyIsTorn(m, ws);
    TornClear(m, c, end, n);
    ApplyClearOffs(m, c);
  }

  /** What one clump looks like after its turn. */
  ghost predicate Turned(m: Mem, n: Mem, c: int, end: int)
    requires Pool(m, end)
  {
    && Pool(n, end) && AllHeads(n, end) == AllHeads(m, end)
    && (forall k | k in AllHeads(m, end) && k != c :: SameHeader(m, n, k))
    && Size(n, c) == Size(m, c)
  }

  lemma SetWordArithmetic(m: Mem, n: Mem, end: int, c: int, sz: int, state: int)
    requires Pool(m, end) && c in AllHeads(m, end) && sz == Size(m, c) && 0 <= state <= FREEING
    requires CellStep(m, n, c, sz + state)
    ensures HeaderStep(m, n, end, c) && State(n, c) == state && Size(n, c) == sz
    ensures forall i | 0 <= i < NUM_ON :: Off(n, c, i) == Off(m, c, i) && Ptr(n, c, i) == Ptr(m, c, i)
  {
    HeadsTile(m, FIRST, end);
    assert Read(n, c) == sz + state;
  }

  /** Leaving the busy state once the redo list is empty. */
  lemma RetireWordKeeps(m: Mem, c: int, state: int, end: int)
    requires Good(m, end) && c in AllHeads(m, end) && Busy(m, c)
    requires forall i | 0 <= i < NUM_ON :: Off(m, c, i) == 0
    requires state == if State(m, c) == ACTIVATING then ACTIVE else FREE
    ensures Keeps(m, [SetWord(c, Size(m, c) + state)], end)
    ensures
      var n := ApplyBlocks(m, [SetWord(c, Size(m, c) + state)]);
      && Good(n, end) && Turned(m, n, c, end) && State(n, c) == state
      && (forall i | 0 <= i < NUM_ON :: Off(n, c, i) == 0)
  {
    var sz := Size(m, c);
    var w := Write(c, sz + state);
    ApplyOne(m, w);
    forall img | Torn(m, [w], img) ensures Good(img, end) && SameLogic(m, img, end) {
      if CellStep(m, img, c, sz + state) {
        SetWordArithmetic(m, img, end, c, sz, state);
        RetireKeeps(m, img, end, c);
      } else {
        ScratchKeeps(m, img, end);
      }
    }
    KeepsOne(m, SetWord(c, sz + state), end);
    var n := Apply(m, [w]);
    assert ApplyBlocks(m, [SetWord(c, sz + state)]) == n by {
      assert [SetWord(c, sz + state)][1..] == [];
    }
    SetWordArithmetic(m, n, end, c, sz, state);
    HeaderStepFrame(m, n, end, c);
    KeepsEnd(m, [SetWord(c, sz + state)], end);
  }

  lemma TurnedTrans(m: Mem, n: Mem, p: Mem, c: int, end: int)
    requires Pool(m, end) && Turned(m, n, c, end) && Turned(n, p, c, end)
    ensures Turned(m, p, c, end)
  {
    forall k | k in AllHeads(m, end) && k != c ensures SameHeader(m, p, k) {
      assert SameHeader(m, n, k) && SameHeader(n, p, k);
    }
  }

  lemma ClearAndRetireKeeps(m: Mem, c: int, state: int, end: int)
    requires Good(m, end) && c in AllHeads(m, end) && Busy(m, c) && Done(m, c)
    requires state == if State(m, c) == ACTIVATING then ACTIVE else FREE
    ensures Keeps(m, [ClearOffs(c), SetWord(c, Size(m, c) + state)], end)
    ensures
      var n := ApplyBlocks(m, [ClearOffs(c), SetWord(c, Size(m, c) + state)]);
      && Good(n, end) && Turned(m, n, c, end) && State(n, c) == state
      && (forall i | 0 <= i < NUM_ON :: Off(n, c, i) == 0)
  {
    var word := SetWord(c, Size(m, c) + state);
    ClearDoneKeeps(m, c, end);
    var n := ApplyBlocks(m, [ClearOffs(c)]);
    HeaderStepFrame(m, n, end, c);
    RetireWordKeeps(n, c, state, end);
    TurnedTrans(m, n, ApplyBlocks(n, [word]), c, end);
    KeepsAppend(m, [ClearOffs(c)], [word], end);
    assert [ClearOffs(c)] + [word] == [ClearOffs(c), word];
  }

  lemma FinishKeeps(m: Mem, c: int, state: int, end: int)
    requires Good(m, end) && c in AllHeads(m, end) && Busy(m, c)
    requires state == if State(m, c) == ACTIVATING then ACTIVE else FREE
    ensures Keeps(m, Finish(m, c, Size(m, c), state), end)
    ensures
      var n := ApplyBlocks(m, Finish(m, c, Size(m, c), state));
      && Good(n, end) && Turned(m, n, c, end) && State(n, c) == state
      && (forall i | 0 <= i < NUM_ON :: Off(n, c, i) == 0)
  {
    RedoKeeps(m, c, 0, end);
    var n := ApplyBlocks(m, Redo(m, c, 0));
    SameHeaderFacts(m, n, c);
    ClearAndRetireKeeps(n, c, state, end);
    var tail := [ClearOffs(c), SetWord(c, Size(m, c) + state)];
    TurnedTrans(m, n, ApplyBlocks(n, tail), c, end);
    KeepsAppend(m, Redo(m, c, 0), tail, end);
  }

  lemma FreeReservedKeeps(m: Mem, c: int, end: int)
    requires Good(m, end) && c in AllHeads(m, end) && State(m, c) == RESERVED
    ensures Keeps(m, [ClearOffs(c), SetWord(c, Size(m, c) + FREE)], end)
    ensures
      var n := ApplyBlocks(m, [ClearOffs(c), SetWord(c, Size(m, c) + FREE)]);
      Good(n, end) && Turned(m, n, c, end) && State(n, c) == FREE
  {
    var sz := Size(m, c);
    var ws := ClearOffs(c).writes;
    forall img | Torn(m, ws, img) ensures Good(img, end) && SameLogic(m, img, end) {
      TornClear(m, c, end, img);
      HeaderStepKeeps(m, img, end, c);
    }
    KeepsOne(m, ClearOffs(c), end);
    ClearOffsEnd(m, c, end);
    var n1 := ApplyBlocks(m, [ClearOffs(c)]);
    HeaderStepFrame(m, n1, end, c);
    SetStateKeeps(n1, c, FREE, end);
    TurnedTrans(m, n1, ApplyBlocks(n1, [SetWord(c, sz + FREE)]), c, end);
    KeepsAppend(m, [ClearOffs(c)], [SetWord(c, sz + FREE)], end);
    assert [ClearOffs(c)] + [SetWord(c, sz + FREE)] == [ClearOffs(c), SetWord(c, sz + FREE)];
  }

  /** Moving a clump between FREE and RESERVED. */
  lemma SetStateKeeps(m: Mem, c: int, state: int, end: int)
    requires Good(m, end) && c in AllHeads(m, end)
    requires State(m, c) == FREE || State(m, c) == RESERVED
    requires state == FREE || state == RESERVED
    ensures Keeps(m, [SetWord(c, Size(m, c) + state)], end)
    ensures
      var n := ApplyBlocks(m, [SetWord(c, Size(m, c) + state)]);
      && Good(n, end) && Turned(m, n, c, end) && State(n, c) == state
      && CellStep(m, n, c, Size(m, c) + state)
  {
    var sz := Size(m, c);
    var w := Write(c, sz + state);
    ApplyOne(m, w);
    forall img | Torn(m, [w], img) ensures Good(img, end) && SameLogic(m, img, end) {
      if CellStep(m, img, c, sz + state) {
        SetWordArithmetic(m, img, end, c, sz, state);
        HeaderStepKeeps(m, img, end, c);
      } else {
        ScratchKeeps(m, img, end);
      }
    }
    KeepsOne(m, SetWord(c, sz + state), end);
    var n := Apply(m, [w]);
    assert ApplyBlocks(m, [SetWord(c, sz + state)]) == n;
    SetWordArithmetic(m, n, end, c, sz, state);
    HeaderStepFrame(m, n, end, c);
    HeaderStepKeeps(m, n, end, c);
  }

  lemma RecoverClumpKeeps(m: Mem, c: int, end: int)
    requires Good(m, end) && c in AllHeads(m, end)
    ensures Keeps(m, RecoverClump(m, c), end)
    ensures
      var n := ApplyBlocks(m, RecoverClump(m, c));
      Good(n, end) && Turned(m, n, c, end) && (State(n, c) == FREE || State(n, c) == ACTIVE)
  {
    HeadsTile(m, FIRST, end);
    if State(m, c) == RESERVED {
      FreeReservedKeeps(m, c, end);
    } else if Busy(m, c) {
      FinishKeeps(m, c, if State(m, c) == ACTIVATING then ACTIVE else FREE, end);
    } else {
      KeepsNothing(m, end);
    }
  }
}
