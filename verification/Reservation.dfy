/**
 First fit, what a reservation hands out, and the recording of redo entries. A reservation never
 touches anything live, whether it takes a whole clump or cuts one in two, and wherever it is
 interrupted; an entry that is recorded changes nothing until the clump is activated or freed, and
 a crash in between leaves the clump as it was.
 */
module Reservation {
  import opened Options
  import opened PersistentMemory
  import opened Clumps
  import opened PoolLogic
  import opened AllocatorPrograms
  import opened CrashSafety
  import opened RecoveryWalk

  // ---------------------------------------------------------------------------------------
  // First fit

  /** Every byte of [a, a + n) lies in some free clump. */
  ghost predicate FreeStretch(m: Mem, end: int, a: int, n: int)
    requires Pool(m, end)
  {
    forall x | a <= x < a + n :: FreeByte(m, end, x)
  }

  ghost predicate FreeByte(m: Mem, end: int, x: int)
    requires Pool(m, end)
  {
    exists h :: h in AllHeads(m, end) && State(m, h) == FREE && h <= x < h + Size(m, h)
  }

  lemma {:induction false} FirstFitFinds(m: Mem, c: int, end: int, nsize: int)
    requires Pool(m, end) && HeadOrEnd(m, end, c)
    ensures match FirstFit(m, c, end, nsize)
            case Some(h) =>
              && h in AllHeads(m, end) && c <= h && State(m, h) == FREE && nsize <= Size(m, h)
              && (forall k | k in AllHeads(m, end) && c <= k < h && State(m, k) == FREE :: Size(m, k) < nsize)
            case None => forall k | k in AllHeads(m, end) && c <= k && State(m, k) == FREE :: Size(m, k) < nsize
    decreases end - c
  {
    HeadsTile(m, FIRST, end);
    if c != end && !(State(m, c) == FREE && nsize <= Size(m, c)) {
      NextHead(m, FIRST, end, c);
      FirstFitFinds(m, c + Size(m, c), end, nsize);
      forall k | k in AllHeads(m, end) && c <= k ensures k == c || c + Size(m, c) <= k {}
    }
  }

  /**
   In a pool with no two adjacent free clumps, a request fails exactly when there is no contiguous
   free stretch of n bytes, n being the smallest number of whole chunks that holds a header and the
   request.
   */
  lemma ReserveFailsExactly(m: Mem, end: int, size: int, n: int)
    requires Coalesced(m, end) && 0 <= size && Rounded(size, n)
    ensures FirstFit(m, FIRST, end, ClumpSize(size)) == None <==> !exists a :: FreeStretch(m, end, a, n)
  {
    ClumpSizeRounds(size, n);
    HeadsTile(m, FIRST, end);
    FirstFitFinds(m, FIRST, end, n);
    match FirstFit(m, FIRST, end, n) {
      case Some(h) =>
        forall x | h <= x < h + n ensures FreeByte(m, end, x) {}
        assert FreeStretch(m, end, h, n);
      case None =>
        forall a ensures !FreeStretch(m, end, a, n) {
          if FreeStretch(m, end, a, n) {
            StretchInOneClump(m, end, a, n);
          }
        }
    }
  }

  lemma StretchInOneClump(m: Mem, end: int, a: int, n: int)
    requires Coalesced(m, end) && FreeStretch(m, end, a, n) && 0 < n
    ensures exists h :: h in AllHeads(m, end) && State(m, h) == FREE && n <= Size(m, h)
  {
    HeadsTile(m, FIRST, end);
    assert FreeByte(m, end, a);
    var h :| h in AllHeads(m, end) && State(m, h) == FREE && h <= a < h + Size(m, h);
    var next := h + Size(m, h);
    if next < a + n {
      assert FreeByte(m, end, next);
      NextHead(m, FIRST, end, h);
      var k :| k in AllHeads(m, end) && State(m, k) == FREE && k <= next < k + Size(m, k);
      assert false;
    }
  }

  // ---------------------------------------------------------------------------------------
  // Reserving

  lemma ApplyClearOn(m: Mem, c: int)
    ensures
      var n := Apply(m, ClearOn(c).writes);
      && (forall i | 0 <= i < NUM_ON :: Off(n, c, i) == 0 && Ptr(n, c, i) == 0)
      && (forall a | !(c + 16 <= a < c + CHUNK) :: Read(n, a) == Read(m, a))
  {
    var ws := ClearOn(c).writes;
    var m1 := m[OffAddr(c, 0) := 0];
    var m2 := m1[PtrAddr(c, 0) := 0];
    var m3 := m2[OffAddr(c, 1) := 0];
    var m4 := m3[PtrAddr(c, 1) := 0];
    var m5 := m4[OffAddr(c, 2) := 0];
    var m6 := m5[PtrAddr(c, 2) := 0];
    assert Apply(m5, ws[5..]) == Apply(m6, ws[5..][1..]);
    assert Apply(m4, ws[4..]) == Apply(m5, ws[4..][1..]) && ws[4..][1..] == ws[5..];
    assert Apply(m3, ws[3..]) == Apply(m4, ws[3..][1..]) && ws[3..][1..] == ws[4..];
    assert Apply(m2, ws[2..]) == Apply(m3, ws[2..][1..]) && ws[2..][1..] == ws[3..];
    assert Apply(m1, ws[1..]) == Apply(m2, ws[1..][1..]) && ws[1..][1..] == ws[2..];
    assert Apply(m, ws) == m6;
  }

  lemma ClearOnKeeps(m: Mem, c: int, end: int)
    requires Idle(m, end) && c in AllHeads(m, end) && State(m, c) == FREE
    ensures Keeps(m, [ClearOn(c)], end)
    ensures
      var n := ApplyBlocks(m, [ClearOn(c)]);
      && Idle(n, end) && Turned(m, n, c, end) && State(n, c) == FREE
      && (forall i | 0 <= i < NUM_ON :: Off(n, c, i) == 0)
      && (forall a | !(c <= a < c + CHUNK) :: Read(n, a) == Read(m, a))
  {
    var ws := ClearOn(c).writes;
    IdleIsGood(m, end);
    HeadsTile(m, FIRST, end);
    forall img | Torn(m, ws, img) ensures Good(img, end) && SameLogic(m, img, end) {
      assert HeaderStep(m, img, end, c);
      HeaderStepKeeps(m, img, end, c);
    }
    KeepsOne(m, ClearOn(c), end);
    ApplyClearOn(m, c);
    var n := Apply(m, ws);
    assert ApplyBlocks(m, [ClearOn(c)]) == n by {
      assert [ClearOn(c)][1..] == [];
    }
    assert HeaderStep(m, n, end, c);
    HeaderStepFrame(m, n, end, c);
    forall k | k in AllHeads(n, end) ensures !Busy(n, k) {
      if k != c { SameHeaderFacts(m, n, k); }
    }
  }

  lemma {:induction false} ApplyAppend(m: Mem, a: seq<Write>, b: seq<Write>)
    ensures Apply(m, a + b) == Apply(Apply(m, a), b)
    decreases |a|
  {
    if a == [] {
      assert a + b == b;
    } else {
      assert (a + b)[1..] == a[1..] + b;
      ApplyAppend(m[a[0].addr := a[0].val], a[1..], b);
    }
  }

  lemma UnusedPayload(m: Mem, end: int, c: int, a: int)
    requires Pool(m, end) && c in AllHeads(m, end) && !Live(m, end, c) && PayloadCell(m, c, a)
    ensures !HeaderCell(m, end, a) && !LiveCell(m, end, a)
  {
    HeadsTile(m, FIRST, end);
    PayloadsDisjoint(m, end, c, c, a);
    forall h | Live(m, end, h) ensures !PayloadCell(m, h, a) {
      PayloadsDisjoint(m, end, c, h, a);
    }
  }

  lemma NewClumpWrites(m: Mem, k: int, leftover: int, img: Mem)
    requires Torn(m, NewClump(k, leftover).writes, img)
    ensures forall a | !(k <= a < k + CHUNK) :: Read(img, a) == Read(m, a)
  {
    forall w | w in NewClump(k, leftover).writes ensures k <= w.addr < k + CHUNK {}
  }

  lemma NewClumpKeeps(m: Mem, c: int, k: int, leftover: int, end: int)
    requires Idle(m, end) && c in AllHeads(m, end) && State(m, c) == FREE
    requires c < k && k % CHUNK == 0 && k + CHUNK <= c + Size(m, c) && c % CHUNK == 0
    ensures Keeps(m, [NewClump(k, leftover)], end)
    ensures
      var n := ApplyBlocks(m, [NewClump(k, leftover)]);
      && Idle(n, end) && AllHeads(n, end) == AllHeads(m, end) && Read(n, k) == leftover
      && (forall h | h in AllHeads(m, end) :: SameHeader(m, n, h))
      && (forall a | !(k <= a < k + CHUNK) :: Read(n, a) == Read(m, a))
  {
    var b := NewClump(k, leftover);
    IdleIsGood(m, end);
    forall a | k <= a < k + CHUNK ensures !HeaderCell(m, end, a) && !LiveCell(m, end, a) {
      UnusedPayload(m, end, c, a);
    }
    forall img | Torn(m, b.writes, img)
      ensures Good(img, end) && SameLogic(m, img, end)
      ensures AllHeads(img, end) == AllHeads(m, end) && forall h | h in AllHeads(m, end) :: SameHeader(m, img, h)
    {
      NewClumpWrites(m, k, leftover, img);
      ScratchKeeps(m, img, end);
    }
    KeepsOne(m, b, end);
    NewClumpEnd(m, k, leftover);
    var n := Apply(m, b.writes);
    forall h | h in AllHeads(m, end) ensures !Busy(n, h) {
      SameHeaderFacts(m, n, h);
    }
  }

  lemma NewClumpEnd(m: Mem, k: int, leftover: int)
    ensures
      var n := Apply(m, NewClump(k, leftover).writes);
      && ApplyBlocks(m, [NewClump(k, leftover)]) == n && Torn(m, NewClump(k, leftover).writes, n)
      && Read(n, k) == leftover
      && (forall a | !(k <= a < k + CHUNK) :: Read(n, a) == Read(m, a))
  {
    var b := NewClump(k, leftover);
    assert [b][1..] == [];
    ApplyIsTorn(m, b.writes);
    NewClumpWrites(m, k, leftover, Apply(m, b.writes));
    ApplyAppend(m, ZeroHeader(k), [Write(k, leftover)]);
    ApplyOne(Apply(m, ZeroHeader(k)), Write(k, leftover));
  }

  /** What a reservation leaves: clump c reserved with an empty redo list, nothing else changed. */
  ghost predicate Reserved(m: Mem, n: Mem, end: int, c: int, nsize: int)
    requires Pool(m, end)
  {
    && Idle(n, end) && c in AllHeads(m, end) && c in AllHeads(n, end) && State(n, c) == RESERVED
    && (forall i | 0 <= i < NUM_ON :: Off(n, c, i) == 0)
    && nsize <= Size(n, c) < nsize + 2 * CHUNK
    && (if Size(m, c) == Size(n, c) then AllHeads(n, end) == AllHeads(m, end)
        else
          var k := c + Size(n, c);
          && k !in AllHeads(m, end) && AllHeads(n, end) == AllHeads(m, end) + {k}
          && State(n, k) == FREE && Size(n, k) == Size(m, c) - Size(n, c))
    && (forall h | h in AllHeads(m, end) && h != c :: SameHeader(m, n, h))
    && (forall a | !(c <= a < c + Size(m, c)) :: Read(n, a) == Read(m, a))
  }

  lemma ReserveKeeps(m: Mem, c: int, nsize: int, end: int)
    requires Idle(m, end) && c in AllHeads(m, end) && State(m, c) == FREE
    requires CHUNK <= nsize <= Size(m, c) && nsize % CHUNK == 0
    ensures Keeps(m, ReserveAt(m, c, nsize), end)
    ensures Reserved(m, ApplyBlocks(m, ReserveAt(m, c, nsize)), end, c, nsize)
  {
    HeadsTile(m, FIRST, end);
    var leftover := Size(m, c) - nsize;
    if leftover >= CHUNK * 2 {
      SplitReserveKeeps(m, c, nsize, end);
    } else {
      WholeReserveKeeps(m, c, nsize, end);
    }
  }

  lemma WholeReserveKeeps(m: Mem, c: int, nsize: int, end: int)
    requires Idle(m, end) && c in AllHeads(m, end) && State(m, c) == FREE
    requires CHUNK <= nsize <= Size(m, c) < nsize + 2 * CHUNK
    ensures Keeps(m, [ClearOn(c), SetWord(c, Size(m, c) + RESERVED)], end)
    ensures Reserved(m, ApplyBlocks(m, [ClearOn(c), SetWord(c, Size(m, c) + RESERVED)]), end, c, nsize)
  {
    var word := SetWord(c, Size(m, c) + RESERVED);
    ClearOnKeeps(m, c, end);
    var n := ApplyBlocks(m, [ClearOn(c)]);
    IdleIsGood(n, end);
    SetStateKeeps(n, c, RESERVED, end);
    var p := ApplyBlocks(n, [word]);
    KeepsAppend(m, [ClearOn(c)], [word], end);
    assert [ClearOn(c)] + [word] == [ClearOn(c), word];
    TurnedTrans(m, n, p, c, end);
    TurnedIdle(m, p, c, end);
    forall i | 0 <= i < NUM_ON ensures Off(p, c, i) == 0 {
      assert OffAddr(c, i) != c && Off(n, c, i) == 0;
    }
  }

  lemma TurnedIdle(m: Mem, n: Mem, c: int, end: int)
    requires Idle(m, end) && Turned(m, n, c, end) && !Busy(n, c)
    ensures Idle(n, end)
  {
    forall h | h in AllHeads(n, end) ensures !Busy(n, h) {
      if h != c { SameHeaderFacts(m, n, h); }
    }
  }

  lemma SplitReserveKeeps(m: Mem, c: int, nsize: int, end: int)
    requires Idle(m, end) && c in AllHeads(m, end) && State(m, c) == FREE
    requires CHUNK <= nsize && nsize + 2 * CHUNK <= Size(m, c) && nsize % CHUNK == 0
    ensures Keeps(m, ReserveAt(m, c, nsize), end)
    ensures Reserved(m, ApplyBlocks(m, ReserveAt(m, c, nsize)), end, c, nsize)
  {
    HeadFacts(m, end, c);
    var leftover := Size(m, c) - nsize;
    var k := c + nsize;
    NewClumpKeeps(m, c, k, leftover, end);
    var n1 := ApplyBlocks(m, [NewClump(k, leftover)]);
    SameHeaderFacts(m, n1, c);
    ClearOnKeeps(n1, c, end);
    var n2 := ApplyBlocks(n1, [ClearOn(c)]);
    CutKeeps(n2, c, k, end);
    var n3 := ApplyBlocks(n2, [SetWord(c, nsize + RESERVED)]);
    KeepsAppend(n1, [ClearOn(c)], [SetWord(c, nsize + RESERVED)], end);
    assert [ClearOn(c)] + [SetWord(c, nsize + RESERVED)] == [ClearOn(c), SetWord(c, nsize + RESERVED)];
    KeepsAppend(m, [NewClump(k, leftover)], [ClearOn(c), SetWord(c, nsize + RESERVED)], end);
    assert ReserveAt(m, c, nsize) == [NewClump(k, leftover)] + [ClearOn(c), SetWord(c, nsize + RESERVED)];
    forall h | h in AllHeads(m, end) && h != c ensures SameHeader(m, n3, h) {
      assert SameHeader(m, n1, h) && SameHeader(n1, n2, h);
      HeadsTile(m, FIRST, end);
    }
  }

  /** The store that makes the split visible. */
  lemma CutKeeps(m: Mem, c: int, k: int, end: int)
    requires Idle(m, end) && c in AllHeads(m, end) && State(m, c) == FREE
    requires c < k < c + Size(m, c) && k % CHUNK == 0 && Read(m, k) == c + Size(m, c) - k
    ensures Keeps(m, [SetWord(c, k - c + RESERVED)], end)
    ensures
      var n := ApplyBlocks(m, [SetWord(c, k - c + RESERVED)]);
      && Idle(n, end) && AllHeads(n, end) == AllHeads(m, end) + {k} && k !in AllHeads(m, end)
      && State(n, c) == RESERVED && Size(n, c) == k - c && State(n, k) == FREE && Size(n, k) == c + Size(m, c) - k
      && CellStep(m, n, c, k - c + RESERVED)
      && (forall i | 0 <= i < NUM_ON :: Off(n, c, i) == Off(m, c, i))
  {
    HeadsTile(m, FIRST, end);
    IdleIsGood(m, end);
    var w := Write(c, k - c + RESERVED);
    ApplyOne(m, w);
    forall img | Torn(m, [w], img) ensures Good(img, end) && SameLogic(m, img, end) {
      if CellStep(m, img, c, k - c + RESERVED) {
        SplitKeeps(m, img, end, c, k, RESERVED);
        IdleIsGood(img, end);
      } else {
        ScratchKeeps(m, img, end);
      }
    }
    KeepsOne(m, SetWord(c, k - c + RESERVED), end);
    var n := Apply(m, [w]);
    assert ApplyBlocks(m, [SetWord(c, k - c + RESERVED)]) == n by {
      assert [SetWord(c, k - c + RESERVED)][1..] == [];
    }
    SplitKeeps(m, n, end, c, k, RESERVED);
  }

  /**
   A successful pmemalloc_reserve hands out the first free clump that holds a header and the
   request, in whole chunks with less than a chunk to spare or with one more chunk, whose
   payload holds the request; it never creates free neighbours, and every crash image of it
   recovers to the same contents.
   */
  lemma ReserveIsSafe(m: Mem, end: int, size: int)
    requires Idle(m, end) && Coalesced(m, end) && 0 <= size
    ensures
      var nsize := ClumpSize(size);
      match FirstFit(m, FIRST, end, nsize)
      case None => true
      case Some(c) =>
        var n := ApplyBlocks(m, ReserveAt(m, c, nsize));
        && c in AllHeads(m, end) && State(m, c) == FREE
        && Keeps(m, ReserveAt(m, c, nsize), end) && Reserved(m, n, end, c, nsize) && Coalesced(n, end)
        && (forall h | h in AllHeads(m, end) && State(m, h) == FREE && h < c :: Size(m, h) < nsize)
        && Rounded(size, nsize) && (Size(n, c) == nsize || Size(n, c) == nsize + CHUNK)
  {
    var nsize := ClumpSize(size);
    FirstFitTaken(m, end, size);
    match FirstFit(m, FIRST, end, nsize) {
      case None =>
      case Some(c) =>
        ReserveKeeps(m, c, nsize, end);
        ReservedCoalesced(m, ApplyBlocks(m, ReserveAt(m, c, nsize)), end, c, nsize);
    }
  }

  /** The clump that reserve takes. */
  lemma FirstFitTaken(m: Mem, end: int, size: int)
    requires Pool(m, end) && 0 <= size
    ensures Rounded(size, ClumpSize(size)) && 0 < ClumpSize(size)
    ensures
      match FirstFit(m, FIRST, end, ClumpSize(size))
      case None => true
      case Some(c) =>
        && c in AllHeads(m, end) && State(m, c) == FREE && ClumpSize(size) <= Size(m, c) && c % CHUNK == 0
        && forall h | h in AllHeads(m, end) && State(m, h) == FREE && h < c :: Size(m, h) < ClumpSize(size)
  {
    ClumpSizeRounds(size, ClumpSize(size));
    HeadsTile(m, FIRST, end);
    FirstFitFinds(m, FIRST, end, ClumpSize(size));
  }

  lemma ReservedCoalesced(m: Mem, n: Mem, end: int, c: int, nsize: int)
    requires Coalesced(m, end) && Reserved(m, n, end, c, nsize) && State(m, c) == FREE
    ensures Coalesced(n, end)
  {
    forall h | h in AllHeads(n, end) && State(n, h) == FREE ensures Apart(n, end, h) {
      if h in AllHeads(m, end) {
        SameHeaderFacts(m, n, h);
        StillApart(m, n, end, c, nsize, h, h);
      } else {
        StillApart(m, n, end, c, nsize, c, h);
      }
    }
  }

  /** Clump h of m was followed by a clump that is not free; so is the clump g of n ending there. */
  lemma StillApart(m: Mem, n: Mem, end: int, c: int, nsize: int, h: int, g: int)
    requires Pool(m, end) && Reserved(m, n, end, c, nsize)
    requires h in AllHeads(m, end) && Apart(m, end, h) && g + Size(n, g) == h + Size(m, h)
    ensures Apart(n, end, g)
  {
    NextHead(m, FIRST, end, h);
    var k := h + Size(m, h);
    if k != end && k != c { SameHeaderFacts(m, n, k); }
  }

  // ---------------------------------------------------------------------------------------
  // Recording assignments

  /** What recording an assignment in slot i of clump c leaves. */
  ghost predicate Recorded(m: Mem, n: Mem, c: int, i: int, target: int, val: int) {
    && Off(n, c, i) == target && Ptr(n, c, i) == val
    && forall a | a != OffAddr(c, i) && a != PtrAddr(c, i) :: Read(n, a) == Read(m, a)
  }

  /** Recording never changes the meaning before the offset store; for a clump that is not
      ACTIVE, not even then. */
  lemma RecordKeeps(m: Mem, c: int, i: int, target: int, val: int, end: int)
    requires Idle(m, end) && c in AllHeads(m, end) && 0 <= i < NUM_ON && Off(m, c, i) == 0
    ensures
      var bs := Record(c, i, target, val);
      var n := ApplyBlocks(m, bs);
      && Idle(n, end) && Turned(m, n, c, end) && State(n, c) == State(m, c) && Recorded(m, n, c, i, target, val)
      && (forall img | TornRun(m, bs, img) :: Good(img, end) && (SameLogic(m, img, end) || SameLogic(n, img, end)))
      && (State(m, c) != ACTIVE ==> Keeps(m, bs, end))
  {
    HeadsTile(m, FIRST, end);
    IdleIsGood(m, end);
    var w1, w2 := Write(PtrAddr(c, i), val), Write(OffAddr(c, i), target);
    var b1, b2 := Block([w1], c, CHUNK), Block([w2], c, CHUNK);
    var n1 := Apply(m, [w1]);
    var n2 := Apply(n1, [w2]);
    ApplyOne(m, w1);
    ApplyOne(n1, w2);
    forall img | Torn(m, [w1], img) ensures HeaderStep(m, img, end, c) && Good(img, end) && SameLogic(m, img, end) {
      HeaderStepKeeps(m, img, end, c);
    }
    KeepsOne(m, b1, end);
    ApplyIsTorn(m, [w1]);
    RecordIdle(m, n1, c, end);
    IdleIsGood(n1, end);
    RecordIdle(n1, n2, c, end);
    IdleIsGood(n2, end);
    forall img | Torn(n1, [w2], img)
      ensures Good(img, end) && (SameLogic(n1, img, end) || SameLogic(n2, img, end))
      ensures State(m, c) != ACTIVE ==> SameLogic(n1, img, end)
    {
      if CellStep(n1, img, w2.addr, w2.val) {
        RecordIdle(n1, img, c, end);
        IdleIsGood(img, end);
        ScratchKeeps(n2, img, end);
        if State(m, c) != ACTIVE {
          HeaderStepKeeps(n1, img, end, c);
        }
      } else {
        ScratchKeeps(n1, img, end);
      }
    }
    var bs := Record(c, i, target, val);
    assert bs == [b1] + [b2];
    assert [b1][1..] == [] && [b2][1..] == [];
    assert ApplyBlocks(m, [b1]) == n1;
    assert ApplyBlocks(n1, [b2]) == ApplyBlocks(n2, [b2][1..]) == n2;
    ApplyBlocksAppend(m, [b1], [b2]);
    forall img | TornRun(m, bs, img)
      ensures Good(img, end) && (SameLogic(m, img, end) || SameLogic(n2, img, end))
      ensures State(m, c) != ACTIVE ==> SameLogic(m, img, end)
    {
      TornRunAppend(m, [b1], [b2], img);
      if !TornRun(m, [b1], img) {
        TornOneBlock(n1, b2, img);
        if SameLogic(n1, img, end) { SameLogicTrans(m, n1, img, end); }
      }
    }
  }

  lemma TornOneBlock(m: Mem, b: Block, img: Mem)
    requires TornRun(m, [b], img)
    ensures Torn(m, b.writes, img)
  {
    if !Torn(m, b.writes, img) {
      assert [b][1..] == [] && TornRun(Apply(m, b.writes), [b][1..], img);
      ApplyIsTorn(m, b.writes);
      forall a ensures Read(img, a) == Read(m, a) || Write(a, Read(img, a)) in b.writes {
        assert Read(img, a) == Read(Apply(m, b.writes), a);
      }
    }
  }

  lemma RecordIdle(m: Mem, n: Mem, c: int, end: int)
    requires Idle(m, end) && HeaderStep(m, n, end, c) && State(n, c) == State(m, c)
    ensures Idle(n, end) && Turned(m, n, c, end)
  {
    HeaderStepFrame(m, n, end, c);
    forall h | h in AllHeads(n, end) ensures !Busy(n, h) {
      if h != c { SameHeaderFacts(m, n, h); }
    }
  }

  /** A clump that is not free before or after its turn leaves no two free neighbours behind. */
  lemma TurnedCoalesced(m: Mem, n: Mem, end: int, c: int)
    requires Coalesced(m, end) && c in AllHeads(m, end) && Turned(m, n, c, end) && State(m, c) != FREE && State(n, c) != FREE
    ensures Coalesced(n, end)
  {
    forall h | h in AllHeads(n, end) && State(n, h) == FREE ensures Apart(n, end, h) {
      SameHeaderFacts(m, n, h);
      NextHead(m, FIRST, end, h);
      assert Apart(m, end, h);
      var k := h + Size(m, h);
      if k != end && k != c { SameHeaderFacts(m, n, k); }
    }
  }
}
