/**
 The stores and persists that each allocator routine issues, in order, as a function of the
 memory it starts from. The methods of PmemPool issue exactly these, and the crash arguments
 are made about them.
 */
module AllocatorPrograms {
  import opened Options
  import opened PersistentMemory
  import opened Clumps

  const WORD := 8 // sizeof(uintptr_t)

  /** Store a clump's size word and persist its header. */
  function SetWord(c: int, v: int): Block { Block([Write(c, v)], c, CHUNK) }

  /** Clear the offsets of a redo list, last to first, and persist the header. */
  function ClearOffs(c: int): Block {
    Block([Write(OffAddr(c, 2), 0), Write(OffAddr(c, 1), 0), Write(OffAddr(c, 0), 0)], c, CHUNK)
  }

  /** Empty a redo list before its clump is reserved. */
  function ClearOn(c: int): Block {
    Block([Write(OffAddr(c, 0), 0), Write(PtrAddr(c, 0), 0),
           Write(OffAddr(c, 1), 0), Write(PtrAddr(c, 1), 0),
           Write(OffAddr(c, 2), 0), Write(PtrAddr(c, 2), 0)], c, CHUNK)
  }

  /** Execute redo entries i.. until the first empty one, persisting each target. */
  function Redo(m: Mem, c: int, i: int): seq<Block>
    decreases NUM_ON - i
  {
    if i >= NUM_ON || Off(m, c, i) == 0 then []
    else
      var w := Write(Off(m, c, i), Ptr(m, c, i));
      [Block([w], w.addr, WORD)] + Redo(Apply(m, [w]), c, i + 1)
  }

  function Finish(m: Mem, c: int, sz: int, state: int): seq<Block> {
    Redo(m, c, 0) + [ClearOffs(c), SetWord(c, sz + state)]
  }

  function RecoverClump(m: Mem, c: int): seq<Block> {
    var sz, state := Size(m, c), State(m, c);
    if state == RESERVED then [ClearOffs(c), SetWord(c, sz + FREE)]
    else if state == ACTIVATING then Finish(m, c, sz, ACTIVE)
    else if state == FREEING then Finish(m, c, sz, FREE)
    else []
  }

  /** pmemalloc_recover from clump c on. */
  function RecoverFrom(m: Mem, c: int, end: int): seq<Block>
    decreases end - c
  {
    if c >= end || Read(m, c) < CHUNK then []
    else
      var bs := RecoverClump(m, c);
      bs + RecoverFrom(ApplyBlocks(m, bs), c + Size(m, c), end)
  }

  /** pmemalloc_coalesce_free from clump c on; 0 stands for the null pointer. */
  function CoalesceFrom(m: Mem, c: int, end: int, firstFree: int, lastFree: int, csize: int): seq<Block>
    decreases end - c
  {
    var merge := if firstFree != 0 && lastFree != 0 then [SetWord(firstFree, csize + FREE)] else [];
    if c >= end || Read(m, c) < CHUNK then merge
    else
      var sz := Size(m, c);
      if State(m, c) == FREE then
        if firstFree == 0 then CoalesceFrom(m, c + sz, end, c, lastFree, csize + sz)
        else CoalesceFrom(m, c + sz, end, firstFree, c, csize + sz)
      else merge + CoalesceFrom(ApplyBlocks(m, merge), c + sz, end, 0, 0, 0)
  }

  function Coalesce(m: Mem, end: int): seq<Block> { CoalesceFrom(m, FIRST, end, 0, 0, 0) }

  /** The recovery work of pmemalloc_init. */
  function Init(m: Mem, end: int): seq<Block> {
    var bs := RecoverFrom(m, FIRST, end);
    bs + Coalesce(ApplyBlocks(m, bs), end)
  }

  /** Bytes of pool taken by a request: header and payload in whole chunks. */
  function ClumpSize(size: int): int { (size + CHUNK + CHUNK - 1) / CHUNK * CHUNK }

  /** n bytes are whole chunks of 64 that hold a header and the request, with less than a chunk to spare. */
  predicate Rounded(size: int, n: int) {
    n % 64 == 0 && size + 64 <= n < size + 128
  }

  lemma ClumpSizeRounds(size: int, n: int)
    ensures Rounded(size, n) <==> n == ClumpSize(size)
  {
  }

  function FirstFit(m: Mem, c: int, end: int, nsize: int): Option<int>
    decreases end - c
  {
    if c >= end || Read(m, c) < CHUNK then None
    else if State(m, c) == FREE && nsize <= Size(m, c) then Some(c)
    else FirstFit(m, c + Size(m, c), end, nsize)
  }

  /** memset of a header, word by word. */
  function ZeroHeader(c: int): seq<Write> { seq(8, i => Write(c + 8 * i, 0)) }

  /** Prepare the header of the part that stays free, inside the payload of the free clump. */
  function NewClump(k: int, leftover: int): Block {
    Block(ZeroHeader(k) + [Write(k, leftover + FREE)], k, CHUNK)
  }

  /** Reserve free clump c for nsize bytes, splitting it if two chunks or more are left. */
  function ReserveAt(m: Mem, c: int, nsize: int): seq<Block> {
    var leftover := Size(m, c) - nsize;
    if leftover >= CHUNK * 2 then
      [NewClump(c + nsize, leftover), ClearOn(c), SetWord(c, nsize + RESERVED)]
    else
      [ClearOn(c), SetWord(c, Size(m, c) + RESERVED)]
  }

  function FreeSlot(m: Mem, c: int): (i: int)
    ensures 0 <= i <= NUM_ON
    ensures i < NUM_ON ==> Off(m, c, i) == 0
    ensures forall j | 0 <= j < i :: Off(m, c, j) != 0
  {
    if Off(m, c, 0) == 0 then 0 else if Off(m, c, 1) == 0 then 1 else if Off(m, c, 2) == 0 then 2 else NUM_ON
  }

  /** Record the assignment of val to cell target in slot i: the pointer first, then the offset. */
  function Record(c: int, i: int, target: int, val: int): seq<Block> {
    [Block([Write(PtrAddr(c, i), val)], c, CHUNK), Block([Write(OffAddr(c, i), target)], c, CHUNK)]
  }

  /** Persist the payload; the length passed still carries the state bits of the size word. */
  function PersistPayload(m: Mem, c: int): Block { Block([], c + CHUNK, Read(m, c) - CHUNK) }

  /** pmemalloc_activate after the payload has been persisted. */
  function Commit(m: Mem, c: int): seq<Block> {
    var b := SetWord(c, Size(m, c) + ACTIVATING);
    [b] + Finish(Apply(m, b.writes), c, Size(m, c), ACTIVE)
  }

  /** pmemalloc_activate. */
  function Activation(m: Mem, c: int): seq<Block> { [PersistPayload(m, c)] + Commit(m, c) }

  /** pmemalloc_free up to the point where it coalesces. */
  function Release(m: Mem, c: int): seq<Block> {
    var sz := Size(m, c);
    if State(m, c) == ACTIVE then
      var b := SetWord(c, sz + FREEING);
      [b] + Finish(Apply(m, b.writes), c, sz, FREE)
    else [SetWord(c, sz + FREE)]
  }

  function FreeClump(m: Mem, c: int, end: int): seq<Block> {
    var bs := Release(m, c);
    bs + Coalesce(ApplyBlocks(m, bs), end)
  }

  // ---------------------------------------------------------------------------------------
  // Every routine persists what it stores

  ghost predicate SelfFlushingAll(bs: seq<Block>) {
    forall b | b in bs :: SelfFlushing(b)
  }

  lemma HeaderFlushes(b: Block)
    requires b.addr % CHUNK == 0 && b.len == CHUNK
    requires forall w | w in b.writes :: b.addr <= w.addr < b.addr + CHUNK
    ensures SelfFlushing(b)
  {
  }

  lemma FlushingAppend(a: seq<Block>, b: seq<Block>)
    requires SelfFlushingAll(a) && SelfFlushingAll(b)
    ensures SelfFlushingAll(a + b)
  {
  }

  lemma {:induction false} RedoFlushes(m: Mem, c: int, i: int)
    ensures SelfFlushingAll(Redo(m, c, i))
    decreases NUM_ON - i
  {
    if i < NUM_ON && Off(m, c, i) != 0 {
      var w := Write(Off(m, c, i), Ptr(m, c, i));
      RedoFlushes(Apply(m, [w]), c, i + 1);
      assert SelfFlushing(Block([w], w.addr, WORD));
      FlushingAppend([Block([w], w.addr, WORD)], Redo(Apply(m, [w]), c, i + 1));
    }
  }

  lemma FinishFlushes(m: Mem, c: int, sz: int, state: int)
    requires c % CHUNK == 0
    ensures SelfFlushingAll(Finish(m, c, sz, state))
    ensures SelfFlushingAll([ClearOffs(c), SetWord(c, sz + state)]) && SelfFlushing(SetWord(c, sz + state))
  {
    RedoFlushes(m, c, 0);
    HeaderFlushes(ClearOffs(c));
    WordFlushes(c, sz + state);
    FlushingThree(ClearOffs(c), ClearOffs(c), SetWord(c, sz + state));
    FlushingAppend(Redo(m, c, 0), [ClearOffs(c), SetWord(c, sz + state)]);
  }

  lemma RecoverClumpFlushes(m: Mem, c: int)
    requires c % CHUNK == 0
    ensures SelfFlushingAll(RecoverClump(m, c))
  {
    FinishFlushes(m, c, Size(m, c), FREE);
    FinishFlushes(m, c, Size(m, c), ACTIVE);
  }

  lemma {:induction false} RecoverFromFlushes(m: Mem, c: int, end: int)
    requires c % CHUNK == 0
    ensures SelfFlushingAll(RecoverFrom(m, c, end))
    decreases end - c
  {
    if c < end && Read(m, c) >= CHUNK {
      var bs := RecoverClump(m, c);
      RecoverClumpFlushes(m, c);
      RecoverFromFlushes(ApplyBlocks(m, bs), c + Size(m, c), end);
      FlushingAppend(bs, RecoverFrom(ApplyBlocks(m, bs), c + Size(m, c), end));
    }
  }

  lemma MergeFlushes(firstFree: int, lastFree: int, csize: int)
    requires firstFree % CHUNK == 0
    ensures SelfFlushingAll(if firstFree != 0 && lastFree != 0 then [SetWord(firstFree, csize + FREE)] else [])
  {
    WordFlushes(firstFree, csize + FREE);
  }

  lemma {:induction false} CoalesceFlushes(m: Mem, c: int, end: int, firstFree: int, lastFree: int, csize: int)
    requires c % CHUNK == 0 && firstFree % CHUNK == 0
    ensures SelfFlushingAll(CoalesceFrom(m, c, end, firstFree, lastFree, csize))
    decreases end - c
  {
    var merge := if firstFree != 0 && lastFree != 0 then [SetWord(firstFree, csize + FREE)] else [];
    MergeFlushes(firstFree, lastFree, csize);
    if c < end && Read(m, c) >= CHUNK {
      var sz := Size(m, c);
      if State(m, c) == FREE {
        if firstFree == 0 {
          CoalesceFlushes(m, c + sz, end, c, lastFree, csize + sz);
        } else {
          CoalesceFlushes(m, c + sz, end, firstFree, c, csize + sz);
        }
      } else {
        CoalesceFlushes(ApplyBlocks(m, merge), c + sz, end, 0, 0, 0);
        FlushingAppend(merge, CoalesceFrom(ApplyBlocks(m, merge), c + sz, end, 0, 0, 0));
      }
    }
  }

  lemma InitFlushes(m: Mem, end: int)
    ensures SelfFlushingAll(Init(m, end))
  {
    var bs := RecoverFrom(m, FIRST, end);
    RecoverFromFlushes(m, FIRST, end);
    CoalesceFlushes(ApplyBlocks(m, bs), FIRST, end, 0, 0, 0);
    FlushingAppend(bs, Coalesce(ApplyBlocks(m, bs), end));
  }

  lemma FlushingThree(a: Block, b: Block, d: Block)
    requires SelfFlushing(a) && SelfFlushing(b) && SelfFlushing(d)
    ensures SelfFlushingAll([a, b, d]) && SelfFlushingAll([b, d])
  {
  }

  lemma WordFlushes(c: int, v: int)
    requires c % CHUNK == 0
    ensures SelfFlushing(SetWord(c, v)) && SelfFlushing(ClearOn(c))
  {
    HeaderFlushes(SetWord(c, v));
    HeaderFlushes(ClearOn(c));
  }

  lemma NewHeaderFlushes(k: int, leftover: int)
    requires k % CHUNK == 0
    ensures SelfFlushing(NewClump(k, leftover))
  {
    assert forall w | w in ZeroHeader(k) :: k <= w.addr < k + CHUNK;
    HeaderFlushes(NewClump(k, leftover));
  }

  lemma ReserveFlushes(m: Mem, c: int, nsize: int)
    requires c % CHUNK == 0 && nsize % CHUNK == 0
    ensures SelfFlushingAll(ReserveAt(m, c, nsize))
  {
    var whole := SetWord(c, Size(m, c) + RESERVED);
    WordFlushes(c, Size(m, c) + RESERVED);
    FlushingThree(whole, ClearOn(c), whole);
    if Size(m, c) - nsize >= CHUNK * 2 {
      SplitFlushes(c, nsize, Size(m, c) - nsize);
    }
  }

  lemma SplitFlushes(c: int, nsize: int, leftover: int)
    requires c % CHUNK == 0 && nsize % CHUNK == 0
    ensures SelfFlushingAll([NewClump(c + nsize, leftover), ClearOn(c), SetWord(c, nsize + RESERVED)])
  {
    WordFlushes(c, nsize + RESERVED);
    NewHeaderFlushes(c + nsize, leftover);
    FlushingThree(NewClump(c + nsize, leftover), ClearOn(c), SetWord(c, nsize + RESERVED));
  }

  lemma RecordFlushes(c: int, i: int, target: int, val: int)
    requires c % CHUNK == 0 && 0 <= i < NUM_ON
    ensures SelfFlushingAll(Record(c, i, target, val))
  {
    var r := Record(c, i, target, val);
    HeaderFlushes(r[0]);
    HeaderFlushes(r[1]);
    FlushingThree(r[0], r[0], r[1]);
  }

  lemma CommitFlushes(m: Mem, c: int)
    requires c % CHUNK == 0
    ensures SelfFlushingAll(Commit(m, c))
  {
    var b := SetWord(c, Size(m, c) + ACTIVATING);
    WordFlushes(c, Size(m, c) + ACTIVATING);
    FinishFlushes(Apply(m, b.writes), c, Size(m, c), ACTIVE);
    FlushingAppend([b], Finish(Apply(m, b.writes), c, Size(m, c), ACTIVE));
  }

  lemma ActivationFlushes(m: Mem, c: int)
    requires c % CHUNK == 0
    ensures SelfFlushingAll(Activation(m, c))
  {
    CommitFlushes(m, c);
    assert SelfFlushingAll([PersistPayload(m, c)]);
    FlushingAppend([PersistPayload(m, c)], Commit(m, c));
  }

  /** The persist of the payload reaches every cell of it. */
  lemma PayloadFlushes(c: int, word: int, a: int)
    requires c % CHUNK == 0 && c + CHUNK <= a < c + word / CHUNK * CHUNK
    ensures Flushes(c + CHUNK, word - CHUNK, a)
  {
  }

  lemma FreeFlushes(m: Mem, c: int, end: int)
    requires c % CHUNK == 0
    ensures SelfFlushingAll(FreeClump(m, c, end))
  {
    var sz := Size(m, c);
    var b := SetWord(c, sz + FREEING);
    WordFlushes(c, sz + FREEING);
    WordFlushes(c, sz + FREE);
    FinishFlushes(Apply(m, b.writes), c, sz, FREE);
    FlushingAppend([b], Finish(Apply(m, b.writes), c, sz, FREE));
    CoalesceFlushes(ApplyBlocks(m, Release(m, c)), FIRST, end, 0, 0, 0);
    FlushingAppend(Release(m, c), Coalesce(ApplyBlocks(m, Release(m, c)), end));
  }
}
