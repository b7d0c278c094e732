/**
 The layout of a pool: a run of clumps from FIRST up to a sentinel of size zero. A clump is a
 64-byte header (size and state in one word, then three redo entries) followed by its payload.
 */
module Clumps {
  import opened PersistentMemory

  const STATIC := 4096      // static area, one page
  const STATIC_END := 8192
  const FIRST := 16384      // first clump
  const CHUNK := 64         // header size, granularity of sizes
  const NUM_ON := 3
  const MIN_POOL := 1024 * 1024

  // clump states, kept in the low six bits of the size word
  const FREE := 0
  const RESERVED := 1
  const ACTIVATING := 2
  const ACTIVE := 3
  const FREEING := 4

  function Size(m: Mem, c: int): int { Read(m, c) / CHUNK * CHUNK }

  function State(m: Mem, c: int): int { Read(m, c) % CHUNK }

  // on[i].off and on[i].ptr_
  function OffAddr(c: int, i: int): int { c + 16 + 16 * i }

  function PtrAddr(c: int, i: int): int { c + 24 + 16 * i }

  function Off(m: Mem, c: int, i: int): int { Read(m, OffAddr(c, i)) }

  function Ptr(m: Mem, c: int, i: int): int { Read(m, PtrAddr(c, i)) }

  // ---------------------------------------------------------------------------------------
  // Tiling

  ghost predicate Tiled(m: Mem, c: int, end: int)
    decreases end - c
  {
    && c % CHUNK == 0
    && if c >= end then c == end && Read(m, c) == 0
       else Read(m, c) >= CHUNK && State(m, c) <= FREEING && Tiled(m, c + Size(m, c), end)
  }

  ghost function Heads(m: Mem, c: int, end: int): set<int>
    requires Tiled(m, c, end)
    decreases end - c
  {
    if c >= end then {} else {c} + Heads(m, c + Size(m, c), end)
  }

  /** The clumps from c on are disjoint, in 64-byte multiples, and leave no gap before end. */
  lemma {:induction false} HeadsTile(m: Mem, c: int, end: int)
    requires Tiled(m, c, end)
    ensures c <= end && end % CHUNK == 0 && Read(m, end) == 0
    ensures forall h | h in Heads(m, c, end) ::
              && c <= h < end && h % CHUNK == 0 && Read(m, h) >= CHUNK && State(m, h) <= FREEING
              && CHUNK <= Size(m, h) && h + Size(m, h) <= end
    ensures forall h, k | h in Heads(m, c, end) && k in Heads(m, c, end) && h < k :: h + Size(m, h) <= k
    ensures c < end ==> c in Heads(m, c, end)
    decreases end - c
  {
    if c < end {
      HeadsTile(m, c + Size(m, c), end);
    }
  }

  lemma {:induction false} NextHead(m: Mem, c: int, end: int, h: int)
    requires Tiled(m, c, end) && h in Heads(m, c, end)
    ensures h + Size(m, h) == end || h + Size(m, h) in Heads(m, c, end)
    decreases end - c
  {
    var next := c + Size(m, c);
    HeadsTile(m, next, end);
    if h != c {
      NextHead(m, next, end, h);
    }
  }

  /** Every byte of the pool lies in some clump. */
  lemma {:induction false} HeadsCover(m: Mem, c: int, end: int, a: int) returns (h: int)
    requires Tiled(m, c, end) && c <= a < end
    ensures h in Heads(m, c, end) && h <= a < h + Size(m, h)
    decreases end - c
  {
    if a < c + Size(m, c) {
      h := c;
    } else {
      h := HeadsCover(m, c + Size(m, c), end, a);
    }
  }

  /** The clumps from a head on are the heads at or above it. */
  lemma {:induction false} HeadsFrom(m: Mem, c: int, end: int, h: int)
    requires Tiled(m, c, end) && (h in Heads(m, c, end) || h == end)
    ensures Tiled(m, h, end)
    ensures forall k :: k in Heads(m, h, end) <==> k in Heads(m, c, end) && h <= k
    decreases end - c
  {
    HeadsTile(m, c, end);
    if h != c && c < end {
      HeadsTile(m, c + Size(m, c), end);
      HeadsFrom(m, c + Size(m, c), end, h);
    }
  }

  /** Only size words at heads matter to the tiling. */
  lemma {:induction false} FrameTiled(m: Mem, n: Mem, c: int, end: int)
    requires Tiled(m, c, end)
    requires forall h | h in Heads(m, c, end) :: Read(n, h) >= CHUNK && Size(n, h) == Size(m, h) && State(n, h) <= FREEING
    requires Read(n, end) == 0
    ensures Tiled(n, c, end) && Heads(n, c, end) == Heads(m, c, end)
    decreases end - c
  {
    if c < end {
      FrameTiled(m, n, c + Size(m, c), end);
    }
  }

  /** Shrinking head h and starting a clump in the freed part inserts one head. */
  lemma {:induction false} SplitTiled(m: Mem, n: Mem, c: int, end: int, h: int, k: int)
    requires Tiled(m, c, end) && h in Heads(m, c, end)
    requires h < k < h + Size(m, h) && k % CHUNK == 0
    requires forall x | x in Heads(m, c, end) && x != h :: Read(n, x) == Read(m, x)
    requires Read(n, end) == 0
    requires Read(n, h) >= CHUNK && State(n, h) <= FREEING && Size(n, h) == k - h
    requires Read(n, k) >= CHUNK && State(n, k) <= FREEING && Size(n, k) == h + Size(m, h) - k
    ensures Tiled(n, c, end) && Heads(n, c, end) == Heads(m, c, end) + {k}
    decreases end - c
  {
    var next := c + Size(m, c);
    HeadsTile(m, c, end);
    HeadsTile(m, next, end);
    if c == h {
      FrameTiled(m, n, next, end);
      assert Tiled(n, k, end) && Heads(n, k, end) == {k} + Heads(n, next, end);
    } else {
      SplitTiled(m, n, next, end, h, k);
    }
  }

  /** Growing head h up to the later head k swallows the heads between them. */
  lemma {:induction false} MergeTiled(m: Mem, n: Mem, c: int, end: int, h: int, k: int)
    requires Tiled(m, c, end) && h in Heads(m, c, end)
    requires h < k && (k in Heads(m, c, end) || k == end)
    requires forall x | x in Heads(m, c, end) && x != h :: Read(n, x) == Read(m, x)
    requires Read(n, end) == 0
    requires Read(n, h) >= CHUNK && State(n, h) <= FREEING && Size(n, h) == k - h
    ensures Tiled(n, c, end)
    ensures forall x :: x in Heads(n, c, end) <==> x in Heads(m, c, end) && (x <= h || k <= x)
    decreases end - c
  {
    var next := c + Size(m, c);
    HeadsTile(m, c, end);
    HeadsTile(m, next, end);
    if c == h {
      HeadsFrom(m, c, end, k);
      FrameTiled(m, n, k, end);
      assert Heads(n, c, end) == {c} + Heads(n, k, end);
    } else {
      MergeTiled(m, n, next, end, h, k);
      assert c + Size(n, c) == next && Heads(n, c, end) == {c} + Heads(n, next, end);
    }
  }

  // ---------------------------------------------------------------------------------------
  // The whole pool

  ghost predicate Pool(m: Mem, end: int) {
    FIRST <= end && Tiled(m, FIRST, end)
  }

  ghost function AllHeads(m: Mem, end: int): set<int>
    requires Pool(m, end)
  {
    Heads(m, FIRST, end)
  }

  lemma HeadFacts(m: Mem, end: int, h: int)
    requires Pool(m, end) && h in AllHeads(m, end)
    ensures FIRST <= h && h % CHUNK == 0 && Read(m, h) >= CHUNK && 0 <= State(m, h) <= FREEING
    ensures CHUNK <= Size(m, h) && h + Size(m, h) <= end && end % CHUNK == 0 && Read(m, end) == 0
  {
    HeadsTile(m, FIRST, end);
  }

  ghost predicate HeaderCell(m: Mem, end: int, a: int)
    requires Pool(m, end)
  {
    end <= a < end + CHUNK || exists h :: h in AllHeads(m, end) && h <= a < h + CHUNK
  }

  ghost predicate PayloadCell(m: Mem, h: int, a: int) {
    h + CHUNK <= a < h + Size(m, h)
  }

  /** Payloads of distinct clumps are disjoint, and no payload overlaps a header. */
  lemma PayloadsDisjoint(m: Mem, end: int, h: int, k: int, a: int)
    requires Pool(m, end) && h in AllHeads(m, end) && k in AllHeads(m, end)
    requires PayloadCell(m, h, a)
    ensures PayloadCell(m, k, a) ==> k == h
    ensures !HeaderCell(m, end, a)
  {
    HeadsTile(m, FIRST, end);
  }

  /** A pool of `total` bytes created by pmemalloc_init: one free clump and the sentinel. */
  function LastClump(total: int): int { total / CHUNK * CHUNK - CHUNK }

  function FreshPool(total: int): Mem { map[FIRST := LastClump(total) - FIRST] }

  /** What pmemalloc_check verifies about the sizes holds of every fresh pool. */
  lemma FreshPoolTiles(total: int)
    requires MIN_POOL <= total
    ensures Pool(FreshPool(total), LastClump(total))
    ensures AllHeads(FreshPool(total), LastClump(total)) == {FIRST}
    ensures State(FreshPool(total), FIRST) == FREE
    ensures FIRST + Size(FreshPool(total), FIRST) + total % CHUNK + CHUNK == total
  {
    var m, end := FreshPool(total), LastClump(total);
    assert Read(m, FIRST) % CHUNK == 0;
    assert Tiled(m, end, end);
    assert Heads(m, FIRST, end) == {FIRST} + Heads(m, end, end);
  }
}
