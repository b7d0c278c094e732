/**
 The persistent-memory allocator, routine by routine. Each method is proved to issue exactly
 the stores and persists of its program, so the crash results about programs are about it; its
 contract also states what it achieves when nothing crashes.
 */
module Allocator {
  import opened PersistentMemory
  import opened Clumps
  import opened PoolLogic
  import opened AllocatorPrograms
  import opened CrashSafety
  import opened RecoveryWalk
  import opened Recovery
  import opened Reservation
  import opened Atomicity
  import opened Conflicts

  lemma OpsOne(b: Block)
    ensures Ops([b]) == BlockOps(b)
    ensures forall m :: ApplyBlocks(m, [b]) == Apply(m, b.writes)
  {
    assert [b][1..] == [];
    forall m ensures ApplyBlocks(m, [b]) == Apply(m, b.writes) {
      assert ApplyBlocks(m, [b]) == ApplyBlocks(Apply(m, b.writes), [b][1..]);
    }
  }

  /** Pools that recovery can walk: redo entries about to be executed point outside headers. */
  ghost predicate Walkable(m: Mem, end: int) {
    Pool(m, end) && forall h | h in AllHeads(m, end) && Busy(m, h) :: SafeTargets(m, end, h)
  }

  class PmemPool {
    /** The mapped file as the processor reads it. */
    var mem: Mem
    /** Every store and persist issued so far. */
    ghost var trace: seq<Op>
    /** Address of the sentinel clump of size zero. */
    ghost const end: int

    /** `bs` is what has been issued since the memory was m and the trace was t. */
    ghost predicate Issued(m: Mem, t: seq<Op>, bs: seq<Block>)
      reads this
    {
      mem == ApplyBlocks(m, bs) && trace == t + Ops(bs)
    }

    lemma IssuedMore(m: Mem, t: seq<Op>, a: seq<Block>, n: Mem, u: seq<Op>, b: seq<Block>)
      requires n == ApplyBlocks(m, a) && u == t + Ops(a) && Issued(n, u, b)
      ensures Issued(m, t, a + b)
    {
      ApplyBlocksAppend(m, a, b);
      OpsAppend(a, b);
      assert t + Ops(a) + Ops(b) == t + (Ops(a) + Ops(b));
    }

    /** The same inside a loop that still has the blocks `rest` of `whole` to issue. */
    lemma IssuedNext(m: Mem, t: seq<Op>, done: seq<Block>, n: Mem, u: seq<Op>, bs: seq<Block>,
                     rest: seq<Block>, whole: seq<Block>)
      requires n == ApplyBlocks(m, done) && u == t + Ops(done) && Issued(n, u, bs)
      requires done + (bs + rest) == whole
      ensures Issued(m, t, done + bs) && done + bs + rest == whole
    {
      IssuedMore(m, t, done, n, u, bs);
      assert done + bs + rest == done + (bs + rest);
    }

    /** A mapped pool file: an existing one, or a fresh one of `total` bytes. */
    constructor Open(image: Mem, ghost last: int)
      ensures mem == image && trace == [] && end == last
    {
      mem := image;
      trace := [];
      end := last;
    }

    constructor Create(total: int)
      requires MIN_POOL <= total
      ensures mem == FreshPool(total) && trace == [] && end == LastClump(total)
      ensures Rested(mem, end) && AllHeads(mem, end) == {FIRST}
    {
      mem := FreshPool(total);
      trace := [];
      end := LastClump(total);
      FreshPoolTiles(total);
      HeadsTile(FreshPool(total), FIRST, LastClump(total));
    }

    method Assign(a: int, v: int)
      modifies this
      ensures mem == old(mem)[a := v] && trace == old(trace) + [Store(Write(a, v))]
    {
      mem := mem[a := v];
      trace := trace + [Store(Write(a, v))];
    }

    /** pmem_persist: nothing the processor reads changes. */
    method Flush(a: int, n: int)
      modifies this
      ensures mem == old(mem) && trace == old(trace) + [Persist(a, n)]
    {
      trace := trace + [Persist(a, n)];
    }

    method StoreWord(c: int, v: int)
      modifies this
      ensures Issued(old(mem), old(trace), [SetWord(c, v)])
    {
      Assign(c, v);
      Flush(c, CHUNK);
      OpsOne(SetWord(c, v));
      ApplyOne(old(mem), Write(c, v));
      assert Stores([Write(c, v)]) == [Store(Write(c, v))];
      assert trace == old(trace) + BlockOps(SetWord(c, v));
    }

    /** The loop that executes a redo list up to its first empty slot. */
    method ExecuteOn(c: int)
      modifies this
      ensures Issued(old(mem), old(trace), Redo(old(mem), c, 0))
    {
      var i := 0;
      ghost var done: seq<Block> := [];
      while i < NUM_ON && Off(mem, c, i) != 0
        invariant 0 <= i <= NUM_ON
        invariant Issued(old(mem), old(trace), done)
        invariant done + Redo(mem, c, i) == Redo(old(mem), c, 0)
      {
        ghost var m, t := mem, trace;
        ghost var b := Block([Write(Off(mem, c, i), Ptr(mem, c, i))], Off(mem, c, i), WORD);
        ExecuteEntry(c, i);
        OpsOne(b);
        IssuedNext(old(mem), old(trace), done, m, t, [b], Redo(mem, c, i + 1), Redo(old(mem), c, 0));
        done := done + [b];
        i := i + 1;
      }
      assert done + [] == done;
    }

    method ExecuteEntry(c: int, i: int)
      modifies this
      ensures Issued(old(mem), old(trace), [Block([Write(Off(old(mem), c, i), Ptr(old(mem), c, i))], Off(old(mem), c, i), WORD)])
    {
      var dest, val := Off(mem, c, i), Ptr(mem, c, i);
      Assign(dest, val);
      Flush(dest, WORD);
      OpsOne(Block([Write(dest, val)], dest, WORD));
      ApplyOne(old(mem), Write(dest, val));
      assert Stores([Write(dest, val)]) == [Store(Write(dest, val))];
    }

    /** The loop that clears the offsets of a redo list, last to first. */
    method ClearOnList(c: int)
      modifies this
      ensures Issued(old(mem), old(trace), [ClearOffs(c)])
    {
      var i := NUM_ON - 1;
      ghost var ws: seq<Write> := [];
      while i >= 0
        invariant -1 <= i < NUM_ON
        invariant ws == ClearOffs(c).writes[..NUM_ON - 1 - i]
        invariant mem == Apply(old(mem), ws)
        invariant trace == old(trace) + Stores(ws)
      {
        var w := Write(OffAddr(c, i), 0);
        ApplyAppend(old(mem), ws, [w]);
        ApplyOne(mem, w);
        StoresAppend(ws, w);
        Assign(OffAddr(c, i), 0);
        ws := ws + [w];
        i := i - 1;
      }
      Flush(c, CHUNK);
      OpsOne(ClearOffs(c));
      assert ws == ClearOffs(c).writes;
    }

    lemma StoresAppend(ws: seq<Write>, w: Write)
      ensures Stores(ws + [w]) == Stores(ws) + [Store(w)]
    {
    }

    method FinishTo(c: int, sz: int, state: int)
      modifies this
      ensures Issued(old(mem), old(trace), Finish(old(mem), c, sz, state))
    {
      ExecuteOn(c);
      label executed:
      ClearOnList(c);
      label cleared:
      StoreWord(c, sz + state);
      IssuedMore(old@executed(mem), old@executed(trace), [ClearOffs(c)], old@cleared(mem), old@cleared(trace), [SetWord(c, sz + state)]);
      assert [ClearOffs(c)] + [SetWord(c, sz + state)] == [ClearOffs(c), SetWord(c, sz + state)];
      IssuedMore(old(mem), old(trace), Redo(old(mem), c, 0), old@executed(mem), old@executed(trace), [ClearOffs(c), SetWord(c, sz + state)]);
    }

    method RecoverOne(c: int, sz: int, state: int)
      requires sz == Size(mem, c) && state == State(mem, c)
      modifies this
      ensures Issued(old(mem), old(trace), RecoverClump(old(mem), c))
    {
      if state == RESERVED {
        ClearOnList(c);
        label cleared:
        StoreWord(c, sz + FREE);
        IssuedMore(old(mem), old(trace), [ClearOffs(c)], old@cleared(mem), old@cleared(trace), [SetWord(c, sz + FREE)]);
        assert [ClearOffs(c)] + [SetWord(c, sz + FREE)] == [ClearOffs(c), SetWord(c, sz + FREE)];
      } else if state == ACTIVATING {
        FinishTo(c, sz, ACTIVE);
      } else if state == FREEING {
        FinishTo(c, sz, FREE);
      }
    }

    method Recover()
      requires Walkable(mem, end)
      modifies this
      ensures Issued(old(mem), old(trace), RecoverFrom(old(mem), FIRST, end))
    {
      var clp := FIRST;
      ghost var done: seq<Block> := [];
      FirstHead(mem, end);
      while Read(mem, clp) != 0
        invariant Walkable(mem, end) && HeadOrEnd(mem, end, clp)
        invariant Issued(old(mem), old(trace), done)
        invariant done + RecoverFrom(mem, clp, end) == RecoverFrom(old(mem), FIRST, end)
        decreases end - clp
      {
        ghost var m, t := mem, trace;
        ghost var bs := RecoverClump(mem, clp);
        var sz := RecoverNext(clp);
        IssuedNext(old(mem), old(trace), done, m, t, bs, RecoverFrom(mem, clp + sz, end), RecoverFrom(old(mem), FIRST, end));
        done := done + bs;
        clp := clp + sz;
      }
      assert RecoverFrom(mem, clp, end) == [] && done + [] == done;
    }

    /** One turn of the recovery loop. */
    method RecoverNext(clp: int) returns (sz: int)
      requires Walkable(mem, end) && HeadOrEnd(mem, end, clp) && Read(mem, clp) != 0
      modifies this
      ensures Issued(old(mem), old(trace), RecoverClump(old(mem), clp))
      ensures Walkable(mem, end) && HeadOrEnd(mem, end, clp + sz) && sz == Size(old(mem), clp) >= CHUNK && clp < end
      ensures RecoverFrom(old(mem), clp, end) == RecoverClump(old(mem), clp) + RecoverFrom(mem, clp + sz, end)
    {
      EndReadsZero(mem, end);
      HeadFacts(mem, end, clp);
      NextHead(mem, FIRST, end, clp);
      sz := Size(mem, clp);
      RecoverClumpValues(mem, clp, end);
      RecoverOne(clp, sz, State(mem, clp));
      TurnedWalkable(old(mem), mem, clp, end);
    }

    lemma EndReadsZero(m: Mem, last: int)
      requires Pool(m, last)
      ensures Read(m, last) == 0
    {
      HeadsTile(m, FIRST, last);
    }

    lemma TurnedWalkable(m: Mem, n: Mem, c: int, last: int)
      requires Walkable(m, last) && Turned(m, n, c, last) && !Busy(n, c)
      ensures Walkable(n, last)
    {
      SameHeaderCells(m, n, last);
      forall h | h in AllHeads(n, last) && Busy(n, h) ensures SafeTargets(n, last, h) {
        SameHeaderFacts(m, n, h);
        assert SafeTargets(m, last, h);
      }
    }

    /** pmemalloc_coalesce_free: afterwards no two adjacent clumps are free, and nothing live
        has changed. */
    method CoalesceFree()
      requires Idle(mem, end)
      modifies this
      ensures Issued(old(mem), old(trace), Coalesce(old(mem), end))
      ensures Idle(mem, end) && Coalesced(mem, end) && OnlyFreeChanges(old(mem), mem, end) && SameLogic(old(mem), mem, end)
    {
      var firstFree, lastFree, csize := 0, 0, 0;
      var clp := FIRST;
      ghost var done: seq<Block> := [];
      FirstHead(mem, end);
      FirstWalking(mem, end);
      while Read(mem, clp) != 0
        invariant Walking(mem, clp, end, firstFree, lastFree, csize)
        invariant Issued(old(mem), old(trace), done)
        invariant done + CoalesceFrom(mem, clp, end, firstFree, lastFree, csize) == Coalesce(old(mem), end)
        decreases end - clp
      {
        EndReadsZero(mem, end);
        HeadFacts(mem, end, clp);
        var sz := Size(mem, clp);
        var state := State(mem, clp);
        ghost var m, t := mem, trace;
        if state == FREE {
          WalkOn(mem, clp, end, firstFree, lastFree, csize);
          if firstFree == 0 {
            firstFree := clp;
          } else {
            lastFree := clp;
          }
          csize := csize + sz;
        } else {
          ghost var merge := if firstFree != 0 && lastFree != 0 then [SetWord(firstFree, csize + FREE)] else [];
          EndRun(clp, firstFree, lastFree, csize);
          IssuedNext(old(mem), old(trace), done, m, t, merge, CoalesceFrom(mem, clp + sz, end, 0, 0, 0), Coalesce(old(mem), end));
          done := done + merge;
          firstFree, lastFree, csize := 0, 0, 0;
        }
        clp := clp + sz;
      }
      ghost var m, t := mem, trace;
      if firstFree != 0 && lastFree != 0 {
        StoreWord(firstFree, csize + FREE);
        IssuedMore(old(mem), old(trace), done, m, t, [SetWord(firstFree, csize + FREE)]);
      } else {
        assert done + [] == done;
      }
      CoalesceAll(old(mem), end);
      KeepsEnd(old(mem), Coalesce(old(mem), end), end);
    }

    /** Reaching a clump that is not free. */
    method EndRun(clp: int, firstFree: int, lastFree: int, csize: int)
      requires Walking(mem, clp, end, firstFree, lastFree, csize) && clp in AllHeads(mem, end) && State(mem, clp) != FREE
      modifies this
      ensures Issued(old(mem), old(trace), if firstFree != 0 && lastFree != 0 then [SetWord(firstFree, csize + FREE)] else [])
      ensures Size(mem, clp) == Size(old(mem), clp) && Walking(mem, clp + Size(mem, clp), end, 0, 0, 0)
    {
      MergeRun(mem, clp, end, firstFree, lastFree, csize);
      if firstFree != 0 && lastFree != 0 {
        StoreWord(firstFree, csize + FREE);
      } else {
        assert trace + [] == trace;
      }
      assert Read(mem, clp) == Read(old(mem), clp);
      WalkPast(mem, clp, end);
    }

    lemma FirstWalking(m: Mem, last: int)
      requires Idle(m, last)
      ensures Walking(m, FIRST, last, 0, 0, 0)
    {
      HeadsTile(m, FIRST, last);
    }

    /** The recovery part of pmemalloc_init. */
    method Start()
      requires Good(mem, end)
      modifies this
      ensures Issued(old(mem), old(trace), Init(old(mem), end))
      ensures Rested(mem, end) && Idle(mem, end) && SameLogic(old(mem), mem, end)
    {
      FirstHead(mem, end);
      RecoverFromKeeps(mem, FIRST, end);
      Recover();
      SettledFacts(mem, end);
      label recovered:
      CoalesceFree();
      IssuedMore(old(mem), old(trace), RecoverFrom(old(mem), FIRST, end),
                 old@recovered(mem), old@recovered(trace), Coalesce(old@recovered(mem), end));
      InitKeeps(old(mem), end);
      KeepsEnd(old(mem), Init(old(mem), end), end);
      SettledFacts(mem, end);
    }

    /** pmemalloc_reserve: the offset of the payload, or 0 when the pool has no room. The pool has
        none exactly when no contiguous free stretch is large enough for a header and the request in
        whole chunks; otherwise that much is handed out, or one chunk more. */
    method Reserve(size: int) returns (ptr: int)
      requires Idle(mem, end) && Coalesced(mem, end) && 0 <= size
      requires FIRST < end // FATAL("no clumps found")
      modifies this
      ensures match FirstFit(old(mem), FIRST, end, ClumpSize(size))
              case None => ptr == 0 && mem == old(mem) && trace == old(trace)
              case Some(c) =>
                && ptr == c + CHUNK && Issued(old(mem), old(trace), ReserveAt(old(mem), c, ClumpSize(size)))
                && Reserved(old(mem), mem, end, c, ClumpSize(size)) && Coalesced(mem, end)
                && SameLogic(old(mem), mem, end)
      ensures forall n | Rounded(size, n) ::
        && (ptr == 0 <==> !exists a :: FreeStretch(old(mem), end, a, n))
        && (ptr != 0 ==> Size(mem, ptr - CHUNK) == n || Size(mem, ptr - CHUNK) == n + CHUNK)
    {
      var nsize := ClumpSize(size);
      ClumpSizeRounds(size, nsize);
      forall n | Rounded(size, n) ensures n == nsize {
        ClumpSizeRounds(size, n);
      }
      ReserveFailsExactly(mem, end, size, nsize);
      var clp := FIRST;
      FirstHead(mem, end);
      while Read(mem, clp) != 0
        invariant mem == old(mem) && trace == old(trace) && HeadOrEnd(mem, end, clp)
        invariant FirstFit(mem, clp, end, nsize) == FirstFit(mem, FIRST, end, nsize)
        decreases end - clp
      {
        EndReadsZero(mem, end);
        HeadFacts(mem, end, clp);
        var sz := Size(mem, clp);
        var state := State(mem, clp);
        if state == FREE && nsize <= sz {
          ReserveIsSafe(mem, end, size);
          KeepsEnd(mem, ReserveAt(mem, clp, nsize), end);
          TakeClump(clp, nsize);
          return clp + CHUNK;
        }
        NextHead(mem, FIRST, end, clp);
        clp := clp + sz;
      }
      return 0;
    }

    method TakeClump(clp: int, nsize: int)
      modifies this
      ensures Issued(old(mem), old(trace), ReserveAt(old(mem), clp, nsize))
    {
      var sz := Size(mem, clp);
      var leftover := sz - nsize;
      if leftover >= CHUNK * 2 {
        var newclp := clp + nsize;
        StoreBlock(NewClump(newclp, leftover));
        label split:
        StoreBlock(ClearOn(clp));
        label emptied:
        StoreWord(clp, nsize + RESERVED);
        IssuedMore(old@split(mem), old@split(trace), [ClearOn(clp)], old@emptied(mem), old@emptied(trace), [SetWord(clp, nsize + RESERVED)]);
        assert [ClearOn(clp)] + [SetWord(clp, nsize + RESERVED)] == [ClearOn(clp), SetWord(clp, nsize + RESERVED)];
        IssuedMore(old(mem), old(trace), [NewClump(newclp, leftover)], old@split(mem), old@split(trace),
                   [ClearOn(clp), SetWord(clp, nsize + RESERVED)]);
        assert ReserveAt(old(mem), clp, nsize) == [NewClump(newclp, leftover)] + [ClearOn(clp), SetWord(clp, nsize + RESERVED)];
      } else {
        StoreBlock(ClearOn(clp));
        label cleared:
        StoreWord(clp, sz + RESERVED);
        IssuedMore(old(mem), old(trace), [ClearOn(clp)], old@cleared(mem), old@cleared(trace), [SetWord(clp, sz + RESERVED)]);
        assert ReserveAt(old(mem), clp, nsize) == [ClearOn(clp)] + [SetWord(clp, sz + RESERVED)];
      }
    }

    /** A straight run of stores into one range and the persist that follows them. */
    method StoreBlock(b: Block)
      modifies this
      ensures Issued(old(mem), old(trace), [b])
    {
      var i := 0;
      while i < |b.writes|
        invariant 0 <= i <= |b.writes|
        invariant mem == Apply(old(mem), b.writes[..i])
        invariant trace == old(trace) + Stores(b.writes[..i])
      {
        ApplyAppend(old(mem), b.writes[..i], [b.writes[i]]);
        ApplyOne(mem, b.writes[i]);
        StoresAppend(b.writes[..i], b.writes[i]);
        assert b.writes[..i + 1] == b.writes[..i] + [b.writes[i]];
        Assign(b.writes[i].addr, b.writes[i].val);
        i := i + 1;
      }
      Flush(b.addr, b.len);
      OpsOne(b);
      assert b.writes[..i] == b.writes;
    }

    /** The common body of pmemalloc_onactive and pmemalloc_onfree; false when all three slots
        are taken, where the original stops the program. */
    method RecordOn(clp: int, target: int, val: int) returns (ok: bool)
      modifies this
      ensures ok <==> FreeSlot(old(mem), clp) < NUM_ON
      ensures ok ==> Issued(old(mem), old(trace), Record(clp, FreeSlot(old(mem), clp), target, val))
      ensures !ok ==> mem == old(mem) && trace == old(trace)
    {
      var i := 0;
      while i < NUM_ON
        invariant 0 <= i <= NUM_ON && mem == old(mem) && trace == old(trace)
        invariant forall j | 0 <= j < i :: Off(mem, clp, j) != 0
      {
        if Off(mem, clp, i) == 0 {
          StoreBlock(Block([Write(PtrAddr(clp, i), val)], clp, CHUNK));
          label pointed:
          StoreBlock(Block([Write(OffAddr(clp, i), target)], clp, CHUNK));
          var r := Record(clp, i, target, val);
          IssuedMore(old(mem), old(trace), [r[0]], old@pointed(mem), old@pointed(trace), [r[1]]);
          assert r == [r[0]] + [r[1]];
          return true;
        }
        i := i + 1;
      }
      return false;
    }

    /** pmemalloc_onactive */
    method OnActive(ptr: int, target: int, val: int) returns (ok: bool)
      requires Idle(mem, end) && ptr - CHUNK in AllHeads(mem, end) && State(mem, ptr - CHUNK) == RESERVED
      modifies this
      ensures ok <==> FreeSlot(old(mem), ptr - CHUNK) < NUM_ON
      ensures ok <==> Off(old(mem), ptr - CHUNK, 0) == 0 || Off(old(mem), ptr - CHUNK, 1) == 0 || Off(old(mem), ptr - CHUNK, 2) == 0
      ensures ok ==>
        var c, i := ptr - CHUNK, FreeSlot(old(mem), ptr - CHUNK);
        && Issued(old(mem), old(trace), Record(c, i, target, val)) && Recorded(old(mem), mem, c, i, target, val)
        && Idle(mem, end) && State(mem, c) == RESERVED && SameLogic(old(mem), mem, end)
      ensures !ok ==> mem == old(mem) && trace == old(trace)
      ensures Coalesced(old(mem), end) ==> Coalesced(mem, end)
    {
      var clp := ptr - CHUNK;
      ok := RecordOn(clp, target, val);
      if ok {
        RecordKeeps(old(mem), clp, FreeSlot(old(mem), clp), target, val, end);
        KeepsEnd(old(mem), Record(clp, FreeSlot(old(mem), clp), target, val), end);
        if Coalesced(old(mem), end) { TurnedCoalesced(old(mem), mem, end, clp); }
      }
    }

    /** pmemalloc_onfree */
    method OnFree(ptr: int, target: int, val: int) returns (ok: bool)
      requires Idle(mem, end) && ptr - CHUNK in AllHeads(mem, end) && State(mem, ptr - CHUNK) == ACTIVE
      modifies this
      ensures ok <==> FreeSlot(old(mem), ptr - CHUNK) < NUM_ON
      ensures ok <==> Off(old(mem), ptr - CHUNK, 0) == 0 || Off(old(mem), ptr - CHUNK, 1) == 0 || Off(old(mem), ptr - CHUNK, 2) == 0
      ensures ok ==>
        var c, i := ptr - CHUNK, FreeSlot(old(mem), ptr - CHUNK);
        && Issued(old(mem), old(trace), Record(c, i, target, val)) && Recorded(old(mem), mem, c, i, target, val)
        && Idle(mem, end) && State(mem, c) == ACTIVE
      ensures !ok ==> mem == old(mem) && trace == old(trace)
      ensures Coalesced(old(mem), end) ==> Coalesced(mem, end)
    {
      var clp := ptr - CHUNK;
      ok := RecordOn(clp, target, val);
      if ok {
        RecordKeeps(old(mem), clp, FreeSlot(old(mem), clp), target, val, end);
        if Coalesced(old(mem), end) { TurnedCoalesced(old(mem), mem, end, clp); }
      }
    }

    /** pmemalloc_activate: the clump becomes ACTIVE with an empty redo list, every recorded
        assignment has been made, and no other clump's header has changed. */
    method Activate(ptr: int)
      requires Idle(mem, end) && ptr - CHUNK in AllHeads(mem, end) && State(mem, ptr - CHUNK) == RESERVED
      requires SafeTargets(mem, end, ptr - CHUNK)
      modifies this
      ensures Issued(old(mem), old(trace), Activation(old(mem), ptr - CHUNK))
      ensures
        var c := ptr - CHUNK;
        && Idle(mem, end) && State(mem, c) == ACTIVE && (forall i | 0 <= i < NUM_ON :: Off(mem, c, i) == 0)
        && Size(mem, c) == Size(old(mem), c) && AllHeads(mem, end) == AllHeads(old(mem), end)
        && (forall h | h in AllHeads(mem, end) && h != c :: SameHeader(old(mem), mem, h))
        && (Coalesced(old(mem), end) ==> Coalesced(mem, end))
        && forall a | !HeaderCell(old(mem), end, a) :: Read(mem, a) == Effect(old(mem), c, 0, a, Read(old(mem), a))
    {
      var clp := ptr - CHUNK;
      var sz := Size(mem, clp);
      ghost var m0 := mem;
      StoreBlock(PersistPayload(mem, clp));
      label flushed:
      StoreWord(clp, sz + ACTIVATING);
      label committed:
      FinishTo(clp, sz, ACTIVE);
      IssuedMore(old@flushed(mem), old@flushed(trace), [SetWord(clp, sz + ACTIVATING)], old@committed(mem), old@committed(trace),
                 Finish(old@committed(mem), clp, sz, ACTIVE));
      OpsOne(SetWord(clp, sz + ACTIVATING));
      OpsOne(PersistPayload(m0, clp));
      IssuedMore(old(mem), old(trace), [PersistPayload(m0, clp)], old@flushed(mem), old@flushed(trace), Commit(m0, clp));
      CommittedMeaning(m0, clp, ACTIVATING, end);
      FinishedValues(m0, clp, ACTIVATING, ACTIVE, end);
      if Coalesced(m0, end) { TurnedCoalesced(m0, mem, end, clp); }
    }

    /** From the committed memory to the end of the redo work. */
    lemma FinishedValues(m: Mem, c: int, state: int, final: int, last: int)
      requires Idle(m, last) && c in AllHeads(m, last) && SafeTargets(m, last, c)
      requires (state == ACTIVATING && final == ACTIVE) || (state == FREEING && final == FREE)
      ensures
        var r := ApplyBlocks(Committed(m, c, state), Finish(Committed(m, c, state), c, Size(m, c), final));
        && Idle(r, last) && State(r, c) == final && Turned(m, r, c, last)
        && (forall i | 0 <= i < NUM_ON :: Off(r, c, i) == 0)
        && forall a | !HeaderCell(m, last, a) :: Read(r, a) == Effect(m, c, 0, a, Read(m, a))
    {
      var n := Committed(m, c, state);
      CommittedMeaning(m, c, state, last);
      CommittedFrame(m, c, state, last);
      FinishValues(n, c, final, last);
      var r := ApplyBlocks(n, Finish(n, c, Size(m, c), final));
      FinishedIdle(m, n, r, c, last);
      forall a | !HeaderCell(m, last, a) ensures Read(r, a) == Effect(m, c, 0, a, Read(m, a)) {
        SameEffect(m, n, c, 0, a, Read(n, a));
        assert HeaderCell(m, last, c);
      }
    }

    /** pmemalloc_free of a RESERVED or ACTIVE clump; other states stop the original. */
    method Free(ptr: int)
      requires Idle(mem, end) && ptr - CHUNK in AllHeads(mem, end)
      requires State(mem, ptr - CHUNK) == RESERVED || State(mem, ptr - CHUNK) == ACTIVE
      requires State(mem, ptr - CHUNK) == ACTIVE ==> SafeTargets(mem, end, ptr - CHUNK)
      modifies this
      ensures Issued(old(mem), old(trace), FreeClump(old(mem), ptr - CHUNK, end))
      ensures
        var c := ptr - CHUNK;
        && Idle(mem, end) && Coalesced(mem, end)
        && (forall h :: Live(mem, end, h) <==> h != c && Live(old(mem), end, h))
        && (forall h | h in AllHeads(old(mem), end) && State(old(mem), h) != FREE && h != c ::
              h in AllHeads(mem, end) && SameHeader(old(mem), mem, h))
        && forall a | !HeaderCell(old(mem), end, a) ::
             Read(mem, a) == if old(State(mem, c)) == ACTIVE then Effect(old(mem), c, 0, a, Read(old(mem), a)) else Read(old(mem), a)
    {
      var clp := ptr - CHUNK;
      var sz := Size(mem, clp);
      var state := State(mem, clp);
      ghost var m0 := mem;
      if state == ACTIVE {
        StoreWord(clp, sz + FREEING);
        label committed:
        FinishTo(clp, sz, FREE);
        IssuedMore(old(mem), old(trace), [SetWord(clp, sz + FREEING)], old@committed(mem), old@committed(trace),
                   Finish(old@committed(mem), clp, sz, FREE));
        OpsOne(SetWord(clp, sz + FREEING));
        FinishedValues(m0, clp, FREEING, FREE, end);
      } else {
        StoreWord(clp, sz + FREE);
        OpsOne(SetWord(clp, sz + FREE));
        FreedReservation(m0, mem, clp, end);
      }
      label released:
      TurnedLive(m0, mem, clp, end);
      CoalesceFree();
      IssuedMore(old(mem), old(trace), Release(m0, clp), old@released(mem), old@released(trace), Coalesce(old@released(mem), end));
      SameHeaderCells(m0, old@released(mem), end);
      assert forall h | h in AllHeads(old@released(mem), end) :: HeaderCell(old@released(mem), end, h);
      OthersUntouched(m0, old@released(mem), mem, clp, end);
    }

    /** Coalescing leaves the headers of clumps in use alone. */
    lemma OthersUntouched(m: Mem, n: Mem, p: Mem, c: int, last: int)
      requires Pool(m, last) && Turned(m, n, c, last) && OnlyFreeChanges(n, p, last)
      ensures forall h | h in AllHeads(m, last) && State(m, h) != FREE && h != c ::
                h in AllHeads(p, last) && SameHeader(m, p, h)
    {
      HeadsTile(n, FIRST, last);
      forall h | h in AllHeads(m, last) && State(m, h) != FREE && h != c
        ensures h in AllHeads(p, last) && SameHeader(m, p, h)
      {
        SameHeaderFacts(m, n, h);
        forall a | h <= a < h + CHUNK ensures Read(p, a) == Read(n, a) {}
        assert SameHeader(m, n, h);
      }
    }

    lemma FreedReservation(m: Mem, n: Mem, c: int, last: int)
      requires Idle(m, last) && c in AllHeads(m, last) && n == Apply(m, [Write(c, Size(m, c) + FREE)])
      ensures Idle(n, last) && Turned(m, n, c, last) && State(n, c) == FREE
      ensures forall a | !HeaderCell(m, last, a) :: Read(n, a) == Read(m, a)
    {
      ApplyOne(m, Write(c, Size(m, c) + FREE));
      SetWordArithmetic(m, n, last, c, Size(m, c), FREE);
      HeaderStepFrame(m, n, last, c);
      TurnedIdle(m, n, c, last);
      assert HeaderCell(m, last, c);
    }

    lemma TurnedLive(m: Mem, n: Mem, c: int, last: int)
      requires Idle(m, last) && Idle(n, last) && Turned(m, n, c, last) && State(n, c) == FREE
      ensures forall h :: Live(n, last, h) <==> h != c && Live(m, last, h)
    {
      forall h | h in AllHeads(m, last) && h != c ensures State(n, h) == State(m, h) {
        SameHeaderFacts(m, n, h);
      }
    }
  }
}
