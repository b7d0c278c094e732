/**
 Persistent memory: stores stay pending until their cache line is flushed, and a crash may keep
 any of the pending ones.
 */
module PersistentMemory {

  // Memory is a map from byte addresses to cells; a cell that was never written reads as zero, as
  // a freshly allocated pool file does. A cell holds what one store wrote.

  type Mem = map<int, int>

  const LINE := 64 // bytes flushed by one clflush

  function Read(m: Mem, a: int): int {
    if a in m then m[a] else 0
  }

  datatype Write = Write(addr: int, val: int)

  function Apply(m: Mem, ws: seq<Write>): Mem
    decreases |ws|
  {
    if ws == [] then m else Apply(m[ws[0].addr := ws[0].val], ws[1..])
  }

  // ---------------------------------------------------------------------------------------
  // Single instructions

  datatype Op = Store(w: Write) | Persist(addr: int, len: int)

  /** `durable` is what the medium holds; `pending` are the stores still in the caches. */
  datatype Machine = Machine(durable: Mem, pending: seq<Write>)

  /** The loop over 64-byte lines covering [addr, addr + len). */
  predicate Flushes(addr: int, len: int, a: int) {
    addr / LINE * LINE <= a / LINE * LINE < addr + len
  }

  function Flushed(ws: seq<Write>, addr: int, len: int): seq<Write> {
    if ws == [] then []
    else (if Flushes(addr, len, ws[0].addr) then [ws[0]] else []) + Flushed(ws[1..], addr, len)
  }

  function Unflushed(ws: seq<Write>, addr: int, len: int): seq<Write> {
    if ws == [] then []
    else (if Flushes(addr, len, ws[0].addr) then [] else [ws[0]]) + Unflushed(ws[1..], addr, len)
  }

  function Exec(s: Machine, op: Op): Machine {
    match op
    case Store(w) => s.(pending := s.pending + [w])
    case Persist(addr, len) =>
      Machine(Apply(s.durable, Flushed(s.pending, addr, len)), Unflushed(s.pending, addr, len))
  }

  function Run(s: Machine, ops: seq<Op>): Machine
    decreases |ops|
  {
    if ops == [] then s else Run(Exec(s, ops[0]), ops[1..])
  }

  /** What the processor reads. */
  function View(s: Machine): Mem {
    Apply(s.durable, s.pending)
  }

  /** `img` may be found on the medium after a crash: every cell is durable or a pending store. */
  ghost predicate Torn(m: Mem, ws: seq<Write>, img: Mem) {
    forall a :: Read(img, a) == Read(m, a) || Write(a, Read(img, a)) in ws
  }

  ghost predicate CrashImage(s: Machine, img: Mem) {
    Torn(s.durable, s.pending, img)
  }

  // ---------------------------------------------------------------------------------------
  // Blocks: some stores, then one persist

  datatype Block = Block(writes: seq<Write>, addr: int, len: int)

  function Stores(ws: seq<Write>): (ops: seq<Op>)
    ensures |ops| == |ws|
    ensures forall i | 0 <= i < |ws| :: ops[i] == Store(ws[i])
  {
    if ws == [] then [] else [Store(ws[0])] + Stores(ws[1..])
  }

  function BlockOps(b: Block): seq<Op> {
    Stores(b.writes) + [Persist(b.addr, b.len)]
  }

  function Ops(bs: seq<Block>): seq<Op> {
    if bs == [] then [] else BlockOps(bs[0]) + Ops(bs[1..])
  }

  function ExecBlock(s: Machine, b: Block): Machine {
    Exec(s.(pending := s.pending + b.writes), Persist(b.addr, b.len))
  }

  /** The crash images of a program of blocks: those just before each persist, and at the end. */
  ghost predicate CrashDuring(s: Machine, bs: seq<Block>, img: Mem)
    decreases |bs|
  {
    if bs == [] then CrashImage(s, img)
    else
      || CrashImage(s.(pending := s.pending + bs[0].writes), img)
      || CrashDuring(ExecBlock(s, bs[0]), bs[1..], img)
  }

  lemma {:induction false} RunAppend(s: Machine, a: seq<Op>, b: seq<Op>)
    ensures Run(s, a + b) == Run(Run(s, a), b)
    decreases |a|
  {
    if a == [] {
      assert a + b == b;
    } else {
      assert (a + b)[1..] == a[1..] + b;
      RunAppend(Exec(s, a[0]), a[1..], b);
    }
  }

  lemma {:induction false} RunStores(s: Machine, ws: seq<Write>)
    ensures Run(s, Stores(ws)) == s.(pending := s.pending + ws)
    decreases |ws|
  {
    if ws == [] {
      assert s.pending + ws == s.pending;
    } else {
      var t := Exec(s, Store(ws[0]));
      assert Stores(ws)[1..] == Stores(ws[1..]);
      RunStores(t, ws[1..]);
      assert t.pending + ws[1..] == s.pending + ws;
    }
  }

  lemma RunBlockOps(s: Machine, b: Block)
    ensures Run(s, BlockOps(b)) == ExecBlock(s, b)
  {
    RunAppend(s, Stores(b.writes), [Persist(b.addr, b.len)]);
    RunStores(s, b.writes);
    var t := s.(pending := s.pending + b.writes);
    assert Run(t, [Persist(b.addr, b.len)]) == Run(Exec(t, Persist(b.addr, b.len)), []);
  }

  /** A crash between two arbitrary instructions. */
  ghost predicate CrashAfter(s: Machine, ops: seq<Op>, k: nat, img: Mem)
    requires k <= |ops|
  {
    CrashImage(Run(s, ops[..k]), img)
  }

  /** img may be found after a crash between some two instructions of the program. */
  ghost predicate CrashFrom(s: Machine, bs: seq<Block>, img: Mem) {
    exists k: nat :: k <= |Ops(bs)| && CrashAfter(s, Ops(bs), k, img)
  }

  /**
   Crashing between any two instructions of a program of blocks yields exactly the images that
   CrashDuring describes, so every later crash argument can be made per block.
   */
  lemma {:induction false} CrashPointsAreBlockCrashes(s: Machine, bs: seq<Block>, img: Mem)
    ensures CrashDuring(s, bs, img) <==> CrashFrom(s, bs, img)
    decreases |bs|
  {
    if bs == [] {
      assert CrashAfter(s, Ops(bs), 0, img) <==> CrashImage(s, img);
    } else {
      var head, rest := BlockOps(bs[0]), Ops(bs[1..]);
      var t := ExecBlock(s, bs[0]);
      CrashPointsAreBlockCrashes(t, bs[1..], img);
      assert Ops(bs) == head + rest;
      RunBlockOps(s, bs[0]);
      var n := |bs[0].writes|;
      assert (head + rest)[..n] == Stores(bs[0].writes);
      RunStores(s, bs[0].writes);
      assert CrashAfter(s, Ops(bs), n, img) <==> CrashImage(s.(pending := s.pending + bs[0].writes), img);
      if CrashDuring(t, bs[1..], img) {
        var k: nat :| k <= |rest| && CrashAfter(t, rest, k, img);
        assert (head + rest)[..|head| + k] == head + rest[..k];
        RunAppend(s, head, rest[..k]);
        assert CrashAfter(s, Ops(bs), |head| + k, img);
      }
      forall k: nat | k <= |Ops(bs)| && CrashAfter(s, Ops(bs), k, img)
        ensures CrashDuring(s, bs, img)
      {
        CrashInsideBlock(s, bs, k, img);
      }
    }
  }

  lemma CrashInsideBlock(s: Machine, bs: seq<Block>, k: nat, img: Mem)
    requires bs != [] && k <= |Ops(bs)| && CrashAfter(s, Ops(bs), k, img)
    requires forall j: nat :: j <= |Ops(bs[1..])| && CrashAfter(ExecBlock(s, bs[0]), Ops(bs[1..]), j, img)
                          ==> CrashDuring(ExecBlock(s, bs[0]), bs[1..], img)
    ensures CrashDuring(s, bs, img)
  {
    var head, rest := BlockOps(bs[0]), Ops(bs[1..]);
    var ws := bs[0].writes;
    if k <= |ws| {
      assert (head + rest)[..k] == Stores(ws[..k]);
      RunStores(s, ws[..k]);
      assert s.pending + ws == s.pending + ws[..k] + ws[k..];
    } else {
      assert (head + rest)[..k] == head + rest[..k - |head|];
      RunAppend(s, head, rest[..k - |head|]);
      RunBlockOps(s, bs[0]);
      assert CrashAfter(ExecBlock(s, bs[0]), rest, k - |head|, img);
    }
  }

  // ---------------------------------------------------------------------------------------
  // Blocks that flush all they write, run from a state with nothing pending

  ghost predicate SelfFlushing(b: Block) {
    forall w | w in b.writes :: Flushes(b.addr, b.len, w.addr)
  }

  function ApplyBlocks(m: Mem, bs: seq<Block>): Mem
    decreases |bs|
  {
    if bs == [] then m else ApplyBlocks(Apply(m, bs[0].writes), bs[1..])
  }

  ghost predicate TornRun(m: Mem, bs: seq<Block>, img: Mem)
    decreases |bs|
  {
    if bs == [] then Torn(m, [], img)
    else Torn(m, bs[0].writes, img) || TornRun(Apply(m, bs[0].writes), bs[1..], img)
  }

  lemma {:induction false} FlushAll(ws: seq<Write>, addr: int, len: int)
    requires forall w | w in ws :: Flushes(addr, len, w.addr)
    ensures Flushed(ws, addr, len) == ws && Unflushed(ws, addr, len) == []
  {
    if ws != [] {
      FlushAll(ws[1..], addr, len);
      assert ws == [ws[0]] + ws[1..];
    }
  }

  lemma {:induction false} FlushNone(ws: seq<Write>, addr: int, len: int)
    requires forall w | w in ws :: !Flushes(addr, len, w.addr)
    ensures Flushed(ws, addr, len) == [] && Unflushed(ws, addr, len) == ws
  {
    if ws != [] {
      FlushNone(ws[1..], addr, len);
      assert ws == [ws[0]] + ws[1..];
    }
  }

  lemma {:induction false} FlushAppend(a: seq<Write>, b: seq<Write>, addr: int, len: int)
    ensures Flushed(a + b, addr, len) == Flushed(a, addr, len) + Flushed(b, addr, len)
    ensures Unflushed(a + b, addr, len) == Unflushed(a, addr, len) + Unflushed(b, addr, len)
  {
    if a == [] {
      assert a + b == b;
    } else {
      assert (a + b)[1..] == a[1..] + b;
      FlushAppend(a[1..], b, addr, len);
      assert (a + b)[0] == a[0];
    }
  }

  /**
   Blocks that flush their own stores: a crash sees at most one block torn, and stores left
   pending by somebody else (`loose`) on lines these blocks do not flush stay pending.
   */
  lemma {:induction false} CrashWithLooseStores(m: Mem, loose: seq<Write>, bs: seq<Block>, img: Mem)
    requires forall b | b in bs :: SelfFlushing(b)
    requires forall b, w | b in bs && w in loose :: !Flushes(b.addr, b.len, w.addr)
    ensures Run(Machine(m, loose), Ops(bs)) == Machine(ApplyBlocks(m, bs), loose)
    ensures CrashDuring(Machine(m, loose), bs, img)
        ==> exists base :: TornRun(m, bs, base) && Torn(base, loose, img)
    decreases |bs|
  {
    var s := Machine(m, loose);
    if bs == [] {
      if CrashDuring(s, bs, img) {
        assert TornRun(m, bs, m) && Torn(m, loose, img);
      }
    } else {
      var b := bs[0];
      assert b in bs && SelfFlushing(b);
      FlushAppend(loose, b.writes, b.addr, b.len);
      FlushAll(b.writes, b.addr, b.len);
      FlushNone(loose, b.addr, b.len);
      var t := Machine(Apply(m, b.writes), loose);
      assert ExecBlock(s, b) == t by {
        assert [] + b.writes == b.writes && loose + [] == loose;
      }
      RunBlockOps(s, b);
      RunAppend(s, BlockOps(b), Ops(bs[1..]));
      CrashWithLooseStores(Apply(m, b.writes), loose, bs[1..], img);
      if CrashDuring(s, bs, img) {
        if CrashDuring(t, bs[1..], img) {
          var base :| TornRun(Apply(m, b.writes), bs[1..], base) && Torn(base, loose, img);
          assert TornRun(m, bs, base);
        } else {
          assert Torn(m, loose + b.writes, img);
          var base := map a | a in m.Keys + img.Keys
            :: if Write(a, Read(img, a)) in b.writes then Read(img, a) else Read(m, a);
          assert Torn(m, b.writes, base);
          assert Torn(base, loose, img);
          assert TornRun(m, bs, base);
        }
      }
    }
  }

  lemma {:induction false} CrashIsTornRun(m: Mem, bs: seq<Block>, img: Mem)
    requires forall b | b in bs :: SelfFlushing(b)
    ensures Run(Machine(m, []), Ops(bs)) == Machine(ApplyBlocks(m, bs), [])
    ensures CrashDuring(Machine(m, []), bs, img) <==> TornRun(m, bs, img)
    decreases |bs|
  {
    CrashWithLooseStores(m, [], bs, img);
    if CrashDuring(Machine(m, []), bs, img) {
      var base :| TornRun(m, bs, base) && Torn(base, [], img);
      TornRunSame(m, bs, base, img);
    }
    if bs != [] {
      var b := bs[0];
      assert b in bs && SelfFlushing(b);
      assert [] + b.writes == b.writes;
      FlushAll(b.writes, b.addr, b.len);
      assert ExecBlock(Machine(m, []), b) == Machine(Apply(m, b.writes), []);
      CrashIsTornRun(Apply(m, b.writes), bs[1..], img);
    }
  }

  /** Crashing when nothing was pending before. */
  ghost predicate CrashPoint(m: Mem, bs: seq<Block>, img: Mem) {
    CrashFrom(Machine(m, []), bs, img)
  }

  /** For programs whose blocks flush what they store, crash points are torn blocks. */
  lemma CrashPointsAreTornRuns(m: Mem, bs: seq<Block>, img: Mem)
    requires forall b | b in bs :: SelfFlushing(b)
    ensures CrashPoint(m, bs, img) <==> TornRun(m, bs, img)
  {
    CrashPointsAreBlockCrashes(Machine(m, []), bs, img);
    CrashIsTornRun(m, bs, img);
  }

  lemma {:induction false} TornRunSame(m: Mem, bs: seq<Block>, x: Mem, y: Mem)
    requires TornRun(m, bs, x) && Torn(x, [], y)
    ensures TornRun(m, bs, y)
    decreases |bs|
  {
    forall a ensures Read(x, a) == Read(y, a) {}
    if bs != [] && !Torn(m, bs[0].writes, x) {
      TornRunSame(Apply(m, bs[0].writes), bs[1..], x, y);
    }
  }

  lemma {:induction false} ApplyBlocksAppend(m: Mem, a: seq<Block>, b: seq<Block>)
    ensures ApplyBlocks(m, a + b) == ApplyBlocks(ApplyBlocks(m, a), b)
    decreases |a|
  {
    if a == [] {
      assert a + b == b;
    } else {
      assert (a + b)[1..] == a[1..] + b;
      ApplyBlocksAppend(Apply(m, a[0].writes), a[1..], b);
    }
  }

  lemma {:induction false} TornRunAppend(m: Mem, a: seq<Block>, b: seq<Block>, img: Mem)
    requires TornRun(m, a + b, img)
    ensures TornRun(m, a, img) || TornRun(ApplyBlocks(m, a), b, img)
    decreases |a|
  {
    if a == [] {
      assert a + b == b;
    } else {
      assert (a + b)[1..] == a[1..] + b;
      if !Torn(m, a[0].writes, img) {
        TornRunAppend(Apply(m, a[0].writes), a[1..], b, img);
      }
    }
  }

  lemma {:induction false} OpsAppend(a: seq<Block>, b: seq<Block>)
    ensures Ops(a + b) == Ops(a) + Ops(b)
  {
    if a == [] {
      assert a + b == b;
    } else {
      assert (a + b)[1..] == a[1..] + b;
      OpsAppend(a[1..], b);
    }
  }
}
