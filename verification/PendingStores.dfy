/**
 Programs that flush what they store, run while somebody else's stores are pending: they may flush
 some of those on the way, in any order of lines.
 */
module PendingStores {
  import opened PersistentMemory

  /** The value of cell a after the stores, if it was v. */
  function Last(ws: seq<Write>, a: int, v: int): int
    decreases |ws|
  {
    if ws == [] then v else Last(ws[1..], a, if ws[0].addr == a then ws[0].val else v)
  }

  lemma {:induction false} ApplyReads(m: Mem, ws: seq<Write>, a: int)
    ensures Read(Apply(m, ws), a) == Last(ws, a, Read(m, a))
    decreases |ws|
  {
    if ws != [] {
      ApplyReads(m[ws[0].addr := ws[0].val], ws[1..], a);
    }
  }

  lemma {:induction false} LastAppend(x: seq<Write>, y: seq<Write>, a: int, v: int)
    ensures Last(x + y, a, v) == Last(y, a, Last(x, a, v))
    decreases |x|
  {
    if x == [] {
      assert x + y == y;
    } else {
      assert (x + y)[1..] == x[1..] + y;
      LastAppend(x[1..], y, a, if x[0].addr == a then x[0].val else v);
    }
  }

  /** A persist takes all stores to a cell or none. */
  lemma {:induction false} LastFlushed(ws: seq<Write>, addr: int, len: int, a: int, v: int)
    ensures Last(Flushed(ws, addr, len), a, v) == if Flushes(addr, len, a) then Last(ws, a, v) else v
    ensures Last(Unflushed(ws, addr, len), a, v) == if Flushes(addr, len, a) then v else Last(ws, a, v)
    decreases |ws|
  {
    if ws != [] {
      var w := ws[0];
      var u := if w.addr == a then w.val else v;
      LastFlushed(ws[1..], addr, len, a, u);
      LastFlushed(ws[1..], addr, len, a, v);
      LastAppend(if Flushes(addr, len, w.addr) then [w] else [], Flushed(ws[1..], addr, len), a, v);
      LastAppend(if Flushes(addr, len, w.addr) then [] else [w], Unflushed(ws[1..], addr, len), a, v);
      assert Last([w], a, v) == Last([w][1..], a, u) == u;
    }
  }

  lemma {:induction false} LastElsewhere(ws: seq<Write>, a: int, v: int)
    requires forall w | w in ws :: w.addr != a
    ensures Last(ws, a, v) == v
    decreases |ws|
  {
    if ws != [] {
      assert ws[0] in ws;
      LastElsewhere(ws[1..], a, v);
    }
  }

  lemma ApplyElsewhere(m: Mem, ws: seq<Write>, a: int)
    requires forall w | w in ws :: w.addr != a
    ensures Read(Apply(m, ws), a) == Read(m, a)
  {
    ApplyReads(m, ws, a);
    LastElsewhere(ws, a, Read(m, a));
  }

  lemma {:induction false} UnflushedIn(ws: seq<Write>, addr: int, len: int, w: Write)
    requires w in Unflushed(ws, addr, len)
    ensures w in ws && !Flushes(addr, len, w.addr)
    decreases |ws|
  {
    if ws != [] && !(w == ws[0] && !Flushes(addr, len, w.addr)) {
      UnflushedIn(ws[1..], addr, len, w);
    }
  }

  /** The two memories read the same. */
  ghost predicate Same(m: Mem, n: Mem) {
    forall a :: Read(m, a) == Read(n, a)
  }

  lemma SameApplied(m: Mem, n: Mem, ws: seq<Write>)
    requires Same(m, n)
    ensures Same(Apply(m, ws), Apply(n, ws))
  {
    forall a ensures Read(Apply(m, ws), a) == Read(Apply(n, ws), a) {
      ApplyReads(m, ws, a);
      ApplyReads(n, ws, a);
    }
  }

  lemma {:induction false} SameBlocks(m: Mem, n: Mem, bs: seq<Block>)
    requires Same(m, n)
    ensures Same(ApplyBlocks(m, bs), ApplyBlocks(n, bs))
    decreases |bs|
  {
    if bs != [] {
      SameApplied(m, n, bs[0].writes);
      SameBlocks(Apply(m, bs[0].writes), Apply(n, bs[0].writes), bs[1..]);
    }
  }

  /** A persist changes nothing that the processor reads. */
  lemma PersistKeepsView(s: Machine, addr: int, len: int)
    ensures Same(View(Exec(s, Persist(addr, len))), View(s))
    ensures forall w | w in Exec(s, Persist(addr, len)).pending :: w in s.pending && !Flushes(addr, len, w.addr)
  {
    var t := Exec(s, Persist(addr, len));
    forall a ensures Read(View(t), a) == Read(View(s), a) {
      ApplyReads(s.durable, s.pending, a);
      ApplyReads(s.durable, Flushed(s.pending, addr, len), a);
      ApplyReads(t.durable, t.pending, a);
      LastFlushed(s.pending, addr, len, a, Read(s.durable, a));
      LastFlushed(s.pending, addr, len, a, Read(t.durable, a));
    }
    forall w | w in t.pending ensures w in s.pending && !Flushes(addr, len, w.addr) {
      UnflushedIn(s.pending, addr, len, w);
    }
  }

  lemma StoresView(s: Machine, ws: seq<Write>)
    ensures Same(View(s.(pending := s.pending + ws)), Apply(View(s), ws))
  {
    forall a ensures Read(Apply(s.durable, s.pending + ws), a) == Read(Apply(View(s), ws), a) {
      ApplyReads(s.durable, s.pending + ws, a);
      ApplyReads(s.durable, s.pending, a);
      ApplyReads(View(s), ws, a);
      LastAppend(s.pending, ws, a, Read(s.durable, a));
    }
  }

  /** Whatever is pending, a program does to what the processor reads what it says, and leaves
      pending only stores of others, on lines it has not flushed. */
  lemma {:induction false} ProgramRuns(s: Machine, bs: seq<Block>)
    requires forall b | b in bs :: SelfFlushing(b)
    ensures Same(View(Run(s, Ops(bs))), ApplyBlocks(View(s), bs))
    ensures forall w | w in Run(s, Ops(bs)).pending ::
              w in s.pending && forall b | b in bs :: !Flushes(b.addr, b.len, w.addr)
    decreases |bs|
  {
    if bs != [] {
      var b := bs[0];
      var u := s.(pending := s.pending + b.writes);
      var t := ExecBlock(s, b);
      assert b in bs && SelfFlushing(b);
      RunBlockOps(s, b);
      RunAppend(s, BlockOps(b), Ops(bs[1..]));
      StoresView(s, b.writes);
      PersistKeepsView(u, b.addr, b.len);
      ProgramRuns(t, bs[1..]);
      SameBlocks(View(t), Apply(View(s), b.writes), bs[1..]);
      forall w | w in Run(s, Ops(bs)).pending
        ensures w in s.pending && forall c | c in bs :: !Flushes(c.addr, c.len, w.addr)
      {
        assert w in t.pending && w in u.pending && !Flushes(b.addr, b.len, w.addr);
        forall c | c in bs ensures !Flushes(c.addr, c.len, w.addr) {
          assert c == b || c in bs[1..];
        }
      }
    }
  }

  lemma {:induction false} TornRunFromSame(m: Mem, n: Mem, bs: seq<Block>, img: Mem)
    requires Same(m, n) && TornRun(m, bs, img)
    ensures TornRun(n, bs, img)
    decreases |bs|
  {
    if bs != [] && !Torn(m, bs[0].writes, img) {
      SameApplied(m, n, bs[0].writes);
      TornRunFromSame(Apply(m, bs[0].writes), Apply(n, bs[0].writes), bs[1..], img);
    }
  }

  /** m and n read the same except where a pending store goes. */
  ghost predicate SameBut(m: Mem, n: Mem, loose: seq<Write>) {
    forall a | (forall w | w in loose :: w.addr != a) :: Read(m, a) == Read(n, a)
  }

  /**
   A crash of a program that runs with stores of others pending is a crash of the program run
   alone, from a memory that differs only where those stores go.
   */
  lemma {:induction false} LooseCrash(d: Mem, loose: seq<Write>, bs: seq<Block>, img: Mem) returns (m: Mem)
    requires forall b | b in bs :: SelfFlushing(b)
    requires CrashDuring(Machine(d, loose), bs, img)
    ensures SameBut(m, d, loose) && TornRun(m, bs, img)
    decreases |bs|
  {
    var s := Machine(d, loose);
    if bs == [] {
      m := img;
      forall a | (forall w | w in loose :: w.addr != a) ensures Read(m, a) == Read(d, a) {
        assert Write(a, Read(img, a)) !in loose;
      }
    } else {
      var b := bs[0];
      assert b in bs && SelfFlushing(b);
      if CrashImage(s.(pending := loose + b.writes), img) {
        m := Undecided(d, loose, b.writes, img);
      } else {
        var t := ExecBlock(s, b);
        var n := LooseCrash(t.durable, t.pending, bs[1..], img);
        m := BeforeBlock(d, loose, b, n);
        TornRunFromSame(n, Apply(m, b.writes), bs[1..], img);
      }
    }
  }

  /** Where the image shows a pending store, it was there all along. */
  lemma Undecided(d: Mem, loose: seq<Write>, ws: seq<Write>, img: Mem) returns (m: Mem)
    requires Torn(d, loose + ws, img)
    ensures SameBut(m, d, loose) && Torn(m, ws, img)
  {
    m := map a | a in d.Keys + img.Keys :: if Write(a, Read(img, a)) in loose then Read(img, a) else Read(d, a);
    forall a ensures Read(m, a) == if Write(a, Read(img, a)) in loose then Read(img, a) else Read(d, a) {
      assert a !in d.Keys + img.Keys ==> Read(d, a) == 0 && Read(img, a) == 0;
    }
  }

  /** A memory from which the block alone leads to n, where n is what the block left of d but for
      the stores still pending. */
  lemma BeforeBlock(d: Mem, loose: seq<Write>, b: Block, n: Mem) returns (m: Mem)
    requires SelfFlushing(b)
    requires
      var t := ExecBlock(Machine(d, loose), b);
      SameBut(n, t.durable, t.pending)
    ensures SameBut(m, d, loose) && Same(Apply(m, b.writes), n)
  {
    var ws := b.writes;
    var t := ExecBlock(Machine(d, loose), b);
    m := map a | a in d.Keys + n.Keys :: if exists w :: w in ws && w.addr == a then Read(d, a) else Read(n, a);
    forall a ensures Read(Apply(m, ws), a) == Read(n, a) {
      ApplyReads(m, ws, a);
      BlockReads(d, loose, b, a);
      if !(exists w :: w in ws && w.addr == a) {
        LastElsewhere(ws, a, Read(m, a));
      }
    }
    forall a | (forall w | w in loose :: w.addr != a) ensures Read(m, a) == Read(d, a) {
      BlockReads(d, loose, b, a);
    }
  }

  /** A cell the block writes is settled by it; one that no pending store touches is as before. */
  lemma BlockReads(d: Mem, loose: seq<Write>, b: Block, a: int)
    requires SelfFlushing(b)
    ensures
      var t := ExecBlock(Machine(d, loose), b);
      && ((exists w :: w in b.writes && w.addr == a) ==>
            (forall w | w in t.pending :: w.addr != a) && forall v :: Read(t.durable, a) == Last(b.writes, a, v))
      && ((forall w | w in loose + b.writes :: w.addr != a) ==>
            (forall w | w in t.pending :: w.addr != a) && Read(t.durable, a) == Read(d, a))
  {
    var ws := b.writes;
    var t := ExecBlock(Machine(d, loose), b);
    ApplyReads(d, Flushed(loose + ws, b.addr, b.len), a);
    LastFlushed(loose + ws, b.addr, b.len, a, Read(d, a));
    LastAppend(loose, ws, a, Read(d, a));
    forall w | w in t.pending ensures w in loose + ws && !Flushes(b.addr, b.len, w.addr) {
      UnflushedIn(loose + ws, b.addr, b.len, w);
    }
    if exists w :: w in ws && w.addr == a {
      var w :| w in ws && w.addr == a;
      forall v ensures Read(t.durable, a) == Last(ws, a, v) {
        LastWritten(ws, a, v, Last(loose, a, Read(d, a)));
      }
    }
    if forall w | w in loose + ws :: w.addr != a {
      LastElsewhere(loose + ws, a, Read(d, a));
    }
  }

  lemma {:induction false} LastWritten(ws: seq<Write>, a: int, v: int, u: int)
    requires exists w :: w in ws && w.addr == a
    ensures Last(ws, a, v) == Last(ws, a, u)
    decreases |ws|
  {
    if ws[0].addr != a {
      var w :| w in ws && w.addr == a;
      assert w in ws[1..];
      LastWritten(ws[1..], a, v, u);
    }
  }
}
