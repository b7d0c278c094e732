/**
 tree.c over the allocator: each method issues exactly the program that the crash theorems are
 about, and says what it leaves in memory.
 */
module TreeCode {
  import opened Options
  import opened PersistentMemory
  import opened Clumps
  import opened PoolLogic
  import opened AllocatorPrograms
  import opened CrashSafety
  import opened RecoveryWalk
  import opened Recovery
  import opened Reservation
  import opened Allocator
  import opened SearchTree
  import opened PersistentTree
  import opened TreeInsert
  import opened TreeFree
  import opened TreeCrashes
  import opened TreeRuns

  /** The C string u lies at address q. */
  ghost predicate StringAt(m: Mem, q: int, u: CString) {
    (forall i | 0 <= i < |u| :: Read(m, q + i) == u[i]) && Read(m, q + |u|) == 0
  }

  /** strcmp of an argument with a string in the pool. */
  method StrCmp(pool: PmemPool, s: CString, q: int, ghost u: CString) returns (diff: int)
    requires StringAt(pool.mem, q, u)
    ensures (diff < 0 <==> Compare(s, u) < 0) && (diff == 0 <==> Compare(s, u) == 0)
    ensures (diff < 0 <==> Precedes(s, u)) && (diff == 0 <==> s == u) && (diff > 0 <==> Precedes(u, s))
  {
    var i := 0;
    while i < |s| && Read(pool.mem, q + i) == s[i]
      invariant 0 <= i <= |s| && i <= |u|
      invariant Compare(s, u) == Compare(s[i..], u[i..])
    {
      assert i < |u|;
      assert s[i..][1..] == s[i + 1..] && u[i..][1..] == u[i + 1..];
      i := i + 1;
    }
    diff := (if i < |s| then s[i] else 0) - Read(pool.mem, q + i);
    if i < |u| { assert Read(pool.mem, q + i) == u[i]; }
    CompareOrders(s, u);
    CompareOrders(u, s);
    CompareZero(s, u);
    CompareFlip(u, s);
  }

  method ReadString(pool: PmemPool, q: int, ghost u: CString) returns (s: CString)
    requires StringAt(pool.mem, q, u)
    ensures s == u
  {
    var r: seq<int> := [];
    while Read(pool.mem, q + |r|) != 0
      invariant |r| <= |u| && r == u[..|r|]
      invariant Read(pool.mem, q + |r|) == if |r| < |u| then u[|r|] else 0
      decreases |u| - |r|
    {
      r := r + [Read(pool.mem, q + |r|)];
    }
    s := r;
  }

  /** strcpy into the pool. */
  method StrCpy(pool: PmemPool, q: int, s: CString)
    modifies pool
    ensures pool.mem == Apply(old(pool.mem), CopyString(q, s))
    ensures pool.trace == old(pool.trace) + Stores(CopyString(q, s))
  {
    var i := 0;
    ghost var done: seq<Write> := [];
    while i < |s|
      invariant 0 <= i <= |s|
      invariant pool.mem == Apply(old(pool.mem), done) && pool.trace == old(pool.trace) + Stores(done)
      invariant done + CopyString(q + i, s[i..]) == CopyString(q, s)
    {
      done := Put(pool, q + i, s[i], old(pool.mem), old(pool.trace), done);
      assert s[i..][1..] == s[i + 1..];
      assert done + CopyString(q + i + 1, s[i + 1..]) == CopyString(q, s);
      i := i + 1;
    }
    done := Put(pool, q + i, 0, old(pool.mem), old(pool.trace), done);
  }

  /** One more plain store after those in `done`. */
  method Put(pool: PmemPool, a: int, v: int, ghost m: Mem, ghost t: seq<Op>, ghost done: seq<Write>) returns (ghost more: seq<Write>)
    requires pool.mem == Apply(m, done) && pool.trace == t + Stores(done)
    modifies pool
    ensures more == done + [Write(a, v)]
    ensures pool.mem == Apply(m, more) && pool.trace == t + Stores(more)
  {
    more := done + [Write(a, v)];
    ApplyAppend(m, done, [Write(a, v)]);
    ApplyOne(pool.mem, Write(a, v));
    assert Stores(more) == Stores(done) + [Store(Write(a, v))];
    pool.Assign(a, v);
  }

  // ---------------------------------------------------------------------------------------
  // Insertion

  /** The stores that fill in a reserved node. */
  method FillIn(pool: PmemPool, tnp: int, s: CString)
    modifies pool
    ensures pool.mem == Apply(old(pool.mem), FillNode(tnp, s))
    ensures pool.trace == old(pool.trace) + Stores(FillNode(tnp, s))
  {
    ghost var m, t := pool.mem, pool.trace;
    ghost var head := FillHead(pool, tnp);
    StrCpy(pool, tnp + STR, s);
    FillParts(m, t, head, CopyString(tnp + STR, s));
  }

  lemma FillParts(m: Mem, t: seq<Op>, a: seq<Write>, b: seq<Write>)
    ensures Apply(m, a + b) == Apply(Apply(m, a), b)
    ensures t + Stores(a + b) == t + Stores(a) + Stores(b)
  {
    ApplyAppend(m, a, b);
    StoresConcat(a, b);
    assert t + Stores(a) + Stores(b) == t + (Stores(a) + Stores(b));
  }

  method FillHead(pool: PmemPool, tnp: int) returns (ghost done: seq<Write>)
    modifies pool
    ensures done == [Write(tnp + RIGHT, 0), Write(tnp + LEFT, 0), Write(tnp + COUNT, 1)]
    ensures pool.mem == Apply(old(pool.mem), done) && pool.trace == old(pool.trace) + Stores(done)
  {
    ghost var m, t := pool.mem, pool.trace;
    done := Put(pool, tnp + RIGHT, 0, m, t, []);
    done := Put(pool, tnp + LEFT, 0, m, t, done);
    done := Put(pool, tnp + COUNT, 1, m, t, done);
  }

  lemma StoresConcat(a: seq<Write>, b: seq<Write>)
    ensures Stores(a + b) == Stores(a) + Stores(b)
  {
  }

  /** The filled reservation is ready for pmemalloc_onactive. */
  lemma FilledReservation(i: Insertion, end: int, t: Tree)
    requires Inserting(i, end, t)
    ensures
      var n := Apply(i.Reserved_(), i.Fill());
      Idle(n, end) && i.c in AllHeads(n, end) && State(n, i.c) == RESERVED && FreeSlot(n, i.c) == 0
  {
    ReservedFacts(i, end, t);
    var m1 := i.Reserved_();
    var n := Apply(m1, i.Fill());
    ApplyIsTorn(m1, i.Fill());
    ScratchHolds(m1, n, end, i.c, i.Fill(), t);
    SameHeadersRest(m1, n, end);
    SameHeaderFacts(m1, n, i.c);
  }

  lemma ProgramTrace(i: Insertion, t: seq<Op>)
    ensures t + Ops(i.Reserve()) + Stores(i.Fill()) + Ops(i.OnActive()) + Ops(i.Activate()) == t + i.Program()
  {
  }

  /** From the reservation on. */
  method LinkNode(pool: PmemPool, tnp: int, rootp: int, s: CString, ghost i: Insertion, ghost t: Tree)
    requires Inserting(i, pool.end, t) && tnp == i.P() && rootp == i.link && s == i.s
    requires pool.mem == i.Reserved_()
    modifies pool
    ensures pool.mem == ApplyBlocks(i.Ready(), i.Activate())
    ensures pool.trace == old(pool.trace) + Stores(i.Fill()) + Ops(i.OnActive()) + Ops(i.Activate())
  {
    FillIn(pool, tnp, s);
    FilledReservation(i, pool.end, t);
    var recorded := pool.OnActive(tnp, rootp, tnp);
    assert pool.mem == i.Ready();
    ReadyIsFilled(i);
    CommitHolds(i, pool.end, t);
    pool.Activate(tnp);
  }

  /** Reserve, fill in, record the link, activate. */
  method CreateNode(pool: PmemPool, rootp: int, s: CString, ghost t: Tree) returns (ok: bool)
    requires Holds(pool.mem, pool.end, t) && Idle(pool.mem, pool.end) && Coalesced(pool.mem, pool.end) && FIRST < pool.end
    requires Search(t, ROOT, s) == Absent(rootp)
    modifies pool
    ensures !ok <==> FirstFit(old(pool.mem), FIRST, pool.end, ClumpSize(NODE + |s| + 1)) == None
    ensures !ok ==> pool.mem == old(pool.mem) && pool.trace == old(pool.trace)
    ensures ok ==>
      var i := Insertion(old(pool.mem), FirstFit(old(pool.mem), FIRST, pool.end, ClumpSize(NODE + |s| + 1)).value, rootp, s);
      && pool.trace == old(pool.trace) + i.Program()
      && Run(Machine(old(pool.mem), []), i.Program()) == Machine(pool.mem, [])
  {
    ghost var m, t0 := pool.mem, pool.trace;
    var tnp := pool.Reserve(NODE + |s| + 1);
    if tnp == 0 {
      if FirstFit(m, FIRST, pool.end, ClumpSize(NODE + |s| + 1)).Some? {
        HeadFacts(pool.mem, pool.end, FirstFit(m, FIRST, pool.end, ClumpSize(NODE + |s| + 1)).value);
      }
      return false;
    }
    ghost var i := Insertion(m, tnp - CHUNK, rootp, s);
    LinkNode(pool, tnp, rootp, s, i, t);
    ProgramTrace(i, t0);
    InsertCompletes(i, pool.end, t);
    return true;
  }

  lemma BumpIssued(m: Mem, p: int)
    ensures Run(Machine(m, []), Ops([Bump(m, p)])) == Machine(Apply(m, Bump(m, p).writes), [])
  {
    BumpFlushes(m, p);
    CrashIsTornRun(m, [Bump(m, p)], m);
    OpsOne(Bump(m, p));
  }

  method BumpCount(pool: PmemPool, p: int)
    modifies pool
    ensures pool.trace == old(pool.trace) + Ops([Bump(old(pool.mem), p)])
    ensures Run(Machine(old(pool.mem), []), Ops([Bump(old(pool.mem), p)])) == Machine(pool.mem, [])
  {
    ghost var b := Bump(pool.mem, p);
    var count := (Read(pool.mem, p + COUNT) + 1) % COUNT_LIMIT;
    pool.Assign(p + COUNT, count);
    pool.Flush(p + COUNT, 4);
    BumpIssued(old(pool.mem), p);
    OpsOne(b);
    ApplyOne(old(pool.mem), b.writes[0]);
    assert Stores(b.writes) == [Store(b.writes[0])];
  }

  /** A node that a link in an idle pool leads to. */
  lemma NodeAtLink(m: Mem, end: int, a: int, t: Tree)
    requires Idle(m, end) && Rep(m, end, a, t)
    ensures t == Leaf <==> Read(m, a) == 0
    ensures t.Node? ==> Read(m, a) == t.p && StringAt(m, t.p + STR, t.s) && Read(m, t.p + COUNT) == t.count
    ensures t.Node? ==> Rep(m, end, t.p + LEFT, t.left) && Rep(m, end, t.p + RIGHT, t.right)
  {
    IdleIsGood(m, end);
  }

  /** The program for the subtree that the comparison leads to. */
  lemma SameProgram(m: Mem, end: int, a: int, t: Tree, s: CString)
    requires t.Node?
    ensures Compare(s, t.s) == 0 ==> InsertProgram(m, end, a, t, s) == Program(Ops([Bump(m, t.p)]), true)
    ensures Compare(s, t.s) < 0 ==>
      Search(t.left, t.p + LEFT, s) == Search(t, a, s) && InsertProgram(m, end, t.p + LEFT, t.left, s) == InsertProgram(m, end, a, t, s)
    ensures Compare(s, t.s) > 0 ==>
      Search(t.right, t.p + RIGHT, s) == Search(t, a, s) && InsertProgram(m, end, t.p + RIGHT, t.right, s) == InsertProgram(m, end, a, t, s)
  {
  }

  /** tree_insert_subtree: false where the original finds no room and stops. */
  method InsertSubtree(pool: PmemPool, rootp: int, s: CString, ghost t: Tree, ghost whole: Tree) returns (ok: bool)
    requires Holds(pool.mem, pool.end, whole) && Idle(pool.mem, pool.end) && Coalesced(pool.mem, pool.end) && FIRST < pool.end
    requires Rep(pool.mem, pool.end, rootp, t) && Search(t, rootp, s) == Search(whole, ROOT, s)
    modifies pool
    ensures
      var p := InsertProgram(old(pool.mem), pool.end, rootp, t, s);
      && ok == p.done && pool.trace == old(pool.trace) + p.ops
      && (ok ==> Run(Machine(old(pool.mem), []), p.ops) == Machine(pool.mem, []))
      && (!ok ==> pool.mem == old(pool.mem))
    decreases t
  {
    NodeAtLink(pool.mem, pool.end, rootp, t);
    var root := Read(pool.mem, rootp);
    if root == 0 {
      ok := CreateNode(pool, rootp, s, whole);
      return;
    }
    var diff := StrCmp(pool, s, root + STR, t.s);
    SameProgram(pool.mem, pool.end, rootp, t, s);
    if diff == 0 {
      BumpCount(pool, root);
      ok := true;
    } else if diff < 0 {
      ok := InsertSubtree(pool, root + LEFT, s, t.left, whole);
    } else {
      ok := InsertSubtree(pool, root + RIGHT, s, t.right, whole);
    }
  }

  /** tree_insert: on success the map of counts has changed at s alone. It fails exactly when s is
      new and no free stretch holds a node for it. */
  method InsertIn(pool: PmemPool, s: CString, ghost t: Tree) returns (ok: bool, ghost u: Tree)
    requires Holds(pool.mem, pool.end, t) && Rested(pool.mem, pool.end) && FIRST < pool.end
    modifies pool
    ensures
      var p := CallProgram(old(pool.mem), pool.end, t, InsertString(s));
      ok == p.done && pool.trace == old(pool.trace) + p.ops
    ensures ok ==> Holds(pool.mem, pool.end, u) && Rested(pool.mem, pool.end) && Counts(u) == Counts(t)[s := Bumped(Counts(t), s)]
    ensures !ok ==> pool.mem == old(pool.mem)
    ensures
      var size := NODE + |s| + 1;
      forall n | Rounded(size, n) :: ok <==> s in Counts(t) || exists a :: FreeStretch(old(pool.mem), pool.end, a, n)
  {
    SettledFacts(pool.mem, pool.end);
    ghost var m := pool.mem;
    SearchFinds(t, ROOT, s);
    var size := NODE + |s| + 1;
    forall n | Rounded(size, n) {
      ReserveFailsExactly(m, pool.end, size, n);
    }
    ok := InsertSubtree(pool, ROOT, s, t, t);
    u := t;
    if ok {
      u := InsertCompleted(m, pool.end, t, s, pool.mem);
    }
  }

  // ---------------------------------------------------------------------------------------
  // Walking and freeing

  /** tree_walk_subtree: the lines printed, in order. */
  method WalkSubtree(pool: PmemPool, root: int, a: int, ghost t: Tree) returns (lines: seq<(CString, int)>)
    requires Idle(pool.mem, pool.end) && Rep(pool.mem, pool.end, a, t) && root == Read(pool.mem, a)
    ensures lines == InOrder(t)
    decreases t
  {
    NodeAtLink(pool.mem, pool.end, a, t);
    lines := [];
    if root != 0 {
      var before := WalkSubtree(pool, Read(pool.mem, root + LEFT), root + LEFT, t.left);
      var s := ReadString(pool, root + STR, t.s);
      var after := WalkSubtree(pool, Read(pool.mem, root + RIGHT), root + RIGHT, t.right);
      lines := before + [(s, Read(pool.mem, root + COUNT))] + after;
    }
  }

  /** One side of a node can be freed, and leaves the node with the other. */
  lemma SubtreeFreed(m: Mem, end: int, a: int, t: Tree, F: set<int>, o: int, sub: Tree, a1: int, other: Tree, a2: int)
    requires Local(m, end, a, t, F, o) && Idle(m, end) && Sides(t, sub, a1, other, a2)
    ensures Local(m, end, a1, sub, F + {t.p} + Nodes(other), t.p)
    ensures
      var f := FreeTree(m, end, a1, sub);
      var n := ApplyBlocks(m, f.blocks);
      Idle(n, end) && (f.ok ==> Local(n, end, a, WithSide(t, a1, Leaf), F, o))
  {
    ChildLocal(m, end, a, t, F, o, sub, a1, other, a2);
    FreeTreeTurns(m, end, a1, sub, F + {t.p} + Nodes(other), t.p);
    TurnsUp(m, FreeTree(m, end, a1, sub), end, a, t, F, o, sub, a1, other, a2);
  }

  /** tree_free_subtree: false where the original finds no empty redo slot and stops. */
  method FreeSubtree(pool: PmemPool, rootp: int, ghost t: Tree, ghost F: set<int>, ghost o: int) returns (ok: bool)
    requires Local(pool.mem, pool.end, rootp, t, F, o) && Idle(pool.mem, pool.end)
    modifies pool
    ensures
      var f := FreeTree(old(pool.mem), pool.end, rootp, t);
      ok == f.ok && pool.Issued(old(pool.mem), old(pool.trace), f.blocks)
    decreases t, 0
  {
    ghost var m0, t0 := pool.mem, pool.trace;
    NodeAtLink(pool.mem, pool.end, rootp, t);
    var root := Read(pool.mem, rootp);
    if root == 0 {
      assert Ops([]) == [] && t0 + [] == t0;
      return true;
    }
    ghost var F1 := F + {root} + Nodes(t.right);
    ghost var l := FreeTree(m0, pool.end, root + LEFT, t.left);
    SubtreeFreed(m0, pool.end, rootp, t, F, o, t.left, root + LEFT, t.right, root + RIGHT);
    ok := FreeSubtree(pool, root + LEFT, t.left, F1, root);
    if ok {
      ghost var m1, t1 := pool.mem, pool.trace;
      ghost var rest := Node(t.p, t.s, t.count, Leaf, t.right);
      ok := FreeRight(pool, rootp, rest, F, o);
      pool.IssuedMore(m0, t0, l.blocks, m1, t1, RestOutcome(m1, pool.end, rootp, rest).blocks);
    }
  }

  /** What is issued after the left subtree is gone. */
  function RestOutcome(m: Mem, end: int, a: int, t: Tree): Outcome
    requires t.Node?
  {
    var r := FreeTree(m, end, t.p + RIGHT, t.right);
    Both(r, FreeNode(ApplyBlocks(m, r.blocks), end, t.p, a))
  }

  method FreeRight(pool: PmemPool, rootp: int, ghost t: Tree, ghost F: set<int>, ghost o: int) returns (ok: bool)
    requires Local(pool.mem, pool.end, rootp, t, F, o) && Idle(pool.mem, pool.end) && t.Node? && t.left == Leaf
    modifies pool
    ensures
      var f := RestOutcome(old(pool.mem), pool.end, rootp, t);
      ok == f.ok && pool.Issued(old(pool.mem), old(pool.trace), f.blocks)
    decreases t.right, 1
  {
    ghost var m0, t0 := pool.mem, pool.trace;
    NodeAtLink(pool.mem, pool.end, rootp, t);
    var root := Read(pool.mem, rootp);
    ghost var F1 := F + {root} + Nodes(t.left);
    ghost var r := FreeTree(m0, pool.end, root + RIGHT, t.right);
    SubtreeFreed(m0, pool.end, rootp, t, F, o, t.right, root + RIGHT, t.left, root + LEFT);
    ok := FreeSubtree(pool, root + RIGHT, t.right, F1, root);
    if ok {
      ghost var m1, t1 := pool.mem, pool.trace;
      ok := FreeLeaf(pool, rootp, Node(t.p, t.s, t.count, Leaf, Leaf), F, o);
      pool.IssuedMore(m0, t0, r.blocks, m1, t1, FreeNode(m1, pool.end, root, rootp).blocks);
    }
  }

  /** pmemalloc_onfree and pmemalloc_free of a node without children. */
  method FreeLeaf(pool: PmemPool, rootp: int, ghost t: Tree, ghost F: set<int>, ghost o: int) returns (ok: bool)
    requires Local(pool.mem, pool.end, rootp, t, F, o) && Idle(pool.mem, pool.end)
    requires t.Node? && t.left == Leaf && t.right == Leaf
    modifies pool
    ensures
      var f := FreeNode(old(pool.mem), pool.end, t.p, rootp);
      ok == f.ok && pool.Issued(old(pool.mem), old(pool.trace), f.blocks)
  {
    ghost var m0, t0 := pool.mem, pool.trace;
    NodeAtLink(m0, pool.end, rootp, t);
    ActiveNode(m0, pool.end, rootp, t, F, o);
    ok := pool.OnFree(Read(pool.mem, rootp), rootp, 0);
    if ok {
      RecordCuts(m0, pool.end, rootp, t, F, o);
      ghost var m1, t1 := pool.mem, pool.trace;
      NodeAtLink(m1, pool.end, rootp, t);
      ActiveNode(m1, pool.end, rootp, t, F, o);
      CommittedStage(m1, pool.end, rootp, t, F, o);
      pool.Free(Read(pool.mem, rootp));
      ghost var c := t.p - CHUNK;
      pool.IssuedMore(m0, t0, Record(c, FreeSlot(m0, c), rootp, 0), m1, t1, FreeClump(m1, c, pool.end));
    } else {
      assert Ops([]) == [] && t0 + [] == t0;
    }
  }

  /** tree_free */
  method FreeFrom(pool: PmemPool, ghost t: Tree) returns (ok: bool)
    requires Holds(pool.mem, pool.end, t) && Rested(pool.mem, pool.end)
    modifies pool
    ensures
      var p := CallProgram(old(pool.mem), pool.end, t, FreeAll);
      ok == p.done && pool.trace == old(pool.trace) + p.ops
    ensures ok <==> SlotsLeft(old(pool.mem), t)
    ensures ok ==> Holds(pool.mem, pool.end, Leaf) && Rested(pool.mem, pool.end) && NoLeak(pool.mem, pool.end, Leaf)
  {
    SettledFacts(pool.mem, pool.end);
    HoldsIsLocal(pool.mem, pool.end, t);
    FreeEmpties(pool.mem, pool.end, t);
    ok := FreeSubtree(pool, ROOT, t, {}, 0);
    if ok {
      HoldsWithoutLeak(pool.mem, pool.end, Leaf);
    }
  }
}
