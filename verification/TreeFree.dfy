/**
 tree_free, node by node. The recursion frees both subtrees and then the node, whose redo entry
 clears the link to it; the step that makes the clump dead also promises the cleared link. Freeing
 a subtree touches no node outside it but the one that holds its link, so at every crash point the
 pool means the tree with some subtrees cut off. A node can be freed only while it has an empty
 redo slot.
 */
module TreeFree {
  import opened PersistentMemory
  import opened Clumps
  import opened PoolLogic
  import opened AllocatorPrograms
  import opened CrashSafety
  import opened RecoveryWalk
  import opened Recovery
  import opened Reservation
  import opened Atomicity
  import opened SearchTree
  import opened PersistentTree

  // ---------------------------------------------------------------------------------------
  // The program

  /** What a routine issues, and whether it got to its end. */
  datatype Outcome = Outcome(blocks: seq<Block>, ok: bool)

  /** pmemalloc_onfree of the null pointer into cell a, then pmemalloc_free; without an empty
      redo slot the original stops. */
  function FreeNode(m: Mem, end: int, p: int, a: int): Outcome {
    var c := p - CHUNK;
    var i := FreeSlot(m, c);
    if i == NUM_ON then Outcome([], false)
    else
      var r := Record(c, i, a, 0);
      Outcome(r + FreeClump(ApplyBlocks(m, r), c, end), true)
  }

  /** The first routine, and if it got to its end the second. */
  function Both(f: Outcome, g: Outcome): Outcome {
    if f.ok then Outcome(f.blocks + g.blocks, g.ok) else f
  }

  /** tree_free_subtree on the subtree t linked from cell a. */
  function FreeTree(m: Mem, end: int, a: int, t: Tree): Outcome
    decreases t
  {
    match t
    case Leaf => Outcome([], true)
    case Node(p, _, _, left, right) =>
      var l := FreeTree(m, end, p + LEFT, left);
      var m1 := ApplyBlocks(m, l.blocks);
      var r := FreeTree(m1, end, p + RIGHT, right);
      Both(l, Both(r, FreeNode(ApplyBlocks(m1, r.blocks), end, p, a)))
  }

  // ---------------------------------------------------------------------------------------
  // A subtree and what surrounds it

  /** Cell a is a static word or lies in the node o, one of F. */
  ghost predicate LinkIn(m: Mem, a: int, F: set<int>, o: int) {
    STATIC <= a < STATIC_END || (o in F && PayloadCell(m, o - CHUNK, a))
  }

  /** The subtree t hangs from cell a, and the other live nodes are F. */
  ghost predicate Local(m: Mem, end: int, a: int, t: Tree, F: set<int>, o: int) {
    && Good(m, end) && Calm(m, end) && Rep(m, end, a, t) && Distinct(t) && Nodes(t) !! F && LinkIn(m, a, F, o)
    && forall h :: Live(m, end, h) <==> h + CHUNK in Nodes(t) || h + CHUNK in F
  }

  /** Outside the subtree only the link to it may change. */
  ghost predicate Around(m: Mem, n: Mem, end: int, a: int, F: set<int>)
    requires Pool(m, end) && Pool(n, end)
  {
    && (forall q | q in F :: SameLinked(m, n, end, q - CHUNK, a))
    && (forall x | STATIC <= x < STATIC_END && x != a :: Final(n, end, x) == Final(m, end, x))
  }

  ghost predicate Stage(m: Mem, n: Mem, end: int, a: int, u: Tree, F: set<int>, o: int)
    requires Pool(m, end)
  {
    Local(n, end, a, u, F, o) && Around(m, n, end, a, F)
  }

  /** n holds the subtree with something cut off. */
  ghost predicate Cut(m: Mem, n: Mem, end: int, a: int, t: Tree, F: set<int>, o: int)
    requires Pool(m, end)
  {
    exists u :: Pruned(u, t) && Stage(m, n, end, a, u, F, o)
  }

  ghost predicate Cuts(m: Mem, bs: seq<Block>, end: int, a: int, t: Tree, F: set<int>, o: int)
    requires Pool(m, end)
  {
    forall img | TornRun(m, bs, img) :: Cut(m, img, end, a, t, F, o)
  }

  lemma LinkIsLiveCell(m: Mem, end: int, a: int, t: Tree, F: set<int>, o: int)
    requires Local(m, end, a, t, F, o)
    ensures LiveCell(m, end, a) && a != 0 && !HeaderCell(m, end, a)
  {
    if !(STATIC <= a < STATIC_END) {
      assert Live(m, end, o - CHUNK);
      HeadFacts(m, end, o - CHUNK);
    }
    LiveCellsAreNotHeaders(m, end, a);
  }

  lemma StageSame(m: Mem, n: Mem, end: int, a: int, t: Tree, F: set<int>, o: int)
    requires Local(m, end, a, t, F, o) && Good(n, end) && SameLogic(m, n, end)
    ensures Stage(m, n, end, a, t, F, o)
  {
    forall p | p in Nodes(t) || p in F ensures SameNode(m, n, end, p - CHUNK) {
      assert Live(m, end, p - CHUNK);
      forall x | PayloadCell(m, p - CHUNK, x) ensures Final(n, end, x) == Final(m, end, x) {
        assert LiveCell(m, end, x) && !Contested(m, end, x);
      }
    }
    forall x ensures !Contested(n, end, x) {
      assert !Contested(m, end, x);
    }
    LinkIsLiveCell(m, end, a, t, F, o);
    assert !Contested(m, end, a);
    RepFrame(m, n, end, a, t);
    forall x | STATIC <= x < STATIC_END ensures Final(n, end, x) == Final(m, end, x) {
      assert LiveCell(m, end, x) && !Contested(m, end, x);
    }
  }

  lemma AroundTrans(m: Mem, n: Mem, p: Mem, end: int, a: int, F: set<int>)
    requires Pool(m, end) && Pool(n, end) && Pool(p, end) && Around(m, n, end, a, F) && Around(n, p, end, a, F)
    ensures Around(m, p, end, a, F)
  {
    forall q | q in F ensures SameLinked(m, p, end, q - CHUNK, a) {
      var h := q - CHUNK;
      assert SameLinked(m, n, end, h, a) && SameLinked(n, p, end, h, a);
      forall x | PayloadCell(m, h, x) && x != a ensures Final(p, end, x) == Final(m, end, x) {
        assert PayloadCell(n, h, x);
      }
    }
  }

  lemma {:induction false} PrunedTrans(u: Tree, t: Tree, s: Tree)
    requires Pruned(u, t) && Pruned(t, s)
    ensures Pruned(u, s)
  {
    if u.Node? {
      PrunedTrans(u.left, t.left, s.left);
      PrunedTrans(u.right, t.right, s.right);
    }
  }

  lemma CutTrans(m: Mem, n: Mem, p: Mem, end: int, a: int, t: Tree, u: Tree, F: set<int>, o: int)
    requires Pool(m, end) && Stage(m, n, end, a, u, F, o) && Pruned(u, t) && Cut(n, p, end, a, u, F, o)
    ensures Cut(m, p, end, a, t, F, o)
  {
    var v :| Pruned(v, u) && Stage(n, p, end, a, v, F, o);
    AroundTrans(m, n, p, end, a, F);
    PrunedTrans(v, u, t);
  }

  /** Two programs in a row. */
  lemma CutsAppend(m: Mem, x: seq<Block>, y: seq<Block>, end: int, a: int, t: Tree, u: Tree, F: set<int>, o: int)
    requires Pool(m, end) && Cuts(m, x, end, a, t, F, o)
    requires Pruned(u, t) && Stage(m, ApplyBlocks(m, x), end, a, u, F, o)
    requires Cuts(ApplyBlocks(m, x), y, end, a, u, F, o)
    ensures Cuts(m, x + y, end, a, t, F, o)
  {
    var n := ApplyBlocks(m, x);
    forall img | TornRun(m, x + y, img) ensures Cut(m, img, end, a, t, F, o) {
      TornRunAppend(m, x, y, img);
      if !TornRun(m, x, img) {
        CutTrans(m, n, img, end, a, t, u, F, o);
      }
    }
  }

  lemma StageTrans(m: Mem, n: Mem, p: Mem, end: int, a: int, t: Tree, u: Tree, F: set<int>, o: int)
    requires Pool(m, end) && Stage(m, n, end, a, t, F, o) && Stage(n, p, end, a, u, F, o)
    ensures Stage(m, p, end, a, u, F, o)
  {
    AroundTrans(m, n, p, end, a, F);
  }

  lemma CutsNothing(m: Mem, end: int, a: int, t: Tree, F: set<int>, o: int)
    requires Local(m, end, a, t, F, o)
    ensures Cuts(m, [], end, a, t, F, o) && Stage(m, m, end, a, t, F, o) && Pruned(t, t)
  {
    PrunedSelf(t);
    KeepsNothing(m, end);
    forall img | TornRun(m, [], img) ensures Cut(m, img, end, a, t, F, o) {
      StageSame(m, img, end, a, t, F, o);
    }
    ScratchKeeps(m, m, end);
    StageSame(m, m, end, a, t, F, o);
  }

  // ---------------------------------------------------------------------------------------
  // Between a node and its subtrees

  function WithSide(t: Tree, a1: int, u: Tree): Tree
    requires t.Node?
  {
    if a1 == t.p + LEFT then t.(left := u) else t.(right := u)
  }

  lemma ChildLocal(m: Mem, end: int, a: int, t: Tree, F: set<int>, o: int, sub: Tree, a1: int, other: Tree, a2: int)
    requires Local(m, end, a, t, F, o) && Sides(t, sub, a1, other, a2)
    ensures Local(m, end, a1, sub, F + {t.p} + Nodes(other), t.p)
  {
    assert t.p in Nodes(t);
    assert NodeAt(m, end, t.p, t.s, t.count);
    assert PayloadCell(m, t.p - CHUNK, a1);
  }

  /** A cell of one live node lies in no other and not in the static area. */
  lemma CellOfOneNode(m: Mem, end: int, p: int, q: int, x: int)
    requires Pool(m, end) && Live(m, end, p - CHUNK) && Live(m, end, q - CHUNK) && PayloadCell(m, p - CHUNK, x)
    ensures PayloadCell(m, q - CHUNK, x) ==> q == p
    ensures !(STATIC <= x < STATIC_END)
  {
    PayloadsDisjoint(m, end, p - CHUNK, q - CHUNK, x);
    HeadFacts(m, end, p - CHUNK);
  }

  /** The link to t is not a cell of its root. */
  lemma LinkAbove(m: Mem, end: int, a: int, t: Tree, F: set<int>, o: int, x: int)
    requires Local(m, end, a, t, F, o) && t.Node? && PayloadCell(m, t.p - CHUNK, x)
    ensures x != a
  {
    assert t.p in Nodes(t) && Live(m, end, t.p - CHUNK);
    if STATIC <= a < STATIC_END {
      CellOfOneNode(m, end, t.p, t.p, x);
    } else {
      assert Live(m, end, o - CHUNK);
      CellOfOneNode(m, end, t.p, o, x);
    }
  }

  /** A change confined to the link a1 of node t touches no other node. */
  lemma OthersSame(m: Mem, n: Mem, end: int, a: int, t: Tree, F: set<int>, o: int, sub: Tree, a1: int, other: Tree, a2: int)
    requires Local(m, end, a, t, F, o) && Sides(t, sub, a1, other, a2) && Pool(n, end)
    requires Around(m, n, end, a1, F + {t.p} + Nodes(other))
    ensures forall k | k in F || k in Nodes(other) :: SameNode(m, n, end, k - CHUNK)
    ensures SameLinked(m, n, end, t.p - CHUNK, a1) && !(STATIC <= a1 < STATIC_END)
    ensures PayloadCell(m, t.p - CHUNK, a1) && PayloadCell(m, t.p - CHUNK, a2) && a1 != a
  {
    var q := t.p;
    assert q in Nodes(t) && NodeAt(m, end, q, t.s, t.count);
    assert PayloadCell(m, q - CHUNK, a1) && PayloadCell(m, q - CHUNK, a2);
    forall k | k in F || k in Nodes(other) ensures SameNode(m, n, end, k - CHUNK) {
      assert k in F + {t.p} + Nodes(other) && k != q;
      assert Live(m, end, k - CHUNK) && SameLinked(m, n, end, k - CHUNK, a1);
      CellOfOneNode(m, end, q, k, a1);
    }
    assert q in F + {t.p} + Nodes(other);
    CellOfOneNode(m, end, q, q, a1);
    LinkAbove(m, end, a, t, F, o, a1);
  }

  /** What surrounds the subtree surrounds the node. */
  lemma ParentAround(m: Mem, n: Mem, end: int, a: int, t: Tree, F: set<int>, o: int, sub: Tree, a1: int, other: Tree, a2: int)
    requires Local(m, end, a, t, F, o) && Sides(t, sub, a1, other, a2) && Pool(n, end)
    requires Around(m, n, end, a1, F + {t.p} + Nodes(other))
    ensures Around(m, n, end, a, F) && Final(n, end, a) == Final(m, end, a) && LinkIn(n, a, F, o)
    ensures Rep(n, end, a2, other)
  {
    OthersSame(m, n, end, a, t, F, o, sub, a1, other, a2);
    forall q | q in F ensures SameLinked(m, n, end, q - CHUNK, a) {
      assert SameNode(m, n, end, q - CHUNK);
    }
    if !(STATIC <= a < STATIC_END) {
      assert SameNode(m, n, end, o - CHUNK);
    }
    assert SameLinked(m, n, end, t.p - CHUNK, a1);
    OtherRep(m, n, end, a, t, F, o, sub, a1, other, a2);
  }

  lemma OtherRep(m: Mem, n: Mem, end: int, a: int, t: Tree, F: set<int>, o: int, sub: Tree, a1: int, other: Tree, a2: int)
    requires Local(m, end, a, t, F, o) && Sides(t, sub, a1, other, a2) && Pool(n, end)
    requires Around(m, n, end, a1, F + {t.p} + Nodes(other))
    ensures Rep(n, end, a2, other)
  {
    OthersSame(m, n, end, a, t, F, o, sub, a1, other, a2);
    RepFrame(m, n, end, a2, other);
  }

  lemma ParentNode(m: Mem, n: Mem, end: int, a: int, t: Tree, F: set<int>, o: int, sub: Tree, a1: int, other: Tree, a2: int)
    requires Local(m, end, a, t, F, o) && Sides(t, sub, a1, other, a2) && Pool(n, end)
    requires Around(m, n, end, a1, F + {t.p} + Nodes(other))
    ensures NodeAt(n, end, t.p, t.s, t.count) && OnlyUnlinks(n, t.p - CHUNK, a)
  {
    OthersSame(m, n, end, a, t, F, o, sub, a1, other, a2);
    NodeBesideLink(m, n, end, t.p, t.s, t.count, a, a1);
  }

  lemma ParentRep(m: Mem, n: Mem, end: int, a: int, t: Tree, F: set<int>, o: int, sub: Tree, a1: int, other: Tree, a2: int, u: Tree)
    requires Local(m, end, a, t, F, o) && Sides(t, sub, a1, other, a2) && Pool(n, end) && Rep(n, end, a1, u)
    requires Around(m, n, end, a1, F + {t.p} + Nodes(other))
    ensures Around(m, n, end, a, F) && LinkIn(n, a, F, o) && Rep(n, end, a, WithSide(t, a1, u))
  {
    ParentAround(m, n, end, a, t, F, o, sub, a1, other, a2);
    ParentNode(m, n, end, a, t, F, o, sub, a1, other, a2);
    if a1 == t.p + LEFT {
      RepNode(n, end, a, t.p, t.s, t.count, u, other);
    } else {
      RepNode(n, end, a, t.p, t.s, t.count, other, u);
    }
  }

  lemma WithSideNodes(t: Tree, sub: Tree, a1: int, other: Tree, a2: int, u: Tree, F: set<int>)
    requires Sides(t, sub, a1, other, a2) && Pruned(u, sub) && Distinct(t) && Distinct(u) && Nodes(t) !! F
    ensures
      var w := WithSide(t, a1, u);
      Pruned(w, t) && Distinct(w) && Nodes(w) !! F && Nodes(w) == Nodes(u) + {t.p} + Nodes(other)
  {
    PrunedSelf(other);
    PrunedNodes(u, sub);
    DisjointPart(Nodes(u), Nodes(sub), Nodes(other));
    var w := WithSide(t, a1, u);
    SideSets(w, a1, u, other);
    SideSets(t, a1, sub, other);
    DisjointPart(Nodes(w), Nodes(t), F);
  }

  lemma SideSets(t: Tree, a1: int, u: Tree, other: Tree)
    requires t.Node?
    requires if a1 == t.p + LEFT then t.left == u && t.right == other else t.right == u && t.left == other
    ensures Nodes(t) == Nodes(u) + {t.p} + Nodes(other)
    ensures t.p !in Nodes(u) && t.p !in Nodes(other) && Nodes(u) !! Nodes(other) && Distinct(u) && Distinct(other) <==> Distinct(t)
  {
    assert Nodes(t) == {t.p} + Nodes(t.left) + Nodes(t.right);
  }

  lemma DisjointPart(x: set<int>, y: set<int>, z: set<int>)
    requires x <= y && y !! z
    ensures x !! z
  {
  }

  lemma ParentStage(m: Mem, n: Mem, end: int, a: int, t: Tree, F: set<int>, o: int, sub: Tree, a1: int, other: Tree, a2: int, u: Tree)
    requires Local(m, end, a, t, F, o) && Sides(t, sub, a1, other, a2)
    requires Stage(m, n, end, a1, u, F + {t.p} + Nodes(other), t.p) && Pruned(u, sub)
    ensures Stage(m, n, end, a, WithSide(t, a1, u), F, o) && Pruned(WithSide(t, a1, u), t)
  {
    ParentRep(m, n, end, a, t, F, o, sub, a1, other, a2, u);
    WithSideNodes(t, sub, a1, other, a2, u, F);
  }

  lemma {:induction false} PrunedNodes(u: Tree, t: Tree)
    requires Pruned(u, t)
    ensures Nodes(u) <= Nodes(t)
  {
    if u.Node? {
      PrunedNodes(u.left, t.left);
      PrunedNodes(u.right, t.right);
    }
  }

  lemma ParentCuts(m: Mem, bs: seq<Block>, end: int, a: int, t: Tree, F: set<int>, o: int, sub: Tree, a1: int, other: Tree, a2: int)
    requires Local(m, end, a, t, F, o) && Sides(t, sub, a1, other, a2)
    requires Cuts(m, bs, end, a1, sub, F + {t.p} + Nodes(other), t.p)
    ensures Cuts(m, bs, end, a, t, F, o)
  {
    forall img | TornRun(m, bs, img) ensures Cut(m, img, end, a, t, F, o) {
      assert Cut(m, img, end, a1, sub, F + {t.p} + Nodes(other), t.p);
      var u :| Pruned(u, sub) && Stage(m, img, end, a1, u, F + {t.p} + Nodes(other), t.p);
      ParentStage(m, img, end, a, t, F, o, sub, a1, other, a2, u);
    }
  }

  // ---------------------------------------------------------------------------------------
  // Freeing one node

  lemma ActiveNode(m: Mem, end: int, a: int, t: Tree, F: set<int>, o: int)
    requires Local(m, end, a, t, F, o) && Idle(m, end) && t.Node?
    ensures t.p - CHUNK in AllHeads(m, end) && State(m, t.p - CHUNK) == ACTIVE && t.p != 0
  {
    assert t.p in Nodes(t) && Live(m, end, t.p - CHUNK);
  }

  /** m and n differ only in redo entries of clump c. */
  ghost predicate OnlyListChanges(m: Mem, n: Mem, end: int, c: int)
    requires Pool(m, end)
  {
    && Idle(n, end) && AllHeads(n, end) == AllHeads(m, end) && State(n, c) == State(m, c) && Size(n, c) == Size(m, c)
    && (forall h | h in AllHeads(m, end) && h != c :: SameHeader(m, n, h))
    && (forall x | !(c + 16 <= x < c + CHUNK) :: Read(n, x) == Read(m, x))
  }

  lemma OtherNodesSame(m: Mem, n: Mem, end: int, c: int, h: int)
    requires Idle(m, end) && OnlyListChanges(m, n, end, c) && c in AllHeads(m, end)
    requires Live(m, end, h) && h != c
    ensures SameNode(m, n, end, h)
  {
    IdleIsGood(m, end);
    IdleIsGood(n, end);
    SameHeaderFacts(m, n, h);
    assert HeaderCell(m, end, c) by { HeadFacts(m, end, c); }
    forall x | PayloadCell(m, h, x) ensures Final(n, end, x) == Final(m, end, x) {
      PayloadsDisjoint(m, end, h, h, x);
    }
  }

  /** The node whose list changes keeps its payload. */
  lemma ListNode(m: Mem, n: Mem, end: int, p: int, k: CString, c: int, x: int)
    requires Idle(m, end) && OnlyListChanges(m, n, end, p - CHUNK) && NodeAt(m, end, p, k, c)
    ensures NodeAt(n, end, p, k, c)
    ensures PayloadCell(m, p - CHUNK, x) ==> Final(n, end, x) == Final(m, end, x)
  {
    IdleIsGood(m, end);
    IdleIsGood(n, end);
  }

  lemma ListRep(m: Mem, n: Mem, end: int, a: int, t: Tree, F: set<int>, o: int)
    requires Local(m, end, a, t, F, o) && Idle(m, end) && t.Node? && OnlyListChanges(m, n, end, t.p - CHUNK)
    requires OnlyUnlinks(n, t.p - CHUNK, a)
    ensures Rep(n, end, a, t)
  {
    var c := t.p - CHUNK;
    ActiveNode(m, end, a, t, F, o);
    LinkIsLiveCell(m, end, a, t, F, o);
    assert Final(n, end, a) == Final(m, end, a) by {
      IdleIsGood(m, end);
      IdleIsGood(n, end);
    }
    ListNode(m, n, end, t.p, t.s, t.count, t.p + LEFT);
    ListNode(m, n, end, t.p, t.s, t.count, t.p + RIGHT);
    assert t.p in Nodes(t) && Nodes(t.left) <= Nodes(t) && Nodes(t.right) <= Nodes(t);
    ListSubtree(m, n, end, t.p, t.left, t.p + LEFT);
    ListSubtree(m, n, end, t.p, t.right, t.p + RIGHT);
    RepNode(n, end, a, t.p, t.s, t.count, t.left, t.right);
  }

  lemma ListSubtree(m: Mem, n: Mem, end: int, p: int, sub: Tree, a1: int)
    requires Idle(m, end) && OnlyListChanges(m, n, end, p - CHUNK) && Live(m, end, p - CHUNK)
    requires AllLive(m, end, sub) && p !in Nodes(sub)
    requires Rep(m, end, a1, sub) && Final(n, end, a1) == Final(m, end, a1)
    ensures Rep(n, end, a1, sub)
  {
    forall q | q in Nodes(sub) ensures SameNode(m, n, end, q - CHUNK) {
      assert Live(m, end, q - CHUNK);
      OtherNodesSame(m, n, end, p - CHUNK, q - CHUNK);
    }
    RepFrame(m, n, end, a1, sub);
  }

  /** The link recorded in the node, not yet freed. */
  lemma RecordStage(m: Mem, n: Mem, end: int, a: int, t: Tree, F: set<int>, o: int)
    requires Local(m, end, a, t, F, o) && Idle(m, end) && t.Node? && OnlyListChanges(m, n, end, t.p - CHUNK)
    requires OnlyUnlinks(n, t.p - CHUNK, a)
    ensures Stage(m, n, end, a, t, F, o)
  {
    var c := t.p - CHUNK;
    ActiveNode(m, end, a, t, F, o);
    IdleIsGood(m, end);
    IdleIsGood(n, end);
    ListRep(m, n, end, a, t, F, o);
    forall q | q in F ensures SameNode(m, n, end, q - CHUNK) {
      assert t.p in Nodes(t) && Live(m, end, q - CHUNK);
      OtherNodesSame(m, n, end, c, q - CHUNK);
    }
    HeadFacts(m, end, c);
    forall h ensures Live(n, end, h) <==> Live(m, end, h) {
      if h in AllHeads(m, end) && h != c {
        SameHeaderFacts(m, n, h);
      }
    }
  }

  lemma RecordedList(m: Mem, n: Mem, end: int, a: int, t: Tree, F: set<int>, o: int, i: int)
    requires Local(m, end, a, t, F, o) && Idle(m, end) && t.Node? && i == FreeSlot(m, t.p - CHUNK) < NUM_ON
    requires Idle(n, end) && Turned(m, n, t.p - CHUNK, end) && State(n, t.p - CHUNK) == State(m, t.p - CHUNK)
    requires Recorded(m, n, t.p - CHUNK, i, a, 0)
    ensures OnlyListChanges(m, n, end, t.p - CHUNK) && OnlyUnlinks(n, t.p - CHUNK, a)
    ensures Off(n, t.p - CHUNK, 0) == a
  {
    var c := t.p - CHUNK;
    ActiveNode(m, end, a, t, F, o);
    assert OnlyUnlinks(m, c, a);
    assert c + 16 <= OffAddr(c, i) < c + CHUNK && c + 16 <= PtrAddr(c, i) < c + CHUNK;
    forall j | 0 <= j < NUM_ON && j != i ensures Off(n, c, j) == Off(m, c, j) && Ptr(n, c, j) == Ptr(m, c, j) {}
  }

  /** The node gone: recovery will find the null pointer in its link. */
  lemma CommittedStage(m: Mem, end: int, a: int, t: Tree, F: set<int>, o: int)
    requires Local(m, end, a, t, F, o) && Idle(m, end) && t.Node? && t.left == Leaf && t.right == Leaf
    requires Off(m, t.p - CHUNK, 0) == a
    ensures
      var n := Committed(m, t.p - CHUNK, FREEING);
      && SafeTargets(m, end, t.p - CHUNK) && ConflictFree(m, t.p - CHUNK) && Good(n, end)
      && Stage(m, n, end, a, Leaf, F, o)
  {
    var c := t.p - CHUNK;
    var n := Committed(m, c, FREEING);
    ActiveNode(m, end, a, t, F, o);
    LinkIsLiveCell(m, end, a, t, F, o);
    UnlinkEntries(m, end, a, c);
    CommittedMeaning(m, c, FREEING, end);
    UnlinkedFinal(m, n, end, a, c);
    assert t.p in Nodes(t);
    UnlinkedAround(m, n, end, a, F, c);
    assert Nodes(t) == {t.p};
    if !(STATIC <= a < STATIC_END) {
      assert SameLinked(m, n, end, o - CHUNK, a);
    }
  }

  lemma UnlinkedAround(m: Mem, n: Mem, end: int, a: int, F: set<int>, c: int)
    requires Idle(m, end) && Pool(n, end) && forall q | q in F :: Live(m, end, q - CHUNK) && Live(n, end, q - CHUNK) && q - CHUNK != c
    requires forall h | h in AllHeads(m, end) && h != c :: SameHeader(m, n, h)
    requires forall x | !HeaderCell(m, end, x) :: Final(n, end, x) == if x == a then 0 else Final(m, end, x)
    ensures Around(m, n, end, a, F)
  {
    forall q | q in F ensures SameLinked(m, n, end, q - CHUNK, a) {
      SameHeaderFacts(m, n, q - CHUNK);
      forall x | PayloadCell(m, q - CHUNK, x) && x != a ensures Final(n, end, x) == Final(m, end, x) {
        PayloadsDisjoint(m, end, q - CHUNK, q - CHUNK, x);
      }
    }
    forall x | STATIC <= x < STATIC_END && x != a ensures Final(n, end, x) == Final(m, end, x) {
      LiveCellsAreNotHeaders(m, end, x);
    }
  }

  lemma UnlinkEntries(m: Mem, end: int, a: int, c: int)
    requires Idle(m, end) && c in AllHeads(m, end) && State(m, c) == ACTIVE && OnlyUnlinks(m, c, a)
    requires !HeaderCell(m, end, a)
    ensures SafeTargets(m, end, c) && ConflictFree(m, c)
    ensures forall j | Entry(m, c, j) :: Off(m, c, j) == a && Ptr(m, c, j) == 0
  {
    forall j | Entry(m, c, j) ensures Off(m, c, j) == a && Ptr(m, c, j) == 0 {
      assert FinalOff(m, c, j) != 0;
    }
  }

  lemma UnlinkedFinal(m: Mem, n: Mem, end: int, a: int, c: int)
    requires Idle(m, end) && Pool(n, end) && ConflictFree(m, c) && Off(m, c, 0) == a && a != 0
    requires forall j | Entry(m, c, j) :: Off(m, c, j) == a && Ptr(m, c, j) == 0
    requires forall x | !HeaderCell(m, end, x) :: Final(n, end, x) == Effect(m, c, 0, x, Read(m, x))
    ensures forall x | !HeaderCell(m, end, x) :: Final(n, end, x) == if x == a then 0 else Final(m, end, x)
  {
    IdleIsGood(m, end);
    assert Entry(m, c, 0);
    forall x | !HeaderCell(m, end, x) ensures Final(n, end, x) == if x == a then 0 else Final(m, end, x) {
      EffectOfEntries(m, c, x, Read(m, x));
    }
  }

  /** pmemalloc_onfree: an entry more or not, the same tree. */
  lemma RecordCuts(m: Mem, end: int, a: int, t: Tree, F: set<int>, o: int)
    requires Local(m, end, a, t, F, o) && Idle(m, end) && t.Node? && FreeSlot(m, t.p - CHUNK) < NUM_ON
    ensures
      var r := Record(t.p - CHUNK, FreeSlot(m, t.p - CHUNK), a, 0);
      var n := ApplyBlocks(m, r);
      && Cuts(m, r, end, a, t, F, o) && Stage(m, n, end, a, t, F, o) && Idle(n, end) && Off(n, t.p - CHUNK, 0) == a
  {
    var c := t.p - CHUNK;
    var i := FreeSlot(m, c);
    var r := Record(c, i, a, 0);
    var n := ApplyBlocks(m, r);
    ActiveNode(m, end, a, t, F, o);
    RecordKeeps(m, c, i, a, 0, end);
    RecordedList(m, n, end, a, t, F, o, i);
    RecordStage(m, n, end, a, t, F, o);
    PrunedSelf(t);
    forall img | TornRun(m, r, img) ensures Cut(m, img, end, a, t, F, o) {
      if SameLogic(m, img, end) {
        StageSame(m, img, end, a, t, F, o);
      } else {
        StageSame(n, img, end, a, t, F, o);
        StageTrans(m, n, img, end, a, t, t, F, o);
      }
    }
  }

  /** pmemalloc_free: the node is there or gone. */
  lemma ReleaseCuts(m: Mem, end: int, a: int, t: Tree, F: set<int>, o: int)
    requires Local(m, end, a, t, F, o) && Idle(m, end) && t.Node? && t.left == Leaf && t.right == Leaf
    requires Off(m, t.p - CHUNK, 0) == a
    ensures
      var f := FreeClump(m, t.p - CHUNK, end);
      var n := ApplyBlocks(m, f);
      Cuts(m, f, end, a, t, F, o) && Stage(m, n, end, a, Leaf, F, o) && Idle(n, end)
  {
    var c := t.p - CHUNK;
    ActiveNode(m, end, a, t, F, o);
    CommittedStage(m, end, a, t, F, o);
    var n := Committed(m, c, FREEING);
    FreeEither(m, c, end);
    PrunedSelf(t);
    assert Pruned(Leaf, t);
    forall img | TornRun(m, FreeClump(m, c, end), img) ensures Cut(m, img, end, a, t, F, o) {
      if SameLogic(m, img, end) {
        StageSame(m, img, end, a, t, F, o);
      } else {
        ReleasedStage(m, n, img, end, a, F, o);
      }
    }
    var r := ApplyBlocks(m, FreeClump(m, c, end));
    IdleIsGood(r, end);
    ReleasedStage(m, n, r, end, a, F, o);
  }

  lemma ReleasedStage(m: Mem, n: Mem, img: Mem, end: int, a: int, F: set<int>, o: int)
    requires Pool(m, end) && Stage(m, n, end, a, Leaf, F, o) && Good(img, end) && SameLogic(n, img, end)
    ensures Stage(m, img, end, a, Leaf, F, o)
  {
    StageSame(n, img, end, a, Leaf, F, o);
    StageTrans(m, n, img, end, a, Leaf, Leaf, F, o);
  }

  lemma FreeNodeCuts(m: Mem, end: int, a: int, t: Tree, F: set<int>, o: int)
    requires Local(m, end, a, t, F, o) && Idle(m, end) && t.Node? && t.left == Leaf && t.right == Leaf
    ensures
      var f := FreeNode(m, end, t.p, a);
      var n := ApplyBlocks(m, f.blocks);
      && Cuts(m, f.blocks, end, a, t, F, o) && Idle(n, end) && SelfFlushingAll(f.blocks)
      && (f.ok <==> FreeSlot(m, t.p - CHUNK) < NUM_ON) && (Rested(m, end) ==> Rested(n, end))
      && Stage(m, n, end, a, if f.ok then Leaf else t, F, o)
  {
    var c := t.p - CHUNK;
    var i := FreeSlot(m, c);
    if i == NUM_ON {
      CutsNothing(m, end, a, t, F, o);
    } else {
      ActiveNode(m, end, a, t, F, o);
      HeadFacts(m, end, c);
      var r := Record(c, i, a, 0);
      var m1 := ApplyBlocks(m, r);
      RecordCuts(m, end, a, t, F, o);
      ReleaseCuts(m1, end, a, t, F, o);
      PrunedSelf(t);
      CutsAppend(m, r, FreeClump(m1, c, end), end, a, t, t, F, o);
      ApplyBlocksAppend(m, r, FreeClump(m1, c, end));
      StageTrans(m, m1, ApplyBlocks(m1, FreeClump(m1, c, end)), end, a, t, Leaf, F, o);
      RecordFlushes(c, i, a, 0);
      FreeFlushes(m1, c, end);
      FlushingAppend(r, FreeClump(m1, c, end));
      RecordKeeps(m, c, i, a, 0, end);
      CommittedStage(m1, end, a, t, F, o);
      FreeRests(m, m1, c, end);
    }
  }

  lemma FreeRests(m: Mem, n: Mem, c: int, end: int)
    requires Idle(m, end) && Turned(m, n, c, end) && State(n, c) == ACTIVE && Idle(n, end) && c in AllHeads(m, end)
    requires SafeTargets(n, end, c)
    ensures Settled(m, end) ==> Rested(ApplyBlocks(n, FreeClump(n, c, end)), end)
  {
    ReleaseEither(n, c, end);
    var p := ApplyBlocks(n, Release(n, c));
    CoalesceAll(p, end);
    ApplyBlocksAppend(n, Release(n, c), Coalesce(p, end));
    if Settled(m, end) {
      TurnedTrans(m, n, p, c, end);
      TurnedSettled(m, p, c, end);
      HeadsTile(ApplyBlocks(p, Coalesce(p, end)), FIRST, end);
    }
  }

  lemma TurnedSettled(m: Mem, n: Mem, c: int, end: int)
    requires Settled(m, end) && Turned(m, n, c, end) && (State(n, c) == FREE || State(n, c) == ACTIVE)
    ensures Settled(n, end)
    ensures forall h | h in AllHeads(n, end) :: State(n, h) == FREE || State(n, h) == ACTIVE
  {
    HeadsTile(m, FIRST, end);
    forall h | h in AllHeads(n, end) ensures State(n, h) == FREE || State(n, h) == ACTIVE {
      if h != c { SameHeaderFacts(m, n, h); }
    }
  }

  // ---------------------------------------------------------------------------------------
  // Freeing a subtree

  /** f turns the subtree t into u if it gets to its end, and crashes leave t with parts cut off. */
  ghost predicate Turns(m: Mem, f: Outcome, end: int, a: int, t: Tree, u: Tree, F: set<int>, o: int) {
    && Pool(m, end) && Cuts(m, f.blocks, end, a, t, F, o) && SelfFlushingAll(f.blocks)
    && Idle(ApplyBlocks(m, f.blocks), end) && Cut(m, ApplyBlocks(m, f.blocks), end, a, t, F, o)
    && (f.ok ==> Stage(m, ApplyBlocks(m, f.blocks), end, a, u, F, o))
    && (Rested(m, end) ==> Rested(ApplyBlocks(m, f.blocks), end))
  }

  /** Every node has an empty redo slot. */
  ghost predicate SlotsLeft(m: Mem, t: Tree) {
    forall q | q in Nodes(t) :: FreeSlot(m, q - CHUNK) < NUM_ON
  }

  lemma TurnsBoth(m: Mem, f: Outcome, g: Outcome, end: int, a: int, t: Tree, u: Tree, v: Tree, F: set<int>, o: int)
    requires Turns(m, f, end, a, t, u, F, o) && Pruned(u, t)
    requires f.ok ==> Turns(ApplyBlocks(m, f.blocks), g, end, a, u, v, F, o)
    ensures Turns(m, Both(f, g), end, a, t, v, F, o)
  {
    if f.ok {
      var n := ApplyBlocks(m, f.blocks);
      CutsAppend(m, f.blocks, g.blocks, end, a, t, u, F, o);
      FlushingAppend(f.blocks, g.blocks);
      ApplyBlocksAppend(m, f.blocks, g.blocks);
      var p := ApplyBlocks(n, g.blocks);
      CutTrans(m, n, p, end, a, t, u, F, o);
      if g.ok {
        StageTrans(m, n, p, end, a, u, v, F, o);
      }
    }
  }

  /** From a subtree to the node above it. */
  lemma TurnsUp(m: Mem, f: Outcome, end: int, a: int, t: Tree, F: set<int>, o: int, sub: Tree, a1: int, other: Tree, a2: int)
    requires Local(m, end, a, t, F, o) && Sides(t, sub, a1, other, a2)
    requires Turns(m, f, end, a1, sub, Leaf, F + {t.p} + Nodes(other), t.p)
    ensures Turns(m, f, end, a, t, WithSide(t, a1, Leaf), F, o) && Pruned(WithSide(t, a1, Leaf), t)
  {
    ParentCuts(m, f.blocks, end, a, t, F, o, sub, a1, other, a2);
    var n := ApplyBlocks(m, f.blocks);
    var F1 := F + {t.p} + Nodes(other);
    var u :| Pruned(u, sub) && Stage(m, n, end, a1, u, F1, t.p);
    ParentStage(m, n, end, a, t, F, o, sub, a1, other, a2, u);
    PrunedSelf(other);
    assert Pruned(Leaf, sub);
    if f.ok {
      ParentStage(m, n, end, a, t, F, o, sub, a1, other, a2, Leaf);
    }
  }

  /** Nodes around the subtree keep their redo slots. */
  lemma SlotsAround(m: Mem, n: Mem, end: int, a: int, F: set<int>, q: int)
    requires Idle(m, end) && Idle(n, end) && Around(m, n, end, a, F) && q in F && Live(m, end, q - CHUNK)
    ensures FreeSlot(n, q - CHUNK) == FreeSlot(m, q - CHUNK)
  {
    var h := q - CHUNK;
    assert SameLinked(m, n, end, h, a);
    assert forall i | 0 <= i < NUM_ON :: FinalOff(m, h, i) == Off(m, h, i) && FinalOff(n, h, i) == Off(n, h, i);
  }

  lemma SlotsParts(m: Mem, t: Tree)
    requires t.Node?
    ensures SlotsLeft(m, t) <==> SlotsLeft(m, t.left) && SlotsLeft(m, t.right) && FreeSlot(m, t.p - CHUNK) < NUM_ON
  {
    assert forall q :: q in Nodes(t) <==> q == t.p || q in Nodes(t.left) || q in Nodes(t.right);
  }

  lemma {:induction false} FreeTreeTurns(m: Mem, end: int, a: int, t: Tree, F: set<int>, o: int)
    requires Local(m, end, a, t, F, o) && Idle(m, end)
    ensures Turns(m, FreeTree(m, end, a, t), end, a, t, Leaf, F, o)
    ensures FreeTree(m, end, a, t).ok <==> SlotsLeft(m, t)
    decreases t, 0
  {
    if t == Leaf {
      CutsNothing(m, end, a, t, F, o);
    } else {
      var F1 := F + {t.p} + Nodes(t.right);
      ChildLocal(m, end, a, t, F, o, t.left, t.p + LEFT, t.right, t.p + RIGHT);
      FreeTreeTurns(m, end, t.p + LEFT, t.left, F1, t.p);
      var l := FreeTree(m, end, t.p + LEFT, t.left);
      TurnsUp(m, l, end, a, t, F, o, t.left, t.p + LEFT, t.right, t.p + RIGHT);
      var t1 := Node(t.p, t.s, t.count, Leaf, t.right);
      var m1 := ApplyBlocks(m, l.blocks);
      var r := FreeTree(m1, end, t.p + RIGHT, t.right);
      var g := Both(r, FreeNode(ApplyBlocks(m1, r.blocks), end, t.p, a));
      if l.ok {
        FreeRest(m1, end, a, t1, F, o);
        RestSlots(m, m1, end, a, t, F, o);
      }
      TurnsBoth(m, l, g, end, a, t, t1, Leaf, F, o);
      SlotsParts(m, t);
    }
  }

  lemma RestSlots(m: Mem, n: Mem, end: int, a: int, t: Tree, F: set<int>, o: int)
    requires Local(m, end, a, t, F, o) && Idle(m, end) && Idle(n, end) && t.Node?
    requires Around(m, n, end, t.p + LEFT, F + {t.p} + Nodes(t.right))
    ensures SlotsLeft(n, t.right) <==> SlotsLeft(m, t.right)
    ensures FreeSlot(n, t.p - CHUNK) == FreeSlot(m, t.p - CHUNK)
  {
    var F1 := F + {t.p} + Nodes(t.right);
    forall q | q == t.p || q in Nodes(t.right) ensures FreeSlot(n, q - CHUNK) == FreeSlot(m, q - CHUNK) {
      assert q in Nodes(t) && q in F1 && Live(m, end, q - CHUNK);
      SlotsAround(m, n, end, t.p + LEFT, F1, q);
    }
  }

  /** The right subtree and the node itself. */
  lemma FreeRest(m: Mem, end: int, a: int, t: Tree, F: set<int>, o: int)
    requires Local(m, end, a, t, F, o) && Idle(m, end) && t.Node? && t.left == Leaf
    ensures
      var r := FreeTree(m, end, t.p + RIGHT, t.right);
      var g := Both(r, FreeNode(ApplyBlocks(m, r.blocks), end, t.p, a));
      && Turns(m, g, end, a, t, Leaf, F, o)
      && (g.ok <==> SlotsLeft(m, t.right) && FreeSlot(m, t.p - CHUNK) < NUM_ON)
    decreases t.right, 1
  {
    var F1 := F + {t.p} + Nodes(t.left);
    ChildLocal(m, end, a, t, F, o, t.right, t.p + RIGHT, t.left, t.p + LEFT);
    FreeTreeTurns(m, end, t.p + RIGHT, t.right, F1, t.p);
    var r := FreeTree(m, end, t.p + RIGHT, t.right);
    TurnsUp(m, r, end, a, t, F, o, t.right, t.p + RIGHT, t.left, t.p + LEFT);
    var t1 := Node(t.p, t.s, t.count, Leaf, Leaf);
    var m1 := ApplyBlocks(m, r.blocks);
    var f := FreeNode(m1, end, t.p, a);
    if r.ok {
      LastNode(m1, end, a, t1, F, o);
      assert t.p in F1 && t.p in Nodes(t) && Live(m, end, t.p - CHUNK);
      SlotsAround(m, m1, end, t.p + RIGHT, F1, t.p);
    }
    TurnsBoth(m, r, f, end, a, t, t1, Leaf, F, o);
  }

  lemma LastNode(m: Mem, end: int, a: int, t: Tree, F: set<int>, o: int)
    requires Local(m, end, a, t, F, o) && Idle(m, end) && t.Node? && t.left == Leaf && t.right == Leaf
    ensures Turns(m, FreeNode(m, end, t.p, a), end, a, t, Leaf, F, o)
    ensures FreeNode(m, end, t.p, a).ok <==> FreeSlot(m, t.p - CHUNK) < NUM_ON
  {
    FreeNodeCuts(m, end, a, t, F, o);
    PrunedSelf(t);
    assert Pruned(Leaf, t);
  }
}
