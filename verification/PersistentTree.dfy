/**
 The search tree as it lies in the pool. `Rep` reads a tree out of an image, following the links
 that recovery will expose; `Holds` adds that it is a search tree, that no two links share a node
 and that the live clumps are exactly its nodes, so that nothing leaks. The two changes the
 program makes to a tree are one link and one count, and each changes a single live cell: these
 lemmas say what the tree is afterwards. Subtrees that do not own the cell are untouched because
 their nodes lie in other clumps.
 */
module PersistentTree {
  import opened PersistentMemory
  import opened Clumps
  import opened PoolLogic
  import opened SearchTree

  const ROOT := STATIC  // static_info.root_
  const COUNT := 16
  const STR := 20
  const NODE := 24      // sizeof(struct tnode)

  // ---------------------------------------------------------------------------------------
  // The tree an image holds

  /** The clump below payload p is live and holds a node for s with count n. */
  ghost predicate NodeAt(m: Mem, end: int, p: int, s: CString, n: int)
    requires Pool(m, end)
  {
    && Live(m, end, p - CHUNK) && NODE + |s| + 1 <= Size(m, p - CHUNK) - CHUNK
    && Final(m, end, p + COUNT) == n
    && (forall i | 0 <= i < |s| :: Final(m, end, p + STR + i) == s[i])
    && Final(m, end, p + STR + |s|) == 0
  }

  /** Any redo entries an ACTIVE node keeps (after an interrupted free) clear the link to it. */
  ghost predicate OnlyUnlinks(m: Mem, h: int, link: int) {
    forall i | 0 <= i < NUM_ON && FinalOff(m, h, i) != 0 :: FinalOff(m, h, i) == link && Ptr(m, h, i) == 0
  }

  ghost predicate EmptyList(m: Mem, h: int) {
    forall i | 0 <= i < NUM_ON :: FinalOff(m, h, i) == 0
  }

  /** The link stored in cell a is the root of t. */
  ghost predicate Rep(m: Mem, end: int, a: int, t: Tree)
    requires Pool(m, end)
    decreases t
  {
    match t
    case Leaf => Final(m, end, a) == 0
    case Node(p, s, n, l, r) =>
      && Final(m, end, a) == p && p != 0 && NodeAt(m, end, p, s, n) && OnlyUnlinks(m, p - CHUNK, a)
      && Rep(m, end, p + LEFT, l) && Rep(m, end, p + RIGHT, r)
  }

  /** The pool holds exactly the tree t: its nodes are all the live clumps there are. */
  ghost predicate Holds(m: Mem, end: int, t: Tree) {
    && Good(m, end) && Calm(m, end) && Rep(m, end, ROOT, t) && Distinct(t) && Sorted(t)
    && forall h :: Live(m, end, h) <==> h + CHUNK in Nodes(t)
  }

  /** A node's clump looks the same in both images. */
  ghost predicate SameNode(m: Mem, n: Mem, end: int, h: int)
    requires Pool(m, end) && Pool(n, end)
  {
    Live(n, end, h) && SameClump(m, n, h) && forall x | PayloadCell(m, h, x) :: Final(n, end, x) == Final(m, end, x)
  }

  lemma {:induction false} RepFrame(m: Mem, n: Mem, end: int, a: int, t: Tree)
    requires Pool(m, end) && Pool(n, end) && Rep(m, end, a, t) && Final(n, end, a) == Final(m, end, a)
    requires forall p | p in Nodes(t) :: SameNode(m, n, end, p - CHUNK)
    ensures Rep(n, end, a, t)
    decreases t
  {
    if t.Node? {
      assert t.p in Nodes(t) && Nodes(t.left) <= Nodes(t) && Nodes(t.right) <= Nodes(t);
      NodeFrame(m, n, end, t.p, t.s, t.count, a);
      RepFrame(m, n, end, t.p + LEFT, t.left);
      RepFrame(m, n, end, t.p + RIGHT, t.right);
    }
  }

  lemma NodeFrame(m: Mem, n: Mem, end: int, p: int, s: CString, k: int, a: int)
    requires Pool(m, end) && Pool(n, end) && NodeAt(m, end, p, s, k) && SameNode(m, n, end, p - CHUNK)
    requires OnlyUnlinks(m, p - CHUNK, a)
    ensures NodeAt(n, end, p, s, k) && OnlyUnlinks(n, p - CHUNK, a)
    ensures Final(n, end, p + LEFT) == Final(m, end, p + LEFT) && Final(n, end, p + RIGHT) == Final(m, end, p + RIGHT)
  {
    var h := p - CHUNK;
    forall x | p <= x < p + NODE + |s| + 1 ensures Final(n, end, x) == Final(m, end, x) {
      assert PayloadCell(m, h, x);
    }
  }

  /** Images with the same meaning hold the same tree. */
  lemma HoldsSame(m: Mem, n: Mem, end: int, t: Tree)
    requires Holds(m, end, t) && Good(n, end) && SameLogic(m, n, end)
    ensures Holds(n, end, t)
  {
    forall p | p in Nodes(t) ensures SameNode(m, n, end, p - CHUNK) {
      assert Live(m, end, p - CHUNK);
      forall x | PayloadCell(m, p - CHUNK, x) ensures Final(n, end, x) == Final(m, end, x) {
        assert LiveCell(m, end, x) && !Contested(m, end, x);
      }
    }
    forall a ensures !Contested(n, end, a) {
      assert !Contested(m, end, a);
    }
    assert LiveCell(m, end, ROOT) && !Contested(m, end, ROOT);
    RepFrame(m, n, end, ROOT, t);
  }

  // ---------------------------------------------------------------------------------------
  // Linking a new node

  /** n is m with the node for s at p linked from the null cell `link`. */
  ghost predicate Linked(m: Mem, n: Mem, end: int, link: int, p: int, s: CString)
    requires Pool(m, end) && Pool(n, end)
  {
    && OneCell(m, n, end, link)
    && (forall x | STATIC <= x < STATIC_END && x != link :: Final(n, end, x) == Final(m, end, x))
    && Final(n, end, link) == p && p != 0
    && NodeAt(n, end, p, s, 1) && EmptyList(n, p - CHUNK)
    && Final(n, end, p + LEFT) == 0 && Final(n, end, p + RIGHT) == 0
  }

  /** As SameNode, but for the cell `link`. */
  ghost predicate SameLinked(m: Mem, n: Mem, end: int, h: int, link: int)
    requires Pool(m, end) && Pool(n, end)
  {
    Live(n, end, h) && SameClump(m, n, h) && forall x | PayloadCell(m, h, x) && x != link :: Final(n, end, x) == Final(m, end, x)
  }

  /** The cell a lies outside the nodes of t. */
  ghost predicate Outside(m: Mem, a: int, t: Tree) {
    forall p | p in Nodes(t) :: !PayloadCell(m, p - CHUNK, a)
  }

  ghost predicate AllLive(m: Mem, end: int, t: Tree)
    requires Pool(m, end)
  {
    forall q | q in Nodes(t) :: Live(m, end, q - CHUNK)
  }

  /** The new link lies in the node q above the (empty) subtree searched, or in a node of it. */
  lemma LinkOwner(m: Mem, end: int, q: int, a: int, t: Tree, s: CString, link: int) returns (o: int)
    requires Pool(m, end) && AllLive(m, end, t) && Distinct(t) && Search(t, a, s) == Absent(link)
    requires Live(m, end, q - CHUNK) && (a == q + LEFT || a == q + RIGHT) && NODE < Size(m, q - CHUNK) - CHUNK
    requires Rep(m, end, a, t)
    ensures Live(m, end, o - CHUNK) && PayloadCell(m, o - CHUNK, link)
    ensures if t == Leaf then o == q && link == a else o in Nodes(t)
  {
    if t == Leaf {
      o := q;
    } else {
      InsertNodes(t, a, s, 0);
      o := SearchOwner(m, end, a, t, s, link);
    }
  }

  lemma {:induction false} SearchOwner(m: Mem, end: int, a: int, t: Tree, s: CString, link: int) returns (o: int)
    requires Pool(m, end) && AllLive(m, end, t) && t.Node? && Search(t, a, s) == Absent(link) && Rep(m, end, a, t)
    ensures o in Nodes(t) && (link == o + LEFT || link == o + RIGHT) && PayloadCell(m, o - CHUNK, link)
    decreases t
  {
    var left := Compare(s, t.s) < 0;
    var sub, b := if left then t.left else t.right, if left then t.p + LEFT else t.p + RIGHT;
    assert t.p in Nodes(t) && Nodes(sub) <= Nodes(t);
    if sub == Leaf {
      o := t.p;
      assert NodeAt(m, end, t.p, t.s, t.count);
    } else {
      o := SearchOwner(m, end, b, sub, s, link);
    }
  }

  /** A link owned by a node outside t lies outside t. */
  lemma OwnedOutside(m: Mem, end: int, o: int, x: int, t: Tree)
    requires Pool(m, end) && AllLive(m, end, t) && Live(m, end, o - CHUNK) && PayloadCell(m, o - CHUNK, x)
    requires o !in Nodes(t)
    ensures Outside(m, x, t)
  {
    forall q | q in Nodes(t) ensures !PayloadCell(m, q - CHUNK, x) {
      assert Live(m, end, q - CHUNK);
      PayloadsDisjoint(m, end, o - CHUNK, q - CHUNK, x);
    }
  }

  /** Live clumps are the same but for the cell x. */
  ghost predicate OneCell(m: Mem, n: Mem, end: int, x: int)
    requires Pool(m, end) && Pool(n, end)
  {
    forall h | Live(m, end, h) :: SameLinked(m, n, end, h, x)
  }

  /** A subtree that x does not lie in is untouched. */
  lemma UntouchedSubtree(m: Mem, n: Mem, end: int, a: int, t: Tree, x: int)
    requires Pool(m, end) && Pool(n, end) && Rep(m, end, a, t) && OneCell(m, n, end, x)
    requires AllLive(m, end, t) && Final(n, end, a) == Final(m, end, a) && Outside(m, x, t)
    ensures Rep(n, end, a, t)
  {
    forall q | q in Nodes(t) ensures SameNode(m, n, end, q - CHUNK) {
      assert Live(m, end, q - CHUNK) && SameLinked(m, n, end, q - CHUNK, x);
      assert !PayloadCell(m, q - CHUNK, x);
    }
    RepFrame(m, n, end, a, t);
  }

  /** A node keeps its string, count and the links other than the new one. */
  lemma NodeBesideLink(m: Mem, n: Mem, end: int, q: int, k: CString, c: int, a: int, link: int)
    requires Pool(m, end) && Pool(n, end) && NodeAt(m, end, q, k, c) && OnlyUnlinks(m, q - CHUNK, a)
    requires SameLinked(m, n, end, q - CHUNK, link)
    requires PayloadCell(m, q - CHUNK, link) ==> link == q + LEFT || link == q + RIGHT
    ensures NodeAt(n, end, q, k, c) && OnlyUnlinks(n, q - CHUNK, a)
    ensures q + LEFT != link ==> Final(n, end, q + LEFT) == Final(m, end, q + LEFT)
    ensures q + RIGHT != link ==> Final(n, end, q + RIGHT) == Final(m, end, q + RIGHT)
  {
    forall x | q <= x < q + NODE + |k| + 1 && x != link ensures Final(n, end, x) == Final(m, end, x) {
      assert PayloadCell(m, q - CHUNK, x);
    }
  }

  lemma RepNode(n: Mem, end: int, a: int, q: int, k: CString, c: int, l: Tree, r: Tree)
    requires Pool(n, end) && Final(n, end, a) == q && q != 0
    requires NodeAt(n, end, q, k, c) && OnlyUnlinks(n, q - CHUNK, a)
    requires Rep(n, end, q + LEFT, l) && Rep(n, end, q + RIGHT, r)
    ensures Rep(n, end, a, Node(q, k, c, l, r))
  {
  }

  /** One side of a node, and the other. */
  ghost predicate Sides(t: Tree, sub: Tree, a1: int, other: Tree, a2: int) {
    && t.Node?
    && (|| (sub == t.left && a1 == t.p + LEFT && other == t.right && a2 == t.p + RIGHT)
        || (sub == t.right && a1 == t.p + RIGHT && other == t.left && a2 == t.p + LEFT))
  }

  /** A change at x, in node o of one subtree or in the link to it, leaves the rest of the node
      and the other subtree alone. */
  lemma BesideCell(m: Mem, n: Mem, end: int, a: int, t: Tree, sub: Tree, a1: int, other: Tree, a2: int, o: int, x: int)
    requires Pool(m, end) && Pool(n, end) && Rep(m, end, a, t) && Distinct(t) && AllLive(m, end, t)
    requires Sides(t, sub, a1, other, a2) && OneCell(m, n, end, x)
    requires Live(m, end, o - CHUNK) && PayloadCell(m, o - CHUNK, x)
    requires o in Nodes(sub) || (o == t.p && x == a1)
    ensures NodeAt(n, end, t.p, t.s, t.count) && OnlyUnlinks(n, t.p - CHUNK, a) && Rep(n, end, a2, other)
    ensures o in Nodes(sub) ==> Final(n, end, a1) == Final(m, end, a1)
  {
    var q, h := t.p, t.p - CHUNK;
    assert q in Nodes(t) && Nodes(other) <= Nodes(t);
    assert Live(m, end, h) && SameLinked(m, n, end, h, x);
    if o != q {
      PayloadsDisjoint(m, end, o - CHUNK, h, x);
    }
    assert PayloadCell(m, h, a1);
    NodeBesideLink(m, n, end, q, t.s, t.count, a, x);
    OwnedOutside(m, end, o, x, other);
    UntouchedSubtree(m, n, end, a2, other, x);
  }

  lemma SideLive(m: Mem, end: int, t: Tree, sub: Tree, a1: int, other: Tree, a2: int)
    requires Pool(m, end) && AllLive(m, end, t) && Sides(t, sub, a1, other, a2)
    ensures AllLive(m, end, sub) && Live(m, end, t.p - CHUNK)
  {
    assert t.p in Nodes(t) && Nodes(sub) <= Nodes(t);
  }

  lemma LinkSide(m: Mem, n: Mem, end: int, a: int, t: Tree, sub: Tree, a1: int, other: Tree, a2: int, link: int, p: int, s: CString)
    requires Pool(m, end) && Pool(n, end) && Rep(m, end, a, t) && Distinct(t) && AllLive(m, end, t)
    requires Sides(t, sub, a1, other, a2) && Search(sub, a1, s) == Absent(link) && Linked(m, n, end, link, p, s)
    ensures NodeAt(n, end, t.p, t.s, t.count) && OnlyUnlinks(n, t.p - CHUNK, a) && Rep(n, end, a2, other)
    ensures AllLive(m, end, sub) && (sub == Leaf || Final(n, end, a1) == Final(m, end, a1))
  {
    SideLive(m, end, t, sub, a1, other, a2);
    var o := LinkOwner(m, end, t.p, a1, sub, s, link);
    BesideCell(m, n, end, a, t, sub, a1, other, a2, o, link);
  }

  /** One side of the node after the link, and everything beside it. */
  lemma {:induction false} LinkBelow(m: Mem, n: Mem, end: int, a: int, t: Tree, sub: Tree, a1: int, other: Tree, a2: int, link: int, p: int, s: CString)
    requires Pool(m, end) && Pool(n, end) && Rep(m, end, a, t) && Distinct(t) && AllLive(m, end, t)
    requires Sides(t, sub, a1, other, a2) && Search(sub, a1, s) == Absent(link) && Linked(m, n, end, link, p, s)
    ensures NodeAt(n, end, t.p, t.s, t.count) && OnlyUnlinks(n, t.p - CHUNK, a)
    ensures Rep(n, end, a1, Insert(sub, s, p)) && Rep(n, end, a2, other)
    decreases t, 0
  {
    LinkSide(m, n, end, a, t, sub, a1, other, a2, link, p, s);
    LinkRep(m, n, end, a1, sub, link, p, s);
  }

  lemma {:induction false} LinkRep(m: Mem, n: Mem, end: int, a: int, t: Tree, link: int, p: int, s: CString)
    requires Pool(m, end) && Pool(n, end) && Rep(m, end, a, t) && Distinct(t) && AllLive(m, end, t)
    requires Search(t, a, s) == Absent(link) && Linked(m, n, end, link, p, s)
    requires t == Leaf || Final(n, end, a) == Final(m, end, a)
    ensures Rep(n, end, a, Insert(t, s, p))
    decreases t, 1
  {
    if t == Leaf {
      assert NodeAt(n, end, p, s, 1) && OnlyUnlinks(n, p - CHUNK, a);
    } else {
      SearchSides(t, a, s, p);
      InsertShape(t, a, s, p, link);
      if Compare(s, t.s) < 0 {
        LinkBelow(m, n, end, a, t, t.left, t.p + LEFT, t.right, t.p + RIGHT, link, p, s);
        RepNode(n, end, a, t.p, t.s, t.count, Insert(t.left, s, p), t.right);
      } else {
        LinkBelow(m, n, end, a, t, t.right, t.p + RIGHT, t.left, t.p + LEFT, link, p, s);
        RepNode(n, end, a, t.p, t.s, t.count, t.left, Insert(t.right, s, p));
      }
    }
  }

  lemma InsertShape(t: Tree, a: int, s: CString, p: int, link: int)
    requires t.Node? && Search(t, a, s) == Absent(link)
    ensures Compare(s, t.s) != 0
    ensures Insert(t, s, p) ==
      if Compare(s, t.s) < 0 then Node(t.p, t.s, t.count, Insert(t.left, s, p), t.right)
      else Node(t.p, t.s, t.count, t.left, Insert(t.right, s, p))
  {
  }

  lemma SearchSides(t: Tree, a: int, s: CString, p: int)
    requires t.Node?
    ensures Compare(s, t.s) < 0 ==> Insert(t, s, p) == t.(left := Insert(t.left, s, p)) && Search(t, a, s) == Search(t.left, t.p + LEFT, s)
    ensures Compare(s, t.s) > 0 ==> Insert(t, s, p) == t.(right := Insert(t.right, s, p)) && Search(t, a, s) == Search(t.right, t.p + RIGHT, s)
    ensures Compare(s, t.s) == 0 ==> Insert(t, s, p) == t.(count := (t.count + 1) % COUNT_LIMIT) && Search(t, a, s) == Present(t.p)
  {
  }

  /** The whole tree after the new node has been linked in. */
  lemma LinkHolds(m: Mem, n: Mem, end: int, t: Tree, link: int, p: int, s: CString)
    requires Holds(m, end, t) && Good(n, end) && Calm(n, end) && Search(t, ROOT, s) == Absent(link)
    requires Linked(m, n, end, link, p, s)
    requires !Live(m, end, p - CHUNK) && forall h :: Live(n, end, h) <==> Live(m, end, h) || h == p - CHUNK
    ensures Holds(n, end, Insert(t, s, p))
  {
    assert AllLive(m, end, t);
    assert t == Leaf || ROOT != link by {
      if t.Node? {
        var o := SearchOwner(m, end, ROOT, t, s, link);
        HeadFacts(m, end, o - CHUNK);
      }
    }
    LinkRep(m, n, end, ROOT, t, link, p, s);
    InsertNodes(t, ROOT, s, p);
    InsertSorted(t, s, p);
  }

  // ---------------------------------------------------------------------------------------
  // Bumping a count

  /** n is m with the count of node p stored anew. */
  lemma {:induction false} BumpRep(m: Mem, n: Mem, end: int, a: int, t: Tree, s: CString, p: int)
    requires Pool(m, end) && Pool(n, end) && Rep(m, end, a, t) && Distinct(t) && AllLive(m, end, t)
    requires Search(t, a, s) == Present(p)
    requires OneCell(m, n, end, p + COUNT)
    requires Final(n, end, p + COUNT) == (Final(m, end, p + COUNT) + 1) % COUNT_LIMIT
    requires Final(n, end, a) == Final(m, end, a)
    ensures Rep(n, end, a, Insert(t, s, 0)) == true
    decreases t
  {
    SearchSides(t, a, s, 0);
    if Compare(s, t.s) == 0 {
      BumpNode(m, n, end, a, t, s);
    } else if Compare(s, t.s) < 0 {
      SideLive(m, end, t, t.left, t.p + LEFT, t.right, t.p + RIGHT);
      CountOwner(m, end, t.p + LEFT, t.left, s, p);
      BesideCell(m, n, end, a, t, t.left, t.p + LEFT, t.right, t.p + RIGHT, p, p + COUNT);
      BumpRep(m, n, end, t.p + LEFT, t.left, s, p);
      RepNode(n, end, a, t.p, t.s, t.count, Insert(t.left, s, 0), t.right);
    } else {
      SideLive(m, end, t, t.right, t.p + RIGHT, t.left, t.p + LEFT);
      CountOwner(m, end, t.p + RIGHT, t.right, s, p);
      BesideCell(m, n, end, a, t, t.right, t.p + RIGHT, t.left, t.p + LEFT, p, p + COUNT);
      BumpRep(m, n, end, t.p + RIGHT, t.right, s, p);
      RepNode(n, end, a, t.p, t.s, t.count, t.left, Insert(t.right, s, 0));
    }
  }

  lemma CountOwner(m: Mem, end: int, a: int, t: Tree, s: CString, p: int)
    requires Pool(m, end) && Rep(m, end, a, t) && Distinct(t) && AllLive(m, end, t) && Search(t, a, s) == Present(p)
    ensures p in Nodes(t) && Live(m, end, p - CHUNK) && PayloadCell(m, p - CHUNK, p + COUNT)
  {
    InsertNodes(t, a, s, 0);
    NodeSizes(m, end, a, t, p);
  }

  lemma BumpNode(m: Mem, n: Mem, end: int, a: int, t: Tree, s: CString)
    requires Pool(m, end) && Pool(n, end) && Rep(m, end, a, t) && Distinct(t) && AllLive(m, end, t)
    requires t.Node? && Compare(s, t.s) == 0
    requires OneCell(m, n, end, t.p + COUNT)
    requires Final(n, end, t.p + COUNT) == (Final(m, end, t.p + COUNT) + 1) % COUNT_LIMIT
    requires Final(n, end, a) == Final(m, end, a)
    ensures Rep(n, end, a, t.(count := (t.count + 1) % COUNT_LIMIT))
  {
    var q, h := t.p, t.p - CHUNK;
    assert q in Nodes(t) && Nodes(t.left) <= Nodes(t) && Nodes(t.right) <= Nodes(t);
    assert Live(m, end, h) && SameLinked(m, n, end, h, q + COUNT);
    forall x | q <= x < q + NODE + |t.s| + 1 && x != q + COUNT ensures Final(n, end, x) == Final(m, end, x) {
      assert PayloadCell(m, h, x);
    }
    OwnedOutside(m, end, q, q + COUNT, t.left);
    OwnedOutside(m, end, q, q + COUNT, t.right);
    UntouchedSubtree(m, n, end, q + LEFT, t.left, q + COUNT);
    UntouchedSubtree(m, n, end, q + RIGHT, t.right, q + COUNT);
    RepNode(n, end, a, q, t.s, (t.count + 1) % COUNT_LIMIT, t.left, t.right);
  }

  lemma {:induction false} NodeSizes(m: Mem, end: int, a: int, t: Tree, p: int)
    requires Pool(m, end) && Rep(m, end, a, t) && p in Nodes(t)
    ensures NODE < Size(m, p - CHUNK) - CHUNK
    decreases t
  {
    if p in Nodes(t.left) {
      NodeSizes(m, end, t.p + LEFT, t.left, p);
    } else if p in Nodes(t.right) {
      NodeSizes(m, end, t.p + RIGHT, t.right, p);
    } else {
      assert NodeAt(m, end, t.p, t.s, t.count);
    }
  }

  lemma BumpHolds(m: Mem, n: Mem, end: int, t: Tree, s: CString, p: int)
    requires Holds(m, end, t) && Idle(m, end) && Search(t, ROOT, s) == Present(p)
    requires CellStep(m, n, p + COUNT, (Read(m, p + COUNT) + 1) % COUNT_LIMIT)
    ensures Idle(n, end) && Holds(n, end, Insert(t, s, 0))
  {
    InsertNodes(t, ROOT, s, 0);
    InsertSorted(t, s, 0);
    NodeSizes(m, end, ROOT, t, p);
    var h := p - CHUNK;
    assert Live(m, end, h) && h in AllHeads(m, end);
    HeadFacts(m, end, h);
    PayloadStep(m, n, end, h, p + COUNT, (Read(m, p + COUNT) + 1) % COUNT_LIMIT);
    BumpRep(m, n, end, ROOT, t, s, p);
  }

  /** Storing into one payload cell of an idle pool. */
  lemma PayloadStep(m: Mem, n: Mem, end: int, h: int, x: int, v: int)
    requires Idle(m, end) && h in AllHeads(m, end) && PayloadCell(m, h, x) && CellStep(m, n, x, v)
    ensures Idle(n, end) && Good(n, end) && Calm(n, end) && AllHeads(n, end) == AllHeads(m, end)
    ensures forall k :: Live(n, end, k) <==> Live(m, end, k)
    ensures OneCell(m, n, end, x)
    ensures forall y :: Final(n, end, y) == Read(n, y) && Final(m, end, y) == Read(m, y)
  {
    PayloadsDisjoint(m, end, h, h, x);
    HeadersUntouched(m, n, end);
    forall k | k in AllHeads(m, end) ensures State(n, k) == State(m, k) && SameClump(m, n, k) {
      SameHeaderFacts(m, n, k);
    }
    IdleIsGood(m, end);
    IdleIsGood(n, end);
  }
}
