/**
 tree_insert, instruction by instruction. A new node is reserved, filled in, recorded for its link
 and activated; its stores stay pending until the activation flushes them, so a crash may tear
 them in any way. None of that shows before the clump is live, and the step that makes it live
 also promises the link to it. The pool means the old tree until that step and the new one after.
 */
module TreeInsert {
  import opened Options
  import opened PersistentMemory
  import opened Clumps
  import opened PoolLogic
  import opened AllocatorPrograms
  import opened CrashSafety
  import opened RecoveryWalk
  import opened Reservation
  import opened Atomicity
  import opened SearchTree
  import opened PersistentTree

  // ---------------------------------------------------------------------------------------
  // Filling in the node

  /** strcpy */
  function CopyString(q: int, s: seq<int>): seq<Write>
    decreases |s|
  {
    if s == [] then [Write(q, 0)] else [Write(q, s[0])] + CopyString(q + 1, s[1..])
  }

  function FillNode(p: int, s: seq<int>): seq<Write> {
    [Write(p + RIGHT, 0), Write(p + LEFT, 0), Write(p + COUNT, 1)] + CopyString(p + STR, s)
  }

  lemma {:induction false} CopyStringReads(m: Mem, q: int, s: seq<int>)
    ensures
      var n := Apply(m, CopyString(q, s));
      && (forall i | 0 <= i < |s| :: Read(n, q + i) == s[i]) && Read(n, q + |s|) == 0
      && (forall x | !(q <= x <= q + |s|) :: Read(n, x) == Read(m, x))
    ensures forall w | w in CopyString(q, s) :: q <= w.addr <= q + |s|
    decreases |s|
  {
    if s == [] {
      ApplyOne(m, Write(q, 0));
    } else {
      var n := m[q := s[0]];
      CopyStringReads(n, q + 1, s[1..]);
      assert ([Write(q, s[0])] + CopyString(q + 1, s[1..]))[1..] == CopyString(q + 1, s[1..]);
      var r := Apply(m, CopyString(q, s));
      assert r == Apply(n, CopyString(q + 1, s[1..]));
      forall i | 0 <= i < |s| ensures Read(r, q + i) == s[i] {
        if i > 0 { assert Read(r, q + 1 + (i - 1)) == s[1..][i - 1]; }
      }
    }
  }

  lemma FillNodeReads(m: Mem, p: int, s: seq<int>)
    ensures
      var n := Apply(m, FillNode(p, s));
      && Read(n, p + LEFT) == 0 && Read(n, p + RIGHT) == 0 && Read(n, p + COUNT) == 1
      && (forall i | 0 <= i < |s| :: Read(n, p + STR + i) == s[i]) && Read(n, p + STR + |s|) == 0
      && (forall x | !(p <= x < p + NODE + |s| + 1) :: Read(n, x) == Read(m, x))
    ensures forall w | w in FillNode(p, s) :: p <= w.addr < p + NODE + |s| + 1
  {
    var head := [Write(p + RIGHT, 0), Write(p + LEFT, 0), Write(p + COUNT, 1)];
    ApplyAppend(m, head, CopyString(p + STR, s));
    var m1 := m[p + RIGHT := 0];
    var m2 := m1[p + LEFT := 0];
    var m3 := m2[p + COUNT := 1];
    assert head[1..] == [Write(p + LEFT, 0), Write(p + COUNT, 1)] && head[1..][1..] == [Write(p + COUNT, 1)];
    ApplyOne(m2, Write(p + COUNT, 1));
    assert Apply(m, head) == Apply(m1, head[1..]) == Apply(m2, head[1..][1..]) == m3;
    CopyStringReads(m3, p + STR, s);
  }

  // ---------------------------------------------------------------------------------------
  // Stores to disjoint cells commute

  lemma {:induction false} ApplyCommutes(m: Mem, a: seq<Write>, b: seq<Write>)
    requires forall v, w | v in a && w in b :: v.addr != w.addr
    ensures Apply(Apply(m, a), b) == Apply(Apply(m, b), a)
    decreases |a|
  {
    if a != [] {
      assert a[0] in a;
      ApplyPast(m, a[0], b);
      ApplyCommutes(m[a[0].addr := a[0].val], a[1..], b);
    }
  }

  lemma {:induction false} ApplyPast(m: Mem, v: Write, b: seq<Write>)
    requires forall w | w in b :: v.addr != w.addr
    ensures Apply(m[v.addr := v.val], b) == Apply(m, b)[v.addr := v.val]
    decreases |b|
  {
    if b != [] {
      var w := b[0];
      assert w in b;
      assert m[v.addr := v.val][w.addr := w.val] == m[w.addr := w.val][v.addr := v.val];
      ApplyPast(m[w.addr := w.val], v, b[1..]);
    }
  }

  // ---------------------------------------------------------------------------------------
  // The program

  /** What inserting s below the null link issues when clump c is the first fit. */
  datatype Insertion = Insertion(m: Mem, c: int, link: int, s: CString) {
    function P(): int { c + CHUNK }

    function Size_(): int { ClumpSize(NODE + |s| + 1) }

    function Reserve(): seq<Block> { ReserveAt(m, c, Size_()) }

    function Reserved_(): Mem { ApplyBlocks(m, Reserve()) }

    function Fill(): seq<Write> { FillNode(P(), s) }

    function OnActive(): seq<Block> { Record(c, 0, link, P()) }

    /** The memory as read when pmemalloc_activate is called. */
    function Ready(): Mem { ApplyBlocks(Apply(Reserved_(), Fill()), OnActive()) }

    function Activate(): seq<Block> { Activation(Ready(), c) }

    function Program(): seq<Op> { Ops(Reserve()) + Stores(Fill()) + Ops(OnActive()) + Ops(Activate()) }
  }

  /** The situation in which tree_insert creates a node. */
  ghost predicate Inserting(i: Insertion, end: int, t: Tree) {
    && Holds(i.m, end, t) && Idle(i.m, end) && Coalesced(i.m, end)
    && Search(t, ROOT, i.s) == Absent(i.link) && FirstFit(i.m, FIRST, end, i.Size_()) == Some(i.c)
  }

  // ---------------------------------------------------------------------------------------
  // Prefixes of programs

  lemma CrashAfterAppend(s: Machine, a: seq<Op>, b: seq<Op>, k: nat, img: Mem)
    requires k <= |a + b| && CrashAfter(s, a + b, k, img)
    ensures if k <= |a| then CrashAfter(s, a, k, img) else k - |a| <= |b| && CrashAfter(Run(s, a), b, k - |a|, img)
  {
    if k <= |a| {
      assert (a + b)[..k] == a[..k];
    } else {
      assert (a + b)[..k] == a + b[..k - |a|];
      RunAppend(s, a, b[..k - |a|]);
    }
  }

  /** Crashing among plain stores: some of them may be on the medium. */
  lemma CrashAmongStores(m: Mem, ws: seq<Write>, k: nat, img: Mem)
    requires k <= |Stores(ws)| && CrashAfter(Machine(m, []), Stores(ws), k, img)
    ensures Torn(m, ws, img)
  {
    assert Stores(ws)[..k] == Stores(ws[..k]);
    RunStores(Machine(m, []), ws[..k]);
    assert [] + ws[..k] == ws[..k];
    forall a ensures Read(img, a) == Read(m, a) || Write(a, Read(img, a)) in ws {}
  }

  // ---------------------------------------------------------------------------------------
  // Segment by segment

  /** Stores into the payload of a clump that is not live mean nothing. */
  lemma ScratchHolds(m: Mem, img: Mem, end: int, c: int, ws: seq<Write>, t: Tree)
    requires Holds(m, end, t) && c in AllHeads(m, end) && !Live(m, end, c)
    requires forall w | w in ws :: PayloadCell(m, c, w.addr)
    requires Torn(m, ws, img)
    ensures Holds(img, end, t) && AllHeads(img, end) == AllHeads(m, end)
    ensures forall k | k in AllHeads(m, end) :: SameHeader(m, img, k)
  {
    forall a | HeaderCell(m, end, a) || LiveCell(m, end, a) ensures Read(img, a) == Read(m, a) {
      if Write(a, Read(img, a)) in ws {
        UnusedPayload(m, end, c, a);
      }
    }
    ScratchKeeps(m, img, end);
    HoldsSame(m, img, end, t);
  }

  lemma ReservedFacts(i: Insertion, end: int, t: Tree)
    requires Inserting(i, end, t)
    ensures
      var m1 := i.Reserved_();
      && Reserved(i.m, m1, end, i.c, i.Size_()) && Coalesced(m1, end) && Holds(m1, end, t)
      && !Live(m1, end, i.c) && i.c % CHUNK == 0 && FIRST <= i.c
      && NODE + |i.s| + 1 <= Size(m1, i.c) - CHUNK
      && (forall w | w in i.Fill() :: PayloadCell(m1, i.c, w.addr))
      && SelfFlushingAll(i.Reserve())
  {
    var m1 := i.Reserved_();
    assert i.Size_() % CHUNK == 0;
    ReserveIsSafe(i.m, end, NODE + |i.s| + 1);
    KeepsEnd(i.m, i.Reserve(), end);
    HoldsSame(i.m, m1, end, t);
    HeadFacts(i.m, end, i.c);
    ReserveFlushes(i.m, i.c, i.Size_());
    FillNodeReads(m1, i.P(), i.s);
  }

  lemma ReserveTorn(i: Insertion, end: int, t: Tree, img: Mem)
    requires Inserting(i, end, t) && TornRun(i.m, i.Reserve(), img)
    ensures Holds(img, end, t)
  {
    ReserveIsSafe(i.m, end, NODE + |i.s| + 1);
    HoldsSame(i.m, img, end, t);
  }

  /** The durable memory when the payload has been persisted. */
  function Filled(i: Insertion): Mem { Apply(ApplyBlocks(i.Reserved_(), i.OnActive()), i.Fill()) }

  lemma ApplyTwoBlocks(m: Mem, a: Block, b: Block)
    ensures ApplyBlocks(m, [a, b]) == Apply(m, a.writes + b.writes)
  {
    assert [a, b][1..] == [b] && [b][1..] == [];
    assert ApplyBlocks(m, [a, b]) == ApplyBlocks(Apply(m, a.writes), [a, b][1..]);
    assert ApplyBlocks(Apply(m, a.writes), [b]) == ApplyBlocks(Apply(Apply(m, a.writes), b.writes), [b][1..]);
    ApplyAppend(m, a.writes, b.writes);
  }

  /** Recording the link and filling the node touch different cells. */
  lemma ReadyIsFilled(i: Insertion)
    ensures i.Ready() == Filled(i)
  {
    var r := i.OnActive();
    FillNodeReads(i.Reserved_(), i.P(), i.s);
    ApplyTwoBlocks(i.Reserved_(), r[0], r[1]);
    ApplyTwoBlocks(Apply(i.Reserved_(), i.Fill()), r[0], r[1]);
    assert r == [r[0], r[1]];
    var ws := r[0].writes + r[1].writes;
    assert forall w | w in ws :: w.addr < i.P();
    ApplyCommutes(i.Reserved_(), i.Fill(), ws);
  }

  /** While the node's stores are pending: the old tree. */
  lemma PendingFill(i: Insertion, end: int, t: Tree, k: nat, img: Mem)
    requires Inserting(i, end, t) && k <= |Ops(i.OnActive())|
    requires CrashAfter(Machine(i.Reserved_(), i.Fill()), Ops(i.OnActive()), k, img)
    ensures Holds(img, end, t)
  {
    ReservedFacts(i, end, t);
    var m1 := i.Reserved_();
    RecordFlushes(i.c, 0, i.link, i.P());
    LooseBeside(i, end, t);
    CrashPointsAreBlockCrashes(Machine(m1, i.Fill()), i.OnActive(), img);
    assert CrashAfter(Machine(m1, i.Fill()), Ops(i.OnActive()), k, img);
    CrashWithLooseStores(m1, i.Fill(), i.OnActive(), img);
    var base :| TornRun(m1, i.OnActive(), base) && Torn(base, i.Fill(), img);
    RecordKeeps(m1, i.c, 0, i.link, i.P(), end);
    HoldsSame(m1, base, end, t);
    RecordTorn(m1, i.c, 0, i.link, i.P(), end, base);
    ScratchHolds(base, img, end, i.c, i.Fill(), t);
  }

  lemma LooseBeside(i: Insertion, end: int, t: Tree)
    requires Inserting(i, end, t)
    ensures forall b, w | b in i.OnActive() && w in i.Fill() :: !Flushes(b.addr, b.len, w.addr)
  {
    HeadIsAligned(i, end, t);
    FillNodeReads(i.m, i.P(), i.s);
    forall b, w | b in i.OnActive() && w in i.Fill() ensures !Flushes(b.addr, b.len, w.addr) {
      assert b.addr == i.c && b.len == CHUNK && i.c + CHUNK <= w.addr;
    }
  }

  /** A torn recording changes cells of one redo slot only. */
  lemma RecordTorn(m: Mem, c: int, i: int, target: int, val: int, end: int, img: Mem)
    requires Pool(m, end) && c in AllHeads(m, end) && 0 <= i < NUM_ON && !Live(m, end, c)
    requires TornRun(m, Record(c, i, target, val), img)
    ensures Pool(img, end) && AllHeads(img, end) == AllHeads(m, end) && Size(img, c) == Size(m, c) && !Live(img, end, c)
  {
    var r := Record(c, i, target, val);
    var n := Apply(m, r[0].writes);
    ApplyOne(m, r[0].writes[0]);
    assert r[1..] == [r[1]];
    forall a | a != OffAddr(c, i) && a != PtrAddr(c, i) ensures Read(img, a) == Read(m, a) {
      if !Torn(m, r[0].writes, img) {
        TornOneBlock(n, r[1], img);
      }
    }
    HeadFacts(m, end, c);
    assert HeaderStep(m, img, end, c);
    HeaderStepFrame(m, img, end, c);
  }

  /** The committed memory holds the new tree. */
  lemma CommitHolds(i: Insertion, end: int, t: Tree)
    requires Inserting(i, end, t)
    ensures
      var m3 := Filled(i);
      && Idle(m3, end) && i.c in AllHeads(m3, end) && State(m3, i.c) == RESERVED && Coalesced(m3, end)
      && SafeTargets(m3, end, i.c) && ConflictFree(m3, i.c) && Holds(m3, end, t)
      && Pool(Committed(m3, i.c, ACTIVATING), end)
      && Holds(Committed(m3, i.c, ACTIVATING), end, Insert(t, i.s, i.P()))
  {
    var m3 := Filled(i);
    FilledFacts(i, end, t);
    LinkIsLive(m3, end, t, i.s, i.link);
    assert forall j | Entry(m3, i.c, j) :: j == 0;
    LiveCellsAreNotHeaders(m3, end, i.link);
    CommittedMeaning(m3, i.c, ACTIVATING, end);
    var n := Committed(m3, i.c, ACTIVATING);
    CommittedLinks(i, end, t);
    LinkHolds(m3, n, end, t, i.link, i.P(), i.s);
  }

  /** After pmemalloc_onactive, leaving the pending stores aside. */
  lemma RecordedFacts(i: Insertion, end: int, t: Tree)
    requires Inserting(i, end, t)
    ensures
      var m1 := i.Reserved_();
      var m2 := ApplyBlocks(m1, i.OnActive());
      && Idle(m2, end) && i.c in AllHeads(m2, end) && State(m2, i.c) == RESERVED && Coalesced(m2, end) && Holds(m2, end, t)
      && Size(m2, i.c) == Size(m1, i.c) && !Live(m2, end, i.c)
      && Off(m2, i.c, 0) == i.link && Ptr(m2, i.c, 0) == i.P() && Off(m2, i.c, 1) == 0 && Off(m2, i.c, 2) == 0
  {
    ReservedFacts(i, end, t);
    var m1 := i.Reserved_();
    RecordKeeps(m1, i.c, 0, i.link, i.P(), end);
    KeepsEnd(m1, i.OnActive(), end);
    var m2 := ApplyBlocks(m1, i.OnActive());
    HoldsSame(m1, m2, end, t);
    TurnedCoalesced(m1, m2, end, i.c);
    assert forall j | 1 <= j < NUM_ON :: Off(m2, i.c, j) == Off(m1, i.c, j);
  }

  /** The new node's cells. */
  ghost predicate FilledNode(m: Mem, p: int, s: seq<int>) {
    && Read(m, p + LEFT) == 0 && Read(m, p + RIGHT) == 0 && Read(m, p + COUNT) == 1
    && (forall j | 0 <= j < |s| :: Read(m, p + STR + j) == s[j]) && Read(m, p + STR + |s|) == 0
  }

  /** The filled memory still holds the old tree; clump c is ready to be linked. */
  lemma FilledFacts(i: Insertion, end: int, t: Tree)
    requires Inserting(i, end, t)
    ensures
      var m3 := Filled(i);
      && Idle(m3, end) && i.c in AllHeads(m3, end) && State(m3, i.c) == RESERVED && Coalesced(m3, end) && Holds(m3, end, t)
      && FIRST <= i.c && Size(m3, i.c) == Size(i.Reserved_(), i.c) && NODE + |i.s| + 1 <= Size(m3, i.c) - CHUNK
      && Off(m3, i.c, 0) == i.link && Ptr(m3, i.c, 0) == i.P() && Off(m3, i.c, 1) == 0 && Off(m3, i.c, 2) == 0
      && FilledNode(m3, i.P(), i.s)
  {
    var m2 := ApplyBlocks(i.Reserved_(), i.OnActive());
    var m3 := Filled(i);
    RecordedFacts(i, end, t);
    FillNodeReads(m2, i.P(), i.s);
    ApplyIsTorn(m2, i.Fill());
    FillFits(i, end, t);
    ScratchHolds(m2, m3, end, i.c, i.Fill(), t);
    SameHeadersRest(m2, m3, end);
    SameHeaderFacts(m2, m3, i.c);
  }

  lemma FillFits(i: Insertion, end: int, t: Tree)
    requires Inserting(i, end, t)
    ensures FIRST <= i.c && NODE + |i.s| + 1 <= Size(i.Reserved_(), i.c) - CHUNK
    ensures forall w | w in i.Fill() :: PayloadCell(ApplyBlocks(i.Reserved_(), i.OnActive()), i.c, w.addr)
  {
    ReservedFacts(i, end, t);
    RecordedFacts(i, end, t);
  }

  lemma SameHeadersRest(m: Mem, n: Mem, end: int)
    requires Idle(m, end) && Coalesced(m, end) && Pool(n, end) && AllHeads(n, end) == AllHeads(m, end)
    requires forall h | h in AllHeads(m, end) :: SameHeader(m, n, h)
    ensures Idle(n, end) && Coalesced(n, end)
  {
    forall h | h in AllHeads(m, end) ensures State(n, h) == State(m, h) && Size(n, h) == Size(m, h) {
      SameHeaderFacts(m, n, h);
    }
    forall h | h in AllHeads(n, end) && State(n, h) == FREE ensures Apart(n, end, h) {
      assert Apart(m, end, h);
      NextHead(m, FIRST, end, h);
    }
  }

  /** The place where the search ended is a word of the static area or of a node. */
  lemma LinkIsLive(m: Mem, end: int, t: Tree, s: CString, link: int)
    requires Holds(m, end, t) && Search(t, ROOT, s) == Absent(link)
    ensures LiveCell(m, end, link) && link != 0
  {
    if t.Node? {
      assert AllLive(m, end, t);
      var o := SearchOwner(m, end, ROOT, t, s, link);
      assert Live(m, end, o - CHUNK);
      HeadFacts(m, end, o - CHUNK);
    }
  }

  lemma CommittedLinks(i: Insertion, end: int, t: Tree)
    requires Inserting(i, end, t)
    ensures
      var m3 := Filled(i);
      var n := Committed(m3, i.c, ACTIVATING);
      && Holds(m3, end, t) && Good(n, end) && Linked(m3, n, end, i.link, i.P(), i.s) && !Live(m3, end, i.c)
      && forall h :: Live(n, end, h) <==> Live(m3, end, h) || h == i.c
  {
    var m3 := Filled(i);
    var n := Committed(m3, i.c, ACTIVATING);
    FilledFacts(i, end, t);
    LinkIsLive(m3, end, t, i.s, i.link);
    assert forall j | Entry(m3, i.c, j) :: j == 0;
    LiveCellsAreNotHeaders(m3, end, i.link);
    CommittedMeaning(m3, i.c, ACTIVATING, end);
    IdleIsGood(m3, end);
    forall x ensures Effect(m3, i.c, 0, x, Read(m3, x)) == if x == i.link then i.P() else Read(m3, x) {
      EffectTail(m3, i.c, x, if i.link == x then i.P() else Read(m3, x));
    }
    CommittedLive(m3, n, end, i.c, i.link);
    CommittedNode(i, m3, n, end);
  }

  /** The clumps that were live differ at most in the link. */
  lemma CommittedLive(m: Mem, n: Mem, end: int, c: int, link: int)
    requires Idle(m, end) && Pool(n, end)
    requires forall h | h in AllHeads(m, end) && h != c :: SameHeader(m, n, h)
    requires forall h | Live(m, end, h) :: Live(n, end, h) && h != c
    requires forall x | !HeaderCell(m, end, x) && x != link :: Final(n, end, x) == Read(m, x)
    ensures OneCell(m, n, end, link)
    ensures forall x | STATIC <= x < STATIC_END && x != link :: Final(n, end, x) == Final(m, end, x)
  {
    IdleIsGood(m, end);
    forall h | Live(m, end, h) ensures SameLinked(m, n, end, h, link) {
      SameHeaderFacts(m, n, h);
      forall x | PayloadCell(m, h, x) && x != link ensures Final(n, end, x) == Final(m, end, x) {
        PayloadsDisjoint(m, end, h, h, x);
      }
    }
    forall x | STATIC <= x < STATIC_END && x != link ensures Final(n, end, x) == Final(m, end, x) {
      LiveCellsAreNotHeaders(m, end, x);
    }
  }

  lemma CommittedNode(i: Insertion, m: Mem, n: Mem, end: int)
    requires Idle(m, end) && Pool(n, end) && i.c in AllHeads(m, end) && State(m, i.c) == RESERVED && FIRST <= i.c
    requires State(n, i.c) == ACTIVATING && Size(n, i.c) == Size(m, i.c) && Live(n, end, i.c)
    requires NODE + |i.s| + 1 <= Size(m, i.c) - CHUNK
    requires LiveCell(m, end, i.link)
    requires forall x | !HeaderCell(m, end, x) :: Final(n, end, x) == if x == i.link then i.P() else Read(m, x)
    requires FilledNode(m, i.P(), i.s)
    ensures NodeAt(n, end, i.P(), i.s, 1) && EmptyList(n, i.c) && Final(n, end, i.link) == i.P() && i.P() != 0
    ensures Final(n, end, i.P() + LEFT) == 0 && Final(n, end, i.P() + RIGHT) == 0
  {
    LiveCellsAreNotHeaders(m, end, i.link);
    forall x | i.P() <= x < i.P() + NODE + |i.s| + 1 ensures Final(n, end, x) == Read(m, x) {
      assert PayloadCell(m, i.c, x);
      UnusedPayload(m, end, i.c, x);
    }
  }

  // ---------------------------------------------------------------------------------------
  // The theorem

  lemma FillFlushed(i: Insertion, end: int, t: Tree)
    requires Inserting(i, end, t)
    ensures forall w | w in i.Fill() :: Flushes(i.P(), Read(Filled(i), i.c) - CHUNK, w.addr)
  {
    FilledFacts(i, end, t);
    HeadFacts(Filled(i), end, i.c);
    FillNodeReads(i.m, i.P(), i.s);
    forall w | w in i.Fill() ensures Flushes(i.P(), Read(Filled(i), i.c) - CHUNK, w.addr) {
      PayloadFlushes(i.c, Read(Filled(i), i.c), w.addr);
    }
  }

  /** Persisting the payload makes the filled memory durable. */
  lemma PayloadPersisted(i: Insertion, end: int, t: Tree)
    requires Inserting(i, end, t)
    ensures Exec(Machine(ApplyBlocks(i.Reserved_(), i.OnActive()), i.Fill()), Persist(i.P(), Read(i.Ready(), i.c) - CHUNK))
         == Machine(Filled(i), [])
  {
    ReadyIsFilled(i);
    FillFlushed(i, end, t);
    FlushAll(i.Fill(), i.P(), Read(Filled(i), i.c) - CHUNK);
  }

  lemma ReserveRuns(i: Insertion, end: int, t: Tree)
    requires Inserting(i, end, t)
    ensures Run(Machine(i.m, []), Ops(i.Reserve())) == Machine(i.Reserved_(), [])
  {
    ReservedFacts(i, end, t);
    CrashIsTornRun(i.m, i.Reserve(), i.m);
  }

  lemma FillRuns(i: Insertion)
    ensures Run(Machine(i.Reserved_(), []), Stores(i.Fill())) == Machine(i.Reserved_(), i.Fill())
  {
    RunStores(Machine(i.Reserved_(), []), i.Fill());
    assert [] + i.Fill() == i.Fill();
  }

  lemma OnActiveRuns(i: Insertion, end: int, t: Tree)
    requires Inserting(i, end, t)
    ensures Run(Machine(i.Reserved_(), i.Fill()), Ops(i.OnActive())) == Machine(ApplyBlocks(i.Reserved_(), i.OnActive()), i.Fill())
  {
    HeadIsAligned(i, end, t);
    RecordFlushes(i.c, 0, i.link, i.P());
    LooseBeside(i, end, t);
    CrashWithLooseStores(i.Reserved_(), i.Fill(), i.OnActive(), i.m);
  }

  lemma HeadIsAligned(i: Insertion, end: int, t: Tree)
    requires Inserting(i, end, t)
    ensures i.c % CHUNK == 0 && FIRST <= i.c
  {
    ReservedFacts(i, end, t);
  }

  lemma ActivateOps(i: Insertion)
    ensures Ops(i.Activate()) == [Persist(i.P(), Read(i.Ready(), i.c) - CHUNK)] + Ops(Commit(i.Ready(), i.c))
  {
    var b := PersistPayload(i.Ready(), i.c);
    OpsAppend([b], Commit(i.Ready(), i.c));
    assert [b][1..] == [] && Ops([b]) == BlockOps(b) + Ops([b][1..]);
  }

  lemma InsertRuns(i: Insertion, end: int, t: Tree)
    requires Inserting(i, end, t)
    ensures Run(Machine(i.m, []), Ops(i.Reserve())) == Machine(i.Reserved_(), [])
    ensures Run(Machine(i.m, []), Ops(i.Reserve()) + Stores(i.Fill())) == Machine(i.Reserved_(), i.Fill())
    ensures Run(Machine(i.m, []), Ops(i.Reserve()) + Stores(i.Fill()) + Ops(i.OnActive()))
         == Machine(ApplyBlocks(i.Reserved_(), i.OnActive()), i.Fill())
  {
    ReserveRuns(i, end, t);
    FillRuns(i);
    OnActiveRuns(i, end, t);
    RunAppend(Machine(i.m, []), Ops(i.Reserve()), Stores(i.Fill()));
    RunAppend(Machine(i.m, []), Ops(i.Reserve()) + Stores(i.Fill()), Ops(i.OnActive()));
  }

  /** Activation: the old tree until the commit, the new one from then on. */
  lemma ActivateHolds(i: Insertion, end: int, t: Tree, k: nat, img: Mem)
    requires Inserting(i, end, t) && k <= |Ops(Commit(Filled(i), i.c))|
    requires CrashAfter(Machine(Filled(i), []), Ops(Commit(Filled(i), i.c)), k, img)
    ensures Holds(img, end, t) || Holds(img, end, Insert(t, i.s, i.P()))
  {
    var m3 := Filled(i);
    CommitHolds(i, end, t);
    HeadFacts(m3, end, i.c);
    CommitFlushes(m3, i.c);
    assert CrashPoint(m3, Commit(m3, i.c), img);
    CrashPointsAreTornRuns(m3, Commit(m3, i.c), img);
    CommitEither(m3, i.c, end);
    if SameLogic(m3, img, end) {
      HoldsSame(m3, img, end, t);
    } else {
      HoldsSame(Committed(m3, i.c, ACTIVATING), img, end, Insert(t, i.s, i.P()));
    }
  }
}
