/**
 Whole histories of the persistent tree: calls that complete, calls that crash anywhere, and
 recoveries that crash any number of times before one completes.
 */
module TreeRuns {
  import opened PersistentMemory
  import opened Clumps
  import opened PoolLogic
  import opened AllocatorPrograms
  import opened CrashSafety
  import opened RecoveryWalk
  import opened Recovery
  import opened Reservation
  import opened Atomicity
  import opened SearchTree
  import opened PersistentTree
  import opened TreeInsert
  import opened TreeFree
  import opened TreeCrashes

  // ---------------------------------------------------------------------------------------
  // The two operations as programs

  /** count++ and its persist. */
  function Bump(m: Mem, p: int): Block {
    Block([Write(p + COUNT, (Read(m, p + COUNT) + 1) % COUNT_LIMIT)], p + COUNT, 4)
  }

  /** A call; `done` is false where the original stops the program. */
  datatype Program = Program(ops: seq<Op>, done: bool)

  /** tree_insert_subtree on the subtree t linked from cell a. */
  function InsertProgram(m: Mem, end: int, a: int, t: Tree, s: CString): Program {
    match Search(t, a, s)
    case Present(p) => Program(Ops([Bump(m, p)]), true)
    case Absent(link) =>
      match FirstFit(m, FIRST, end, ClumpSize(NODE + |s| + 1))
      case None => Program([], false)
      case Some(c) => Program(Insertion(m, c, link, s).Program(), true)
  }

  datatype Call = InsertString(s: CString) | FreeAll

  function CallProgram(m: Mem, end: int, t: Tree, call: Call): Program {
    match call
    case InsertString(s) => InsertProgram(m, end, ROOT, t, s)
    case FreeAll =>
      var f := FreeTree(m, end, ROOT, t);
      Program(Ops(f.blocks), f.ok)
  }

  lemma BumpRuns(m: Mem, end: int, t: Tree, s: CString, p: int)
    requires Holds(m, end, t) && Rested(m, end) && Search(t, ROOT, s) == Present(p)
    ensures
      var n := Apply(m, Bump(m, p).writes);
      && Run(Machine(m, []), Ops([Bump(m, p)])) == Machine(n, [])
      && Holds(n, end, Insert(t, s, 0)) && Rested(n, end)
  {
    var b := Bump(m, p);
    var n := Apply(m, b.writes);
    ApplyOne(m, b.writes[0]);
    SettledFacts(m, end);
    BumpHolds(m, n, end, t, s, p);
    BumpRests(m, n, end, t, s, p);
    BumpFlushes(m, p);
    CrashIsTornRun(m, [b], m);
    assert [b][1..] == [] && ApplyBlocks(m, [b]) == ApplyBlocks(n, [b][1..]);
  }

  lemma BumpFlushes(m: Mem, p: int)
    ensures SelfFlushing(Bump(m, p)) && forall b | b in [Bump(m, p)] :: SelfFlushing(b)
  {
  }

  lemma BumpRests(m: Mem, n: Mem, end: int, t: Tree, s: CString, p: int)
    requires Holds(m, end, t) && Rested(m, end) && Search(t, ROOT, s) == Present(p)
    requires CellStep(m, n, p + COUNT, (Read(m, p + COUNT) + 1) % COUNT_LIMIT)
    ensures Rested(n, end)
  {
    SettledFacts(m, end);
    InsertNodes(t, ROOT, s, 0);
    NodeSizes(m, end, ROOT, t, p);
    assert Live(m, end, p - CHUNK);
    PayloadsDisjoint(m, end, p - CHUNK, p - CHUNK, p + COUNT);
    HeadersUntouched(m, n, end);
    SameHeadersRest(m, n, end);
    SameHeadersSettled(m, n, end);
  }

  lemma SameHeadersSettled(m: Mem, n: Mem, end: int)
    requires Settled(m, end) && Pool(n, end) && AllHeads(n, end) == AllHeads(m, end)
    requires forall h | h in AllHeads(m, end) :: SameHeader(m, n, h)
    ensures Settled(n, end)
  {
    forall h | h in AllHeads(n, end) ensures State(n, h) == State(m, h) {
      SameHeaderFacts(m, n, h);
    }
  }

  /** A crashed count++ has happened or not. */
  lemma BumpIsAtomic(m: Mem, end: int, t: Tree, s: CString, p: int, img: Mem)
    requires Holds(m, end, t) && Rested(m, end) && Search(t, ROOT, s) == Present(p)
    requires CrashPoint(m, [Bump(m, p)], img)
    ensures Holds(img, end, t) || Holds(img, end, Insert(t, s, 0))
  {
    var b := Bump(m, p);
    SettledFacts(m, end);
    BumpFlushes(m, p);
    CrashPointsAreTornRuns(m, [b], img);
    TornOneBlock(m, b, img);
    ApplyOne(m, b.writes[0]);
    if CellStep(m, img, p + COUNT, (Read(m, p + COUNT) + 1) % COUNT_LIMIT) {
      BumpHolds(m, img, end, t, s, p);
    } else {
      ScratchKeeps(m, img, end);
      HoldsSame(m, img, end, t);
    }
  }

  // ---------------------------------------------------------------------------------------
  // Insertion leaves no reservation behind

  /** Every clump but c is FREE or ACTIVE. */
  ghost predicate SettledBut(m: Mem, end: int, c: int)
    requires Pool(m, end)
  {
    forall h | h in AllHeads(m, end) && h != c :: State(m, h) == FREE || State(m, h) == ACTIVE
  }

  lemma TurnedSettledBut(m: Mem, n: Mem, end: int, c: int)
    requires Pool(m, end) && Turned(m, n, c, end) && SettledBut(m, end, c)
    ensures SettledBut(n, end, c)
  {
    forall h | h in AllHeads(n, end) && h != c ensures State(n, h) == State(m, h) {
      SameHeaderFacts(m, n, h);
    }
  }

  lemma ReservedSettledBut(m: Mem, n: Mem, end: int, c: int, nsize: int)
    requires Settled(m, end) && Reserved(m, n, end, c, nsize)
    ensures SettledBut(n, end, c)
  {
    HeadsTile(m, FIRST, end);
    forall h | h in AllHeads(n, end) && h != c ensures State(n, h) == FREE || State(n, h) == ACTIVE {
      if h in AllHeads(m, end) { SameHeaderFacts(m, n, h); }
    }
  }

  lemma InsertRests(i: Insertion, end: int, t: Tree)
    requires Inserting(i, end, t) && Settled(i.m, end)
    ensures Rested(ApplyBlocks(i.Ready(), i.Activate()), end)
  {
    var m1 := i.Reserved_();
    ReservedFacts(i, end, t);
    ReservedSettledBut(i.m, m1, end, i.c, i.Size_());
    var m2 := ApplyBlocks(m1, i.OnActive());
    RecordKeeps(m1, i.c, 0, i.link, i.P(), end);
    TurnedSettledBut(m1, m2, end, i.c);
    var m3 := Filled(i);
    RecordedFacts(i, end, t);
    FillFits(i, end, t);
    ApplyIsTorn(m2, i.Fill());
    ScratchHolds(m2, m3, end, i.c, i.Fill(), t);
    forall h | h in AllHeads(m3, end) && h != i.c ensures State(m3, h) == State(m2, h) {
      SameHeaderFacts(m2, m3, h);
    }
    CommitHolds(i, end, t);
    CommitEither(m3, i.c, end);
    TurnedSettledBut(m3, ApplyBlocks(m3, Commit(m3, i.c)), end, i.c);
    InsertRunsOn(i, end, t, ApplyBlocks(m3, Commit(m3, i.c)));
    InsertCompletes(i, end, t);
  }

  // ---------------------------------------------------------------------------------------
  // The tree in memory is unique

  lemma SameString(m: Mem, end: int, q: int, s: CString, u: CString)
    requires Pool(m, end)
    requires (forall i | 0 <= i < |s| :: Final(m, end, q + i) == s[i]) && Final(m, end, q + |s|) == 0
    requires (forall i | 0 <= i < |u| :: Final(m, end, q + i) == u[i]) && Final(m, end, q + |u|) == 0
    ensures s == u
  {
    forall i | IndexOf(i, u) ensures i != |s| {
      assert u[i] > 0;
    }
    forall i | IndexOf(i, s) ensures i != |u| {
      assert s[i] > 0;
    }
    assert !IndexOf(|s|, u) && !IndexOf(|u|, s);
  }

  predicate IndexOf(i: int, s: seq<int>) {
    0 <= i < |s|
  }

  lemma {:induction false} RepUnique(m: Mem, end: int, a: int, t: Tree, u: Tree)
    requires Pool(m, end) && Rep(m, end, a, t) && Rep(m, end, a, u)
    ensures t == u
    decreases t
  {
    if t.Node? && u.Node? {
      SameString(m, end, t.p + STR, t.s, u.s);
      RepUnique(m, end, t.p + LEFT, t.left, u.left);
      RepUnique(m, end, t.p + RIGHT, t.right, u.right);
    }
  }

  // ---------------------------------------------------------------------------------------
  // One call, crash or no crash

  datatype Event = Completed(call: Call) | Crashed(call: Call)

  /** Started on a pool image m, the event leaves the pool image n: a completed call, or a crash
      between any two instructions, any number of crashed recoveries and one that completes. */
  ghost predicate Happens(m: Mem, end: int, e: Event, n: Mem) {
    exists t :: Holds(m, end, t) && HappensOn(m, end, t, e, n)
  }

  ghost predicate HappensOn(m: Mem, end: int, t: Tree, e: Event, n: Mem) {
    var p := CallProgram(m, end, t, e.call);
    match e
    case Completed(_) => p.done && Run(Machine(m, []), p.ops) == Machine(n, [])
    case Crashed(_) => exists k: nat, img :: k <= |p.ops| && CrashAfter(Machine(m, []), p.ops, k, img) && Reopened(img, end, n)
  }

  /** What an event does to the map of counts. */
  ghost predicate MapStep(a: map<CString, int>, e: Event, b: map<CString, int>) {
    match e
    case Completed(InsertString(s)) => b == a[s := Bumped(a, s)]
    case Completed(FreeAll) => b == map[]
    case Crashed(InsertString(s)) => b == a || b == a[s := Bumped(a, s)]
    case Crashed(FreeAll) => forall k | k in b :: k in a && b[k] == a[k]
  }

  lemma ReopenedHolds(img: Mem, end: int, t: Tree, n: Mem)
    requires Holds(img, end, t) && Reopened(img, end, n)
    ensures Holds(n, end, t) && Rested(n, end)
  {
    var r: nat, last :| CrashedRecoveries(img, end, r, last) && n == ApplyBlocks(last, Init(last, end));
    RecoveryIsCrashProof(img, end, r, last);
    HoldsSame(img, n, end, t);
  }

  lemma InsertCompleted(m: Mem, end: int, t: Tree, s: CString, n: Mem) returns (u: Tree)
    requires Holds(m, end, t) && Rested(m, end) && HappensOn(m, end, t, Completed(InsertString(s)), n)
    ensures Holds(n, end, u) && Rested(n, end) && Counts(u) == Counts(t)[s := Bumped(Counts(t), s)]
  {
    SettledFacts(m, end);
    match Search(t, ROOT, s) {
      case Present(p) =>
        BumpRuns(m, end, t, s, p);
        InsertCounts(t, s, 0);
        u := Insert(t, s, 0);
      case Absent(link) =>
        var c := FirstFit(m, FIRST, end, ClumpSize(NODE + |s| + 1)).value;
        var i := Insertion(m, c, link, s);
        InsertCompletes(i, end, t);
        InsertRests(i, end, t);
        InsertCounts(t, s, i.P());
        u := Insert(t, s, i.P());
    }
  }

  lemma InsertCrashed(m: Mem, end: int, t: Tree, s: CString, k: nat, img: Mem) returns (u: Tree)
    requires Holds(m, end, t) && Rested(m, end)
    requires
      var p := InsertProgram(m, end, ROOT, t, s);
      k <= |p.ops| && CrashAfter(Machine(m, []), p.ops, k, img)
    ensures Holds(img, end, u) && (Counts(u) == Counts(t) || Counts(u) == Counts(t)[s := Bumped(Counts(t), s)])
  {
    SettledFacts(m, end);
    match Search(t, ROOT, s) {
      case Present(p) =>
        assert CrashPoint(m, [Bump(m, p)], img);
        BumpIsAtomic(m, end, t, s, p, img);
        InsertCounts(t, s, 0);
        u := if Holds(img, end, t) then t else Insert(t, s, 0);
      case Absent(link) =>
        match FirstFit(m, FIRST, end, ClumpSize(NODE + |s| + 1)) {
          case None =>
            NothingIssued(m, end, t, k, img);
            u := t;
          case Some(c) =>
            var i := Insertion(m, c, link, s);
            InsertIsAtomic(i, end, t, k, img);
            InsertCounts(t, s, i.P());
            u := if Holds(img, end, t) then t else Insert(t, s, i.P());
        }
    }
  }

  lemma NothingIssued(m: Mem, end: int, t: Tree, k: nat, img: Mem)
    requires Holds(m, end, t) && k == 0 && CrashAfter(Machine(m, []), [], k, img)
    ensures Holds(img, end, t)
  {
    KeepsNothing(m, end);
    assert TornRun(m, [], img);
    HoldsSame(m, img, end, t);
  }

  lemma FreeCompleted(m: Mem, end: int, t: Tree, n: Mem)
    requires Holds(m, end, t) && Rested(m, end) && HappensOn(m, end, t, Completed(FreeAll), n)
    ensures Holds(n, end, Leaf) && Rested(n, end)
  {
    SettledFacts(m, end);
    FreeEmpties(m, end, t);
  }

  /** Any event takes a pool at rest holding a tree to one at rest holding a tree whose map is
      as promised. */
  lemma EventKeeps(m: Mem, end: int, t: Tree, e: Event, n: Mem) returns (u: Tree)
    requires Holds(m, end, t) && Rested(m, end) && Happens(m, end, e, n)
    ensures Holds(n, end, u) && Rested(n, end) && MapStep(Counts(t), e, Counts(u))
  {
    var t0 :| Holds(m, end, t0) && HappensOn(m, end, t0, e, n);
    RepUnique(m, end, ROOT, t, t0);
    match e {
      case Completed(InsertString(s)) =>
        u := InsertCompleted(m, end, t, s, n);
      case Completed(FreeAll) =>
        FreeCompleted(m, end, t, n);
        u := Leaf;
      case Crashed(call) =>
        var p := CallProgram(m, end, t, call);
        var k: nat, img :| k <= |p.ops| && CrashAfter(Machine(m, []), p.ops, k, img) && Reopened(img, end, n);
        match call {
          case InsertString(s) =>
            u := InsertCrashed(m, end, t, s, k, img);
          case FreeAll =>
            SettledFacts(m, end);
            assert CrashPoint(m, FreeTree(m, end, ROOT, t).blocks, img);
            u := FreeOnlyPrunes(m, end, t, img);
        }
        ReopenedHolds(img, end, u, n);
    }
  }

  // ---------------------------------------------------------------------------------------
  // Whole histories

  /** ms[i + 1] is what event es[i] leaves of ms[i], from a freshly created pool on. */
  ghost predicate History(total: int, ms: seq<Mem>, es: seq<Event>) {
    && MIN_POOL <= total && |ms| == |es| + 1 && ms[0] == FreshPool(total)
    && forall i | 0 <= i < |es| :: Happens(ms[i], LastClump(total), es[i], ms[i + 1])
  }

  lemma FreshHolds(total: int)
    requires MIN_POOL <= total
    ensures Holds(FreshPool(total), LastClump(total), Leaf) && Rested(FreshPool(total), LastClump(total))
  {
    FreshPoolTiles(total);
    HeadsTile(FreshPool(total), FIRST, LastClump(total));
  }

  /** At rest every clump that is not free is a node of the tree: nothing has leaked. */
  ghost predicate NoLeak(m: Mem, end: int, t: Tree) {
    && Pool(m, end)
    && forall h :: h in AllHeads(m, end) && State(m, h) != FREE <==> h + CHUNK in Nodes(t)
  }

  ghost predicate Sound(m: Mem, end: int, t: Tree) {
    Holds(m, end, t) && Rested(m, end) && NoLeak(m, end, t)
  }

  /** The trees ts explain the images ms, and their maps change as the events say. */
  ghost predicate Explains(end: int, ms: seq<Mem>, es: seq<Event>, ts: seq<Tree>) {
    && |ts| == |ms| == |es| + 1 && ts[0] == Leaf
    && (forall i | 0 <= i < |ts| :: Sound(ms[i], end, ts[i]))
    && (forall i | 0 <= i < |es| :: MapStep(Counts(ts[i]), es[i], Counts(ts[i + 1])))
  }

  /**
   Over every history of completed and crashed calls, the pool at rest always holds a search
   tree whose nodes are all the clumps in use, and its map of counts changes as the calls say:
   completed calls have their full effect, a crashed insertion its full effect or none, and a
   crashed tree_free only removes entries.
   */
  lemma {:induction false} HistoriesKeepTheTree(total: int, ms: seq<Mem>, es: seq<Event>) returns (ts: seq<Tree>)
    requires History(total, ms, es)
    ensures Explains(LastClump(total), ms, es, ts)
    decreases |es|
  {
    var end := LastClump(total);
    if es == [] {
      FreshHolds(total);
      HoldsWithoutLeak(ms[0], end, Leaf);
      ts := [Leaf];
    } else {
      var last := |es| - 1;
      var ms0, es0 := ms[..last + 1], es[..last];
      HistoryPrefix(total, ms, es);
      var before := HistoriesKeepTheTree(total, ms0, es0);
      assert Sound(ms0[last], end, before[last]);
      var u := EventKeeps(ms[last], end, before[last], es[last], ms[last + 1]);
      HoldsWithoutLeak(ms[last + 1], end, u);
      ts := before + [u];
      ExplainsMore(end, ms, es, before, u);
    }
  }

  lemma HistoryPrefix(total: int, ms: seq<Mem>, es: seq<Event>)
    requires History(total, ms, es) && es != []
    ensures History(total, ms[..|es|], es[..|es| - 1])
  {
    var ms0, es0 := ms[..|es|], es[..|es| - 1];
    forall i | 0 <= i < |es0| ensures Happens(ms0[i], LastClump(total), es0[i], ms0[i + 1]) {
      assert Happens(ms[i], LastClump(total), es[i], ms[i + 1]);
    }
  }

  lemma ExplainsMore(end: int, ms: seq<Mem>, es: seq<Event>, ts: seq<Tree>, u: Tree)
    requires |ms| == |es| + 1 && es != [] && Explains(end, ms[..|es|], es[..|es| - 1], ts)
    requires Sound(ms[|es|], end, u) && MapStep(Counts(ts[|es| - 1]), es[|es| - 1], Counts(u))
    ensures Explains(end, ms, es, ts + [u])
  {
    var us := ts + [u];
    forall i | 0 <= i < |us| ensures Sound(ms[i], end, us[i]) {
      StillSound(end, ms, es, ts, i);
    }
    forall i | 0 <= i < |es| ensures MapStep(Counts(us[i]), es[i], Counts(us[i + 1])) {
      StillSteps(end, ms, es, ts, i);
    }
  }

  lemma StillSound(end: int, ms: seq<Mem>, es: seq<Event>, ts: seq<Tree>, i: int)
    requires |ms| == |es| + 1 && es != [] && Explains(end, ms[..|es|], es[..|es| - 1], ts)
    ensures 0 <= i < |es| ==> Sound(ms[i], end, ts[i])
  {
    if 0 <= i < |es| {
      assert Sound(ms[..|es|][i], end, ts[i]);
    }
  }

  lemma StillSteps(end: int, ms: seq<Mem>, es: seq<Event>, ts: seq<Tree>, i: int)
    requires |ms| == |es| + 1 && es != [] && Explains(end, ms[..|es|], es[..|es| - 1], ts)
    ensures 0 <= i < |es| - 1 ==> MapStep(Counts(ts[i]), es[i], Counts(ts[i + 1]))
  {
    if 0 <= i < |es| - 1 {
      assert MapStep(Counts(ts[i]), es[..|es| - 1][i], Counts(ts[i + 1]));
    }
  }

  lemma HoldsWithoutLeak(m: Mem, end: int, t: Tree)
    requires Holds(m, end, t) && Rested(m, end)
    ensures NoLeak(m, end, t)
  {
    SettledFacts(m, end);
    HeadsTile(m, FIRST, end);
  }

  // ---------------------------------------------------------------------------------------
  // What the counts count

  /** How often s has been inserted, at least and at most, since the tree was last emptied: a crashed
      insertion may or may not have gone in, a crashed tree_free may have removed s. */
  datatype Bounds = Bounds(least: nat, most: nat)

  function Insertions(es: seq<Event>, s: CString): Bounds {
    if es == [] then Bounds(0, 0)
    else
      var b := Insertions(es[..|es| - 1], s);
      match es[|es| - 1]
      case Completed(InsertString(u)) => if u == s then Bounds(b.least + 1, b.most + 1) else b
      case Crashed(InsertString(u)) => if u == s then Bounds(b.least, b.most + 1) else b
      case Completed(FreeAll) => Bounds(0, 0)
      case Crashed(FreeAll) => Bounds(0, b.most)
  }

  /** The map says that s was inserted d times, modulo the width of an unsigned count. */
  ghost predicate Counted(m: map<CString, int>, s: CString, d: nat) {
    (s in m <==> d > 0) && (s in m ==> m[s] == d % 0x1_0000_0000)
  }

  lemma CountedNext(a: map<CString, int>, s: CString, d: nat)
    requires Counted(a, s, d)
    ensures Counted(a[s := Bumped(a, s)], s, d + 1)
  {
  }

  lemma {:induction false} MapsCount(maps: seq<map<CString, int>>, es: seq<Event>, s: CString) returns (d: nat)
    requires |maps| == |es| + 1 && maps[0] == map[] && forall i | 0 <= i < |es| :: MapStep(maps[i], es[i], maps[i + 1])
    ensures Insertions(es, s).least <= d <= Insertions(es, s).most && Counted(maps[|es|], s, d)
    decreases |es|
  {
    if es == [] {
      d := 0;
    } else {
      var last := |es| - 1;
      d := MapsCount(maps[..|es|], es[..last], s);
      var a, b := maps[last], maps[|es|];
      assert MapStep(a, es[last], b);
      CountedNext(a, s, d);
      match es[last] {
        case Completed(InsertString(u)) => if u == s { d := d + 1; }
        case Completed(FreeAll) => d := 0;
        case Crashed(InsertString(u)) => if u == s && b != a { d := d + 1; }
        case Crashed(FreeAll) => if s !in b { d := 0; }
      }
    }
  }

  /** Over every history, the count of a string in the tree is the number of its insertions since the
      tree was last emptied, modulo the width of the counter. */
  lemma CountsAreInsertions(total: int, ms: seq<Mem>, es: seq<Event>, s: CString) returns (t: Tree, d: nat)
    requires History(total, ms, es)
    ensures Sound(ms[|es|], LastClump(total), t)
    ensures Insertions(es, s).least <= d <= Insertions(es, s).most && Counted(Counts(t), s, d)
  {
    var ts := HistoriesKeepTheTree(total, ms, es);
    d := MapsCount(seq(|ts|, i requires 0 <= i < |ts| => Counts(ts[i])), es, s);
    t := ts[|es|];
  }
}
