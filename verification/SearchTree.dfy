/**
 The abstract search tree of the binarytree example: strings with counts, ordered by strcmp.
 Each node remembers the pool offset of its clump's payload.
 */
module SearchTree {

  /** A C string without its terminating zero: bytes compare as unsigned characters. */
  type CString = s: seq<int> | forall i | 0 <= i < |s| :: 0 < s[i] < 256

  /** strcmp: only the sign of the result matters. */
  function Compare(s: seq<int>, t: seq<int>): int {
    if s == [] && t == [] then 0
    else if s == [] then -1
    else if t == [] then 1
    else if s[0] != t[0] then s[0] - t[0]
    else Compare(s[1..], t[1..])
  }

  /** They agree on the first i bytes; then s ends, or has the smaller byte. */
  ghost predicate PrecedesAt(s: seq<int>, t: seq<int>, i: int) {
    0 <= i <= |s| && i < |t| && s[..i] == t[..i] && (i == |s| || s[i] < t[i])
  }

  /** The order of a dictionary. */
  ghost predicate Precedes(s: seq<int>, t: seq<int>) {
    exists i :: PrecedesAt(s, t, i)
  }

  lemma PrecedesTail(s: seq<int>, t: seq<int>)
    requires s != [] && t != [] && s[0] == t[0]
    ensures Precedes(s, t) <==> Precedes(s[1..], t[1..])
  {
    if i :| PrecedesAt(s, t, i) {
      assert s[1..][..i - 1] == s[..i][1..] && t[1..][..i - 1] == t[..i][1..];
      assert PrecedesAt(s[1..], t[1..], i - 1);
    }
    if i :| PrecedesAt(s[1..], t[1..], i) {
      assert s[..i + 1] == [s[0]] + s[1..][..i] && t[..i + 1] == [t[0]] + t[1..][..i];
      assert PrecedesAt(s, t, i + 1);
    }
  }

  lemma PrefixHead(s: seq<int>, i: int)
    requires 0 < i <= |s|
    ensures s[..i][0] == s[0]
  {
  }

  lemma HeadDecides(s: seq<int>, t: seq<int>)
    requires s != [] && t != [] && s[0] != t[0]
    ensures Precedes(s, t) <==> s[0] < t[0]
  {
    if s[0] < t[0] { assert PrecedesAt(s, t, 0); }
    if i :| PrecedesAt(s, t, i) {
      if i > 0 {
        PrefixHead(s, i);
        PrefixHead(t, i);
      }
    }
  }

  /** strcmp gives the order of a dictionary. */
  lemma {:induction false} CompareOrders(s: seq<int>, t: seq<int>)
    ensures Compare(s, t) < 0 <==> Precedes(s, t)
  {
    if s == [] || t == [] {
      if t != [] { assert PrecedesAt(s, t, 0); }
    } else if s[0] != t[0] {
      HeadDecides(s, t);
    } else {
      CompareOrders(s[1..], t[1..]);
      PrecedesTail(s, t);
    }
  }

  lemma {:induction false} CompareZero(s: seq<int>, t: seq<int>)
    ensures Compare(s, t) == 0 <==> s == t
  {
    if s != [] && t != [] && s[0] == t[0] {
      CompareZero(s[1..], t[1..]);
      assert s == [s[0]] + s[1..] && t == [t[0]] + t[1..];
    }
  }

  lemma {:induction false} CompareFlip(s: seq<int>, t: seq<int>)
    ensures Compare(s, t) < 0 <==> Compare(t, s) > 0
  {
    if s != [] && t != [] && s[0] == t[0] {
      CompareFlip(s[1..], t[1..]);
    }
  }

  lemma {:induction false} CompareTrans(s: seq<int>, t: seq<int>, u: seq<int>)
    requires Compare(s, t) < 0 && Compare(t, u) < 0
    ensures Compare(s, u) < 0
  {
    if s != [] && t != [] && u != [] && s[0] == t[0] && t[0] == u[0] {
      CompareTrans(s[1..], t[1..], u[1..]);
    }
  }

  const COUNT_LIMIT := 0x1_0000_0000 // an unsigned count wraps here

  datatype Tree = Leaf | Node(p: int, s: CString, count: int, left: Tree, right: Tree)

  ghost function Nodes(t: Tree): set<int> {
    match t
    case Leaf => {}
    case Node(p, _, _, l, r) => {p} + Nodes(l) + Nodes(r)
  }

  ghost predicate Distinct(t: Tree) {
    match t
    case Leaf => true
    case Node(p, _, _, l, r) =>
      p !in Nodes(l) && p !in Nodes(r) && Nodes(l) !! Nodes(r) && Distinct(l) && Distinct(r)
  }

  ghost function Keys(t: Tree): set<CString> {
    match t
    case Leaf => {}
    case Node(_, s, _, l, r) => {s} + Keys(l) + Keys(r)
  }

  ghost predicate Sorted(t: Tree) {
    match t
    case Leaf => true
    case Node(_, s, _, l, r) =>
      && Sorted(l) && Sorted(r)
      && (forall k | k in Keys(l) :: Compare(k, s) < 0)
      && (forall k | k in Keys(r) :: Compare(s, k) < 0)
  }

  /** The strings in the tree with their counts. */
  ghost function Counts(t: Tree): (m: map<CString, int>)
    ensures m.Keys == Keys(t)
  {
    match t
    case Leaf => map[]
    case Node(_, s, n, l, r) => Counts(l) + Counts(r) + map[s := n]
  }

  // ---------------------------------------------------------------------------------------
  // Insertion

  /** Where the search for s ends: at the null link `link`, or at the node with payload p. */
  datatype Spot = Absent(link: int) | Present(p: int)

  const LEFT := 0
  const RIGHT := 8

  function Search(t: Tree, a: int, s: CString): Spot {
    match t
    case Leaf => Absent(a)
    case Node(p, k, _, l, r) =>
      var diff := Compare(s, k);
      if diff == 0 then Present(p) else if diff < 0 then Search(l, p + LEFT, s) else Search(r, p + RIGHT, s)
  }

  /** The tree after inserting s, with its node at p if it was absent. */
  function Insert(t: Tree, s: CString, p: int): Tree {
    match t
    case Leaf => Node(p, s, 1, Leaf, Leaf)
    case Node(q, k, n, l, r) =>
      var diff := Compare(s, k);
      if diff == 0 then Node(q, k, (n + 1) % COUNT_LIMIT, l, r)
      else if diff < 0 then Node(q, k, n, Insert(l, s, p), r)
      else Node(q, k, n, l, Insert(r, s, p))
  }

  lemma {:induction false} InsertSorted(t: Tree, s: CString, p: int)
    requires Sorted(t)
    ensures Sorted(Insert(t, s, p)) && Keys(Insert(t, s, p)) == Keys(t) + {s}
  {
    match t {
      case Leaf =>
      case Node(q, k, n, l, r) =>
        CompareZero(s, k);
        CompareFlip(k, s);
        CompareFlip(s, k);
        if Compare(s, k) < 0 {
          InsertSorted(l, s, p);
        } else if Compare(s, k) > 0 {
          InsertSorted(r, s, p);
        }
    }
  }

  /** A string smaller (larger) than the root is not in the right (left) subtree. */
  lemma OtherSide(t: Tree, s: CString)
    requires t.Node? && Sorted(t)
    ensures Compare(s, t.s) <= 0 ==> s !in Keys(t.right)
    ensures Compare(s, t.s) >= 0 ==> s !in Keys(t.left)
  {
    CompareZero(s, t.s);
    CompareFlip(s, t.s);
    CompareFlip(t.s, s);
    CompareZero(t.s, t.s);
  }

  function Bumped(m: map<CString, int>, s: CString): int {
    if s in m then (m[s] + 1) % COUNT_LIMIT else 1
  }

  function Join(a: map<CString, int>, b: map<CString, int>, k: CString, n: int): map<CString, int> {
    a + b + map[k := n]
  }

  lemma JoinLeft(a: map<CString, int>, b: map<CString, int>, k: CString, n: int, s: CString)
    requires s != k && s !in b
    ensures Join(a[s := Bumped(a, s)], b, k, n) == Join(a, b, k, n)[s := Bumped(Join(a, b, k, n), s)]
  {
    var v := Bumped(a, s);
    assert Bumped(Join(a, b, k, n), s) == v;
    assert Join(a[s := v], b, k, n) == Join(a, b, k, n)[s := v];
  }

  lemma JoinRight(a: map<CString, int>, b: map<CString, int>, k: CString, n: int, s: CString)
    requires s != k && s !in a
    ensures Join(a, b[s := Bumped(b, s)], k, n) == Join(a, b, k, n)[s := Bumped(Join(a, b, k, n), s)]
  {
    var v := Bumped(b, s);
    assert Bumped(Join(a, b, k, n), s) == v;
    assert Join(a, b[s := v], k, n) == Join(a, b, k, n)[s := v];
  }

  lemma JoinRoot(a: map<CString, int>, b: map<CString, int>, k: CString, n: int)
    ensures Join(a, b, k, (n + 1) % COUNT_LIMIT) == Join(a, b, k, n)[k := Bumped(Join(a, b, k, n), k)]
  {
  }

  ghost predicate BumpsOnly(t: Tree, u: Tree, s: CString) {
    Counts(u) == Counts(t)[s := Bumped(Counts(t), s)]
  }

  lemma BumpLeft(t: Tree, u: Tree, s: CString)
    requires t.Node? && Sorted(t) && Compare(s, t.s) < 0 && BumpsOnly(t.left, u, s)
    ensures BumpsOnly(t, t.(left := u), s)
  {
    CompareZero(s, t.s);
    OtherSide(t, s);
    JoinLeft(Counts(t.left), Counts(t.right), t.s, t.count, s);
  }

  lemma BumpRight(t: Tree, u: Tree, s: CString)
    requires t.Node? && Sorted(t) && Compare(s, t.s) > 0 && BumpsOnly(t.right, u, s)
    ensures BumpsOnly(t, t.(right := u), s)
  {
    CompareZero(s, t.s);
    OtherSide(t, s);
    JoinRight(Counts(t.left), Counts(t.right), t.s, t.count, s);
  }

  lemma BumpRoot(t: Tree)
    requires t.Node?
    ensures BumpsOnly(t, t.(count := (t.count + 1) % COUNT_LIMIT), t.s)
  {
    JoinRoot(Counts(t.left), Counts(t.right), t.s, t.count);
  }

  /** Insertion changes the counts only at s. */
  lemma {:induction false} InsertCounts(t: Tree, s: CString, p: int)
    requires Sorted(t)
    ensures BumpsOnly(t, Insert(t, s, p), s)
  {
    if t == Leaf {
      assert Counts(Insert(t, s, p)) == map[s := 1];
    } else if Compare(s, t.s) < 0 {
      InsertCounts(t.left, s, p);
      BumpLeft(t, Insert(t.left, s, p), s);
    } else if Compare(s, t.s) > 0 {
      InsertCounts(t.right, s, p);
      BumpRight(t, Insert(t.right, s, p), s);
    } else {
      CompareZero(s, t.s);
      BumpRoot(t);
    }
  }

  lemma {:induction false} InsertNodes(t: Tree, a: int, s: CString, p: int)
    requires Distinct(t)
    ensures match Search(t, a, s)
            case Absent(link) =>
              && Nodes(Insert(t, s, p)) == Nodes(t) + {p}
              && (link == a || link - LEFT in Nodes(t) || link - RIGHT in Nodes(t))
              && (p !in Nodes(t) ==> Distinct(Insert(t, s, p)))
            case Present(q) => Nodes(Insert(t, s, p)) == Nodes(t) && q in Nodes(t) && Distinct(Insert(t, s, p))
  {
    match t {
      case Leaf =>
      case Node(q, k, n, l, r) =>
        if Compare(s, k) < 0 {
          InsertNodes(l, q + LEFT, s, p);
        } else if Compare(s, k) > 0 {
          InsertNodes(r, q + RIGHT, s, p);
        }
    }
  }

  lemma {:induction false} SearchFinds(t: Tree, a: int, s: CString)
    requires Sorted(t)
    ensures Search(t, a, s).Present? <==> s in Keys(t)
  {
    match t {
      case Leaf =>
      case Node(p, k, _, l, r) =>
        CompareZero(s, k);
        OtherSide(t, s);
        if Compare(s, k) < 0 {
          SearchFinds(l, p + LEFT, s);
        } else if Compare(s, k) > 0 {
          SearchFinds(r, p + RIGHT, s);
        }
    }
  }

  // ---------------------------------------------------------------------------------------
  // Walking

  ghost function InOrder(t: Tree): seq<(CString, int)> {
    match t
    case Leaf => []
    case Node(_, s, n, l, r) => InOrder(l) + [(s, n)] + InOrder(r)
  }

  /** A walk lists the entries of the map, each once, in the strict order of a dictionary. */
  lemma WalkIsSorted(t: Tree)
    requires Sorted(t)
    ensures forall i, j | 0 <= i < j < |InOrder(t)| :: Precedes(InOrder(t)[i].0, InOrder(t)[j].0)
    ensures forall e :: e in InOrder(t) <==> e.0 in Counts(t) && Counts(t)[e.0] == e.1
  {
    WalkAscends(t);
    forall i, j | 0 <= i < j < |InOrder(t)| ensures Precedes(InOrder(t)[i].0, InOrder(t)[j].0) {
      CompareOrders(InOrder(t)[i].0, InOrder(t)[j].0);
    }
  }

  lemma {:induction false} WalkAscends(t: Tree)
    requires Sorted(t)
    ensures forall i, j | 0 <= i < j < |InOrder(t)| :: Compare(InOrder(t)[i].0, InOrder(t)[j].0) < 0
    ensures forall e :: e in InOrder(t) <==> e.0 in Counts(t) && Counts(t)[e.0] == e.1
  {
    match t {
      case Leaf =>
      case Node(_, s, n, l, r) =>
        WalkAscends(l);
        WalkAscends(r);
        WalkEntries(t);
        forall i | 0 <= i < |InOrder(l)| ensures Compare(InOrder(l)[i].0, s) < 0 {
          assert InOrder(l)[i] in InOrder(l);
        }
        forall j | 0 <= j < |InOrder(r)| ensures Compare(s, InOrder(r)[j].0) < 0 {
          assert InOrder(r)[j] in InOrder(r);
        }
        JoinSorted(InOrder(l), (s, n), InOrder(r));
    }
  }

  lemma JoinSorted(a: seq<(CString, int)>, e: (CString, int), b: seq<(CString, int)>)
    requires forall i, j | 0 <= i < j < |a| :: Compare(a[i].0, a[j].0) < 0
    requires forall i, j | 0 <= i < j < |b| :: Compare(b[i].0, b[j].0) < 0
    requires forall i | 0 <= i < |a| :: Compare(a[i].0, e.0) < 0
    requires forall j | 0 <= j < |b| :: Compare(e.0, b[j].0) < 0
    ensures var w := a + [e] + b; forall i, j | 0 <= i < j < |w| :: Compare(w[i].0, w[j].0) < 0
  {
    var w := a + [e] + b;
    forall i, j | 0 <= i < j < |w| ensures Compare(w[i].0, w[j].0) < 0 {
      var k := |a| + 1;
      assert w[i] == if i < |a| then a[i] else if i == |a| then e else b[i - k];
      assert w[j] == if j < |a| then a[j] else if j == |a| then e else b[j - k];
      if i < |a| < j {
        CompareTrans(a[i].0, e.0, b[j - k].0);
      }
    }
  }

  lemma WalkEntries(t: Tree)
    requires t.Node? && Sorted(t)
    requires forall e :: e in InOrder(t.left) <==> e.0 in Counts(t.left) && Counts(t.left)[e.0] == e.1
    requires forall e :: e in InOrder(t.right) <==> e.0 in Counts(t.right) && Counts(t.right)[e.0] == e.1
    ensures forall e :: e in InOrder(t) <==> e.0 in Counts(t) && Counts(t)[e.0] == e.1
  {
    forall k | k in Keys(t.left) && k in Keys(t.right) ensures false {
      CompareTrans(k, t.s, k);
      CompareZero(k, k);
    }
    CompareZero(t.s, t.s);
    forall e ensures e in InOrder(t) <==> e in InOrder(t.left) || e == (t.s, t.count) || e in InOrder(t.right) {}
  }

  // ---------------------------------------------------------------------------------------
  // Pruning

  /** u is t with some subtrees cut off. */
  ghost predicate Pruned(u: Tree, t: Tree) {
    u == Leaf || (u.Node? && t.Node? && u.p == t.p && u.s == t.s && u.count == t.count
                  && Pruned(u.left, t.left) && Pruned(u.right, t.right))
  }

  lemma {:induction false} PrunedSelf(t: Tree)
    ensures Pruned(t, t)
  {
    if t.Node? {
      PrunedSelf(t.left);
      PrunedSelf(t.right);
    }
  }

  lemma {:induction false} PrunedSorted(u: Tree, t: Tree)
    requires Pruned(u, t) && Sorted(t) && Distinct(t)
    ensures Sorted(u) && Distinct(u) && Nodes(u) <= Nodes(t) && Keys(u) <= Keys(t)
  {
    if u.Node? {
      PrunedSorted(u.left, t.left);
      PrunedSorted(u.right, t.right);
    }
  }

  /** What is left has a map that is a restriction of the old one. */
  lemma {:induction false} PrunedCounts(u: Tree, t: Tree)
    requires Pruned(u, t) && Sorted(t) && Distinct(t)
    ensures forall k | k in Counts(u) :: k in Counts(t) && Counts(u)[k] == Counts(t)[k]
  {
    if u.Node? {
      PrunedCounts(u.left, t.left);
      PrunedCounts(u.right, t.right);
      PrunedSorted(u.left, t.left);
      PrunedSorted(u.right, t.right);
      CompareZero(t.s, t.s);
      forall k | k in Counts(u) ensures k in Counts(t) && Counts(u)[k] == Counts(t)[k] {
        OtherSide(t, k);
      }
    }
  }
}
