/**
 An array of bucket lists in the heap, changed one list at a time.
 */
module BucketArray {
  import opened Options
  import opened Chains
  import opened ChainList

  /** A list all of whose parts are among the given objects. */
  ghost predicate Owned(l: List, parts: set<object>)
    reads parts
  {
    l in parts && (forall n | n in l.nodes :: n in parts) && l.Valid()
  }

  ghost predicate Apart(a: List, b: List)
    reads a, b
  {
    a != b && forall n | n in a.nodes :: n !in b.nodes
  }

  /** List i holds chain i, and no two lists share a node. */
  ghost predicate Holds(ls: seq<List>, cs: seq<Chain>, parts: set<object>)
    reads parts
  {
    && |ls| == |cs|
    && (forall i | 0 <= i < |ls| :: Owned(ls[i], parts) && ls[i].chain == cs[i])
    && (forall i, j | 0 <= i < |ls| && 0 <= j < |ls| && i != j :: Apart(ls[i], ls[j]))
  }

  lemma JoinArrays(a: seq<List>, b: seq<List>, ca: seq<Chain>, cb: seq<Chain>, pa: set<object>, pb: set<object>)
    requires Holds(a, ca, pa) && Holds(b, cb, pb) && pa !! pb
    ensures Holds(a + b, ca + cb, pa + pb)
  {
    forall i | 0 <= i < |a + b| ensures Owned((a + b)[i], pa + pb) {
      assert if i < |a| then Owned(a[i], pa) else Owned(b[i - |a|], pb);
    }
    forall i, j | 0 <= i < |a + b| && 0 <= j < |a + b| && i != j ensures Apart((a + b)[i], (a + b)[j]) {
      assert if i < |a| then Owned(a[i], pa) else Owned(b[i - |a|], pb);
      assert if j < |a| then Owned(a[j], pa) else Owned(b[j - |a|], pb);
    }
  }

  lemma FirstArray(a: seq<List>, b: seq<List>, ca: seq<Chain>, cb: seq<Chain>, parts: set<object>)
    requires Holds(a + b, ca + cb, parts) && |a| == |ca|
    ensures Holds(a, ca, parts)
  {
    forall i | 0 <= i < |a| ensures Owned(a[i], parts) && a[i].chain == ca[i] {
      assert (a + b)[i] == a[i] && (ca + cb)[i] == ca[i];
    }
    forall i, j | 0 <= i < |a| && 0 <= j < |a| && i != j ensures Apart(a[i], a[j]) {
      assert Apart((a + b)[i], (a + b)[j]);
    }
  }

  method AddTo(ls: seq<List>, ghost cs: seq<Chain>, ghost parts: set<object>, b: int, newNode: Node) returns (ok: bool)
    requires Holds(ls, cs, parts) && 0 <= b < |ls| && newNode !in parts
    modifies ls[b], ls[b].nodes, newNode
    ensures newNode.key == old(newNode.key) && newNode.value == old(newNode.value)
    ensures Holds(ls, cs[b := Insert(cs[b], Pair(newNode.key, newNode.value))], parts + {newNode})
    ensures ok <==> Find(cs[b], newNode.key) == None
  {
    forall i | 0 <= i < |ls| && i != b ensures Apart(ls[i], ls[b]) && Apart(ls[b], ls[i]) && newNode !in ls[i].nodes {
      assert Owned(ls[i], parts);
    }
    assert Owned(ls[b], parts);
    ok := ls[b].AddNodeOp(newNode);
    forall i | 0 <= i < |ls| && i != b ensures Owned(ls[i], parts + {newNode}) && ls[i].chain == cs[i] && ls[i].nodes == old(ls[i].nodes) {
      assert old(Owned(ls[i], parts));
      forall k | 0 <= k < |ls[i].nodes| ensures ls[i].At(k) {
        assert old(ls[i].At(k)) && ls[i].nodes[k] in old(ls[i].nodes);
      }
    }
  }

  method DeleteFrom(ls: seq<List>, ghost cs: seq<Chain>, ghost parts: set<object>, b: int, key: int) returns (found: Option<int>)
    requires Holds(ls, cs, parts) && 0 <= b < |ls|
    modifies ls[b], ls[b].nodes
    ensures Holds(ls, cs[b := Remove(cs[b], key)], parts) && found == Find(cs[b], key)
  {
    forall i | 0 <= i < |ls| && i != b ensures Apart(ls[i], ls[b]) && Apart(ls[b], ls[i]) {}
    assert Owned(ls[b], parts);
    found := ls[b].DeleteNode(key);
    forall i | 0 <= i < |ls| && i != b ensures Owned(ls[i], parts) && ls[i].chain == cs[i] && ls[i].nodes == old(ls[i].nodes) {
      assert old(Owned(ls[i], parts));
      forall k | 0 <= k < |ls[i].nodes| ensures ls[i].At(k) {
        assert old(ls[i].At(k)) && ls[i].nodes[k] in old(ls[i].nodes);
      }
    }
  }

  /** The first node of list a goes to its place in list b. */
  method MoveNode(ls: seq<List>, ghost cs: seq<Chain>, ghost parts: set<object>, a: int, b: int)
    requires Holds(ls, cs, parts) && 0 <= a < |ls| && 0 <= b < |ls| && a != b && cs[a] != []
    requires Find(cs[b], cs[a][0].key) == None
    modifies ls[a], ls[a].nodes, ls[b], ls[b].nodes
    ensures Holds(ls, cs[a := cs[a][1..]][b := Insert(cs[b], cs[a][0])], parts)
  {
    forall i | 0 <= i < |ls| && i != a ensures Apart(ls[i], ls[a]) && Apart(ls[a], ls[i]) {}
    forall i | 0 <= i < |ls| && i != b ensures Apart(ls[i], ls[b]) && Apart(ls[b], ls[i]) {}
    assert Owned(ls[a], parts) && Owned(ls[b], parts);
    MoveFirst(ls[a], ls[b]);
    forall i | 0 <= i < |ls| && i != a && i != b ensures Owned(ls[i], parts) && ls[i].chain == cs[i] && ls[i].nodes == old(ls[i].nodes) {
      assert old(Owned(ls[i], parts));
      forall k | 0 <= k < |ls[i].nodes| ensures ls[i].At(k) {
        assert old(ls[i].At(k)) && ls[i].nodes[k] in old(ls[i].nodes);
      }
    }
  }

  /** init_bucket */
  method InitBucket(n: int) returns (ls: seq<List>, ghost parts: set<object>)
    requires 0 <= n
    ensures Holds(ls, seq(n, i => []), parts) && fresh(parts)
  {
    ls, parts := [], {};
    for i := 0 to n
      invariant Holds(ls, seq(i, j => []), parts) && fresh(parts)
    {
      var l := new List();
      ls, parts := ls + [l], parts + {l} + set o | o in l.nodes;
    }
  }
}
