/**
 A bucket as the striped table keeps it: a linked list behind a head node, changed in place.
 */
module ChainList {
  import opened Options
  import opened Chains

  class Node {
    var key: int
    var value: int
    var next: Node?

    constructor (k: int, v: int)
      ensures key == k && value == v && next == null
    {
      key, value, next := k, v, null;
    }
  }

  // ---------------------------------------------------------------------------------------
  // Where the walk for a key stops

  ghost predicate StopsAt(c: Chain, k: int, j: int) {
    0 <= j <= |c| && (forall i | 0 <= i < j :: c[i].key < k) && (j < |c| ==> k <= c[j].key)
  }

  predicate Hit(c: Chain, k: int, j: int) {
    0 <= j < |c| && c[j].key == k
  }

  /** The chain without pair j, seen from behind its first pair. */
  lemma UnconsWithout(c: Chain, j: int)
    requires 0 < j < |c|
    ensures c[..j] + c[j + 1..] == [c[0]] + (c[1..][..j - 1] + c[1..][j..])
  {
  }

  /** The chain with p before pair j, seen from behind its first pair. */
  lemma UnconsWith(c: Chain, p: Pair, j: int)
    requires 0 < j <= |c|
    ensures c[..j] + [p] + c[j..] == [c[0]] + (c[1..][..j - 1] + [p] + c[1..][j - 1..])
  {
  }

  lemma {:induction false} FindStop(c: Chain, k: int, j: int)
    requires Sorted(c) && StopsAt(c, k, j)
    ensures Find(c, k) == if Hit(c, k, j) then Some(c[j].val) else None
  {
    if j > 0 {
      SortedTail(c);
      FindStop(c[1..], k, j - 1);
    } else if c != [] && !Hit(c, k, 0) {
      forall p | p in c ensures k < p.key {
        var i :| 0 <= i < |c| && c[i] == p;
        assert c[0].key <= c[i].key;
      }
      FindAbove(c, k);
    }
  }

  lemma {:induction false} InsertStop(c: Chain, p: Pair, j: int)
    requires Sorted(c) && StopsAt(c, p.key, j)
    ensures Insert(c, p) == if Hit(c, p.key, j) then c else c[..j] + [p] + c[j..]
  {
    if j > 0 {
      SortedTail(c);
      InsertStop(c[1..], p, j - 1);
      UnconsWith(c, p, j);
      assert c == [c[0]] + c[1..];
    }
  }

  lemma {:induction false} RemoveStop(c: Chain, k: int, j: int)
    requires Sorted(c) && StopsAt(c, k, j)
    ensures Remove(c, k) == if Hit(c, k, j) then c[..j] + c[j + 1..] else c
  {
    if Hit(c, k, j) {
      RemoveHit(c, k, j);
    } else {
      FindStop(c, k, j);
      RemoveAbsent(c, k);
    }
  }

  lemma {:induction false} RemoveHit(c: Chain, k: int, j: int)
    requires Sorted(c) && Hit(c, k, j)
    ensures Remove(c, k) == c[..j] + c[j + 1..]
  {
    if j == 0 {
      assert c[..0] + c[1..] == c[1..];
    } else {
      SortedTail(c);
      RemoveHit(c[1..], k, j - 1);
      UnconsWithout(c, j);
    }
  }

  // ---------------------------------------------------------------------------------------

  /** What delete_node comes to: reading a field of the null pointer, or a result. */
  datatype Deletion = Faults | Returns(found: Option<int>)

  class List {
    var head: Node
    /** head and the nodes after it, and the pairs those hold. */
    ghost var nodes: seq<Node>
    ghost var chain: Chain

    ghost predicate Valid()
      reads this, nodes
    {
      && |nodes| == |chain| + 1 && nodes[0] == head
      && (forall i, j | 0 <= i < j < |nodes| :: nodes[i] != nodes[j])
      && (forall i | 0 <= i < |nodes| :: At(i))
      && Sorted(chain)
    }

    /** Node i leads to node i + 1, and holds pair i - 1. */
    ghost predicate At(i: int)
      reads this, nodes
      requires 0 <= i < |nodes| == |chain| + 1
    {
      && nodes[i].next == (if i + 1 < |nodes| then nodes[i + 1] else null)
      && (0 < i ==> Pair(nodes[i].key, nodes[i].value) == chain[i - 1])
    }

    /** list_init */
    constructor ()
      ensures Valid() && chain == [] && fresh(nodes)
    {
      var h := new Node(0, 0);
      head := h;
      nodes := [h];
      chain := [];
    }

    /** The loop that moves pred and curr on while curr->key is smaller. */
    method Walk(key: int) returns (pred: Node, curr: Node?, ghost j: int)
      requires Valid()
      ensures StopsAt(chain, key, j) && pred == nodes[j]
      ensures curr == if j + 1 < |nodes| then nodes[j + 1] else null
      ensures curr != null ==> j < |chain| && Pair(curr.key, curr.value) == chain[j]
    {
      pred := head;
      assert At(0);
      curr := pred.next;
      j := 0;
      while curr != null && curr.key < key
        invariant 0 <= j < |nodes| && pred == nodes[j] && curr == (if j + 1 < |nodes| then nodes[j + 1] else null)
        invariant forall i | 0 <= i < j :: chain[i].key < key
        decreases |nodes| - j
      {
        assert At(j + 1);
        pred := curr;
        curr := curr.next;
        j := j + 1;
      }
      if curr != null { assert At(j + 1); }
    }

    /** newNode->next = curr; pred->next = newNode; */
    method LinkAfter(pred: Node, curr: Node?, newNode: Node, ghost j: int)
      requires Valid() && newNode !in nodes && 0 <= j < |nodes| && pred == nodes[j]
      requires curr == if j + 1 < |nodes| then nodes[j + 1] else null
      requires Sorted(chain[..j] + [Pair(newNode.key, newNode.value)] + chain[j..])
      modifies this, pred, newNode
      ensures Valid() && head == old(head) && newNode.key == old(newNode.key) && newNode.value == old(newNode.value)
      ensures chain == old(chain)[..j] + [Pair(newNode.key, newNode.value)] + old(chain)[j..]
      ensures nodes == old(nodes)[..j + 1] + [newNode] + old(nodes)[j + 1..]
    {
      ghost var ns, c, p := nodes, chain, Pair(newNode.key, newNode.value);
      newNode.next := curr;
      pred.next := newNode;
      nodes := ns[..j + 1] + [newNode] + ns[j + 1..];
      chain := c[..j] + [p] + c[j..];
      forall i | 0 <= i < |nodes| ensures At(i) {
        if i <= j {
          assert old(At(i)) && nodes[i] == ns[i];
        } else if i > j + 1 {
          assert old(At(i - 1)) && nodes[i] == ns[i - 1];
        }
      }
    }

    /** pred->next = curr->next; */
    method UnlinkAfter(pred: Node, curr: Node, ghost j: int)
      requires Valid() && 0 <= j < |chain| && pred == nodes[j] && curr == nodes[j + 1]
      requires Sorted(chain[..j] + chain[j + 1..])
      modifies this, pred
      ensures Valid() && head == old(head) && chain == old(chain)[..j] + old(chain)[j + 1..]
      ensures nodes == old(nodes)[..j + 1] + old(nodes)[j + 2..]
    {
      ghost var ns, c := nodes, chain;
      pred.next := curr.next;
      nodes := ns[..j + 1] + ns[j + 2..];
      chain := c[..j] + c[j + 1..];
      assert old(At(j + 1));
      forall i | 0 <= i < |nodes| ensures At(i) {
        if i <= j {
          assert old(At(i)) && nodes[i] == ns[i];
        } else {
          assert old(At(i + 1)) && nodes[i] == ns[i + 1];
        }
      }
    }

    /** add_node_op: false, and nothing changes, if the key is there. */
    method AddNodeOp(newNode: Node) returns (ok: bool)
      requires Valid() && newNode !in nodes
      modifies this, nodes, newNode
      ensures Valid() && head == old(head) && newNode.key == old(newNode.key) && newNode.value == old(newNode.value)
      ensures chain == Insert(old(chain), Pair(newNode.key, newNode.value))
      ensures ok <==> Find(old(chain), newNode.key) == None
      ensures forall n | n in nodes :: n in old(nodes) || (ok && n == newNode)
    {
      ghost var p := Pair(newNode.key, newNode.value);
      var pred, curr, j := Walk(newNode.key);
      FindStop(chain, p.key, j);
      InsertStop(chain, p, j);
      InsertSorted(chain, p);
      if curr == null || newNode.key != curr.key {
        LinkAfter(pred, curr, newNode, j);
        ok := true;
      } else {
        ok := false;
      }
    }

    /** delete_node, testing curr for null before it reads curr->key. */
    method DeleteNode(key: int) returns (found: Option<int>)
      requires Valid()
      modifies this, nodes
      ensures Valid() && head == old(head) && chain == Remove(old(chain), key) && found == Find(old(chain), key)
      ensures forall n | n in nodes :: n in old(nodes)
    {
      var pred, curr, j := Walk(key);
      FindStop(chain, key, j);
      RemoveStop(chain, key, j);
      RemoveSorted(chain, key);
      if curr != null && key == curr.key {
        found := Some(curr.value);
        UnlinkAfter(pred, curr, j);
      } else {
        found := None;
      }
    }

    /** delete_node with its tests in the order they are written: curr->key is read first. */
    method DeleteNodeAsWritten(key: int) returns (outcome: Deletion)
      requires Valid()
      modifies this, nodes
      ensures Valid() && head == old(head)
      ensures outcome == Faults <==> old(chain) != [] && forall p | p in old(chain) :: p.key < key
      ensures outcome == Faults ==> chain == old(chain)
      ensures outcome != Faults ==>
        chain == Remove(old(chain), key) && outcome == Returns(Find(old(chain), key))
    {
      assert At(0);
      if head.next == null {
        return Returns(None);
      }
      var pred, curr, j := Walk(key);
      FindStop(chain, key, j);
      RemoveStop(chain, key, j);
      RemoveSorted(chain, key);
      if curr == null {
        return Faults;
      }
      assert chain[j] in chain;
      if key == curr.key {
        outcome := Returns(Some(curr.value));
        UnlinkAfter(pred, curr, j);
      } else {
        outcome := Returns(None);
      }
    }

    /** find_node */
    method FindNode(key: int) returns (found: bool)
      requires Valid()
      ensures found <==> Find(chain, key).Some?
    {
      var pred, curr, j := Walk(key);
      FindStop(chain, key, j);
      found := curr != null && key == curr.key;
    }

    /** The node after the head node. */
    method First() returns (n: Node?)
      requires Valid()
      ensures n == null <==> chain == []
      ensures n != null ==> Pair(n.key, n.value) == chain[0]
    {
      assert At(0);
      n := head.next;
      if n != null { assert At(1); }
    }

    /** The first node is unlinked, as resize takes nodes off an old bucket. */
    method TakeFirst() returns (n: Node)
      requires Valid() && chain != []
      modifies this, nodes
      ensures Valid() && head == old(head) && chain == old(chain)[1..] && n == old(nodes[1]) && n !in nodes
      ensures n.key == old(chain)[0].key && n.value == old(chain)[0].val
      ensures forall x | x in nodes :: x in old(nodes)
    {
      SortedTail(chain);
      assert At(0) && At(1);
      n := head.next;
      assert chain[..0] + chain[1..] == chain[1..] && nodes[..1] + nodes[2..] == [head] + nodes[2..];
      UnlinkAfter(head, n, 0);
    }
  }

  /** One turn of the loop of resize: the first node of an old bucket is unlinked and added to
      the new bucket that its key selects. */
  method MoveFirst(from: List, into: List)
    requires from != into && from.Valid() && into.Valid() && from.chain != []
    requires forall n | n in from.nodes :: n !in into.nodes
    requires Find(into.chain, from.chain[0].key) == None
    modifies from, into, from.nodes, into.nodes
    ensures from.Valid() && into.Valid()
    ensures from.chain == old(from.chain)[1..] && into.chain == Insert(old(into.chain), old(from.chain)[0])
    ensures forall k :: Find(into.chain, k) == if k == old(from.chain)[0].key then Some(old(from.chain)[0].val) else Find(old(into.chain), k)
    ensures forall n | n in from.nodes :: n !in into.nodes
    ensures forall n | n in from.nodes || n in into.nodes :: n in old(from.nodes) || n in old(into.nodes)
  {
    ghost var p, c := from.chain[0], into.chain;
    assert forall i | 0 <= i < |into.nodes| :: into.nodes[i] !in from.nodes;
    var n := from.TakeFirst();
    assert n in old(from.nodes);
    forall i | 0 <= i < |into.nodes| ensures into.At(i) {
      assert old(into.At(i)) && into.nodes[i] !in old(from.nodes);
    }
    var ok := into.AddNodeOp(n);
    forall k ensures Find(into.chain, k) == if k == p.key then Some(p.val) else Find(c, k) {
      InsertFinds(c, p, k);
    }
  }
}
