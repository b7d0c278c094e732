/**
 Sorted bucket chains, as add_node_op and delete_node of the striped table walk them.
 */
module Chains {
  import opened Options

  datatype Pair = Pair(key: int, val: int)

  type Chain = seq<Pair>

  ghost predicate Sorted(c: Chain) {
    forall i, j | 0 <= i < j < |c| :: c[i].key < c[j].key
  }

  function Find(c: Chain, k: int): Option<int> {
    if c == [] then None else if c[0].key == k then Some(c[0].val) else Find(c[1..], k)
  }

  /** The chain after add_node_op; unchanged if the key is there. */
  function Insert(c: Chain, p: Pair): Chain {
    if c == [] || p.key < c[0].key then [p] + c
    else if c[0].key == p.key then c
    else [c[0]] + Insert(c[1..], p)
  }

  /** The chain after delete_node; unchanged if the key is not there. */
  function Remove(c: Chain, k: int): Chain {
    if c == [] || k < c[0].key then c
    else if c[0].key == k then c[1..]
    else [c[0]] + Remove(c[1..], k)
  }

  /** Every key of the chain leaves remainder r modulo n. */
  ghost predicate Residue(c: Chain, r: int, n: int)
    requires 0 < n
  {
    forall p | p in c :: 0 <= p.key && p.key % n == r
  }

  lemma SortedTail(c: Chain)
    requires Sorted(c) && c != []
    ensures Sorted(c[1..]) && forall p | p in c[1..] :: c[0].key < p.key
  {
  }

  lemma SortedCons(p: Pair, c: Chain)
    requires Sorted(c) && forall x | x in c :: p.key < x.key
    ensures Sorted([p] + c)
  {
  }

  lemma {:induction false} FindAbove(c: Chain, k: int)
    requires forall p | p in c :: k < p.key
    ensures Find(c, k) == None
  {
    if c != [] {
      assert c[0] in c;
      FindAbove(c[1..], k);
    }
  }

  lemma {:induction false} FindIn(c: Chain, k: int)
    ensures Find(c, k).Some? ==> Pair(k, Find(c, k).value) in c
    ensures Find(c, k) == None ==> forall p | p in c :: p.key != k
  {
    if c != [] {
      FindIn(c[1..], k);
      assert c == [c[0]] + c[1..];
    }
  }

  lemma {:induction false} InsertElements(c: Chain, p: Pair)
    ensures forall x | x in Insert(c, p) :: x in c || x == p
    ensures forall x | x in c :: x in Insert(c, p)
  {
    if c != [] && c[0].key < p.key {
      InsertElements(c[1..], p);
      assert c == [c[0]] + c[1..];
    }
  }

  lemma {:induction false} InsertSorted(c: Chain, p: Pair)
    requires Sorted(c)
    ensures Sorted(Insert(c, p))
  {
    if c != [] {
      SortedTail(c);
      if c[0].key < p.key {
        InsertSorted(c[1..], p);
        InsertElements(c[1..], p);
        SortedCons(c[0], Insert(c[1..], p));
      } else if p.key < c[0].key {
        assert forall x | x in c :: x == c[0] || x in c[1..];
        SortedCons(p, c);
      }
    }
  }

  /** Inserting a new pair changes what is found under its key and nothing else. */
  lemma {:induction false} InsertFinds(c: Chain, p: Pair, k: int)
    requires Sorted(c)
    ensures Find(Insert(c, p), k) == if k == p.key && Find(c, p.key) == None then Some(p.val) else Find(c, k)
  {
    if c != [] {
      SortedTail(c);
      if c[0].key < p.key {
        InsertFinds(c[1..], p, k);
        assert Insert(c, p)[1..] == Insert(c[1..], p);
      } else if p.key < c[0].key {
        FindAbove(c, p.key);
        assert Insert(c, p)[1..] == c;
      }
    }
  }

  lemma {:induction false} InsertPresent(c: Chain, p: Pair)
    requires Sorted(c) && Find(c, p.key).Some?
    ensures Insert(c, p) == c
  {
    SortedTail(c);
    if c[0].key < p.key {
      InsertPresent(c[1..], p);
      assert c == [c[0]] + c[1..];
    } else if p.key < c[0].key {
      FindAbove(c, p.key);
    }
  }

  lemma {:induction false} RemoveAbsent(c: Chain, k: int)
    requires Find(c, k) == None
    ensures Remove(c, k) == c
  {
    if c != [] && c[0].key < k {
      RemoveAbsent(c[1..], k);
      assert c == [c[0]] + c[1..];
    }
  }

  lemma {:induction false} RemoveElements(c: Chain, k: int)
    ensures forall x | x in Remove(c, k) :: x in c
  {
    if c != [] && c[0].key < k {
      RemoveElements(c[1..], k);
      assert c == [c[0]] + c[1..];
    }
  }

  lemma {:induction false} RemoveSorted(c: Chain, k: int)
    requires Sorted(c)
    ensures Sorted(Remove(c, k))
  {
    if c != [] {
      SortedTail(c);
      if c[0].key < k {
        RemoveSorted(c[1..], k);
        RemoveElements(c[1..], k);
        SortedCons(c[0], Remove(c[1..], k));
      }
    }
  }

  lemma {:induction false} RemoveFinds(c: Chain, k: int, x: int)
    requires Sorted(c)
    ensures Find(Remove(c, k), x) == if x == k then None else Find(c, x)
  {
    if c != [] {
      SortedTail(c);
      if c[0].key < k {
        RemoveFinds(c[1..], k, x);
        assert Remove(c, k)[1..] == Remove(c[1..], k);
      } else {
        FindAbove(c[1..], c[0].key);
        if k < c[0].key { FindAbove(c, k); }
      }
    }
  }
}
