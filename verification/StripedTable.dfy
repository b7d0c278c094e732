/**
 The striped table's buckets as one map: what adding, deleting and moving a node to a table of
 twice the size do to it.
 */
module StripedTable {
  import opened Options
  import opened Arithmetic
  import opened Chains

  /** `rest` holds the chains still to be moved during a resize, and is empty otherwise. */
  datatype Table = Table(size: int, locks: int, buckets: seq<Chain>, rest: seq<Chain>)

  ghost predicate Bucket(c: Chain, r: int, n: int) {
    0 < n && Sorted(c) && Residue(c, r, n)
  }

  /** No key of old chain i has been moved yet. */
  ghost predicate Unmoved(tb: Table, i: int)
    requires 0 <= i < |tb.rest| && 0 < tb.size == |tb.buckets|
  {
    forall p | p in tb.rest[i] :: Find(tb.buckets[p.key % tb.size], p.key) == None
  }

  /** The number of locks divides the number of buckets, every chain is sorted and holds its own
      residue class, and during a resize no key is in two places. */
  ghost predicate TableInv(tb: Table) {
    && 0 < tb.size == |tb.buckets| && 0 < tb.locks && tb.size % tb.locks == 0
    && (forall i | 0 <= i < |tb.buckets| :: Bucket(tb.buckets[i], i, tb.size))
    && (tb.rest != [] ==> 2 * |tb.rest| == tb.size)
    && (forall i | 0 <= i < |tb.rest| :: Bucket(tb.rest[i], i, |tb.rest|) && Unmoved(tb, i))
  }

  /** The value stored under k, wherever the resize has got to. */
  function Get(tb: Table, k: int): Option<int> {
    if tb.size != |tb.buckets| || tb.size <= 0 then None
    else if Find(tb.buckets[k % tb.size], k).Some? then Find(tb.buckets[k % tb.size], k)
    else if tb.rest != [] then Find(tb.rest[k % |tb.rest|], k)
    else None
  }

  function Count(cs: seq<Chain>): nat {
    if cs == [] then 0 else |cs[0]| + Count(cs[1..])
  }

  lemma {:induction false} CountUpdate(cs: seq<Chain>, b: int, c: Chain)
    requires 0 <= b < |cs|
    ensures Count(cs[b := c]) == Count(cs) - |cs[b]| + |c|
  {
    if b > 0 {
      assert cs[b := c][1..] == cs[1..][b - 1 := c];
      CountUpdate(cs[1..], b - 1, c);
    } else {
      assert cs[b := c][1..] == cs[1..];
    }
  }

  lemma {:induction false} CountEmpty(cs: seq<Chain>)
    requires forall i | 0 <= i < |cs| :: cs[i] == []
    ensures Count(cs) == 0
  {
    if cs != [] { CountEmpty(cs[1..]); }
  }

  function Fresh(n: int): Table
    requires 0 < n
  {
    Table(n, n, seq(n, i => []), [])
  }

  lemma FreshIsEmpty(n: int)
    requires 0 < n
    ensures TableInv(Fresh(n)) && forall k :: Get(Fresh(n), k) == None
  {
    assert n % n == 0;
  }

  // ---------------------------------------------------------------------------------------
  // Adding and deleting

  function WithChain(tb: Table, b: int, c: Chain): Table
    requires 0 <= b < |tb.buckets|
  {
    tb.(buckets := tb.buckets[b := c])
  }

  lemma ChainReplaced(tb: Table, b: int, c: Chain)
    requires TableInv(tb) && tb.rest == [] && 0 <= b < tb.size && Bucket(c, b, tb.size)
    ensures TableInv(WithChain(tb, b, c))
    ensures forall x :: Get(WithChain(tb, b, c), x) == if x % tb.size == b then Find(c, x) else Get(tb, x)
  {
  }

  lemma AddGets(tb: Table, k: int, v: int)
    requires TableInv(tb) && tb.rest == [] && 0 <= k
    ensures
      var b := k % tb.size;
      var r := WithChain(tb, b, Insert(tb.buckets[b], Pair(k, v)));
      && TableInv(r)
      && forall x :: Get(r, x) == if x == k && Get(tb, k) == None then Some(v) else Get(tb, x)
  {
    var b := k % tb.size;
    var c := Insert(tb.buckets[b], Pair(k, v));
    assert Bucket(tb.buckets[b], b, tb.size);
    InsertSorted(tb.buckets[b], Pair(k, v));
    InsertElements(tb.buckets[b], Pair(k, v));
    ChainReplaced(tb, b, c);
    forall x ensures Get(WithChain(tb, b, c), x) == if x == k && Get(tb, k) == None then Some(v) else Get(tb, x) {
      InsertFinds(tb.buckets[b], Pair(k, v), x);
    }
  }

  lemma DeleteGets(tb: Table, k: int)
    requires TableInv(tb) && tb.rest == [] && 0 <= k
    ensures
      var b := k % tb.size;
      var r := WithChain(tb, b, Remove(tb.buckets[b], k));
      TableInv(r) && forall x :: Get(r, x) == if x == k then None else Get(tb, x)
  {
    var b := k % tb.size;
    var c := Remove(tb.buckets[b], k);
    assert Bucket(tb.buckets[b], b, tb.size);
    RemoveSorted(tb.buckets[b], k);
    RemoveElements(tb.buckets[b], k);
    ChainReplaced(tb, b, c);
    forall x ensures Get(WithChain(tb, b, c), x) == if x == k then None else Get(tb, x) {
      RemoveFinds(tb.buckets[b], k, x);
    }
  }

  // ---------------------------------------------------------------------------------------
  // Resizing

  /** A fresh bucket array of twice the size; all chains are still to be moved. */
  function Doubled(tb: Table): Table
    requires 0 < tb.size
  {
    Table(tb.size * 2, tb.locks, seq(tb.size * 2, i => []), tb.buckets)
  }

  lemma DoubledKeeps(tb: Table)
    requires TableInv(tb) && tb.rest == []
    ensures TableInv(Doubled(tb)) && forall k :: Get(Doubled(tb), k) == Get(tb, k)
  {
    var r := Doubled(tb);
    assert tb.size == tb.size / tb.locks * tb.locks;
    TwiceDivides(tb.size, tb.locks);
    forall k ensures Get(r, k) == Get(tb, k) {
      assert r.buckets[k % r.size] == [];
    }
  }

  lemma TwiceDivides(n: int, d: int)
    requires 0 < d && n % d == 0
    ensures n * 2 % d == 0
  {
    assert n * 2 == d * (n / d * 2);
    MultipleMod(n / d * 2, d);
  }

  /** Unlink the first node of old chain i and add it to its new bucket. */
  function Moved(tb: Table, i: int): Table
    requires 0 <= i < |tb.rest| && tb.rest[i] != [] && 0 < tb.size == |tb.buckets|
  {
    var p := tb.rest[i][0];
    var b := p.key % tb.size;
    tb.(buckets := tb.buckets[b := Insert(tb.buckets[b], p)], rest := tb.rest[i := tb.rest[i][1..]])
  }

  lemma MovedInv(tb: Table, i: int)
    requires TableInv(tb) && 0 <= i < |tb.rest| && tb.rest[i] != []
    ensures TableInv(Moved(tb, i))
  {
    var r := Moved(tb, i);
    var p := tb.rest[i][0];
    var b := p.key % tb.size;
    assert Bucket(tb.rest[i], i, |tb.rest|) && Bucket(tb.buckets[b], b, tb.size) && p in tb.rest[i];
    SortedTail(tb.rest[i]);
    InsertSorted(tb.buckets[b], p);
    InsertElements(tb.buckets[b], p);
    assert Bucket(r.buckets[b], b, r.size);
    assert Bucket(r.rest[i], i, |r.rest|);
    forall j | 0 <= j < |r.rest| ensures Unmoved(r, j) {
      StillUnmoved(tb, i, j);
    }
  }

  lemma StillUnmoved(tb: Table, i: int, j: int)
    requires TableInv(tb) && 0 <= i < |tb.rest| && tb.rest[i] != [] && 0 <= j < |tb.rest|
    ensures Unmoved(Moved(tb, i), j)
  {
    var r := Moved(tb, i);
    var p := tb.rest[i][0];
    var b := p.key % tb.size;
    assert Unmoved(tb, j) && Bucket(tb.rest[j], j, |tb.rest|) && Bucket(tb.rest[i], i, |tb.rest|) && p in tb.rest[i];
    SortedTail(tb.rest[i]);
    forall x | x in r.rest[j] ensures Find(r.buckets[x.key % r.size], x.key) == None {
      assert x in tb.rest[j] && x.key != p.key;
      assert Bucket(tb.buckets[b], b, tb.size);
      InsertFinds(tb.buckets[b], p, x.key);
    }
  }

  lemma MovedGets(tb: Table, i: int, k: int)
    requires TableInv(tb) && 0 <= i < |tb.rest| && tb.rest[i] != []
    ensures Get(Moved(tb, i), k) == Get(tb, k)
  {
    var p := tb.rest[i][0];
    var b := p.key % tb.size;
    assert Bucket(tb.rest[i], i, |tb.rest|) && Bucket(tb.buckets[b], b, tb.size) && p in tb.rest[i] && Unmoved(tb, i);
    InsertFinds(tb.buckets[b], p, k);
    if k != p.key && k % |tb.rest| == i {
      assert Find(tb.rest[i], k) == Find(tb.rest[i][1..], k);
    }
  }

  /** When every old chain is empty the resize is over. */
  function Settled(tb: Table): Table { tb.(rest := []) }

  lemma SettledKeeps(tb: Table)
    requires TableInv(tb) && forall i | 0 <= i < |tb.rest| :: tb.rest[i] == []
    ensures TableInv(Settled(tb)) && forall k :: Get(Settled(tb), k) == Get(tb, k)
  {
    forall k ensures Get(Settled(tb), k) == Get(tb, k) {
      if tb.rest != [] {
        assert tb.rest[k % |tb.rest|] == [];
      }
    }
  }

  // ---------------------------------------------------------------------------------------
  // Locks

  /** The lock of a bucket is the lock of its keys, whatever the table's size. */
  lemma LockOfKey(tb: Table, k: int)
    requires TableInv(tb) && 0 <= k
    ensures k % tb.size % tb.locks == k % tb.locks
  {
    ModMod(k, tb.size, tb.locks);
  }
}
