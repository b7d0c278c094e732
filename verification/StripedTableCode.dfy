/**
 The striped table used by one thread, in place: add, delete, find and resize over the array of
 linked lists, with the element count that decides when to resize.
 */
module StripedTableCode {
  import opened Options
  import opened Arithmetic
  import opened BucketArray
  import opened ChainList
  import opened Chains
  import opened StripedTable

  const RETRIES := 2

  lemma {:induction false} InsertLength(c: Chain, p: Pair)
    requires Sorted(c)
    ensures |Insert(c, p)| == if Find(c, p.key) == None then |c| + 1 else |c|
  {
    if c != [] {
      SortedTail(c);
      if c[0].key < p.key {
        InsertLength(c[1..], p);
      } else if p.key < c[0].key {
        FindAbove(c, p.key);
      }
    }
  }

  lemma {:induction false} RemoveLength(c: Chain, k: int)
    requires Sorted(c)
    ensures |Remove(c, k)| == if Find(c, k).Some? then |c| - 1 else |c|
  {
    if c != [] {
      SortedTail(c);
      if c[0].key < k {
        RemoveLength(c[1..], k);
      } else if k < c[0].key {
        FindAbove(c, k);
      }
    }
  }

  /** The policy: more than four to a bucket. */
  lemma LoadFactor(n: nat, d: int)
    requires 0 < d
    ensures n / d > 4 <==> n >= 5 * d
  {
    var q := n / d;
    assert n == d * q + n % d;
    if q >= 5 {
      Distribute(d, q, 5);
      if q > 5 { MulAtLeast(d, q - 5); }
    } else {
      Distribute(d, 5, q);
      MulAtLeast(d, 5 - q);
    }
  }

  /** The chains of the table are those of the new and the old bucket array. */
  ghost predicate Holding(bucket: seq<List>, oldBucket: seq<List>, tb: Table, parts: set<object>)
    reads parts
  {
    |oldBucket| == |tb.rest| && Holds(bucket + oldBucket, tb.buckets + tb.rest, parts)
  }

  lemma OneArray(bucket: seq<List>, tb: Table, parts: set<object>)
    requires tb.rest == []
    ensures Holding(bucket, [], tb, parts) <==> Holds(bucket, tb.buckets, parts)
  {
    assert bucket + [] == bucket && tb.buckets + tb.rest == tb.buckets;
  }

  lemma AddValues(tb: Table, k: int, v: int)
    requires TableInv(tb) && tb.rest == [] && 0 <= k
    ensures
      var c := tb.buckets[k % tb.size];
      var r := WithChain(tb, k % tb.size, Insert(c, Pair(k, v)));
      && TableInv(r) && Find(c, k) == Get(tb, k) && (Get(tb, k).Some? ==> r == tb)
      && Count(r.buckets) == Count(tb.buckets) + (if Get(tb, k) == None then 1 else 0)
      && forall x :: Get(r, x) == if x == k && Get(tb, k) == None then Some(v) else Get(tb, x)
  {
    var b := k % tb.size;
    var c := tb.buckets[b];
    assert Bucket(c, b, tb.size);
    AddGets(tb, k, v);
    InsertLength(c, Pair(k, v));
    CountUpdate(tb.buckets, b, Insert(c, Pair(k, v)));
    if Find(c, k).Some? { InsertPresent(c, Pair(k, v)); }
  }

  lemma DeleteValues(tb: Table, k: int)
    requires TableInv(tb) && tb.rest == [] && 0 <= k
    ensures
      var c := tb.buckets[k % tb.size];
      var r := WithChain(tb, k % tb.size, Remove(c, k));
      && TableInv(r) && Find(c, k) == Get(tb, k) && (Get(tb, k) == None ==> r == tb)
      && Count(r.buckets) == Count(tb.buckets) - (if Get(tb, k).Some? then 1 else 0)
      && forall x :: Get(r, x) == if x == k then None else Get(tb, x)
  {
    var b := k % tb.size;
    var c := tb.buckets[b];
    assert Bucket(c, b, tb.size);
    DeleteGets(tb, k);
    RemoveLength(c, k);
    CountUpdate(tb.buckets, b, Remove(c, k));
    if Find(c, k) == None { RemoveAbsent(c, k); }
  }

  class HashTable {
    var tableSize: int
    var setSize: int
    var bucket: seq<List>
    /** The buckets a resize has still to empty. */
    var oldBucket: seq<List>
    /** What the lists hold, and the objects they are made of. */
    ghost var table: Table
    ghost var parts: set<object>

    /** The lists hold the table's chains, and the count is exact. */
    ghost predicate Stored()
      reads this, parts
    {
      && TableInv(table) && tableSize == table.size && |oldBucket| == |table.rest|
      && setSize == Count(table.buckets) + Count(table.rest)
      && this !in parts && Holding(bucket, oldBucket, table, parts)
    }

    /** Between calls no resize is under way, and the count is below five per bucket. */
    ghost predicate Valid()
      reads this, parts
    {
      Stored() && table.rest == [] && setSize < 5 * table.size
    }

    /** init_hashtable */
    constructor (size: int)
      requires 0 < size
      ensures Valid() && fresh(parts) && forall k :: Get(table, k) == None
    {
      tableSize, setSize, oldBucket, table := size, 0, [], Fresh(size);
      new;
      bucket, parts := InitBucket(size);
      FreshIsEmpty(size);
      CountEmpty(table.buckets);
      OneArray(bucket, table, parts);
    }

    /** The body of an attempt, under the bucket's lock in the original. */
    method AddNode(k: nat, v: int) returns (ok: bool)
      requires Valid()
      modifies this, parts
      ensures Stored() && table.rest == [] && table.size == old(table).size && fresh(parts - old(parts))
      ensures setSize == old(setSize) + if ok then 1 else 0
      ensures ok <==> Get(old(table), k) == None
      ensures !ok ==> table == old(table)
      ensures forall x :: Get(table, x) == if ok && x == k then Some(v) else Get(old(table), x)
    {
      var b := k % tableSize;
      AddValues(table, k, v);
      var newNode := new Node(k, v);
      WholeTable();
      ok := AddTo(bucket, table.buckets, parts, b, newNode);
      parts := parts + {newNode};
      table := WithChain(table, b, Insert(table.buckets[b], Pair(k, v)));
      if ok {
        setSize := setSize + 1;
      }
      OneArray(bucket, table, parts);
    }

    lemma WholeTable()
      requires Stored() && table.rest == []
      ensures oldBucket == [] && Holds(bucket, table.buckets, parts) && |bucket| == table.size
      ensures forall i | 0 <= i < |bucket| :: Owned(bucket[i], parts)
    {
      OneArray(bucket, table, parts);
    }

    /** True exactly when the key was absent; then the pair has been added. The table doubles exactly
        when there are then five nodes or more to a bucket. */
    method Add(k: nat, v: int) returns (ok: bool)
      requires Valid()
      modifies this, parts
      ensures Valid() && fresh(parts - old(parts))
      ensures ok <==> Get(old(table), k) == None
      ensures forall x :: Get(table, x) == if ok && x == k then Some(v) else Get(old(table), x)
      ensures setSize == old(setSize) + (if ok then 1 else 0)
      ensures table.size == old(table.size) * (if setSize >= 5 * old(table.size) then 2 else 1)
    {
      var retry := RETRIES;
      ok := AddNode(k, v);
      while !ok && retry > 0
        invariant Stored() && table.rest == [] && fresh(parts - old(parts))
        invariant setSize < 5 * table.size + (if ok then 1 else 0) && table.size == old(table.size)
        invariant setSize == old(setSize) + if ok then 1 else 0
        invariant !ok ==> table == old(table)
        invariant ok <==> Get(old(table), k) == None
        invariant forall x :: Get(table, x) == if ok && x == k then Some(v) else Get(old(table), x)
      {
        retry := retry - 1;
        ok := AddNode(k, v);
      }
      LoadFactor(setSize, tableSize);
      if setSize / tableSize > 4 {
        Resize();
      }
    }

    method DeleteNode(k: nat) returns (found: Option<int>)
      requires Valid()
      modifies this, parts
      ensures Valid() && parts == old(parts) && found == Get(old(table), k) && (found == None ==> table == old(table))
      ensures setSize == old(setSize) - (if found.Some? then 1 else 0) && table.size == old(table.size)
      ensures forall x :: Get(table, x) == if x == k then None else Get(old(table), x)
    {
      var b := k % tableSize;
      DeleteValues(table, k);
      WholeTable();
      found := DeleteFrom(bucket, table.buckets, parts, b, k);
      table := WithChain(table, b, Remove(table.buckets[b], k));
      if found.Some? {
        setSize := setSize - 1;
      }
      OneArray(bucket, table, parts);
    }

    /** The value that was stored, if any; the key is gone. */
    method Delete(k: nat) returns (found: Option<int>)
      requires Valid()
      modifies this, parts
      ensures Valid() && parts == old(parts) && found == Get(old(table), k)
      ensures forall x :: Get(table, x) == if x == k then None else Get(old(table), x)
      ensures setSize == old(setSize) - (if found.Some? then 1 else 0) && table.size == old(table.size)
    {
      var retry := RETRIES;
      found := DeleteNode(k);
      while found == None && retry > 0
        invariant Valid() && parts == old(parts) && table.size == old(table.size)
        invariant setSize == old(setSize) - if found.Some? then 1 else 0
        invariant found == Get(old(table), k) && (found == None ==> table == old(table))
        invariant forall x :: Get(table, x) == if x == k then None else Get(old(table), x)
      {
        retry := retry - 1;
        found := DeleteNode(k);
      }
    }

    /** True exactly when the key is stored. */
    method FindKey(k: nat) returns (found: bool)
      requires Valid()
      ensures found <==> Get(table, k).Some?
    {
      var b := k % tableSize;
      WholeTable();
      assert Owned(bucket[b], parts);
      found := bucket[b].FindNode(k);
    }

    /** Twice the buckets, the same map and count. */
    method Resize()
      requires Stored() && table.rest == [] && setSize <= 5 * table.size
      modifies this, parts
      ensures Valid() && table.size == 2 * old(table.size) && setSize == old(setSize) && fresh(parts - old(parts))
      ensures forall x :: Get(table, x) == Get(old(table), x)
    {
      StartResize();
      var i := 0;
      while i < |oldBucket|
        invariant 0 <= i <= |oldBucket| == old(table.size) && table.size == 2 * old(table.size)
        invariant Stored() && setSize == old(setSize) && fresh(parts - old(parts))
        invariant forall j | 0 <= j < i :: table.rest[j] == []
        invariant forall x :: Get(table, x) == Get(old(table), x)
      {
        MoveChain(i);
        i := i + 1;
      }
      FreeOldBucket();
    }

    /** free_bucket: the old lists are empty. */
    method FreeOldBucket()
      requires Stored() && (forall j | 0 <= j < |table.rest| :: table.rest[j] == []) && setSize < 5 * table.size
      modifies this
      ensures Valid() && parts == old(parts) && table.size == old(table).size && setSize == old(setSize)
      ensures forall x :: Get(table, x) == Get(old(table), x)
    {
      CountEmpty(table.rest);
      SettledKeeps(table);
      FirstArray(bucket, oldBucket, table.buckets, table.rest, parts);
      oldBucket, table := [], Settled(table);
      OneArray(bucket, table, parts);
    }

    /** A new array of twice as many empty buckets. */
    method StartResize()
      requires Stored() && table.rest == []
      modifies this
      ensures Stored() && table == Doubled(old(table)) && setSize == old(setSize) && fresh(parts - old(parts))
      ensures forall x :: Get(table, x) == Get(old(table), x)
    {
      WholeTable();
      DoubledKeeps(table);
      oldBucket := bucket;
      ghost var more;
      bucket, more := InitBucket(tableSize * 2);
      JoinArrays(bucket, oldBucket, Doubled(table).buckets, table.buckets, more, parts);
      parts := parts + more;
      tableSize := tableSize * 2;
      table := Doubled(table);
      CountEmpty(table.buckets);
    }

    method MoveChain(i: int)
      requires Stored() && 0 <= i < |oldBucket|
      modifies this`table, parts
      ensures Stored() && table.size == old(table).size && |table.rest| == |old(table).rest|
      ensures table.rest[i] == [] && forall j | 0 <= j < |table.rest| && j != i :: table.rest[j] == old(table).rest[j]
      ensures forall x :: Get(table, x) == Get(old(table), x)
    {
      ListAt(i);
      var curr := oldBucket[i].First();
      while curr != null
        invariant Stored() && table.size == old(table).size && |table.rest| == |old(table).rest|
        invariant curr == null <==> table.rest[i] == []
        invariant curr != null ==> Pair(curr.key, curr.value) == table.rest[i][0]
        invariant forall j | 0 <= j < |table.rest| && j != i :: table.rest[j] == old(table).rest[j]
        invariant forall x :: Get(table, x) == Get(old(table), x)
        decreases |table.rest[i]|
      {
        MoveOne(i, curr.key % tableSize);
        ListAt(i);
        curr := oldBucket[i].First();
      }
    }

    lemma ListAt(i: int)
      requires Stored() && 0 <= i < |oldBucket|
      ensures Owned(oldBucket[i], parts) && oldBucket[i].chain == table.rest[i]
    {
      assert (bucket + oldBucket)[|bucket| + i] == oldBucket[i];
    }

    /** One turn of the inner loop. */
    method MoveOne(i: int, b: int)
      requires Stored() && 0 <= i < |oldBucket| && table.rest[i] != [] && b == table.rest[i][0].key % table.size
      modifies this`table, parts
      ensures Stored() && table == Moved(old(table), i)
      ensures forall x :: Get(table, x) == Get(old(table), x)
    {
      MovedInv(table, i);
      forall x ensures Get(Moved(table, i), x) == Get(table, x) {
        MovedGets(table, i, x);
      }
      MovedCount(table, i);
      MovedJoined(table, i);
      ghost var all := bucket + oldBucket;
      assert Owned(all[|bucket| + i], parts) && Owned(all[b], parts);
      MoveNode(bucket + oldBucket, table.buckets + table.rest, parts, |bucket| + i, b);
      table := Moved(table, i);
    }
  }

  lemma MovedJoined(tb: Table, i: int)
    requires TableInv(tb) && 0 <= i < |tb.rest| && tb.rest[i] != []
    ensures
      var p, n := tb.rest[i][0], |tb.buckets|;
      var b := p.key % tb.size;
      && 0 <= b < n && Find(tb.buckets[b], p.key) == None
      && (tb.buckets + tb.rest)[n + i := tb.rest[i][1..]][b := Insert(tb.buckets[b], p)] == Moved(tb, i).buckets + Moved(tb, i).rest
  {
    assert Unmoved(tb, i) && tb.rest[i][0] in tb.rest[i];
  }

  lemma MovedCount(tb: Table, i: int)
    requires TableInv(tb) && 0 <= i < |tb.rest| && tb.rest[i] != []
    ensures Count(Moved(tb, i).buckets) + Count(Moved(tb, i).rest) == Count(tb.buckets) + Count(tb.rest)
  {
    var p := tb.rest[i][0];
    var b := p.key % tb.size;
    assert Bucket(tb.rest[i], i, |tb.rest|) && Bucket(tb.buckets[b], b, tb.size) && p in tb.rest[i] && Unmoved(tb, i);
    InsertLength(tb.buckets[b], p);
    CountUpdate(tb.buckets, b, Insert(tb.buckets[b], p));
    CountUpdate(tb.rest, i, tb.rest[i][1..]);
  }
}
