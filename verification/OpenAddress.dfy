/**
 The open-addressing hash table: linear probing with tombstones, kept at most four fifths full.
 Equal keys may be added again, so the contents are a bag of pairs.
 */
module OpenAddress {
  import opened Options
  import opened Arithmetic

  datatype Stat = EMP | DEL | OCC

  datatype Slot = Slot(key: int, val: int, stat: Stat)

  const BLANK := Slot(0, 0, EMP)
  const TOMBSTONE := Slot(0, 0, DEL)

  /** hashCode: the i-th slot on the probe path of a key. */
  function Probe(key: int, i: int, n: int): int
    requires 0 < n
  {
    (key + i) % n
  }

  /** Where on the path of the key slot b lies. */
  function Steps(key: int, b: int, n: int): int
    requires 0 < n
  {
    (b - key) % n
  }

  lemma ProbeReaches(key: int, b: int, n: int)
    requires 0 <= b < n
    ensures 0 <= Steps(key, b, n) < n && Probe(key, Steps(key, b, n), n) == b
  {
    var q := (b - key) / n;
    assert b - key == n * q + Steps(key, b, n);
    Distribute(n, 0, q);
    assert key + Steps(key, b, n) == n * (0 - q) + b;
    DivModUnique(key + Steps(key, b, n), n, 0 - q, b);
  }

  lemma ProbeOnce(key: int, i: int, n: int)
    requires 0 <= i < n
    ensures Steps(key, Probe(key, i, n), n) == i
  {
    var q := (key + i) / n;
    assert key + i == n * q + Probe(key, i, n);
    Distribute(n, 0, q);
    assert Probe(key, i, n) - key == n * (0 - q) + i;
    DivModUnique(Probe(key, i, n) - key, n, 0 - q, i);
  }

  // ---------------------------------------------------------------------------------------
  // Contents

  function Held(x: Slot): multiset<(int, int)> {
    if x.stat == OCC then multiset{(x.key, x.val)} else multiset{}
  }

  function Bag(s: seq<Slot>): multiset<(int, int)> {
    if s == [] then multiset{} else Held(s[0]) + Bag(s[1..])
  }

  lemma {:induction false} BagUpdate(s: seq<Slot>, b: int, x: Slot)
    requires 0 <= b < |s|
    ensures Bag(s[b := x]) == Bag(s) - Held(s[b]) + Held(x) && Held(s[b]) <= Bag(s)
  {
    if b > 0 {
      assert s[b := x][1..] == s[1..][b - 1 := x];
      BagUpdate(s[1..], b - 1, x);
    } else {
      assert s[b := x][1..] == s[1..];
    }
  }

  lemma {:induction false} BagSize(s: seq<Slot>)
    ensures |Bag(s)| <= |s|
    ensures (forall b | 0 <= b < |s| :: s[b].stat == OCC) ==> |Bag(s)| == |s|
  {
    if s != [] {
      BagSize(s[1..]);
    }
  }

  lemma {:induction false} BagAppend(s: seq<Slot>, x: Slot)
    ensures Bag(s + [x]) == Bag(s) + Held(x)
  {
    if s != [] {
      assert (s + [x])[1..] == s[1..] + [x];
      BagAppend(s[1..], x);
    }
  }

  lemma {:induction false} BlankBag(s: seq<Slot>)
    requires forall b | 0 <= b < |s| :: s[b].stat == EMP
    ensures Bag(s) == multiset{}
  {
    if s != [] { BlankBag(s[1..]); }
  }

  /** The pairs in the bag are those of the occupied slots. */
  lemma {:induction false} BagHolds(s: seq<Slot>, p: (int, int))
    ensures p in Bag(s) <==> exists b :: 0 <= b < |s| && s[b] == Slot(p.0, p.1, OCC)
  {
    if s != [] {
      BagHolds(s[1..], p);
      if b :| 0 <= b < |s[1..]| && s[1..][b] == Slot(p.0, p.1, OCC) {
        assert s[b + 1] == Slot(p.0, p.1, OCC);
      }
      if b :| 0 <= b < |s| && s[b] == Slot(p.0, p.1, OCC) {
        if b > 0 { assert s[1..][b - 1] == Slot(p.0, p.1, OCC); }
      }
    }
  }

  ghost predicate HasKey(bag: multiset<(int, int)>, key: int) {
    exists v :: (key, v) in bag
  }

  // ---------------------------------------------------------------------------------------
  // Probe paths

  /** Steps 0 to i - 1 of the path meet no empty slot. */
  ghost predicate Unbroken(s: seq<Slot>, key: int, i: int) {
    0 < |s| && forall e | 0 <= e < i :: s[Probe(key, e, |s|)].stat != EMP
  }

  /** No stored key has an empty slot earlier on its path. */
  ghost predicate PathsKept(s: seq<Slot>) {
    0 < |s| && forall b | 0 <= b < |s| && s[b].stat == OCC :: 0 <= s[b].key && Unbroken(s, s[b].key, Steps(s[b].key, b, |s|))
  }

  /** The first i slots of the path do not hold the key. */
  ghost predicate Passed(s: seq<Slot>, key: int, i: int) {
    0 < |s| && forall e | 0 <= e < i :: !Holds(s[Probe(key, e, |s|)], key)
  }

  predicate Holds(x: Slot, key: int) { x.stat == OCC && x.key == key }

  /** A search that stops at an empty slot, or at the end of the path, has missed nothing. */
  lemma SearchMisses(s: seq<Slot>, key: int, i: int)
    requires PathsKept(s) && Passed(s, key, i) && 0 <= i <= |s|
    requires i < |s| ==> s[Probe(key, i, |s|)].stat == EMP
    ensures !HasKey(Bag(s), key)
  {
    forall v ensures (key, v) !in Bag(s) {
      BagHolds(s, (key, v));
      forall b | 0 <= b < |s| ensures s[b] != Slot(key, v, OCC) {
        ProbeReaches(key, b, |s|);
        assert s[b].stat == OCC ==> Unbroken(s, s[b].key, Steps(s[b].key, b, |s|));
      }
    }
  }

  lemma SearchHits(s: seq<Slot>, b: int, key: int)
    requires 0 <= b < |s| && Holds(s[b], key)
    ensures (key, s[b].val) in Bag(s)
  {
    BagHolds(s, (key, s[b].val));
    assert s[b] == Slot(key, s[b].val, OCC);
  }

  lemma KeepsPaths(s: seq<Slot>, b: int, x: Slot, i: int)
    requires PathsKept(s) && 0 <= b < |s| && x.stat != EMP
    requires x.stat == OCC ==> 0 <= x.key && 0 <= i < |s| && b == Probe(x.key, i, |s|) && Unbroken(s, x.key, i)
    ensures PathsKept(s[b := x])
  {
    var r := s[b := x];
    forall c | 0 <= c < |r| && r[c].stat == OCC ensures 0 <= r[c].key && Unbroken(r, r[c].key, Steps(r[c].key, c, |r|)) {
      if c == b {
        ProbeOnce(x.key, i, |s|);
      } else {
        assert Unbroken(s, s[c].key, Steps(s[c].key, c, |s|));
      }
    }
  }

  /** While not every slot is occupied, every probe path meets a free one. */
  lemma PathMeetsFree(s: seq<Slot>, key: int)
    requires 0 < |s| && |Bag(s)| < |s|
    ensures exists e :: 0 <= e < |s| && s[Probe(key, e, |s|)].stat != OCC
  {
    BagSize(s);
    var b :| 0 <= b < |s| && s[b].stat != OCC;
    ProbeReaches(key, b, |s|);
  }

  /** Slot b, found free on the path after i occupied ones, takes the pair. */
  lemma PlaceKeeps(s: seq<Slot>, key: int, val: int, i: int, b: int)
    requires PathsKept(s) && 0 <= key && 0 <= i < |s| && b == Probe(key, i, |s|) && s[b].stat != OCC
    requires forall e | 0 <= e < i :: s[Probe(key, e, |s|)].stat == OCC
    ensures
      var r := s[b := Slot(key, val, OCC)];
      PathsKept(r) && Bag(r) == Bag(s) + multiset{(key, val)} && |Bag(r)| == |Bag(s)| + 1
  {
    BagUpdate(s, b, Slot(key, val, OCC));
    KeepsPaths(s, b, Slot(key, val, OCC), i);
  }

  /** Step i of the path is the first slot that is not occupied. */
  ghost predicate FreeFirst(s: seq<Slot>, key: int, i: int) {
    0 <= i < |s| && s[Probe(key, i, |s|)].stat != OCC && forall e | 0 <= e < i :: s[Probe(key, e, |s|)].stat == OCC
  }

  /** r is s with the pair in the first slot of its path that is not occupied. */
  ghost predicate PutFirst(s: seq<Slot>, key: int, val: int, r: seq<Slot>) {
    exists i :: FreeFirst(s, key, i) && r == s[Probe(key, i, |s|) := Slot(key, val, OCC)]
  }

  /** Step i of the path is the first that holds the key. */
  ghost predicate HeldFirst(s: seq<Slot>, key: int, i: int) {
    0 <= i < |s| && Holds(s[Probe(key, i, |s|)], key) && Passed(s, key, i)
  }

  /** r is s with a tombstone for the first pair on the path that has the key, whose value is v. */
  ghost predicate TookFirst(s: seq<Slot>, key: int, v: int, r: seq<Slot>) {
    exists i :: HeldFirst(s, key, i) && v == s[Probe(key, i, |s|)].val && r == s[Probe(key, i, |s|) := TOMBSTONE]
  }

  // ---------------------------------------------------------------------------------------

  /** The load that policy allows. */
  function Limit(n: int): int { n * 4 / 5 }

  class HashTable {
    var bucket: array<Slot>
    var setSize: int

    ghost predicate Valid()
      reads this, bucket
    {
      PathsKept(bucket[..]) && setSize == |Contents()| <= Limit(bucket.Length)
    }

    ghost function Contents(): multiset<(int, int)>
      reads this, bucket
    {
      Bag(bucket[..])
    }

    constructor (size: int)
      requires 0 < size
      ensures Valid() && Contents() == multiset{} && bucket.Length == size && fresh(bucket)
    {
      bucket := new Slot[size](i => BLANK);
      setSize := 0;
      new;
      BlankBag(bucket[..]);
    }

    /** The probe loop of add, also used by resize: the first slot not occupied takes the pair. */
    method Place(key: nat, val: int)
      requires PathsKept(bucket[..]) && setSize == |Contents()| < bucket.Length
      modifies this`setSize, bucket
      ensures PathsKept(bucket[..]) && setSize == |Contents()| == old(setSize) + 1
      ensures Contents() == old(Contents()) + multiset{(key, val)}
      ensures PutFirst(old(bucket[..]), key, val, bucket[..])
    {
      var b, i := FirstFree(key);
      assert FreeFirst(bucket[..], key, i);
      PlaceKeeps(bucket[..], key, val, i, b);
      ghost var s := bucket[..];
      bucket[b] := Slot(key, val, OCC);
      setSize := setSize + 1;
      assert bucket[..] == s[b := Slot(key, val, OCC)];
    }

    method FirstFree(key: nat) returns (b: int, ghost i: int)
      requires 0 < bucket.Length && |Contents()| < bucket.Length
      ensures 0 <= i < bucket.Length && b == Probe(key, i, bucket.Length) && bucket[b].stat != OCC
      ensures forall e | 0 <= e < i :: bucket[Probe(key, e, bucket.Length)].stat == OCC
    {
      PathMeetsFree(bucket[..], key);
      var k := 0;
      b := Probe(key, k, bucket.Length);
      while bucket[b].stat == OCC
        invariant 0 <= k < bucket.Length && b == Probe(key, k, bucket.Length)
        invariant forall e | 0 <= e < k :: bucket[Probe(key, e, bucket.Length)].stat == OCC
        decreases bucket.Length - k
      {
        k := k + 1;
        b := Probe(key, k, bucket.Length);
      }
      i := k;
    }

    /** Always adds the pair, in the first free slot of its path; the table doubles exactly when more
        than four fifths of the slots would be occupied. */
    method Add(key: nat, val: int) returns (ok: bool)
      requires Valid()
      modifies this, bucket
      ensures Valid() && ok && Contents() == old(Contents()) + multiset{(key, val)}
      ensures
        if 5 * (old(setSize) + 1) > 4 * old(bucket.Length) then bucket.Length == 2 * old(bucket.Length) && fresh(bucket)
        else bucket == old(bucket) && PutFirst(old(bucket[..]), key, val, bucket[..])
    {
      Place(key, val);
      if Limit(bucket.Length) < setSize {
        Resize();
      }
      ok := true;
    }

    method Resize()
      requires PathsKept(bucket[..]) && setSize == |Contents()| <= Limit(bucket.Length) + 1
      modifies this
      ensures Valid() && Contents() == old(Contents()) && bucket.Length == 2 * old(bucket.Length) && fresh(bucket)
      ensures setSize == old(setSize)
    {
      var before := bucket;
      ghost var s := before[..];
      bucket := new Slot[2 * before.Length](i => BLANK);
      BlankBag(bucket[..]);
      setSize := 0;
      var i := 0;
      while i < before.Length
        invariant 0 <= i <= before.Length && before[..] == s && fresh(bucket) && bucket.Length == 2 * before.Length
        invariant PathsKept(bucket[..]) && setSize == |Contents()| && Contents() == Bag(s[..i])
      {
        BagSize(s[..i]);
        BagNext(s, i);
        CopySlot(before[i]);
        i := i + 1;
      }
      assert s[..i] == s;
    }

    /** One turn of the loop of resize. */
    method CopySlot(slot: Slot)
      requires PathsKept(bucket[..]) && setSize == |Contents()| < bucket.Length && (slot.stat == OCC ==> 0 <= slot.key)
      modifies this`setSize, bucket
      ensures PathsKept(bucket[..]) && setSize == |Contents()| && Contents() == old(Contents()) + Held(slot)
    {
      if slot.stat == OCC {
        Place(slot.key, slot.val);
      }
    }

    lemma BagNext(s: seq<Slot>, i: int)
      requires 0 <= i < |s|
      ensures Bag(s[..i + 1]) == Bag(s[..i]) + Held(s[i])
    {
      BagAppend(s[..i], s[i]);
      assert s[..i + 1] == s[..i] + [s[i]];
    }

    /** The probe loop of find and delete. */
    method Search(key: nat) returns (at: Option<int>, ghost i: int)
      requires Valid()
      ensures at == None ==> !HasKey(Contents(), key)
      ensures at.Some? ==> HeldFirst(bucket[..], key, i) && at.value == Probe(key, i, bucket.Length)
    {
      ghost var s := bucket[..];
      var k := 0;
      while k < bucket.Length
        invariant 0 <= k <= bucket.Length && Passed(s, key, k)
      {
        var b := Probe(key, k, bucket.Length);
        if bucket[b].stat == EMP {
          SearchMisses(s, key, k);
          return None, k;
        } else if bucket[b].stat != DEL && bucket[b].key == key {
          return Some(b), k;
        }
        k := k + 1;
      }
      SearchMisses(s, key, k);
      return None, k;
    }

    /** True exactly when some pair has the key. */
    method Find(key: nat) returns (found: bool)
      requires Valid()
      ensures found <==> HasKey(Contents(), key)
    {
      var at, i := Search(key);
      found := at.Some?;
      if found { SearchHits(bucket[..], at.value, key); }
    }

    /** Takes one pair with the key out of the bag, the first on the path, exactly when there is one. */
    method Delete(key: nat) returns (found: Option<int>)
      requires Valid()
      modifies this`setSize, bucket
      ensures Valid() && (found.Some? <==> HasKey(old(Contents()), key))
      ensures found.Some? ==> (key, found.value) in old(Contents()) && Contents() == old(Contents()) - multiset{(key, found.value)}
      ensures found.Some? ==> TookFirst(old(bucket[..]), key, found.value, bucket[..])
      ensures found == None ==> bucket[..] == old(bucket[..])
    {
      ghost var s := bucket[..];
      var at, i := Search(key);
      if at == None { return None; }
      var b := at.value;
      SearchHits(s, b, key);
      found := Some(bucket[b].val);
      bucket[b] := TOMBSTONE;
      setSize := setSize - 1;
      BagUpdate(s, b, TOMBSTONE);
      KeepsPaths(s, b, TOMBSTONE, 0);
      assert bucket[..] == s[b := TOMBSTONE];
    }
  }
}
