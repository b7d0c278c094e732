/**
 The cuckoo hash with probe sets, used by one thread: add with relocation and resizing, delete,
 and membership.
 */
module CuckooHash {
  import opened Options
  import opened Arithmetic
  import opened Chains
  import opened CuckooTables

  const LIMIT := 8
  const MAX_EXPONENT := 16

  function TwoTo(e: nat): int { if e == 0 then 1 else 2 * TwoTo(e - 1) }

  lemma {:induction false} TwoToIsPower(e: nat)
    ensures PowerOfTwo(TwoTo(e))
  {
    if e > 0 {
      TwoToIsPower(e - 1);
      var h := TwoTo(e - 1);
      assert TwoTo(e) == 2 * h && 2 * h % 2 == 0 && 2 * h / 2 == h && 0 < h;
    }
  }

  lemma {:induction false} TwoToAdds(a: nat, b: nat)
    ensures TwoTo(1) == 2 && TwoTo(a + b) == TwoTo(a) * TwoTo(b)
  {
    if a > 0 {
      TwoToAdds(a - 1, b);
      var x, y := TwoTo(a - 1), TwoTo(b);
      assert 2 * (x * y) == 2 * x * y;
    }
  }

  lemma FlatFrom(side: seq<Chain>, j: int, later: Chain)
    requires 0 <= j < |side|
    ensures Flat(side[j..]) + later == side[j] + (Flat(side[j + 1..]) + later)
  {
    assert side[j..][1..] == side[j + 1..];
  }

  // ---------------------------------------------------------------------------------------
  // How far stored keys are from a key

  ghost predicate Near(c: Chain, k: int, bound: int) {
    forall p | p in c :: -bound <= p.key - k <= bound
  }

  lemma {:induction false} ChainBound(c: Chain, k: int) returns (b: nat)
    ensures Near(c, k, b)
  {
    if c == [] {
      b := 0;
    } else {
      b := ChainBound(c[1..], k);
      var d := if c[0].key < k then k - c[0].key else c[0].key - k;
      if b < d { b := d; }
    }
  }

  lemma {:induction false} SideBound(cs: seq<Chain>, k: int) returns (b: nat)
    ensures forall c | c in cs :: Near(c, k, b)
  {
    if cs == [] {
      b := 0;
    } else {
      b := SideBound(cs[1..], k);
      var rest := b;
      var d := ChainBound(cs[0], k);
      if b < d { b := d; }
      forall c | c in cs ensures Near(c, k, b) {
        if c == cs[0] {
          assert Near(c, k, d);
        } else {
          assert c in cs[1..] && Near(c, k, rest);
        }
      }
    }
  }

  ghost predicate Within(tb: Tables, k: int, bound: int)
    requires 0 < tb.size == |tb.t0| == |tb.t1|
  {
    forall x | Get(tb, x).Some? :: -bound <= x - k <= bound
  }

  lemma SomeBound(tb: Tables, cap: int, k: int) returns (b: nat)
    requires TablesInv(tb, cap)
    ensures Within(tb, k, b)
  {
    var b0 := SideBound(tb.t0, k);
    var b1 := SideBound(tb.t1, k);
    b := if b0 < b1 then b1 else b0;
    var bound: int := b;
    forall x | Get(tb, x).Some? ensures -bound <= x - k <= bound {
      FindIn(Bucket(tb, 0, x), x);
      FindIn(Bucket(tb, 1, x), x);
      assert Near(Bucket(tb, 0, x), k, b0) && Near(Bucket(tb, 1, x), k, b1);
    }
  }

  /** Both buckets of an absent key full: some other key of its class is stored, at least the
      table's size away. Since sizes double, this cannot go on for ever. */
  lemma FullClassIsFar(tb: Tables, threshold: int, probe: int, k: int, bound: int)
    requires TablesInv(tb, Cap(threshold, probe)) && 1 <= Cap(threshold, probe) && Get(tb, k) == None
    requires Choose(tb, k, threshold, probe) == None && Within(tb, k, bound)
    ensures tb.size <= bound
  {
    ChooseFits(tb, k, threshold, probe);
    var c := Bucket(tb, 0, k);
    var p := c[0];
    var cap := Cap(threshold, probe);
    assert GoodChain(tb, 0, Hash(0, k, tb.size), cap) && p in c;
    StoredWhereSearched(tb, cap, 0, Hash(0, k, tb.size), p);
    BucketsAreResidueClasses(tb.size, 0, p.key, k);
    CongruentDifference(p.key, k, tb.size);
    FarApart(p.key - k, tb.size);
  }

  lemma FarApart(d: int, n: int)
    requires 0 < n && d != 0 && d % n == 0
    ensures d <= -n || n <= d
  {
    var q := d / n;
    assert d == n * q;
    if q >= 1 { MulAtLeast(n, q); } else if q <= -1 { MulAtLeast(n, -q); Distribute(n, 0, q); }
  }

  /** Tables met one after the other by an add that keeps resizing: sizes double, and the key is
      in none of them. */
  ghost predicate Doublings(ts: seq<Tables>, cap: int, k: int) {
    && ts != [] && (forall i | 0 <= i < |ts| :: TablesInv(ts[i], cap) && Get(ts[i], k) == None)
    && (forall i | 0 <= i < |ts| - 1 :: ts[i + 1].size == 2 * ts[i].size && forall x :: Get(ts[i + 1], x) == Get(ts[i], x))
  }

  lemma {:induction false} SizesGrow(ts: seq<Tables>, cap: int, k: int, bound: int, i: nat)
    requires Doublings(ts, cap, k) && Within(ts[0], k, bound) && i < |ts|
    ensures i < ts[i].size && Within(ts[i], k, bound)
  {
    if i > 0 {
      SizesGrow(ts, cap, k, bound, i - 1);
    }
  }

  /**
   How often an add of an absent key may have to resize: with a positive limit it finds a place
   before the number of resizes reaches the distance of the farthest stored key, and without one it
   never does, however often the table has doubled.
   */
  lemma PlacedExactly(ts: seq<Tables>, threshold: int, probe: int, k: int, bound: nat)
    requires Doublings(ts, Cap(threshold, probe), k) && Within(ts[0], k, bound) && bound < |ts|
    ensures (exists i :: 0 <= i < |ts| && Choose(ts[i], k, threshold, probe).Some?) <==> 1 <= Cap(threshold, probe)
  {
    if 1 <= Cap(threshold, probe) {
      SizesGrow(ts, Cap(threshold, probe), k, bound, bound);
      if Choose(ts[bound], k, threshold, probe) == None {
        FullClassIsFar(ts[bound], threshold, probe, k, bound);
      }
      assert Choose(ts[bound], k, threshold, probe).Some?;
    }
  }

  // ---------------------------------------------------------------------------------------

  /** How an add of an absent key changes the size: not at all, the pair going to the tail of a bucket
      below the threshold, if there is one; to twice as much if a bucket is below the probe size; to at
      least twice as much if neither is. */
  ghost predicate Grown(o: Tables, r: Tables, key: int, val: int, threshold: int, probe: int)
    requires 0 < o.size == |o.t0| == |o.t1|
  {
    var n0, n1 := |Bucket(o, 0, key)|, |Bucket(o, 1, key)|;
    if n0 < threshold then r == Appended(o, 0, Pair(key, val))
    else if n1 < threshold then r == Appended(o, 1, Pair(key, val))
    else if n0 < probe || n1 < probe then r.size == 2 * o.size
    else r.size >= 2 * o.size
  }

  class CuckooTable {
    var tb: Tables
    const probe: int
    const threshold: int

    ghost predicate Valid()
      reads this
    {
      TablesInv(tb, Cap(threshold, probe)) && 1 <= Cap(threshold, probe)
    }

    /** init_hashtable: the size is a power of two, at most 2 to the 16. */
    constructor (size: nat, probeSize: int, thresholdSize: int)
      requires 1 <= Cap(thresholdSize, probeSize)
      ensures Valid() && probe == probeSize && threshold == thresholdSize
      ensures tb.size == TwoTo(if 16 <= size then 16 else size) && forall k :: Get(tb, k) == None
    {
      var s := if MAX_EXPONENT <= size then MAX_EXPONENT else size;
      TwoToIsPower(s);
      EmptyIsEmpty(TwoTo(s), Cap(thresholdSize, probeSize));
      tb := Empty(TwoTo(s));
      probe := probeSize;
      threshold := thresholdSize;
    }

    /** contains_op */
    method Contains(key: int) returns (found: bool)
      requires Valid()
      ensures found <==> Get(tb, key).Some?
    {
      var i := 0;
      found := false;
      while i <= 1 && !found
        invariant 0 <= i <= 2
        invariant found <==> exists j :: 0 <= j < i && Find(Bucket(tb, j, key), key).Some?
      {
        found := Find(Bucket(tb, i, key), key).Some?;
        i := i + 1;
      }
      assert !found ==> i == 2;
      assert Find(Bucket(tb, 0, key), key).Some? || Find(Bucket(tb, 1, key), key).Some? <==> Get(tb, key).Some?;
    }

    /** The value of the key, which is gone afterwards; nothing else changes. */
    method Delete(key: int) returns (found: Option<int>)
      requires Valid()
      modifies this
      ensures Valid() && found == Get(old(tb), key)
      ensures forall x :: Get(tb, x) == if x == key then None else Get(old(tb), x)
    {
      found := Find(Bucket(tb, 0, key), key);
      if found.Some? {
        RemoveKeeps(tb, Cap(threshold, probe), 0, key);
        tb := Removed(tb, 0, key);
      } else {
        found := Find(Bucket(tb, 1, key), key);
        if found.Some? {
          RemoveKeeps(tb, Cap(threshold, probe), 1, key);
          tb := Removed(tb, 1, key);
        }
      }
    }

    // -------------------------------------------------------------------------------------

    /** The loop over one old list. The else branch of the original, an error exit, is not
        reached. */
    method MoveList(list: Chain, ghost o: Tables, ghost later: Chain)
      requires 1 <= Cap(threshold, probe) && Moving(o, tb, list + later, Cap(threshold, probe))
      modifies this
      ensures Moving(o, tb, later, Cap(threshold, probe))
    {
      var i := 0;
      assert list[0..] == list;
      while i < |list|
        invariant 0 <= i <= |list| && Moving(o, tb, list[i..] + later, Cap(threshold, probe))
      {
        ghost var todo := list[i..] + later;
        ResizeAlwaysFits(o, tb, todo, threshold, probe);
        ChooseFits(tb, list[i].key, threshold, probe);
        match Choose(tb, list[i].key, threshold, probe) {
          case Some(side) =>
            MoveStep(o, tb, todo, Cap(threshold, probe), side);
            tb := Appended(tb, side, list[i]);
          case None =>
            assert false;
        }
        assert todo[1..] == list[i + 1..] + later;
        i := i + 1;
      }
      assert list[i..] + later == later;
    }

    method MoveSide(side: seq<Chain>, ghost o: Tables, ghost later: Chain)
      requires 1 <= Cap(threshold, probe) && Moving(o, tb, Flat(side) + later, Cap(threshold, probe))
      modifies this
      ensures Moving(o, tb, later, Cap(threshold, probe))
    {
      var j := 0;
      assert side[0..] == side;
      while j < |side|
        invariant 0 <= j <= |side| && Moving(o, tb, Flat(side[j..]) + later, Cap(threshold, probe))
      {
        FlatFrom(side, j, later);
        MoveList(side[j], o, Flat(side[j + 1..]) + later);
        j := j + 1;
      }
      assert Flat(side[j..]) + later == later;
    }

    /** Twice the buckets, the same map; every node finds a place. */
    method Resize()
      requires Valid()
      modifies this
      ensures Valid() && tb.size == 2 * old(tb).size
      ensures forall k :: Get(tb, k) == Get(old(tb), k)
    {
      var o := tb;
      MovingStarts(o, Cap(threshold, probe));
      tb := Empty(2 * o.size);
      MoveSide(o.t0, o, Flat(o.t1));
      assert Flat(o.t1) + [] == Flat(o.t1);
      MoveSide(o.t1, o, []);
    }

    // -------------------------------------------------------------------------------------

    /** relocate: nodes go from the head of one bucket to the tail of the other of their class. From a
        bucket above the threshold that succeeds exactly when the other is below it to begin with:
        later rounds only carry nodes back and forth between the two. */
    method Relocate(i0: int, h0: int) returns (ok: bool)
      requires Valid() && (i0 == 0 || i0 == 1) && 0 <= h0 < tb.size && Side(tb, i0)[h0] != []
      modifies this
      ensures Valid() && tb.size == old(tb).size
      ensures forall k :: Get(tb, k) == Get(old(tb), k)
      ensures
        var hj := Hash(1 - i0, Side(old(tb), i0)[h0][0].key, tb.size);
        |Side(old(tb), i0)[h0]| > threshold ==> (ok <==> |Side(old(tb), 1 - i0)[hj]| < threshold)
    {
      var i, hi, round := i0, h0, 0;
      ghost var k0, n, high := Side(tb, i0)[h0][0].key, tb.size, |Side(tb, i0)[h0]| > threshold;
      ghost var room0 := |Side(tb, 1 - i0)[Hash(1 - i0, k0, n)]|;
      StoredHere(i0, h0, Side(tb, i0)[h0][0]);
      while round < LIMIT
        invariant Valid() && tb.size == n == old(tb).size && (i == 0 || i == 1) && 0 <= hi < tb.size && Side(tb, i)[hi] != []
        invariant forall k :: Get(tb, k) == Get(old(tb), k)
        invariant hi == Hash(i, k0, n) && (high ==> |Side(tb, i)[hi]| > threshold)
        invariant if round == 0 then |Side(tb, 1 - i)[Hash(1 - i, k0, n)]| == room0
                  else high ==> |Side(tb, 1 - i)[Hash(1 - i, k0, n)]| >= threshold && room0 >= threshold
      {
        var y := Side(tb, i)[hi][0];
        var hj := Hash(1 - i, y.key, tb.size);
        StoredHere(i, hi, y);
        SameOtherBucket(n, i, y.key, k0);
        var room := |Side(tb, 1 - i)[hj]|;
        if room < threshold {
          Shift(i, hi, y, 1 - i);
          return true;
        } else if room < probe {
          Shift(i, hi, y, 1 - i);
          i, hi := 1 - i, hj;
        } else {
          Shift(i, hi, y, i);
          return false;
        }
        round := round + 1;
      }
      return false;
    }

    lemma StoredHere(i: int, h: int, y: Pair)
      requires Valid() && (i == 0 || i == 1) && 0 <= h < tb.size && y in Side(tb, i)[h]
      ensures Hash(i, y.key, tb.size) == h
    {
      assert GoodChain(tb, i, h, Cap(threshold, probe));
    }

    /** Take the head y of bucket hi off table i and add it at the tail of its bucket in table j. */
    method Shift(i: int, hi: int, y: Pair, j: int)
      requires Valid() && (i == 0 || i == 1) && 0 <= hi < tb.size && Side(tb, i)[hi] != [] && y == Side(tb, i)[hi][0]
      requires j == i || (j == 1 - i && |Side(tb, j)[Hash(j, y.key, tb.size)]| < Cap(threshold, probe))
      modifies this
      ensures Valid() && tb.size == old(tb).size && Side(tb, j)[Hash(j, y.key, tb.size)] != []
      ensures forall k :: Get(tb, k) == Get(old(tb), k)
      ensures j != i ==> |Side(tb, i)[hi]| == |Side(old(tb), i)[hi]| - 1
      ensures
        var h := Hash(j, y.key, tb.size);
        j != i ==> |Side(tb, j)[h]| == |Side(old(tb), j)[h]| + 1
    {
      ghost var cap := Cap(threshold, probe);
      assert GoodChain(tb, i, hi, cap) && y in Side(tb, i)[hi];
      StoredWhereSearched(tb, cap, i, hi, y);
      RemoveKeeps(tb, cap, i, y.key);
      tb := Removed(tb, i, y.key);
      AppendKeeps(tb, cap, j, y);
      tb := Appended(tb, j, y);
    }

    // -------------------------------------------------------------------------------------

    /** True exactly when the key was absent; whatever relocation or resizing it takes, the map
        changes by the new pair only. The table keeps its size exactly when one of the two buckets is
        below the threshold; otherwise it doubles, at least once. */
    method Add(key: int, val: int) returns (ok: bool)
      requires Valid()
      modifies this
      ensures Valid()
      ensures ok <==> Get(old(tb), key) == None
      ensures forall k :: Get(tb, k) == if ok && k == key then Some(val) else Get(old(tb), k)
      ensures !ok ==> tb == old(tb)
      ensures ok ==> Grown(old(tb), tb, key, val, threshold, probe)
    {
      ghost var bound := SomeBound(tb, Cap(threshold, probe), key);
      ok := AddWithin(key, val, bound);
    }

    method AddWithin(key: int, val: int, ghost bound: int) returns (ok: bool)
      requires Valid() && Within(tb, key, bound)
      modifies this
      ensures Valid()
      ensures ok <==> Get(old(tb), key) == None
      ensures forall k :: Get(tb, k) == if ok && k == key then Some(val) else Get(old(tb), k)
      ensures !ok ==> tb == old(tb)
      ensures ok ==> Grown(old(tb), tb, key, val, threshold, probe)
      decreases bound + 1 - tb.size
    {
      var present := Contains(key);
      if present { return false; }
      var p := Pair(key, val);
      ChooseFits(tb, key, threshold, probe);
      match Choose(tb, key, threshold, probe) {
        case Some(i) =>
          var relocating := |Bucket(tb, i, key)| >= threshold;
          AppendKeeps(tb, Cap(threshold, probe), i, p);
          tb := Appended(tb, i, p);
          ghost var h := Hash(i, key, tb.size);
          assert Side(tb, i)[h] == Bucket(old(tb), i, key) + [p];
          StoredHere(i, h, Side(tb, i)[h][0]);
          SameOtherBucket(tb.size, i, Side(tb, i)[h][0].key, key);
          if relocating {
            var done := Relocate(i, Hash(i, key, tb.size));
            if !done { Resize(); }
          }
        case None =>
          FullClassIsFar(tb, threshold, probe, key, bound);
          Resize();
          var again := AddWithin(key, val, bound);
      }
      return true;
    }
  }
}
