/**
 The two tables of the cuckoo hash with probe sets, as one map: odd multipliers and power-of-two
 sizes make the bucket pair of a key serve exactly the key's residue class.
 */
module CuckooTables {
  import opened Options
  import opened Arithmetic
  import opened Chains

  const M0 := 65699
  const M1 := 65701

  datatype Tables = Tables(size: int, t0: seq<Chain>, t1: seq<Chain>)

  /** hashCode0 and hashCode1, reduced to a bucket: the 64-bit wrap of the product does not show
      modulo a power of two. */
  function Hash(i: int, k: int, n: int): int
    requires 0 < n
  {
    k * (if i == 0 then M0 else M1) % n
  }

  function Side(tb: Tables, i: int): seq<Chain> { if i == 0 then tb.t0 else tb.t1 }

  /** get_list */
  function Bucket(tb: Tables, i: int, k: int): Chain
    requires 0 < tb.size == |tb.t0| == |tb.t1|
  {
    Side(tb, i)[Hash(i, k, tb.size)]
  }

  function Get(tb: Tables, k: int): Option<int>
    requires 0 < tb.size == |tb.t0| == |tb.t1|
  {
    if Find(Bucket(tb, 0, k), k).Some? then Find(Bucket(tb, 0, k), k) else Find(Bucket(tb, 1, k), k)
  }

  // ---------------------------------------------------------------------------------------
  // Residue classes

  /** Two keys share a bucket of either table exactly when they are congruent modulo its size. */
  lemma BucketsAreResidueClasses(n: int, i: int, a: int, b: int)
    requires PowerOfTwo(n) && (i == 0 || i == 1)
    ensures Hash(i, a, n) == Hash(i, b, n) <==> a % n == b % n
  {
    var m := if i == 0 then M0 else M1;
    assert (a - b) * m == a * m - b * m;
    CongruentDifference(a * m, b * m, n);
    CongruentDifference(a, b, n);
    if (a - b) * m % n == 0 {
      Cancel(n, m, a - b);
    }
    if (a - b) % n == 0 {
      var z := (a - b) / n;
      assert a - b == n * z;
      assert (a - b) * m == n * (z * m) by { Reorder(n, z, m); }
      MultipleMod(z * m, n);
    }
  }

  /** So whatever bucket one key of a class shares with another, they share the other one too. */
  lemma SameOtherBucket(n: int, i: int, a: int, b: int)
    requires PowerOfTwo(n) && (i == 0 || i == 1) && Hash(i, a, n) == Hash(i, b, n)
    ensures Hash(1 - i, a, n) == Hash(1 - i, b, n)
  {
    BucketsAreResidueClasses(n, i, a, b);
    BucketsAreResidueClasses(n, 1 - i, a, b);
  }

  // ---------------------------------------------------------------------------------------
  // The invariant

  ghost predicate Distinct(c: Chain) {
    forall i, j | 0 <= i < j < |c| :: c[i].key != c[j].key
  }

  ghost predicate GoodChain(tb: Tables, i: int, h: int, cap: int)
    requires 0 < tb.size == |tb.t0| == |tb.t1| && 0 <= h < tb.size
  {
    && Distinct(Side(tb, i)[h]) && |Side(tb, i)[h]| <= cap
    && forall p | p in Side(tb, i)[h] :: Hash(i, p.key, tb.size) == h
  }

  /** No key is in both of its buckets. */
  ghost predicate Once(tb: Tables, k: int)
    requires 0 < tb.size == |tb.t0| == |tb.t1|
  {
    Find(Bucket(tb, 0, k), k) == None || Find(Bucket(tb, 1, k), k) == None
  }

  ghost predicate TablesInv(tb: Tables, cap: int) {
    && PowerOfTwo(tb.size) && 0 < tb.size == |tb.t0| == |tb.t1|
    && (forall h | 0 <= h < tb.size :: GoodChain(tb, 0, h, cap) && GoodChain(tb, 1, h, cap))
    && (forall k :: Once(tb, k))
  }

  /** Every stored pair lies where a search for its key looks, and only there. */
  lemma StoredWhereSearched(tb: Tables, cap: int, i: int, h: int, p: Pair)
    requires TablesInv(tb, cap) && (i == 0 || i == 1) && 0 <= h < tb.size && p in Side(tb, i)[h]
    ensures Get(tb, p.key) == Some(p.val) && Find(Side(tb, i)[h], p.key) == Some(p.val)
  {
    assert GoodChain(tb, i, h, cap) && Once(tb, p.key);
    FindDistinct(Side(tb, i)[h], p);
  }

  lemma {:induction false} FindDistinct(c: Chain, p: Pair)
    requires Distinct(c) && p in c
    ensures Find(c, p.key) == Some(p.val)
  {
    if c[0] != p {
      assert p in c[1..];
      FindDistinct(c[1..], p);
    }
  }

  function WithChain(tb: Tables, i: int, h: int, c: Chain): Tables
    requires 0 <= h < |tb.t0| && 0 <= h < |tb.t1|
  {
    if i == 0 then tb.(t0 := tb.t0[h := c]) else tb.(t1 := tb.t1[h := c])
  }

  lemma {:induction false} FindAppend(c: Chain, d: Chain, k: int)
    ensures Find(c + d, k) == if Find(c, k).Some? then Find(c, k) else Find(d, k)
  {
    if c == [] {
      assert c + d == d;
    } else {
      assert (c + d)[1..] == c[1..] + d;
      FindAppend(c[1..], d, k);
    }
  }

  // ---------------------------------------------------------------------------------------
  // Adding at the tail, deleting

  /** add_node_atTail of a key that is nowhere yet. */
  function Appended(tb: Tables, i: int, p: Pair): Tables
    requires 0 < tb.size == |tb.t0| == |tb.t1|
  {
    WithChain(tb, i, Hash(i, p.key, tb.size), Bucket(tb, i, p.key) + [p])
  }

  lemma AppendKeeps(tb: Tables, cap: int, i: int, p: Pair)
    requires TablesInv(tb, cap) && (i == 0 || i == 1)
    requires Get(tb, p.key) == None && |Bucket(tb, i, p.key)| < cap
    ensures TablesInv(Appended(tb, i, p), cap)
    ensures forall k :: Get(Appended(tb, i, p), k) == if k == p.key then Some(p.val) else Get(tb, k)
  {
    var r := Appended(tb, i, p);
    var h := Hash(i, p.key, tb.size);
    var c := Side(tb, i)[h];
    assert GoodChain(tb, i, h, cap);
    FindIn(c, p.key);
    forall g | 0 <= g < r.size ensures GoodChain(r, 0, g, cap) && GoodChain(r, 1, g, cap) {
      assert GoodChain(tb, 0, g, cap) && GoodChain(tb, 1, g, cap);
    }
    forall k ensures Once(r, k) && Get(r, k) == if k == p.key then Some(p.val) else Get(tb, k) {
      assert Once(tb, k);
      FindAppend(c, [p], k);
      assert [p][1..] == [];
    }
  }

  function Without(c: Chain, k: int): Chain {
    if c == [] then [] else if c[0].key == k then c[1..] else [c[0]] + Without(c[1..], k)
  }

  lemma {:induction false} WithoutFacts(c: Chain, k: int, x: int)
    requires Distinct(c)
    ensures Distinct(Without(c, k)) && (forall p | p in Without(c, k) :: p in c)
    ensures Find(Without(c, k), x) == if x == k then None else Find(c, x)
    ensures |Without(c, k)| == if Find(c, k).Some? then |c| - 1 else |c|
  {
    if c != [] {
      if c[0].key == k {
        FindElsewhere(c, k);
      } else {
        WithoutFacts(c[1..], k, x);
        assert Without(c, k)[1..] == Without(c[1..], k);
        forall j | 0 < j < |Without(c, k)| ensures Without(c, k)[j].key != c[0].key {
          assert Without(c, k)[j] in c[1..];
        }
      }
    }
  }

  lemma FindElsewhere(c: Chain, k: int)
    requires Distinct(c) && c != [] && c[0].key == k
    ensures Find(c[1..], k) == None
  {
    FindIn(c[1..], k);
  }

  /** delete_node on the bucket of table i. */
  function Removed(tb: Tables, i: int, k: int): Tables
    requires 0 < tb.size == |tb.t0| == |tb.t1|
  {
    WithChain(tb, i, Hash(i, k, tb.size), Without(Bucket(tb, i, k), k))
  }

  lemma RemoveKeeps(tb: Tables, cap: int, i: int, k: int)
    requires TablesInv(tb, cap) && (i == 0 || i == 1) && Find(Bucket(tb, i, k), k).Some?
    ensures TablesInv(Removed(tb, i, k), cap) && Get(tb, k) == Find(Bucket(tb, i, k), k)
    ensures forall x :: Get(Removed(tb, i, k), x) == if x == k then None else Get(tb, x)
    ensures |Bucket(Removed(tb, i, k), i, k)| == |Bucket(tb, i, k)| - 1
  {
    var r := Removed(tb, i, k);
    var h := Hash(i, k, tb.size);
    var c := Side(tb, i)[h];
    assert GoodChain(tb, i, h, cap) && Once(tb, k);
    WithoutFacts(c, k, k);
    forall g | 0 <= g < r.size ensures GoodChain(r, 0, g, cap) && GoodChain(r, 1, g, cap) {
      assert GoodChain(tb, 0, g, cap) && GoodChain(tb, 1, g, cap);
    }
    forall x ensures Once(r, x) && Get(r, x) == if x == k then None else Get(tb, x) {
      assert Once(tb, x);
      WithoutFacts(c, k, x);
    }
  }

  // ---------------------------------------------------------------------------------------
  // Where a key may go

  /** The table add and resize put a key in: below the threshold if possible, else below the
      probe size; None where the original stops or asks for a resize. */
  function Choose(tb: Tables, k: int, threshold: int, probe: int): Option<int>
    requires 0 < tb.size == |tb.t0| == |tb.t1|
  {
    if |Bucket(tb, 0, k)| < threshold then Some(0)
    else if |Bucket(tb, 1, k)| < threshold then Some(1)
    else if |Bucket(tb, 0, k)| < probe then Some(0)
    else if |Bucket(tb, 1, k)| < probe then Some(1)
    else None
  }

  function Cap(threshold: int, probe: int): int { if probe < threshold then threshold else probe }

  ghost function KeysOf(c: Chain): set<int> { set p | p in c :: p.key }

  lemma {:induction false} KeysCount(c: Chain)
    requires Distinct(c)
    ensures |KeysOf(c)| == |c|
  {
    if c != [] {
      var n := |c| - 1;
      KeysCount(c[..n]);
      forall p | p in c[..n] ensures p.key != c[n].key {
        var j :| 0 <= j < n && c[..n][j] == p;
        assert c[j].key != c[n].key;
      }
      assert c == c[..n] + [c[n]];
      assert KeysOf(c) == KeysOf(c[..n]) + {c[n].key};
    }
  }

  lemma SubsetCount(a: set<int>, b: set<int>)
    requires a <= b
    ensures |a| <= |b|
  {
    assert b * a == a;
    assert |b - a| == |b| - |b * a|;
  }

  /** The keys stored in the class of k. */
  ghost function ClassKeys(tb: Tables, k: int): set<int>
    requires 0 < tb.size == |tb.t0| == |tb.t1|
  {
    KeysOf(Bucket(tb, 0, k)) + KeysOf(Bucket(tb, 1, k))
  }

  /** They are the stored keys congruent to k. */
  lemma ClassKeysAre(tb: Tables, cap: int, k: int, x: int)
    requires TablesInv(tb, cap)
    ensures x in ClassKeys(tb, k) <==> Get(tb, x).Some? && x % tb.size == k % tb.size
  {
    BucketsAreResidueClasses(tb.size, 0, x, k);
    BucketsAreResidueClasses(tb.size, 1, x, k);
    assert GoodChain(tb, 0, Hash(0, k, tb.size), cap) && GoodChain(tb, 1, Hash(1, k, tb.size), cap);
    assert GoodChain(tb, 0, Hash(0, x, tb.size), cap) && GoodChain(tb, 1, Hash(1, x, tb.size), cap);
    FindIn(Bucket(tb, 0, x), x);
    FindIn(Bucket(tb, 1, x), x);
  }

  lemma ClassCount(tb: Tables, cap: int, k: int)
    requires TablesInv(tb, cap)
    ensures |ClassKeys(tb, k)| == |Bucket(tb, 0, k)| + |Bucket(tb, 1, k)| <= 2 * cap
  {
    var a, b := Bucket(tb, 0, k), Bucket(tb, 1, k);
    assert GoodChain(tb, 0, Hash(0, k, tb.size), cap) && GoodChain(tb, 1, Hash(1, k, tb.size), cap);
    KeysCount(a);
    KeysCount(b);
    forall x | x in KeysOf(a) && x in KeysOf(b) ensures false {
      assert Once(tb, x) && Hash(0, x, tb.size) == Hash(0, k, tb.size) && Hash(1, x, tb.size) == Hash(1, k, tb.size);
      FindIn(a, x);
      FindIn(b, x);
    }
    assert KeysOf(a) !! KeysOf(b);
  }

  // ---------------------------------------------------------------------------------------
  // Resizing

  /** The tables of twice the size hold what has been moved, `todo` what has not. */
  ghost predicate Moving(o: Tables, r: Tables, todo: Chain, cap: int) {
    && TablesInv(o, cap) && TablesInv(r, cap) && r.size == 2 * o.size && Distinct(todo)
    && (forall p | p in todo :: Get(o, p.key) == Some(p.val) && Get(r, p.key) == None)
    && (forall k :: Get(o, k) == if Get(r, k).Some? then Get(r, k) else Find(todo, k))
  }

  /** A class splits when the size doubles, so a key still to be moved finds a place: resize never
      reaches its error exit. */
  lemma ResizeAlwaysFits(o: Tables, r: Tables, todo: Chain, threshold: int, probe: int)
    requires Moving(o, r, todo, Cap(threshold, probe)) && todo != []
    ensures Choose(r, todo[0].key, threshold, probe).Some?
  {
    var cap, k := Cap(threshold, probe), todo[0].key;
    assert todo[0] in todo;
    ClassCount(o, cap, k);
    ClassCount(r, cap, k);
    forall x | x in ClassKeys(r, k) + {k} ensures x in ClassKeys(o, k) {
      ClassShrinks(o, r, todo, cap, k, x);
    }
    NotYetThere(r, cap, k);
    SubsetCount(ClassKeys(r, k) + {k}, ClassKeys(o, k));
    ChooseFits(r, k, threshold, probe);
  }

  lemma ClassShrinks(o: Tables, r: Tables, todo: Chain, cap: int, k: int, x: int)
    requires Moving(o, r, todo, cap) && Get(o, k).Some? && (x in ClassKeys(r, k) || x == k)
    ensures x in ClassKeys(o, k)
  {
    WasThere(o, r, todo, cap, x);
    ClassKeysAre(r, cap, k, x);
    ClassKeysAre(o, cap, k, x);
    if x != k { Coarser(x, k, o.size); }
  }

  lemma WasThere(o: Tables, r: Tables, todo: Chain, cap: int, x: int)
    requires Moving(o, r, todo, cap)
    ensures Get(r, x).Some? ==> Get(o, x).Some?
  {
  }

  lemma Coarser(x: int, k: int, n: int)
    requires 0 < n && x % (2 * n) == k % (2 * n)
    ensures x % n == k % n
  {
    MultipleMod(2, n);
    ModMod(x, 2 * n, n);
    ModMod(k, 2 * n, n);
  }

  lemma NotYetThere(r: Tables, cap: int, k: int)
    requires TablesInv(r, cap) && Get(r, k) == None
    ensures k !in ClassKeys(r, k)
  {
    ClassKeysAre(r, cap, k, k);
  }

  lemma ChooseFits(tb: Tables, k: int, threshold: int, probe: int)
    requires 0 < tb.size == |tb.t0| == |tb.t1|
    ensures match Choose(tb, k, threshold, probe)
            case Some(i) =>
              && (i == 0 || i == 1) && |Bucket(tb, i, k)| < Cap(threshold, probe)
              && (|Bucket(tb, i, k)| >= threshold ==> |Bucket(tb, i, k)| < probe && |Bucket(tb, 1 - i, k)| >= threshold)
              && (i == 1 ==> |Bucket(tb, 0, k)| >= threshold)
            case None => |Bucket(tb, 0, k)| >= Cap(threshold, probe) && |Bucket(tb, 1, k)| >= Cap(threshold, probe)
  {
  }

  lemma MoveStep(o: Tables, r: Tables, todo: Chain, cap: int, i: int)
    requires Moving(o, r, todo, cap) && todo != [] && (i == 0 || i == 1) && |Bucket(r, i, todo[0].key)| < cap
    ensures Moving(o, Appended(r, i, todo[0]), todo[1..], cap)
  {
    var p := todo[0];
    assert p in todo;
    AppendKeeps(r, cap, i, p);
    FindElsewhere(todo, p.key);
    FindIn(todo[1..], p.key);
  }

  /** The chains of a table one after the other. */
  function Flat(cs: seq<Chain>): Chain {
    if cs == [] then [] else cs[0] + Flat(cs[1..])
  }

  /** Chains whose keys hash to b, b + 1, ... */
  ghost predicate Run(cs: seq<Chain>, i: int, n: int, b: int)
    requires 0 < n
  {
    forall j | 0 <= j < |cs| :: Distinct(cs[j]) && forall p | p in cs[j] :: Hash(i, p.key, n) == b + j
  }

  lemma {:induction false} FlatFacts(cs: seq<Chain>, i: int, n: int, b: int, k: int)
    requires 0 < n && Run(cs, i, n, b)
    ensures Distinct(Flat(cs)) && forall p | p in Flat(cs) :: b <= Hash(i, p.key, n) < b + |cs|
    ensures forall p | p in Flat(cs) :: p in cs[Hash(i, p.key, n) - b]
    ensures Find(Flat(cs), k) == if b <= Hash(i, k, n) < b + |cs| then Find(cs[Hash(i, k, n) - b], k) else None
  {
    if cs != [] {
      var c, d := cs[0], cs[1..];
      forall j | 0 <= j < |d| ensures Distinct(d[j]) && forall p: Pair | p in d[j] :: Hash(i, p.key, n) == b + 1 + j {
        assert d[j] == cs[j + 1];
      }
      FlatFacts(d, i, n, b + 1, k);
      FindAppend(c, Flat(d), k);
      JoinDistinct(c, Flat(d));
      FindIn(c, k);
      FindIn(Flat(d), k);
    }
  }

  lemma JoinDistinct(c: Chain, d: Chain)
    requires Distinct(c) && Distinct(d) && forall p, q | p in c && q in d :: p.key != q.key
    ensures Distinct(c + d)
  {
    forall i, j | 0 <= i < j < |c + d| ensures (c + d)[i].key != (c + d)[j].key {
      if i < |c| <= j {
        assert c[i] in c && d[j - |c|] in d;
      }
    }
  }

  function Empty(n: int): Tables
    requires 0 < n
  {
    Tables(n, seq(n, i => []), seq(n, i => []))
  }

  lemma EmptyIsEmpty(n: int, cap: int)
    requires PowerOfTwo(n) && 0 <= cap
    ensures TablesInv(Empty(n), cap) && forall k :: Get(Empty(n), k) == None
  {
    var tb := Empty(n);
    forall h | 0 <= h < n ensures GoodChain(tb, 0, h, cap) && GoodChain(tb, 1, h, cap) {}
    forall k ensures Once(tb, k) && Get(tb, k) == None {}
  }

  /** Both tables, still to be moved. */
  lemma MovingStarts(o: Tables, cap: int)
    requires TablesInv(o, cap) && 0 <= cap
    ensures Moving(o, Empty(2 * o.size), Flat(o.t0) + Flat(o.t1), cap)
  {
    assert PowerOfTwo(2 * o.size);
    EmptyIsEmpty(2 * o.size, cap);
    AllDistinct(o, cap);
    forall k ensures Find(Flat(o.t0) + Flat(o.t1), k) == Get(o, k) {
      AllFound(o, cap, k);
    }
    forall p | p in Flat(o.t0) + Flat(o.t1) ensures Get(o, p.key) == Some(p.val) {
      FlatStored(o, cap, p);
    }
  }

  lemma AllDistinct(o: Tables, cap: int)
    requires TablesInv(o, cap)
    ensures Distinct(Flat(o.t0) + Flat(o.t1))
  {
    var a, b := Flat(o.t0), Flat(o.t1);
    SideRuns(o, cap);
    FlatFacts(o.t0, 0, o.size, 0, 0);
    FlatFacts(o.t1, 1, o.size, 0, 0);
    forall p, q | p in a && q in b ensures p.key != q.key {
      NeverTwice(o, cap, p, q);
    }
    JoinDistinct(a, b);
  }

  lemma AllFound(o: Tables, cap: int, k: int)
    requires TablesInv(o, cap)
    ensures Find(Flat(o.t0) + Flat(o.t1), k) == Get(o, k)
  {
    SideRuns(o, cap);
    FlatFinds(o.t0, 0, k);
    FlatFinds(o.t1, 1, k);
    FindAppend(Flat(o.t0), Flat(o.t1), k);
  }

  lemma FlatFinds(cs: seq<Chain>, i: int, k: int)
    requires cs != [] && Run(cs, i, |cs|, 0)
    ensures Find(Flat(cs), k) == Find(cs[Hash(i, k, |cs|)], k)
  {
    FlatFacts(cs, i, |cs|, 0, k);
  }

  lemma SideRuns(o: Tables, cap: int)
    requires TablesInv(o, cap)
    ensures Run(o.t0, 0, o.size, 0) && Run(o.t1, 1, o.size, 0)
  {
    forall j | 0 <= j < o.size
      ensures Distinct(o.t0[j]) && forall p: Pair | p in o.t0[j] :: Hash(0, p.key, o.size) == 0 + j
    {
      assert GoodChain(o, 0, j, cap);
    }
    forall j | 0 <= j < o.size
      ensures Distinct(o.t1[j]) && forall p: Pair | p in o.t1[j] :: Hash(1, p.key, o.size) == 0 + j
    {
      assert GoodChain(o, 1, j, cap);
    }
  }

  lemma FlatStored(o: Tables, cap: int, p: Pair)
    requires TablesInv(o, cap) && (p in Flat(o.t0) || p in Flat(o.t1))
    ensures Get(o, p.key) == Some(p.val)
  {
    SideRuns(o, cap);
    if p in Flat(o.t0) {
      FlatFacts(o.t0, 0, o.size, 0, 0);
      StoredWhereSearched(o, cap, 0, Hash(0, p.key, o.size), p);
    } else {
      FlatFacts(o.t1, 1, o.size, 0, 0);
      StoredWhereSearched(o, cap, 1, Hash(1, p.key, o.size), p);
    }
  }

  lemma NeverTwice(o: Tables, cap: int, p: Pair, q: Pair)
    requires TablesInv(o, cap) && p in Flat(o.t0) && q in Flat(o.t1)
    ensures p.key != q.key
  {
    SideRuns(o, cap);
    FlatFacts(o.t0, 0, o.size, 0, 0);
    FlatFacts(o.t1, 1, o.size, 0, 0);
    StoredWhereSearched(o, cap, 0, Hash(0, p.key, o.size), p);
    StoredWhereSearched(o, cap, 1, Hash(1, q.key, o.size), q);
    assert Once(o, p.key);
  }
}
