/**
 The string set with double hashing: an odd step in a table whose size is a power of two.
 */
module ProbeHashSet {
  import opened Options
  import opened Arithmetic

  const WORD := 0x1_0000_0000 // unsigned int wraps here

  datatype Entry = Entry(inUse: bool, value: string)

  /** A char of the string as the signed char it is. */
  function CharValue(c: char): int {
    var x := c as int % 256;
    if x < 128 then x else x - 256
  }

  /** The characters added up, as an unsigned int. */
  function HashString(s: string): int {
    if s == [] then 0 else (HashString(s[..|s| - 1]) + CharValue(s[|s| - 1])) % WORD
  }

  /** One character counts for itself, and the parts of a string add up, wherever it is cut. */
  lemma {:induction false} HashAdds(a: string, c: char, b: string)
    ensures HashString([c]) == CharValue(c) % WORD
    ensures HashString(a + b) == (HashString(a) + HashString(b)) % WORD
    decreases |b|
  {
    assert [c][..0] == [] && HashString([]) == 0;
    HashBounds(a);
    if b == [] {
      assert a + b == a;
    } else {
      var n := |b| - 1;
      assert (a + b)[..|a + b| - 1] == a + b[..n];
      HashAdds(a, c, b[..n]);
      WrapOnce(HashString(a), HashString(b[..n]), CharValue(b[n]));
    }
  }

  lemma HashBounds(s: string)
    ensures 0 <= HashString(s) < WORD
  {
  }

  lemma WrapOnce(x: int, y: int, z: int)
    ensures ((x + y) % WORD + z) % WORD == (x + (y + z) % WORD) % WORD
  {
  }

  /** The loop of hash_string. */
  method ComputeHash(s: string) returns (h: int)
    ensures h == HashString(s) && 0 <= h < WORD
  {
    h := 0;
    var i := 0;
    while i < |s|
      invariant 0 <= i <= |s| && h == HashString(s[..i]) && 0 <= h < WORD
    {
      assert s[..i + 1][..i] == s[..i];
      h := (h + CharValue(s[i])) % WORD;
      i := i + 1;
    }
    assert s[..i] == s;
  }

  /** x | 1 */
  function Odd(x: int): int { if x % 2 == 0 then x + 1 else x }

  function StepOf(v: string, n: int): int
    requires 0 < n
  {
    Odd(HashString(v) / n % n)
  }

  /** The i-th slot from h on in steps of s. */
  function Walk(h: int, s: int, i: int, n: int): int
    requires 0 < n
  {
    (h + i * s) % n
  }

  lemma WalkNext(h: int, s: int, i: int, n: int)
    requires 0 < n
    ensures Walk(h, s, i + 1, n) == (Walk(h, s, i, n) + s) % n
  {
    var x := h + i * s;
    Times(s, i);
    assert x + s == n * (x / n) + (x % n + s);
    ModOfSum(x % n + s, x / n, n);
  }

  lemma Times(s: int, i: int)
    ensures (i + 1) * s == i * s + s
  {
  }

  lemma Minus(s: int, i: int, j: int)
    ensures (i - j) * s == i * s - j * s
  {
  }

  /** An odd step never comes back to a slot within n steps. */
  lemma WalkInjective(h: int, s: int, n: int, i: int, j: int)
    requires PowerOfTwo(n) && s % 2 == 1 && 0 <= i < n && 0 <= j < n && Walk(h, s, i, n) == Walk(h, s, j, n)
    ensures i == j
  {
    CongruentDifference(h + i * s, h + j * s, n);
    Minus(s, i, j);
    Cancel(n, s, i - j);
    CongruentDifference(i, j, n);
    SmallMod(i, n);
    SmallMod(j, n);
  }

  /** The i-th slot looked at for v. */
  function Path(v: string, i: int, n: int): int
    requires 0 < n
  {
    Walk(HashString(v) % n, StepOf(v, n), i, n)
  }

  lemma OddIsOdd(x: int)
    ensures Odd(x) % 2 == 1
  {
  }

  lemma PathInjective(v: string, n: int, i: int, j: int)
    requires PowerOfTwo(n) && 0 <= i < n && 0 <= j < n && Path(v, i, n) == Path(v, j, n)
    ensures i == j
  {
    OddIsOdd(HashString(v) / n % n);
    WalkInjective(HashString(v) % n, StepOf(v, n), n, i, j);
  }

  predicate InRange(x: int, n: int) { 0 <= x < n }

  ghost function Slots(n: int): set<int> { set x | 0 <= x < n && InRange(x, n) }

  ghost function Visited(v: string, k: int, n: int): set<int>
    requires 0 < n
  {
    set i | 0 <= i < k :: Path(v, i, n)
  }

  lemma {:induction false} SlotCount(n: nat)
    ensures |Slots(n)| == n
  {
    if n > 0 {
      SlotCount(n - 1);
      assert Slots(n) == Slots(n - 1) + {n - 1};
    }
  }

  lemma {:induction false} VisitedCount(v: string, k: nat, n: int)
    requires PowerOfTwo(n) && k <= n
    ensures |Visited(v, k, n)| == k && Visited(v, k, n) <= Slots(n)
  {
    if k > 0 {
      VisitedCount(v, k - 1, n);
      if Path(v, k - 1, n) in Visited(v, k - 1, n) {
        var i :| 0 <= i < k - 1 && Path(v, i, n) == Path(v, k - 1, n);
        PathInjective(v, n, i, k - 1);
      }
      assert Visited(v, k, n) == Visited(v, k - 1, n) + {Path(v, k - 1, n)};
      assert InRange(Path(v, k - 1, n), n) && Path(v, k - 1, n) in Slots(n);
    }
  }

  /** The probe visits every slot of the table exactly once in n steps. */
  lemma PathCovers(v: string, n: int, b: int) returns (i: int)
    requires PowerOfTwo(n) && 0 <= b < n
    ensures 0 <= i < n && Path(v, i, n) == b
    ensures forall j | 0 <= j < n && Path(v, j, n) == b :: j == i
  {
    VisitedCount(v, n, n);
    SlotCount(n);
    assert |Slots(n) - Visited(v, n, n)| == |Slots(n)| - |Slots(n) * Visited(v, n, n)|;
    assert Slots(n) * Visited(v, n, n) == Visited(v, n, n);
    assert b in Slots(n) && Slots(n) - Visited(v, n, n) == {};
    assert b in Visited(v, n, n);
    i :| 0 <= i < n && Path(v, i, n) == b;
    forall j | 0 <= j < n && Path(v, j, n) == b ensures j == i {
      PathInjective(v, n, i, j);
    }
  }

  // ---------------------------------------------------------------------------------------
  // What the table holds

  ghost function Contents(s: seq<Entry>): set<string> {
    set e | e in s && e.inUse :: e.value
  }

  predicate Full(s: seq<Entry>) {
    forall b | 0 <= b < |s| :: s[b].inUse
  }

  /** The first k slots for v are in use, by other values. */
  ghost predicate Passed(s: seq<Entry>, v: string, k: int) {
    0 < |s| && forall i | 0 <= i < k :: s[Path(v, i, |s|)].inUse && s[Path(v, i, |s|)].value != v
  }

  /** Slot b lies on the path of its value after slots in use by others. */
  ghost predicate Placed(s: seq<Entry>, b: int)
    requires 0 <= b < |s|
  {
    exists i :: 0 <= i < |s| && Path(s[b].value, i, |s|) == b && Passed(s, s[b].value, i)
  }

  ghost predicate TableInv(s: seq<Entry>) {
    && PowerOfTwo(|s|)
    && (forall b | 0 <= b < |s| && s[b].inUse :: Placed(s, b))
    && (forall a, b | 0 <= a < b < |s| && s[a].inUse && s[b].inUse :: s[a].value != s[b].value)
  }

  /** Having passed k slots, at a free slot or the end, the value is not there. */
  lemma Misses(s: seq<Entry>, v: string, k: int)
    requires TableInv(s) && Passed(s, v, k) && 0 <= k <= |s| && (k < |s| ==> !s[Path(v, k, |s|)].inUse)
    ensures v !in Contents(s)
  {
    forall e | e in s && e.inUse ensures e.value != v {
      var b :| 0 <= b < |s| && s[b] == e;
      assert Placed(s, b);
      var i :| 0 <= i < |s| && Path(e.value, i, |s|) == b && Passed(s, e.value, i);
      assert i < k ==> s[Path(v, i, |s|)].value != v;
      assert i > k ==> s[Path(e.value, k, |s|)].inUse;
    }
  }

  lemma PassedAll(s: seq<Entry>, v: string)
    requires TableInv(s) && Passed(s, v, |s|)
    ensures Full(s)
  {
    forall b | 0 <= b < |s| ensures s[b].inUse {
      var i := PathCovers(v, |s|, b);
    }
  }

  lemma AddedKeeps(s: seq<Entry>, v: string, k: int)
    requires TableInv(s) && 0 <= k < |s| && Passed(s, v, k) && !s[Path(v, k, |s|)].inUse
    ensures
      var r := s[Path(v, k, |s|) := Entry(true, v)];
      TableInv(r) && Contents(r) == Contents(s) + {v}
  {
    var b := Path(v, k, |s|);
    var r := s[b := Entry(true, v)];
    Misses(s, v, k);
    forall c | 0 <= c < |r| && r[c].inUse ensures Placed(r, c) {
      StillPlaced(s, v, k, c);
    }
    forall c | 0 <= c < |s| && s[c].inUse ensures s[c].value != v {
      assert s[c] in s;
    }
    forall x ensures x in Contents(r) <==> x in Contents(s) + {v} {
      SameValues(s, b, v, x);
    }
  }

  lemma StillPlaced(s: seq<Entry>, v: string, k: int, c: int)
    requires TableInv(s) && 0 <= k < |s| && Passed(s, v, k) && !s[Path(v, k, |s|)].inUse && 0 <= c < |s|
    requires c == Path(v, k, |s|) || s[c].inUse
    ensures Placed(s[Path(v, k, |s|) := Entry(true, v)], c)
  {
    var b := Path(v, k, |s|);
    var r := s[b := Entry(true, v)];
    if c == b {
      assert Path(r[b].value, k, |r|) == b && Passed(r, r[b].value, k);
    } else {
      assert Placed(s, c);
      var i :| 0 <= i < |s| && Path(s[c].value, i, |s|) == c && Passed(s, s[c].value, i);
      assert Path(r[c].value, i, |r|) == c && Passed(r, r[c].value, i);
    }
  }

  lemma SameValues(s: seq<Entry>, b: int, v: string, x: string)
    requires 0 <= b < |s| && !s[b].inUse
    ensures x in Contents(s[b := Entry(true, v)]) <==> x in Contents(s) || x == v
  {
    var r := s[b := Entry(true, v)];
    if x in Contents(s) {
      var e :| e in s && e.inUse && e.value == x;
      var i :| 0 <= i < |s| && s[i] == e;
      assert r[i] == e && e in r;
    }
    if x == v {
      assert r[b] in r;
    }
    if x in Contents(r) && x != v {
      var e :| e in r && e.inUse && e.value == x;
      var i :| 0 <= i < |r| && r[i] == e;
      assert s[i] == e && e in s;
    }
  }

  // ---------------------------------------------------------------------------------------

  class HashSet {
    const entries: array<Entry>

    ghost predicate Valid()
      reads this, entries
    {
      TableInv(entries[..])
    }

    /** TABLE_SIZE may be any power of two. */
    constructor (size: int)
      requires PowerOfTwo(size)
      ensures Valid() && fresh(entries) && entries.Length == size && Contents(entries[..]) == {}
    {
      entries := new Entry[size](i => Entry(false, ""));
    }

    /** The slot that holds the value or where it would go; none exactly when the table is full
        and the value is not in it. */
    method Lookup(value: string) returns (at: Option<int>, ghost k: int)
      requires Valid()
      ensures at == None <==> Full(entries[..]) && value !in Contents(entries[..])
      ensures at.Some? ==> 0 <= k < entries.Length && at.value == Path(value, k, entries.Length) && Passed(entries[..], value, k)
      ensures at.Some? ==> if entries[at.value].inUse then entries[at.value].value == value else value !in Contents(entries[..])
    {
      ghost var s := entries[..];
      var hash := ComputeHash(value);
      var offset := hash % entries.Length;
      var step := Odd(hash / entries.Length % entries.Length);
      var i := 0;
      SmallMod(offset, entries.Length);
      while i < entries.Length
        invariant 0 <= i <= entries.Length && offset == Path(value, i, entries.Length) && Passed(s, value, i)
      {
        if !entries[offset].inUse {
          Misses(s, value, i);
          return Some(offset), i;
        }
        if entries[offset].value == value {
          assert s[offset] in s;
          return Some(offset), i;
        }
        WalkNext(hash % entries.Length, step, i, entries.Length);
        offset := (offset + step) % entries.Length;
        i := i + 1;
      }
      Misses(s, value, i);
      PassedAll(s, value);
      return None, i;
    }

    /** Exact membership. */
    method Contains(value: string) returns (found: bool)
      requires Valid()
      ensures found <==> value in Contents(entries[..])
    {
      var at, k := Lookup(value);
      found := at.Some? && entries[at.value].inUse;
      if found { assert entries[..][at.value] in entries[..]; }
    }

    /** The value is in the set afterwards, unless the table was full without it. */
    method Add(value: string)
      requires Valid()
      modifies entries
      ensures Valid()
      ensures Contents(entries[..]) == if old(Full(entries[..])) then old(Contents(entries[..])) else old(Contents(entries[..])) + {value}
    {
      ghost var s := entries[..];
      var at, k := Lookup(value);
      if at.Some? && !entries[at.value].inUse {
        AddedKeeps(s, value, k);
        assert !s[at.value].inUse;
        entries[at.value] := Entry(true, value);
        assert entries[..] == s[at.value := Entry(true, value)];
      } else if at.Some? {
        assert s[at.value] in s;
        assert Contents(s) + {value} == Contents(s);
      }
    }
  }
}
