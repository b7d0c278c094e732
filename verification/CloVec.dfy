/**
 The command-line option vector of the benchmarks: storing an option with several values
 replicates the records, so that after all options the records are the Cartesian product of
 the value lists.
 */
module CloVec {
  import opened Arithmetic
  import opened Bytes

  type Record = seq<Byte>

  /** One option: values, each of the given size, for the field at offset off. */
  datatype Setting = Setting(off: nat, size: nat, values: seq<seq<Byte>>) {
    ghost predicate Sized() {
      forall v <- values :: |v| == size
    }

    /** The store is accepted: the field lies inside a record. */
    predicate Fits(width: nat) {
      off + size <= width
    }

    /** How many times longer the store makes the vector. */
    function Radix(width: nat): (r: nat)
      ensures 0 < r
    {
      if Effective(this, width) then |values| else 1
    }

    /** Byte j of a record belongs to the field. */
    predicate Covers(j: nat) {
      off <= j < off + size
    }

    predicate Apart(other: Setting) {
      off + size <= other.off || other.off + other.size <= off
    }
  }

  // ---------------------------------------------------------------------------------------
  // What one store does

  ghost predicate Wide(rs: seq<Record>, width: nat) {
    forall i :: 0 <= i < |rs| ==> |rs[i]| == width
  }

  /** Record i after the store of an option: record i % |rs| with value i / |rs| written. */
  function Stored(rs: seq<Record>, width: nat, o: Setting, i: nat): (r: Record)
    requires rs != [] && Wide(rs, width) && o.Sized() && o.Fits(width)
    requires i < |rs| * |o.values|
    ensures |r| == width
  {
    Split(i, |rs|, |o.values|);
    Write(rs[i % |rs|], o.off, o.values[i / |rs|])
  }

  function Store(rs: seq<Record>, width: nat, o: Setting): (s: seq<Record>)
    requires rs != [] && Wide(rs, width) && o.Sized()
    ensures s != [] && Wide(s, width) && |s| == |rs| * o.Radix(width)
  {
    if Effective(o, width) then Spread(rs, width, o) else rs
  }

  function Spread(rs: seq<Record>, width: nat, o: Setting): (s: seq<Record>)
    requires rs != [] && Wide(rs, width) && o.Sized() && Effective(o, width)
    ensures s != [] && Wide(s, width) && |s| == |rs| * |o.values|
  {
    MulAtLeast(|rs|, |o.values|);
    var n := |rs| * |o.values|;
    seq(n, i requires 0 <= i < n => Stored(rs, width, o, i))
  }

  /** Below n * m, remainder and quotient by n are below n and m. */
  lemma Split(i: int, n: int, m: int)
    requires 0 < n && 0 <= i < n * m
    ensures 0 <= i % n < n && 0 <= i / n < m
  {
    var q := i / n;
    assert i == n * q + i % n;
    Distribute(n, q, m);
    if m < q {
      MulAtLeast(n, q - m);
    }
  }

  // ---------------------------------------------------------------------------------------
  // Sequences of stores, from one zeroed record

  ghost predicate AllSized(os: seq<Setting>) {
    forall o <- os :: o.Sized()
  }

  /** The length the stores should give. */
  function Product(os: seq<Setting>, width: nat): (p: nat)
    ensures 0 < p
  {
    if os == [] then 1
    else
      var p := Product(os[..|os| - 1], width);
      MulAtLeast(p, os[|os| - 1].Radix(width));
      p * os[|os| - 1].Radix(width)
  }

  function Run(os: seq<Setting>, width: nat): (rs: seq<Record>)
    requires AllSized(os)
    ensures rs != [] && Wide(rs, width) && |rs| == Product(os, width)
  {
    if os == [] then [Zeroes(width)]
    else Store(Run(os[..|os| - 1], width), width, os[|os| - 1])
  }

  /** The mixed-radix digit of i that belongs to option k. */
  function Digit(os: seq<Setting>, width: nat, k: nat, i: nat): (d: nat)
    requires k < |os|
    ensures d < os[k].Radix(width)
  {
    i / Product(os[..k], width) % os[k].Radix(width)
  }

  /** Dividing the length so far by a smaller prefix's length and radix leaves nothing. */
  lemma {:induction false} PrefixDivides(os: seq<Setting>, width: nat, k: nat)
    requires k < |os|
    ensures Product(os, width) % (Product(os[..k], width) * os[k].Radix(width)) == 0
  {
    var n := |os| - 1;
    var prev := os[..n];
    if k == n {
      MultipleMod(1, Product(os, width));
    } else {
      assert prev[..k] == os[..k];
      PrefixDivides(prev, width, k);
      var d := Product(prev[..k], width) * prev[k].Radix(width);
      var q := Product(prev, width) / d;
      assert Product(prev, width) == d * q;
      Reorder(d, q, os[n].Radix(width));
      MultipleMod(q * os[n].Radix(width), d);
    }
  }

  /** A digit does not see multiples of the length. */
  lemma DigitOfRemainder(i: int, n: int, p: int, r: int)
    requires 0 <= i && 0 < p && 0 < r && 0 < p * r && 0 < n && n % (p * r) == 0
    ensures i % n / p % r == i / p % r
  {
    var m := i / n * (n / (p * r));
    var low := i % n;
    assert n == p * r * (n / (p * r));
    assert i == n * (i / n) + low;
    assert n * (i / n) == p * (r * m) by {
      Commute(n, i / n);
      Regroup(i / n, p * r, n / (p * r));
      Commute(m, p * r);
      Reorder(p, r, m);
    }
    Distribute(p, r * m, low / p);
    assert i == p * (r * m + low / p) + low % p;
    DivModUnique(i, p, r * m + low / p, low % p);
    ModOfSum(low / p, m, r);
  }

  lemma Commute(a: int, b: int)
    ensures a * b == b * a
  {
  }

  lemma Regroup(a: int, b: int, c: int)
    ensures b * c * a == a * c * b
  {
    Commute(b * c, a);
    Commute(b, c);
    Reorder(a, c, b);
  }

  /** The store changes something. */
  predicate Effective(o: Setting, width: nat) {
    o.Fits(width) && o.values != []
  }

  /** Setting k is accepted, has values, and no later store with values touches its field. */
  ghost predicate Kept(os: seq<Setting>, width: nat, k: nat) {
    && k < |os|
    && Effective(os[k], width)
    && forall j :: k < j < |os| && Effective(os[j], width) ==> os[k].Apart(os[j])
  }

  /** What record r holds in the field of o. */
  function Field(r: Record, o: Setting): (v: seq<Byte>)
    requires o.Fits(|r|)
  {
    r[o.off..o.off + o.size]
  }

  lemma WriteApart(r: Record, off: nat, v: seq<Byte>, o: Setting)
    requires off + |v| <= |r| && o.Fits(|r|)
    requires off + |v| <= o.off || o.off + o.size <= off
    ensures Field(Write(r, off, v), o) == Field(r, o)
  {
    var w := Write(r, off, v);
    assert forall j :: o.off <= j < o.off + o.size ==> w[j] == r[j];
  }

  lemma WriteField(r: Record, o: Setting, v: seq<Byte>)
    requires o.Fits(|r|) && |v| == o.size
    ensures Field(Write(r, o.off, v), o) == v
  {
  }

  /** The digit of the last option counts whole vectors of the earlier options' length. */
  lemma LastDigit(os: seq<Setting>, width: nat, i: nat)
    requires os != [] && i < Product(os, width)
    ensures i / Product(os[..|os| - 1], width) < os[|os| - 1].Radix(width)
    ensures Digit(os, width, |os| - 1, i) == i / Product(os[..|os| - 1], width)
  {
    var p, r := Product(os[..|os| - 1], width), os[|os| - 1].Radix(width);
    Split(i, p, r);
    SmallMod(i / p, r);
  }

  /** The digits of the earlier options are those of the record that was copied. */
  lemma EarlierDigit(os: seq<Setting>, width: nat, k: nat, i: nat)
    requires k < |os| - 1
    ensures Digit(os, width, k, i)
         == Digit(os[..|os| - 1], width, k, i % Product(os[..|os| - 1], width))
  {
    var prev := os[..|os| - 1];
    assert prev[..k] == os[..k] && prev[k] == os[k];
    PrefixDivides(prev, width, k);
    MulAtLeast(Product(os[..k], width), os[k].Radix(width));
    DigitOfRemainder(i, Product(prev, width), Product(os[..k], width), os[k].Radix(width));
  }

  /** A record after the last store: the copied record, with the value of its last digit. */
  lemma LastStore(os: seq<Setting>, width: nat, i: nat)
    requires AllSized(os) && os != [] && Effective(os[|os| - 1], width) && i < Product(os, width)
    ensures
      var prev, o := os[..|os| - 1], os[|os| - 1];
      var d, low := Digit(os, width, |os| - 1, i), i % Product(prev, width);
      && o.Sized() && low < |Run(prev, width)|
      && Run(os, width)[i] == Write(Run(prev, width)[low], o.off, o.values[d])
  {
    var prev, o := os[..|os| - 1], os[|os| - 1];
    LastDigit(os, width, i);
    assert Run(os, width) == Spread(Run(prev, width), width, o);
    assert Run(os, width)[i] == Stored(Run(prev, width), width, o, i);
  }

  /** In every record, a field that no later store touches holds the value its digit picks. */
  lemma {:induction false} FieldHoldsItsDigit(os: seq<Setting>, width: nat, k: nat, i: nat)
    requires AllSized(os) && Kept(os, width, k) && i < |Run(os, width)|
    ensures Field(Run(os, width)[i], os[k]) == os[k].values[Digit(os, width, k, i)]
  {
    var n := |os| - 1;
    var o, prev := os[n], os[..n];
    if !Effective(o, width) {
      assert prev[..k] == os[..k] && prev[k] == os[k];
      FieldHoldsItsDigit(prev, width, k, i);
    } else {
      LastStore(os, width, i);
      var low, d := i % Product(prev, width), Digit(os, width, n, i);
      var r := Run(prev, width)[low];
      if k == n {
        WriteField(r, o, o.values[d]);
      } else {
        assert Kept(prev, width, k) && prev[k] == os[k];
        FieldHoldsItsDigit(prev, width, k, low);
        EarlierDigit(os, width, k, i);
        StillHolds(r, o, d, os[k]);
      }
    }
  }

  lemma StillHolds(r: Record, o: Setting, d: nat, other: Setting)
    requires o.Sized() && o.Fits(|r|) && d < |o.values| && other.Fits(|r|) && other.Apart(o)
    ensures Field(Write(r, o.off, o.values[d]), other) == Field(r, other)
  {
    WriteApart(r, o.off, o.values[d], other);
  }

  /** Bytes outside every stored field are still zero. */
  lemma {:induction false} UncoveredBytesAreZero(os: seq<Setting>, width: nat, i: nat, j: nat)
    requires AllSized(os) && i < |Run(os, width)| && j < width
    requires forall o <- os :: Effective(o, width) ==> !o.Covers(j)
    ensures Run(os, width)[i][j] == 0
  {
    if os != [] {
      var n := |os| - 1;
      var o, prev := os[n], os[..n];
      if !Effective(o, width) {
        UncoveredBytesAreZero(prev, width, i, j);
      } else {
        LastStore(os, width, i);
        UncoveredBytesAreZero(prev, width, i % Product(prev, width), j);
        assert !o.Covers(j);
      }
    }
  }

  // ---------------------------------------------------------------------------------------
  // Every choice of values is some record's, and only one record's

  /** A choice: one value index for every option. */
  ghost predicate Choice(os: seq<Setting>, width: nat, c: seq<nat>) {
    && |c| == |os|
    && forall k :: 0 <= k < |os| ==> c[k] < os[k].Radix(width)
  }

  function Digits(os: seq<Setting>, width: nat, i: nat): (c: seq<nat>)
    ensures Choice(os, width, c)
  {
    seq(|os|, k requires 0 <= k < |os| => Digit(os, width, k, i))
  }

  /** The record that holds a choice. */
  function Index(os: seq<Setting>, width: nat, c: seq<nat>): (i: nat)
    requires Choice(os, width, c)
    ensures i < Product(os, width)
  {
    if os == [] then 0
    else
      var n := |os| - 1;
      var p := Product(os[..n], width);
      var low := Index(os[..n], width, c[..n]);
      Below(low, p, c[n], os[n].Radix(width));
      low + p * c[n]
  }

  lemma Below(low: int, p: int, d: int, r: int)
    requires 0 <= low < p && 0 <= d < r
    ensures 0 <= low + p * d < p * r
  {
    Distribute(p, r, d);
    MulAtLeast(p, r - d);
  }

  lemma {:induction false} DigitsOfIndex(os: seq<Setting>, width: nat, c: seq<nat>)
    requires Choice(os, width, c)
    ensures Digits(os, width, Index(os, width, c)) == c
  {
    if os != [] {
      var n := |os| - 1;
      var prev := os[..n];
      var p := Product(prev, width);
      var low, i := Index(prev, width, c[..n]), Index(os, width, c);
      DivModUnique(i, p, c[n], low);
      DigitsOfIndex(prev, width, c[..n]);
      LastDigit(os, width, i);
      forall k | 0 <= k < n ensures Digit(os, width, k, i) == c[k] {
        EarlierDigit(os, width, k, i);
        assert Digits(prev, width, low)[k] == c[k];
      }
    }
  }

  lemma {:induction false} IndexOfDigits(os: seq<Setting>, width: nat, i: nat)
    requires i < Product(os, width)
    ensures Index(os, width, Digits(os, width, i)) == i
  {
    if os != [] {
      var n := |os| - 1;
      var prev := os[..n];
      var p := Product(prev, width);
      LastDigit(os, width, i);
      IndexOfDigits(prev, width, i % p);
      forall k | 0 <= k < n ensures Digit(os, width, k, i) == Digit(prev, width, k, i % p) {
        EarlierDigit(os, width, k, i);
      }
      assert Digits(os, width, i)[..n] == Digits(prev, width, i % p);
      Rebuild(i, p);
    }
  }

  lemma Rebuild(i: int, p: int)
    requires 0 < p
    ensures i % p + p * (i / p) == i
  {
  }

  /** Accepted stores with values have disjoint fields. */
  ghost predicate Disjoint(os: seq<Setting>, width: nat) {
    forall j, k :: 0 <= j < k < |os| && Effective(os[j], width) && Effective(os[k], width)
      ==> os[j].Apart(os[k])
  }

  /** Record r makes the choice c. */
  ghost predicate Makes(r: Record, os: seq<Setting>, width: nat, c: seq<nat>)
    requires |r| == width && Choice(os, width, c)
  {
    && (forall k :: 0 <= k < |os| && Effective(os[k], width) ==> Field(r, os[k]) == os[k].values[c[k]])
    && (forall j :: 0 <= j < width && (forall o <- os :: Effective(o, width) ==> !o.Covers(j)) ==> r[j] == 0)
  }

  /** The vector is the Cartesian product: records and choices of values correspond one to one. */
  lemma CartesianProduct(os: seq<Setting>, width: nat)
    requires AllSized(os) && Disjoint(os, width)
    ensures |Run(os, width)| == Product(os, width)
    ensures forall i :: 0 <= i < |Run(os, width)| ==>
      Makes(Run(os, width)[i], os, width, Digits(os, width, i))
    ensures forall c :: Choice(os, width, c) ==>
      && Index(os, width, c) < |Run(os, width)|
      && Makes(Run(os, width)[Index(os, width, c)], os, width, c)
    ensures forall i, j | 0 <= i < |Run(os, width)| && 0 <= j < |Run(os, width)| ::
      Digits(os, width, i) == Digits(os, width, j) ==> i == j
  {
    var rs := Run(os, width);
    forall i | 0 <= i < |rs| ensures Makes(rs[i], os, width, Digits(os, width, i)) {
      RecordMakesItsDigits(os, width, i);
    }
    forall c | Choice(os, width, c) ensures Makes(rs[Index(os, width, c)], os, width, c) {
      DigitsOfIndex(os, width, c);
    }
    forall i, j | 0 <= i < |rs| && 0 <= j < |rs| && Digits(os, width, i) == Digits(os, width, j)
      ensures i == j
    {
      IndexOfDigits(os, width, i);
      IndexOfDigits(os, width, j);
    }
  }

  lemma RecordMakesItsDigits(os: seq<Setting>, width: nat, i: nat)
    requires AllSized(os) && Disjoint(os, width) && i < |Run(os, width)|
    ensures Makes(Run(os, width)[i], os, width, Digits(os, width, i))
  {
    var r := Run(os, width)[i];
    forall k | 0 <= k < |os| && Effective(os[k], width)
      ensures Field(r, os[k]) == os[k].values[Digits(os, width, i)[k]]
    {
      assert Kept(os, width, k);
      FieldHoldsItsDigit(os, width, k, i);
    }
    forall j | 0 <= j < width && (forall o <- os :: Effective(o, width) ==> !o.Covers(j))
      ensures r[j] == 0
    {
      UncoveredBytesAreZero(os, width, i, j);
    }
  }
}
