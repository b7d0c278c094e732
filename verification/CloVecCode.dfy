/**
 The option vector in place: a list of heap records, grown by copying and overwritten field by
 field.
 */
module CloVecCode {
  import opened Arithmetic
  import opened Bytes
  import opened CloVec

  datatype Outcome = Done | OutOfBounds

  /** memcpy of the bytes v to offset off. */
  method Memcpy(dst: array<Byte>, off: nat, v: seq<Byte>)
    requires off + |v| <= dst.Length
    modifies dst
    ensures dst[..] == Write(old(dst[..]), off, v)
  {
    for j := 0 to |v|
      invariant forall k :: 0 <= k < dst.Length ==>
        dst[k] == if off <= k < off + j then v[k - off] else old(dst[k])
    {
      dst[off + j] := v[j];
    }
    assert dst[..] == Write(old(dst[..]), off, v);
  }

  class OptionVector {
    const size: nat
    var args: seq<array<Byte>>
    var nargs: nat
    ghost var records: seq<Record>

    /** Every entry of the list has its own record of the declared size. */
    ghost predicate Listed()
      reads this
    {
      && (forall i :: 0 <= i < |args| ==> args[i].Length == size)
      && (forall i, j :: 0 <= i < j < |args| ==> args[i] != args[j])
    }

    /** The list holds rs. */
    ghost predicate Shows(rs: seq<Record>)
      reads this, args
    {
      |rs| == |args| && forall i :: 0 <= i < |args| ==> args[i][..] == rs[i]
    }

    ghost predicate Valid()
      reads this, args
      ensures Valid() ==> records != [] && Wide(records, size)
    {
      Listed() && |args| == nargs && 0 < nargs && Shows(records)
    }

    constructor (size: nat)
      ensures Valid() && fresh(args) && this.size == size
      ensures records == Run([], size)
    {
      this.size := size;
      var first := new Byte[size](_ => 0);
      args := [first];
      nargs := 1;
      records := [Zeroes(size)];
      new;
      assert first[..] == Zeroes(size);
    }

    method GetArgs(i: nat) returns (a: array?<Byte>)
      requires nargs <= |args|
      ensures a == if i < nargs then args[i] else null
    {
      if i >= nargs {
        return null;
      }
      var c := 0;
      while c < |args|
        invariant c <= i
      {
        if c == i {
          return args[c];
        }
        c := c + 1;
      }
      return null;
    }

    /** One more record at the end of the list, a copy of the given one. */
    method Append(source: array<Byte>)
      requires Listed() && source.Length == size
      modifies this`args
      ensures |args| == old(|args|) + 1 && args[..old(|args|)] == old(args)
      ensures Listed() && fresh(args[old(|args|)])
      ensures args[old(|args|)][..] == source[..]
    {
      var copy := new Byte[size];
      Memcpy(copy, 0, source[..]);
      args := args + [copy];
    }

    /** Makes the vector newLen long by repeating its records. */
    method Grow(newLen: nat)
      requires Valid() && nargs <= newLen
      modifies this
      ensures Valid() && nargs == newLen
      ensures forall i :: 0 <= i < old(nargs) ==> args[i] == old(args[i])
      ensures forall i :: old(nargs) <= i < nargs ==> fresh(args[i])
      ensures |records| == newLen && Repeats(old(records), records)
    {
      var extra := newLen - nargs;
      ghost var was := records;
      RepeatsItself(was);
      for i := 0 to extra
        invariant nargs == old(nargs) == |was|
        invariant Listed() && |args| == nargs + i && Shows(records)
        invariant args[..nargs] == old(args)
        invariant forall k :: nargs <= k < |args| ==> fresh(args[k])
        invariant records[..nargs] == was && Repeats(was, records)
      {
        ghost var had := args;
        var source := GetArgs(i % nargs);
        Append(source);
        records := records + [records[i % nargs]];
        ModOfSum(i, 1, nargs);
        assert forall k :: 0 <= k < nargs + i ==> args[k] == had[k];
      }
      nargs := newLen;
    }

    /** Stores the value in the records from lo to hi. */
    method StoreBetween(lo: nat, hi: nat, off: nat, v: seq<Byte>)
      requires Valid() && lo <= hi <= nargs && off + |v| <= size
      modifies this`records, args
      ensures Valid()
      ensures forall k :: 0 <= k < nargs ==>
        records[k] == if lo <= k < hi then Write(old(records)[k], off, v) else old(records)[k]
    {
      for i := lo to hi
        invariant Valid()
        invariant forall k :: 0 <= k < nargs ==>
          records[k] == if lo <= k < i then Write(old(records)[k], off, v) else old(records)[k]
      {
        var dst := GetArgs(i);
        Memcpy(dst, off, v);
        records := records[i := Write(records[i], off, v)];
      }
    }

    /** Stores one value in every record. */
    method StoreValue(off: nat, v: seq<Byte>) returns (r: Outcome)
      requires Valid()
      modifies this`records, args
      ensures Valid()
      ensures r == if off + |v| <= size then Done else OutOfBounds
      ensures records == Store(old(records), size, Setting(off, |v|, [v]))
    {
      if off + |v| > size {
        return OutOfBounds;
      }
      StoreBetween(0, nargs, off, v);
      OneValueStored(old(records), records, size, Setting(off, |v|, [v]));
      return Done;
    }

    /** Stores one value of the list in its copy of the vector. */
    method StoreCopy(ghost was: seq<Record>, len: nat, o: Setting, value: nat)
      requires Valid() && was != [] && Wide(was, size) && o.Sized() && o.Fits(size)
      requires len == |was| && value < |o.values| && Partly(was, size, o, value, records)
      modifies this`records, args
      ensures Valid() && Partly(was, size, o, value + 1, records)
    {
      Range(value, len, |o.values|);
      ghost var had := records;
      StoreBetween(value * len, (value + 1) * len, o.off, o.values[value]);
      CopyStored(was, size, o, value, had, records);
    }

    /** Stores each value of the list in its copy of the vector. */
    method StoreCopies(ghost was: seq<Record>, len: nat, o: Setting)
      requires Valid() && was != [] && Wide(was, size) && o.Sized() && o.Fits(size)
      requires len == |was| && Partly(was, size, o, 0, records)
      modifies this`records, args
      ensures Valid() && records == Store(was, size, o)
    {
      for value := 0 to |o.values|
        invariant Valid() && Partly(was, size, o, value, records)
      {
        StoreCopy(was, len, o, value);
      }
      AllStored(was, size, o, records);
    }

    /** Stores each value of the list in a copy of the whole vector. */
    method StoreList(o: Setting) returns (r: Outcome)
      requires Valid() && o.Sized()
      modifies this, args
      ensures Valid()
      ensures r == if o.Fits(size) then Done else OutOfBounds
      ensures records == Store(old(records), size, o)
    {
      if o.off + o.size > size {
        return OutOfBounds;
      }
      var len := nargs;
      ghost var was := records;
      RepeatsItself(was);
      if |o.values| > 1 {
        MulAtLeast(nargs, |o.values|);
        Grow(nargs * |o.values|);
      }
      NoneStored(was, size, o, records);
      StoreCopies(was, len, o);
      return Done;
    }
  }

  /** The record of the shorter vector that record k copies. */
  function Origin(was: seq<Record>, k: nat): Record
    requires was != []
  {
    was[k % |was|]
  }

  /** rs repeats was. */
  ghost predicate Repeats(was: seq<Record>, rs: seq<Record>)
    requires was != []
  {
    forall k {:trigger Origin(was, k)} :: 0 <= k < |rs| ==> rs[k] == Origin(was, k)
  }

  lemma RepeatsItself(was: seq<Record>)
    requires was != []
    ensures Repeats(was, was)
  {
    forall k | 0 <= k < |was| ensures was[k] == Origin(was, k) {
      SmallMod(k, |was|);
    }
  }

  /** Record k while values before the given one are stored. */
  function Midway(was: seq<Record>, size: nat, o: Setting, value: nat, k: nat): Record
    requires was != [] && Wide(was, size) && o.Sized() && o.Fits(size) && k < |was| * o.Radix(size)
  {
    if o.values != [] && k / |was| < value then Stored(was, size, o, k) else Origin(was, k)
  }

  /** The first value's copies of the vector have their value, the others are still plain. */
  ghost predicate Partly(was: seq<Record>, size: nat, o: Setting, value: nat, rs: seq<Record>)
    requires was != [] && Wide(was, size) && o.Sized() && o.Fits(size)
  {
    && |rs| == |was| * o.Radix(size)
    && forall k {:trigger Midway(was, size, o, value, k)} :: 0 <= k < |rs| ==>
         rs[k] == Midway(was, size, o, value, k)
  }

  lemma NoneStored(was: seq<Record>, size: nat, o: Setting, rs: seq<Record>)
    requires was != [] && Wide(was, size) && o.Sized() && o.Fits(size)
    requires Repeats(was, rs) && |rs| == |was| * o.Radix(size)
    ensures Partly(was, size, o, 0, rs)
  {
    forall k | 0 <= k < |rs| ensures rs[k] == Midway(was, size, o, 0, k) {
      Split(k, |was|, o.Radix(size));
    }
  }

  lemma CopyStored(was: seq<Record>, size: nat, o: Setting, value: nat, had: seq<Record>, rs: seq<Record>)
    requires was != [] && Wide(was, size) && o.Sized() && o.Fits(size) && value < |o.values|
    requires Partly(was, size, o, value, had) && |rs| == |had| && Wide(had, size)
    requires forall k :: 0 <= k < |had| ==>
      rs[k] == if value * |was| <= k < (value + 1) * |was| then Write(had[k], o.off, o.values[value]) else had[k]
    ensures Partly(was, size, o, value + 1, rs)
  {
    forall k | 0 <= k < |rs|
      ensures rs[k] == Midway(was, size, o, value + 1, k)
    {
      assert had[k] == Midway(was, size, o, value, k);
      InRange(k, |was|, value);
    }
  }

  lemma AllStored(was: seq<Record>, size: nat, o: Setting, rs: seq<Record>)
    requires was != [] && Wide(was, size) && o.Sized() && o.Fits(size)
    requires Partly(was, size, o, |o.values|, rs)
    ensures rs == Store(was, size, o)
  {
    forall k | 0 <= k < |rs| ensures rs[k] == Store(was, size, o)[k] {
      assert rs[k] == Midway(was, size, o, |o.values|, k);
      if o.values == [] {
        SmallMod(k, |was|);
      } else {
        Split(k, |was|, |o.values|);
      }
    }
  }

  lemma OneValueStored(was: seq<Record>, rs: seq<Record>, size: nat, o: Setting)
    requires was != [] && Wide(was, size) && o.Sized() && o.Fits(size) && |o.values| == 1
    requires |rs| == |was|
    requires forall k :: 0 <= k < |was| ==> rs[k] == Write(was[k], o.off, o.values[0])
    ensures rs == Store(was, size, o)
  {
    forall k | 0 <= k < |rs| ensures rs[k] == Store(was, size, o)[k] {
      DivModUnique(k, |was|, 0, k);
    }
  }

  lemma InRange(k: int, len: int, value: int)
    requires 0 < len && 0 <= k && 0 <= value
    ensures k / len == value <==> value * len <= k < (value + 1) * len
  {
    Distribute(len, value, 1);
    if value * len <= k < (value + 1) * len {
      DivModUnique(k, len, value, k - value * len);
    }
  }

  lemma Range(value: int, len: int, m: int)
    requires 0 <= value < m && 0 < len
    ensures 0 <= value * len < (value + 1) * len == value * len + len <= len * m
  {
    Distribute(len, value, 1);
    Distribute(len, m, value);
    MulAtLeast(len, m - value);
  }
}
