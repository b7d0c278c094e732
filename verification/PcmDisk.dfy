/**
 The persistent-memory disk: a sparse map of pages that must look like one flat array of bytes,
 and the block copy that fills it.
 */
module PcmDisk {
  import opened Arithmetic
  import opened Bytes

  const PAGE_SIZE := 4096
  const SECTOR_SIZE := 512
  const PAGE_SECTORS := 8

  // ---------------------------------------------------------------------------------------
  // The 64-byte block copy

  /** asm_sse_write_block64: eight words at once. */
  method WriteBlock64(dst: array<Byte>, d: nat, src: array<Byte>, s: nat)
    requires dst != src && d + 64 <= dst.Length && s + 64 <= src.Length
    modifies dst
    ensures forall j :: 0 <= j < dst.Length ==>
      dst[j] == if d <= j < d + 64 then src[s + (j - d)] else old(dst[j])
  {
    for k := 0 to 64
      invariant forall j :: 0 <= j < dst.Length ==>
        dst[j] == if d <= j < d + k then src[s + (j - d)] else old(dst[j])
    {
      dst[d + k] := src[s + k];
    }
  }

  /** The copy never leaves whole blocks: it steps back at the end. */
  predicate StepsBack(n: nat) {
    n % 64 != 0
  }

  /** The first byte the copy of n bytes to d writes. */
  function First(d: nat, n: nat): (a: int) {
    if 0 < n < 64 then d + n - 64 else d
  }

  /** Source and destination have room for what the copy touches. */
  ghost predicate Room(limit: nat, d: nat, n: nat) {
    0 <= First(d, n) && d + n <= limit
  }

  /** What the copy of n bytes makes of dst. */
  function Copied(dst: seq<Byte>, d: nat, src: seq<Byte>, s: nat, n: nat): (r: seq<Byte>)
    requires Room(|dst|, d, n) && Room(|src|, s, n)
    ensures |r| == |dst|
  {
    seq(|dst|, j requires 0 <= j < |dst| => if First(d, n) <= j < d + n then src[s + (j - d)] else dst[j])
  }

  method PcmMemcpy(dst: array<Byte>, d: nat, src: array<Byte>, s: nat, n: nat)
    requires dst != src && Room(dst.Length, d, n) && Room(src.Length, s, n)
    modifies dst
    ensures dst[..] == Copied(old(dst[..]), d, src[..], s, n)
  {
    var size, saddr, daddr := n, s, d;
    if size == 0 {
      return;
    }
    while size >= 64
      invariant 0 <= size <= n && saddr == s + (n - size) && daddr == d + (n - size)
      invariant n < 64 ==> size == n
      invariant !StepsBack(n) ==> size % 64 == 0
      invariant forall j :: 0 <= j < dst.Length ==>
        dst[j] == if d <= j < daddr then src[s + (j - d)] else old(dst[j])
    {
      WriteBlock64(dst, daddr, src, saddr);
      saddr, daddr, size := saddr + 64, daddr + 64, size - 64;
    }
    if size > 0 {
      assert StepsBack(n);
      var offset := 64 - size;
      saddr, daddr := saddr - offset, daddr - offset;
      WriteBlock64(dst, daddr, src, saddr);
    }
  }

  /** Copies of n bytes write [d, d + n) and nothing else. */
  ghost predicate Exact(n: nat) {
    forall dst: seq<Byte>, d: nat, src: seq<Byte>, s: nat ::
      Room(|dst|, d, n) && Room(|src|, s, n) ==>
        Copied(dst, d, src, s, n) == Write(dst, d, src[s..s + n])
  }

  /** The copy is exact unless it is of 1 to 63 bytes: then it overwrites bytes before d. */
  lemma CopyIsExact(n: nat)
    ensures Exact(n) <==> n == 0 || 64 <= n
  {
    if 0 < n < 64 {
      var src, dst := seq(64, _ => 1 as Byte), Zeroes(64);
      var at := 64 - n;
      assert Room(64, at, n);
      assert Copied(dst, at, src, at, n)[0] == 1;
      assert Write(dst, at, src[at..at + n])[0] == 0;
    } else {
      forall dst: seq<Byte>, d: nat, src: seq<Byte>, s: nat | Room(|dst|, d, n) && Room(|src|, s, n)
        ensures Copied(dst, d, src, s, n) == Write(dst, d, src[s..s + n])
      {
      }
    }
  }

  // ---------------------------------------------------------------------------------------
  // The flat array

  /** A write that was done: bytes from address addr on. */
  datatype Update = Update(addr: nat, bytes: seq<Byte>) {
    predicate Covers(a: nat) {
      addr <= a < addr + |bytes|
    }
  }

  /** The byte at address a, once was, after bytes were written at addr. */
  function Patched(addr: nat, bytes: seq<Byte>, a: nat, was: Byte): (b: Byte) {
    if addr <= a < addr + |bytes| then bytes[a - addr] else was
  }

  /** The byte at address a of a zeroed flat array after the updates. */
  function Flat(us: seq<Update>, a: nat): (b: Byte) {
    if us == [] then 0
    else
      var u := us[|us| - 1];
      Patched(u.addr, u.bytes, a, Flat(us[..|us| - 1], a))
  }

  /** A byte is the one the last update to its address wrote, and zero if there was none. */
  lemma {:induction false} FlatIsLastUpdate(us: seq<Update>, a: nat, b: Byte)
    ensures Flat(us, a) == b <==>
      || (b == 0 && forall u <- us :: !u.Covers(a))
      || (exists k :: IsLast(us, k, a) && us[k].bytes[a - us[k].addr] == b)
  {
    if us != [] {
      var n := |us| - 1;
      var prev := us[..n];
      if us[n].Covers(a) {
        assert IsLast(us, n, a);
      } else {
        FlatIsLastUpdate(prev, a, b);
        forall k ensures IsLast(us, k, a) <==> IsLast(prev, k, a) {
          if IsLast(prev, k, a) {
            assert forall j :: k < j < |us| ==> j == n || us[j] == prev[j];
          }
        }
        assert us == prev + [us[n]];
      }
    }
  }

  /** Update k is the last one to address a. */
  ghost predicate IsLast(us: seq<Update>, k: int, a: nat) {
    0 <= k < |us| && us[k].Covers(a) && forall j :: k < j < |us| ==> !us[j].Covers(a)
  }

  lemma CopiedIsPatched(dst: seq<Byte>, d: nat, src: seq<Byte>, s: nat, n: nat)
    requires Room(|dst|, d, n) && Room(|src|, s, n) && !StepsBack(n)
    ensures forall j :: 0 <= j < |dst| ==>
      Copied(dst, d, src, s, n)[j] == Patched(d, src[s..s + n], j, dst[j])
  {
  }

  // ---------------------------------------------------------------------------------------
  // Sectors and pages

  /** The page of a sector. */
  function PageOf(sector: nat): nat {
    sector / PAGE_SECTORS
  }

  /** Where in its page a sector starts. */
  function OffsetOf(sector: nat): nat {
    sector % PAGE_SECTORS * SECTOR_SIZE
  }

  /** How much of a transfer of n bytes falls in the first page. */
  function FirstPart(sector: nat, n: nat): nat {
    if n < PAGE_SIZE - OffsetOf(sector) then n else PAGE_SIZE - OffsetOf(sector)
  }

  /** The second part of a transfer starts at the beginning of the next page and ends in it. */
  lemma PartsMeet(sector: nat, n: nat)
    requires n <= PAGE_SIZE
    ensures sector * SECTOR_SIZE == PageOf(sector) * PAGE_SIZE + OffsetOf(sector)
    ensures FirstPart(sector, n) < n ==>
      var next := sector + FirstPart(sector, n) / SECTOR_SIZE;
      && PageOf(next) == PageOf(sector) + 1 && OffsetOf(next) == 0
      && next * SECTOR_SIZE == sector * SECTOR_SIZE + FirstPart(sector, n)
      && n - FirstPart(sector, n) <= PAGE_SIZE
  {
  }

  /** Neither part of a transfer of whole sectors makes the block copy step back. */
  lemma PartsAreWholeBlocks(sector: nat, n: nat)
    requires n % SECTOR_SIZE == 0
    ensures !StepsBack(FirstPart(sector, n)) && !StepsBack(n - FirstPart(sector, n))
  {
    var q, k := n / SECTOR_SIZE, sector % PAGE_SECTORS;
    assert n == 64 * (8 * q);
    MultipleMod(8 * q, 64);
    if PAGE_SIZE - OffsetOf(sector) <= n {
      assert FirstPart(sector, n) == 64 * (64 - 8 * k);
      MultipleMod(64 - 8 * k, 64);
      MultipleMod(8 * q - (64 - 8 * k), 64);
    }
  }

  /** The pages a transfer touches. */
  function PagesOf(sector: nat, n: nat): set<nat> {
    {PageOf(sector)} + if FirstPart(sector, n) < n then {PageOf(sector) + 1} else {}
  }

  /** 0, -ENOMEM and -EIO. */
  datatype Outcome = Done | NoMemory | Failed

  /** A run of memory of a request, at most a page of whole sectors. */
  datatype Segment = Segment(mem: array<Byte>, off: nat, len: nat) {
    ghost predicate Sound() {
      off + len <= mem.Length && len <= PAGE_SIZE && len % SECTOR_SIZE == 0
    }

    ghost function Bytes(): (s: seq<Byte>)
      requires Sound()
      reads mem
      ensures |s| == len
    {
      mem[off..off + len]
    }
  }

  /** The first k segments hold the bytes got. */
  ghost predicate Kept(xs: seq<Segment>, got: seq<seq<Byte>>, k: nat)
    requires AllSound(xs) && k <= |xs|
    reads Memories(xs)
  {
    k <= |got| && forall j :: 0 <= j < k ==> xs[j].Bytes() == got[j]
  }

  ghost predicate AllSound(xs: seq<Segment>) {
    forall k :: 0 <= k < |xs| ==> xs[k].Sound()
  }

  /** Segments do not overlap; they may share a page of memory. */
  ghost predicate Separate(xs: seq<Segment>) {
    forall j, k :: 0 <= j < k < |xs| ==>
      xs[j].mem != xs[k].mem || xs[j].off + xs[j].len <= xs[k].off || xs[k].off + xs[k].len <= xs[j].off
  }

  ghost function Memories(xs: seq<Segment>): set<array<Byte>> {
    set k | 0 <= k < |xs| :: xs[k].mem
  }

  /** The sector where segment k starts. */
  function SectorAt(xs: seq<Segment>, sector: nat, k: nat): (t: nat)
    requires k <= |xs|
  {
    if k == 0 then sector else SectorAt(xs, sector, k - 1) + xs[k - 1].len / SECTOR_SIZE
  }

  lemma StartsAt(xs: seq<Segment>, sector: nat)
    ensures SectorAt(xs, sector, 0) == sector
  {
  }

  ghost function Data(xs: seq<Segment>): (ds: seq<seq<Byte>>)
    requires AllSound(xs)
    reads Memories(xs)
    ensures |ds| == |xs|
  {
    seq(|xs|, k requires 0 <= k < |xs| reads Memories(xs) => xs[k].mem[xs[k].off..xs[k].off + xs[k].len])
  }

  /** The updates the first k segments, holding the data ds, ask for. */
  ghost function Pieces(xs: seq<Segment>, ds: seq<seq<Byte>>, sector: nat, k: nat): (us: seq<Update>)
    requires k <= |xs| == |ds|
  {
    if k == 0 then []
    else Pieces(xs, ds, sector, k - 1) + [Update(SectorAt(xs, sector, k - 1) * SECTOR_SIZE, ds[k - 1])]
  }

  /** From off on, the bytes are those of the flat array from the address on. */
  ghost predicate Matches(bytes: seq<Byte>, off: nat, len: nat, us: seq<Update>, addr: nat)
    requires off + len <= |bytes|
  {
    forall t :: off <= t < off + len ==> bytes[t] == Flat(us, addr + (t - off))
  }

  /** The bytes are those the first k segments of a read should get. */
  ghost predicate Wanted(xs: seq<Segment>, got: seq<seq<Byte>>, sector: nat, us: seq<Update>, k: nat) {
    && k <= |xs| && k <= |got|
    && forall j :: 0 <= j < k ==> |got[j]| == xs[j].len && Matches(got[j], 0, xs[j].len, us, SectorAt(xs, sector, j) * SECTOR_SIZE)
  }

  lemma WantedBytes(x: Segment, bytes: seq<Byte>, us: seq<Update>, addr: nat)
    requires x.Sound() && x.Bytes() == bytes
    ensures Matches(bytes, 0, x.len, us, addr) <==> Matches(x.mem[..], x.off, x.len, us, addr)
  {
    assert forall t :: 0 <= t < x.len ==> bytes[t] == x.mem[..][x.off + t];
    if Matches(bytes, 0, x.len, us, addr) {
      forall t | x.off <= t < x.off + x.len ensures x.mem[..][t] == Flat(us, addr + (t - x.off)) {
        assert bytes[t - x.off] == Flat(us, addr + (t - x.off - 0));
      }
    }
    if Matches(x.mem[..], x.off, x.len, us, addr) {
      forall t | 0 <= t < x.len ensures bytes[t] == Flat(us, addr + (t - 0)) {
        assert x.mem[..][x.off + t] == Flat(us, addr + (x.off + t - x.off));
      }
    }
  }

  lemma OneMore(xs: seq<Segment>, got: seq<seq<Byte>>, sector: nat, us: seq<Update>, k: nat)
    requires AllSound(xs) && k < |xs| && |got| == k && Kept(xs, got, k) && Wanted(xs, got, sector, us, k)
    requires Matches(xs[k].mem[..], xs[k].off, xs[k].len, us, SectorAt(xs, sector, k) * SECTOR_SIZE)
    ensures Kept(xs, got + [xs[k].Bytes()], k + 1) && Wanted(xs, got + [xs[k].Bytes()], sector, us, k + 1)
  {
    WantedBytes(xs[k], xs[k].Bytes(), us, SectorAt(xs, sector, k) * SECTOR_SIZE);
  }

  lemma AllHold(xs: seq<Segment>, got: seq<seq<Byte>>, sector: nat, us: seq<Update>)
    requires AllSound(xs) && |got| == |xs| && Kept(xs, got, |xs|) && Wanted(xs, got, sector, us, |xs|)
    ensures forall k :: 0 <= k < |xs| ==> Matches(xs[k].mem[..], xs[k].off, xs[k].len, us, SectorAt(xs, sector, k) * SECTOR_SIZE)
  {
    forall k | 0 <= k < |xs| ensures Matches(xs[k].mem[..], xs[k].off, xs[k].len, us, SectorAt(xs, sector, k) * SECTOR_SIZE) {
      WantedBytes(xs[k], got[k], us, SectorAt(xs, sector, k) * SECTOR_SIZE);
    }
  }

  class Page {
    const index: nat
    const bytes: array<Byte>

    constructor (index: nat)
      ensures this.index == index && fresh(bytes) && bytes[..] == Zeroes(PAGE_SIZE)
    {
      this.index := index;
      bytes := new Byte[PAGE_SIZE](_ => 0);
    }
  }

  class Disk {
    var pages: map<nat, Page>
    ghost var updates: seq<Update>

    ghost function Buffers(): (s: set<array<Byte>>)
      reads this
      ensures forall i :: i in pages ==> pages[i].bytes in s
    {
      set i | i in pages :: pages[i].bytes
    }

    /** Every page is filed under its index and has its own bytes. */
    ghost predicate Filed()
      reads this
    {
      && (forall i :: i in pages ==> pages[i].index == i && pages[i].bytes.Length == PAGE_SIZE)
      && (forall i, j :: i in pages && j in pages && i != j ==> pages[i].bytes != pages[j].bytes)
    }

    /** The byte at an address: a missing page counts as zeroes. */
    ghost function At(a: nat): (b: Byte)
      requires Filed()
      reads this, Buffers()
    {
      if a / PAGE_SIZE in pages then pages[a / PAGE_SIZE].bytes[a % PAGE_SIZE] else 0
    }

    /** The pages look like the flat array after all updates. */
    ghost predicate Valid()
      reads this, Buffers()
    {
      Filed() && forall a: nat :: At(a) == Flat(updates, a)
    }

    constructor ()
      ensures Valid() && updates == [] && pages == map[]
    {
      pages := map[];
      updates := [];
    }

    method LookupPage(sector: nat) returns (page: Page?)
      requires Filed()
      ensures page == if PageOf(sector) in pages then pages[PageOf(sector)] else null
      ensures page != null ==> page.index == PageOf(sector)
    {
      var idx := sector / PAGE_SECTORS;
      page := if idx in pages then pages[idx] else null;
      assert page == null || page.index == idx;
    }

    /** Only that page is added; allocation may fail, and then nothing changes. */
    method InsertPage(sector: nat) returns (page: Page?)
      requires Filed()
      modifies this`pages
      ensures Filed()
      ensures forall i :: i in old(pages) ==> i in pages && pages[i] == old(pages)[i]
      ensures forall i :: i in pages && i !in old(pages) ==> fresh(pages[i].bytes)
      ensures page == null ==> pages == old(pages)
      ensures page != null ==> pages == old(pages)[PageOf(sector) := page]
      ensures PageOf(sector) in old(pages) ==> page != null
      ensures forall a: nat :: At(a) == old(At(a))
    {
      page := LookupPage(sector);
      if page != null {
        return;
      }
      if * {
        return null;
      }
      var idx := sector / PAGE_SECTORS;
      page := new Page(idx);
      pages := pages[idx := page];
      assert page.bytes[..] == Zeroes(PAGE_SIZE);
      assert forall j :: 0 <= j < PAGE_SIZE ==> page.bytes[..][j] == 0;
    }

    /** Makes sure both pages of a transfer exist, and adds no others. */
    method CopyToSetup(sector: nat, n: nat) returns (r: Outcome)
      requires Filed() && n <= PAGE_SIZE
      modifies this`pages
      ensures Filed() && r != Failed
      ensures forall i :: i in old(pages) ==> i in pages && pages[i] == old(pages)[i]
      ensures forall i :: i in pages && i !in old(pages) ==> fresh(pages[i].bytes)
      ensures forall a: nat :: At(a) == old(At(a))
      ensures r == Done ==> pages.Keys == old(pages).Keys + PagesOf(sector, n)
      ensures pages.Keys <= old(pages).Keys + PagesOf(sector, n)
      ensures PagesOf(sector, n) <= old(pages).Keys ==> r == Done
    {
      var offset := sector % PAGE_SECTORS * SECTOR_SIZE;
      var copy := if n < PAGE_SIZE - offset then n else PAGE_SIZE - offset;
      var page := InsertPage(sector);
      if page == null {
        return NoMemory;
      }
      if copy < n {
        PartsMeet(sector, n);
        page := InsertPage(sector + copy / SECTOR_SIZE);
        if page == null {
          return NoMemory;
        }
      }
      return Done;
    }

    /** One part of a write: n bytes into the page from offset on. */
    method CopyPart(page: Page, offset: nat, src: array<Byte>, s: nat, n: nat)
      requires Filed() && page.index in pages && pages[page.index] == page && src !in Buffers()
      requires offset + n <= PAGE_SIZE && s + n <= src.Length && !StepsBack(n)
      modifies page.bytes
      ensures Filed()
      ensures forall a: nat :: At(a) == Patched(page.index * PAGE_SIZE + offset, src[s..s + n], a, old(At(a)))
    {
      ghost var was := page.bytes[..];
      PcmMemcpy(page.bytes, offset, src, s, n);
      CopiedIsPatched(was, offset, src[..], s, n);
      assert src[..][s..s + n] == src[s..s + n];
      forall j | 0 <= j < PAGE_SIZE
        ensures page.bytes[j] == Patched(offset, src[s..s + n], j, was[j])
      {
        assert page.bytes[..][j] == page.bytes[j];
      }
    }

    method CopyTo(src: array<Byte>, s: nat, sector: nat, n: nat)
      requires Filed() && src !in Buffers() && s + n <= src.Length
      requires n <= PAGE_SIZE && n % SECTOR_SIZE == 0
      requires PageOf(sector) in pages
      requires FirstPart(sector, n) < n ==> PageOf(sector) + 1 in pages
      modifies Buffers()
      ensures Filed()
      ensures forall a: nat :: At(a) == Patched(sector * SECTOR_SIZE, src[s..s + n], a, old(At(a)))
    {
      PartsMeet(sector, n);
      PartsAreWholeBlocks(sector, n);
      var offset := sector % PAGE_SECTORS * SECTOR_SIZE;
      var copy := if n < PAGE_SIZE - offset then n else PAGE_SIZE - offset;
      var page := LookupPage(sector);
      assert page != null;
      CopyPart(page, offset, src, s, copy);
      if copy < n {
        page := LookupPage(sector + copy / SECTOR_SIZE);
        assert page != null;
        CopyPart(page, 0, src, s + copy, n - copy);
      }
    }

    method CopyFrom(dst: array<Byte>, d: nat, sector: nat, n: nat)
      requires Filed() && dst !in Buffers() && d + n <= dst.Length && n <= PAGE_SIZE
      modifies dst
      ensures forall j :: 0 <= j < dst.Length ==>
        dst[j] == if d <= j < d + n then At(sector * SECTOR_SIZE + (j - d)) else old(dst[j])
    {
      PartsMeet(sector, n);
      var offset := sector % PAGE_SECTORS * SECTOR_SIZE;
      var copy := if n < PAGE_SIZE - offset then n else PAGE_SIZE - offset;
      var page := LookupPage(sector);
      ReadPart(dst, d, page, offset, copy);
      if copy < n {
        page := LookupPage(sector + copy / SECTOR_SIZE);
        ReadPart(dst, d + copy, page, 0, n - copy);
      }
    }

    /** The segment's memory holds the flat array from the sector on. */
    ghost predicate Holds(x: Segment, sector: nat)
      requires x.Sound()
      reads this, x.mem
    {
      Matches(x.mem[..], x.off, x.len, updates, sector * SECTOR_SIZE)
    }

    method PutSegment(x: Segment, sector: nat) returns (r: Outcome)
      requires Valid() && x.Sound() && x.mem !in Buffers()
      modifies this, Buffers()
      ensures Valid() && r != Failed
      ensures forall i :: i in pages ==> pages[i].bytes in old(Buffers()) || fresh(pages[i].bytes)
      ensures r == Done ==> updates == old(updates) + [Update(sector * SECTOR_SIZE, x.mem[x.off..x.off + x.len])]
      ensures r == NoMemory ==> updates == old(updates)
      ensures r == Done ==> pages.Keys == old(pages).Keys + PagesOf(sector, x.len)
      ensures pages.Keys <= old(pages).Keys + PagesOf(sector, x.len)
    {
      r := CopyToSetup(sector, x.len);
      if r != Done {
        return;
      }
      CopyTo(x.mem, x.off, sector, x.len);
      updates := updates + [Update(sector * SECTOR_SIZE, x.mem[x.off..x.off + x.len])];
    }

    /** A request for one segment of memory. */
    method DoSegment(write: bool, x: Segment, sector: nat) returns (r: Outcome)
      requires Valid() && x.Sound() && x.mem !in Buffers()
      modifies if write then {this as object} + Buffers() else {x.mem}
      ensures Valid() && r != Failed
      ensures forall i :: i in pages ==> pages[i].bytes in old(Buffers()) || fresh(pages[i].bytes)
      ensures write && r == Done ==>
        updates == old(updates) + [Update(sector * SECTOR_SIZE, x.mem[x.off..x.off + x.len])]
      ensures !write || r == NoMemory ==> updates == old(updates)
      ensures write && r == Done ==> pages.Keys == old(pages).Keys + PagesOf(sector, x.len)
      ensures write ==> pages.Keys <= old(pages).Keys + PagesOf(sector, x.len)
      ensures !write ==> r == Done && Holds(x, sector)
      ensures forall t :: 0 <= t < x.mem.Length && !(x.off <= t < x.off + x.len) ==>
        x.mem[t] == old(x.mem[t])
    {
      if write {
        r := PutSegment(x, sector);
      } else {
        CopyFrom(x.mem, x.off, sector, x.len);
        r := Done;
      }
    }

    /** Writes the segments to adjoining runs of sectors, until memory runs out. */
    method WriteSegments(segments: seq<Segment>, sector: nat) returns (r: Outcome, ghost done: nat)
      requires Valid() && AllSound(segments)
      requires forall k :: 0 <= k < |segments| ==> segments[k].mem !in Buffers()
      modifies this, Buffers()
      ensures Valid() && done <= |segments|
      ensures r == if done == |segments| then Done else NoMemory
      ensures updates == old(updates) + Pieces(segments, Data(segments), sector, done)
    {
      var at := sector;
      done := 0;
      ghost var data := Data(segments);
      for k := 0 to |segments|
        invariant done == k
        invariant Valid() && at == SectorAt(segments, sector, k)
        invariant forall i :: i in pages ==> pages[i].bytes in old(Buffers()) || fresh(pages[i].bytes)
        invariant Data(segments) == data
        invariant updates == old(updates) + Pieces(segments, data, sector, k)
      {
        var x := segments[k];
        assert x.mem in Memories(segments) && data[k] == x.mem[x.off..x.off + x.len];
        r := DoSegment(true, x, at);
        if r != Done {
          return;
        }
        at := at + x.len / SECTOR_SIZE;
        done := done + 1;
      }
      r := Done;
    }

    /** Reads one segment; the segments read before it stay as they are. */
    method ReadNext(segments: seq<Segment>, k: nat, at: nat, ghost got: seq<seq<Byte>>)
      requires Valid() && AllSound(segments) && Separate(segments) && k < |segments|
      requires forall j :: 0 <= j < |segments| ==> segments[j].mem !in Buffers()
      requires Kept(segments, got, k)
      modifies segments[k].mem
      ensures Valid() && Kept(segments, got, k) && Holds(segments[k], at)
    {
      var x := segments[k];
      var r := DoSegment(false, x, at);
      forall j | 0 <= j < k ensures segments[j].Bytes() == got[j] {
        var y := segments[j];
        assert old(y.Bytes()) == got[j];
        assert forall t :: y.off <= t < y.off + y.len ==> y.mem[t] == old(y.mem[t]);
      }
    }

    /** One turn of the loop over the segments. */
    method ReadOneMore(segments: seq<Segment>, ghost sector: nat, k: nat, at: nat, ghost got: seq<seq<Byte>>)
        returns (next: nat, ghost more: seq<seq<Byte>>)
      requires Valid() && AllSound(segments) && Separate(segments) && k < |segments| && |got| == k
      requires forall j :: 0 <= j < |segments| ==> segments[j].mem !in Buffers()
      requires Kept(segments, got, k) && Wanted(segments, got, sector, updates, k) && at == SectorAt(segments, sector, k)
      modifies segments[k].mem
      ensures Valid() && |more| == k + 1 && next == SectorAt(segments, sector, k + 1)
      ensures Kept(segments, more, k + 1) && Wanted(segments, more, sector, updates, k + 1)
    {
      ReadNext(segments, k, at, got);
      OneMore(segments, got, sector, updates, k);
      more := got + [segments[k].Bytes()];
      next := at + segments[k].len / SECTOR_SIZE;
    }

    /** Reads adjoining runs of sectors into the segments. */
    method ReadSegments(segments: seq<Segment>, sector: nat) returns (r: Outcome)
      requires Valid() && AllSound(segments) && Separate(segments)
      requires forall k :: 0 <= k < |segments| ==> segments[k].mem !in Buffers()
      modifies Memories(segments)
      ensures Valid() && r == Done
      ensures forall k :: 0 <= k < |segments| ==> Holds(segments[k], SectorAt(segments, sector, k))
    {
      var at := sector;
      StartsAt(segments, sector);
      ghost var got: seq<seq<Byte>> := [];
      for k := 0 to |segments|
        invariant Valid() && at == SectorAt(segments, sector, k) && |got| == k
        invariant Kept(segments, got, k) && Wanted(segments, got, sector, updates, k)
      {
        at, got := ReadOneMore(segments, sector, k, at, got);
      }
      AllHold(segments, got, sector, updates);
      r := Done;
    }

    /** A request for several segments of memory. One that goes past the end of the disk fails, and so
        does one without segments: the error it starts out with is never cleared. */
    method MakeRequest(write: bool, segments: seq<Segment>, sector: nat, capacity: nat)
        returns (r: Outcome, ghost done: nat)
      requires Valid() && AllSound(segments)
      requires forall k :: 0 <= k < |segments| ==> segments[k].mem !in Buffers()
      requires !write ==> Separate(segments)
      modifies if write then {this as object} + Buffers() else Memories(segments)
      ensures Valid() && done <= |segments|
      ensures r == Failed <==> SectorAt(segments, sector, |segments|) > capacity || segments == []
      ensures r == Failed ==> done == 0 && Data(segments) == old(Data(segments))
      ensures r == NoMemory ==> write && done < |segments|
      ensures r == Done ==> done == |segments|
      ensures write ==> updates == old(updates) + Pieces(segments, Data(segments), sector, done)
      ensures !write && r == Done ==> updates == old(updates)
      ensures !write && r == Done ==>
        forall k :: 0 <= k < |segments| ==> Holds(segments[k], SectorAt(segments, sector, k))
    {
      done := 0;
      if SectorAt(segments, sector, |segments|) > capacity || |segments| == 0 {
        r := Failed;
      } else if write {
        r, done := WriteSegments(segments, sector);
      } else {
        r := ReadSegments(segments, sector);
        done := |segments|;
      }
    }
  }

  /** One part of a read: n bytes of the page, or zeroes if there is none. */
  method ReadPart(dst: array<Byte>, d: nat, page: Page?, offset: nat, n: nat)
    requires d + n <= dst.Length
    requires page != null ==> page.bytes != dst && offset + n <= page.bytes.Length
    modifies dst
    ensures forall j :: 0 <= j < dst.Length ==>
      dst[j] ==
        if d <= j < d + n then (if page != null then page.bytes[offset + (j - d)] else 0) else old(dst[j])
  {
    for k := 0 to n
      invariant forall j :: 0 <= j < dst.Length ==>
        dst[j] ==
          if d <= j < d + k then (if page != null then page.bytes[offset + (j - d)] else 0) else old(dst[j])
    {
      dst[d + k] := if page != null then page.bytes[offset + k] else 0;
    }
  }
}
