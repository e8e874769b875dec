// kernel/src/mm/mm.c: first-fit allocation from several physical memories, with in-band
// block headers, splitting, and two-sided merging on release.
module Mm {
  import opened Tiles
  import opened MmHeaders

  // ---------- the memory manager ----------

  datatype Physmem = Physmem(start: nat, last: nat, size: nat, used: nat, min: nat, root: nat)

  ghost predicate RegionOk(m: map<nat, MmNode>, r: Physmem, index: nat, ts: seq<Tile>) {
    && Outside(ts, r.start, r.last, r.root, index)
    && Canonical(ts, r.start, r.last, r.min)
    && r.start < r.last && 8 <= r.min <= 256 && r.min % 8 == 0
    && r.size == r.last - r.start
    && r.used == SizeOf(ts, false)
    && Linked(m, r.root, ts, r.last, index)
    && Marked(m, ts)
  }

  predicate Owns(r: Physmem, a: nat) { a == r.root || r.start <= a <= r.last }

  ghost predicate Separate(rs: seq<Physmem>) {
    forall i, j, a: nat :: 0 <= i < j < |rs| && Owns(rs[i], a) ==> !Owns(rs[j], a)
  }

  lemma RegionFrame(m: map<nat, MmNode>, m': map<nat, MmNode>, r: Physmem, index: nat, ts: seq<Tile>)
    requires RegionOk(m, r, index, ts)
    requires forall a: nat :: Owns(r, a) ==> Load(m', a) == Load(m, a)
    ensures RegionOk(m', r, index, ts)
  {
    forall i | 0 <= i < |ts|
      ensures Owns(r, ts[i].addr)
    {
      Bounded(ts, r.start, r.last, i);
    }
  }

  // Address ptr was returned by an allocation and not released since.
  ghost predicate LiveAt(ts: seq<Tile>, k: nat, ptr: nat) {
    k < |ts| && !ts[k].free && ptr == ts[k].addr + HEADER
  }

  // Bytes inside a live block other than tile `k`.
  ghost predicate InLive(ts: seq<Tile>, k: int, a: nat) {
    exists q :: 0 <= q < |ts| && q != k && !ts[q].free && ts[q].addr <= a < End(ts[q])
  }

  predicate SameShape(rs: seq<Physmem>, rs': seq<Physmem>) {
    |rs| == |rs'| && forall i :: 0 <= i < |rs| ==> rs'[i] == rs[i].(used := rs'[i].used)
  }

  lemma NextPositive(ts: seq<Tile>, lo: nat, last: nat, i: nat)
    requires Tiled(ts, lo, last) && 0 < lo && i <= |ts|
    ensures NextFree(ts, i, last) > 0
  {
    var k := NextFreeFinds(ts, lo, last, i);
    if k < |ts| { Bounded(ts, lo, last, k); }
    if ts != [] { Bounded(ts, lo, last, 0); }
  }

  lemma SizeRead(m: map<nat, MmNode>, root: nat, ts: seq<Tile>, lo: nat, last: nat, region: nat, k: nat)
    requires Outside(ts, lo, last, root, region) && Linked(m, root, ts, last, region) && k < |ts|
    ensures GetSize(Load(m, ts[k].addr).size) == ts[k].size
  {
    Bounded(ts, lo, last, k);
    PackUnpack(region, ts[k].size);
  }

  lemma TagRead(m: map<nat, MmNode>, root: nat, ts: seq<Tile>, lo: nat, last: nat, region: nat, k: nat)
    requires Outside(ts, lo, last, root, region) && Linked(m, root, ts, last, region) && k < |ts|
    ensures GetRegion(Load(m, ts[k].addr).size) == region
    ensures GetSize(Load(m, ts[k].addr).size) == ts[k].size
  {
    Bounded(ts, lo, last, k);
    PackUnpack(region, ts[k].size);
  }

  lemma FirstFit(ts: seq<Tile>, size: nat, k: nat)
    requires k <= |ts|
    requires forall q :: 0 <= q < k && ts[q].free ==> ts[q].size < size
    ensures k == |ts| ==> FitIndex(ts, size) == k
    ensures k < |ts| && ts[k].free && ts[k].size >= size ==> FitIndex(ts, size) == k
  {
  }

  // The early exit of mm_alloc is justified: by conservation no free block is larger than
  // what is not handed out.
  lemma NoFit(ts: seq<Tile>, lo: nat, last: nat, size: nat)
    requires Tiled(ts, lo, last) && size > last - lo - SizeOf(ts, false)
    ensures FitIndex(ts, size) == |ts|
  {
    Conserved(ts, lo, last);
    var k := FitIndex(ts, size);
    if k < |ts| { TileWithinSizeOf(ts, k); }
  }

  // A region whose tile `k` has just been unlinked from the free list.
  ghost predicate RegionTaken(m: map<nat, MmNode>, r: Physmem, index: nat, ts: seq<Tile>, k: nat) {
    && Outside(ts, r.start, r.last, r.root, index)
    && Canonical(ts, r.start, r.last, r.min)
    && r.start < r.last && 8 <= r.min <= 256 && r.min % 8 == 0
    && r.size == r.last - r.start
    && r.used == SizeOf(ts, false)
    && k < |ts| && ts[k].free
    && Linked(m, r.root, Taken(ts, k), r.last, index)
    && Marked(m, ts)
  }

  // Addresses an allocation from tile `k` may write: the root, the links of free blocks,
  // and the tile itself.
  ghost predicate Writable(r: Physmem, ts: seq<Tile>, k: nat, a: nat)
    requires k < |ts|
  {
    a == r.root || (exists q :: 0 <= q < |ts| && ts[q].free && ts[q].addr == a) || ts[k].addr <= a < End(ts[k])
  }

  lemma NotWritable(r: Physmem, ts: seq<Tile>, k: nat, a: nat)
    requires Tiled(ts, r.start, r.last) && k < |ts| && r.root + HEADER <= r.start
    requires !Owns(r, a) || InLive(ts, k, a)
    ensures !Writable(r, ts, k, a)
  {
    if InLive(ts, k, a) {
      var q :| 0 <= q < |ts| && q != k && !ts[q].free && ts[q].addr <= a < End(ts[q]);
      Bounded(ts, r.start, r.last, q);
      Covered(ts, r.start, r.last, a);
      forall j | 0 <= j < |ts| && ts[j].free
        ensures ts[j].addr != a
      {
      }
    } else {
      forall j | 0 <= j < |ts|
        ensures Owns(r, ts[j].addr) && a != ts[j].addr
        ensures !(ts[j].addr <= a < End(ts[j]))
      {
        Bounded(ts, r.start, r.last, j);
      }
    }
  }

  lemma MarkLinked(m: map<nat, MmNode>, root: nat, ts: seq<Tile>, lo: nat, last: nat, region: nat, k: nat)
    requires Outside(ts, lo, last, root, region) && Linked(m, root, ts, last, region)
    requires k < |ts| && !ts[k].free
    ensures Linked(m[ts[k].addr := Load(m, ts[k].addr).(next := MAGIC)], root, ts, last, region)
  {
    Bounded(ts, lo, last, k);
    forall i | 0 <= i < |ts| && ts[i].addr == ts[k].addr
      ensures i == k
    {
      SameAddress(ts, lo, last, i, k);
    }
  }

  lemma TakeRegion(m: map<nat, MmNode>, m': map<nat, MmNode>, r: Physmem, r': Physmem, index: nat,
                   ts: seq<Tile>, k: nat, size: nat)
    requires RegionTaken(m, r, index, ts, k)
    requires r.min <= size <= ts[k].size && size % 8 == 0
    requires var us := Carve(ts, k, size, r.min);
             && Linked(m', r.root, us, r.last, index)
             && r' == r.(used := SizeOf(us, false))
    requires Load(m', ts[k].addr).next == MAGIC
    requires forall a: nat :: !Writable(r, ts, k, a) ==> Load(m', a) == Load(m, a)
    ensures RegionOk(m', r', index, Carve(ts, k, size, r.min))
  {
    var us := Carve(ts, k, size, r.min);
    CarveCanonical(ts, r.start, r.last, k, size, r.min);
    forall i | 0 <= i < |us| && !us[i].free
      ensures Load(m', us[i].addr).next == MAGIC
    {
      if i != k {
        var q := if i < k || size + r.min > ts[k].size then i else i - 1;
        assert us[i] == ts[q];
        Bounded(ts, r.start, r.last, q);
        assert InLive(ts, k, ts[q].addr);
        NotWritable(r, ts, k, ts[q].addr);
      }
    }
  }

  lemma OthersKept(m: map<nat, MmNode>, m': map<nat, MmNode>, rs: seq<Physmem>, rs': seq<Physmem>,
                   tss: seq<seq<Tile>>, tss': seq<seq<Tile>>, index: nat)
    requires index < |rs| == |tss| && Separate(rs)
    requires forall i :: 0 <= i < |rs| && i != index ==> RegionOk(m, rs[i], i, tss[i])
    requires forall a: nat :: !Owns(rs[index], a) ==> Load(m', a) == Load(m, a)
    requires SameShape(rs, rs') && |tss'| == |tss|
    requires forall i :: 0 <= i < |rs| && i != index ==> rs'[i] == rs[i] && tss'[i] == tss[i]
    ensures Separate(rs')
    ensures forall i :: 0 <= i < |rs| && i != index ==> RegionOk(m', rs'[i], i, tss'[i])
  {
    forall i | 0 <= i < |rs| && i != index
      ensures RegionOk(m', rs'[i], i, tss'[i])
    {
      forall a: nat | Owns(rs[i], a)
        ensures Load(m', a) == Load(m, a)
      {
        assert !Owns(rs[index], a);
      }
      RegionFrame(m, m', rs[i], i, tss[i]);
    }
    assert forall i, a: nat :: 0 <= i < |rs| ==> Owns(rs'[i], a) == Owns(rs[i], a);
  }

  lemma HalvedFree(ts: seq<Tile>, k: nat, size: nat)
    requires k < |ts| && size <= ts[k].size
    ensures var hs := Halved(Taken(ts, k), k, size);
            forall q :: 0 <= q < |hs| && hs[q].free ==>
                exists i :: 0 <= i < |ts| && ts[i].free && ts[i].addr == hs[q].addr
  {
    var hs := Halved(Taken(ts, k), k, size);
    forall q | 0 <= q < |hs| && hs[q].free
      ensures exists i :: 0 <= i < |ts| && ts[i].free && ts[i].addr == hs[q].addr
    {
      if q < k { assert ts[q] == hs[q]; } else { assert ts[q - 1] == hs[q]; }
    }
  }

  lemma PrevOwned(r: Physmem, ts: seq<Tile>, p: int)
    requires Tiled(ts, r.start, r.last) && -1 <= p < |ts| && (p >= 0 ==> ts[p].free)
    ensures Owns(r, At(ts, p, r.root))
    ensures forall i :: 0 <= i < |ts| && !ts[i].free ==> ts[i].addr != At(ts, p, r.root) || p < 0
  {
    if p >= 0 {
      Bounded(ts, r.start, r.last, p);
      forall i | 0 <= i < |ts| && ts[i].addr == ts[p].addr
        ensures i == p
      {
        SameAddress(ts, r.start, r.last, i, p);
      }
    }
  }

  lemma NeverWritable(r: Physmem, ts: seq<Tile>, k: nat)
    requires Tiled(ts, r.start, r.last) && k < |ts| && r.root + HEADER <= r.start
    ensures forall a: nat :: !Owns(r, a) || InLive(ts, k, a) ==> !Writable(r, ts, k, a)
  {
    forall a: nat | !Owns(r, a) || InLive(ts, k, a)
      ensures !Writable(r, ts, k, a)
    {
      NotWritable(r, ts, k, a);
    }
  }

  lemma FreeMarked(m: map<nat, MmNode>, m': map<nat, MmNode>, r: Physmem, ts: seq<Tile>, k: nat)
    requires Tiled(ts, r.start, r.last) && r.root + HEADER <= r.start && Marked(m, ts) && k < |ts|
    requires forall a: nat :: !Writable(r, ts, k, a) ==> Load(m', a) == Load(m, a)
    ensures Marked(m', Release(ts, k))
  {
    var us, f := Release(ts, k), FirstMerged(ts, k);
    forall i | 0 <= i < |us| && !us[i].free
      ensures Load(m', us[i].addr).next == MAGIC
    {
      var q := if i < f then i else i - f - 1 + PastMerged(ts, k);
      assert us[i] == ts[q];
      Bounded(ts, r.start, r.last, q);
      assert InLive(ts, k, ts[q].addr);
      NotWritable(r, ts, k, ts[q].addr);
    }
  }

  lemma FreeRegion(m: map<nat, MmNode>, m': map<nat, MmNode>, r: Physmem, index: nat, ts: seq<Tile>, k: nat)
    requires RegionOk(m, r, index, ts) && k < |ts| && !ts[k].free
    requires Linked(m', r.root, Release(ts, k), r.last, index)
    requires forall a: nat :: !Writable(r, ts, k, a) ==> Load(m', a) == Load(m, a)
    ensures r.used >= ts[k].size
    ensures RegionOk(m', r.(used := r.used - ts[k].size), index, Release(ts, k))
  {
    ReleaseSize(ts, k);
    ReleaseCanonical(ts, r.start, r.last, r.min, k);
    FreeMarked(m, m', r, ts, k);
  }

  // Where the live block that `ptr` points into starts; |ts| when there is none.
  ghost function FindLive(ts: seq<Tile>, ptr: nat, i: nat := 0): (k: nat)
    requires i <= |ts|
    ensures i <= k <= |ts|
    ensures k < |ts| ==> LiveAt(ts, k, ptr)
    ensures forall j :: i <= j < k ==> !LiveAt(ts, j, ptr)
    decreases |ts| - i
  {
    if i == |ts| || LiveAt(ts, i, ptr) then i else FindLive(ts, ptr, i + 1)
  }

  // ---------- one operation on the block structure of all the memories ----------

  datatype HeapOp = AllocOp(region: nat, request: nat) | FreeOp(region: nat, ptr: nat)

  // What the callers of mm_alloc and mm_free owe: a physical memory that exists, a request
  // that does not round to nothing, a pointer that is live.
  ghost predicate Possible(tss: seq<seq<Tile>>, op: HeapOp) {
    match op
    case AllocOp(i, request) => i < |tss| && request < U32 && Roundable(request)
    case FreeOp(i, ptr) => i < |tss| && FindLive(tss[i], ptr) < |tss[i]|
  }

  ghost function Step(tss: seq<seq<Tile>>, mins: seq<nat>, op: HeapOp): seq<seq<Tile>>
    requires |mins| == |tss| && Possible(tss, op)
  {
    match op
    case AllocOp(i, request) =>
      var k := FitIndex(tss[i], Rounded(request, mins[i]));
      if k == |tss[i]| then tss else tss[i := Carve(tss[i], k, Rounded(request, mins[i]), mins[i])]
    case FreeOp(i, ptr) => tss[i := Release(tss[i], FindLive(tss[i], ptr))]
  }

  ghost function Mins(rs: seq<Physmem>): (mins: seq<nat>)
    ensures |mins| == |rs|
  {
    seq(|rs|, i requires 0 <= i < |rs| => rs[i].min)
  }

  // Address `a` lies in a live block of memory `i`, and not in tile `k` of memory `index`.
  ghost predicate LiveExcept(tss: seq<seq<Tile>>, index: nat, k: int, i: nat, a: nat) {
    i < |tss| && InLive(tss[i], if i == index then k else -1, a)
  }

  lemma LiveUntouched(rs: seq<Physmem>, tss: seq<seq<Tile>>, index: nat, k: nat)
    requires Separate(rs) && |rs| == |tss| && index < |rs| && k < |tss[index]|
    requires forall i :: 0 <= i < |rs| ==> Tiled(tss[i], rs[i].start, rs[i].last) && rs[i].root + HEADER <= rs[i].start
    ensures forall i: nat, a: nat :: LiveExcept(tss, index, k, i, a) ==> !Writable(rs[index], tss[index], k, a)
    ensures forall i: nat, a: nat :: tss[index][k].free && LiveExcept(tss, index, -1, i, a)
              ==> LiveExcept(tss, index, k, i, a)
  {
    forall i: nat, a: nat | LiveExcept(tss, index, k, i, a)
      ensures !Writable(rs[index], tss[index], k, a)
    {
      if i != index {
        var q :| 0 <= q < |tss[i]| && tss[i][q].addr <= a < End(tss[i][q]);
        Bounded(tss[i], rs[i].start, rs[i].last, q);
        assert Owns(rs[i], a) && !Owns(rs[index], a);
      }
      NotWritable(rs[index], tss[index], k, a);
    }
  }

  // No header, root or last node lies in the payload of a live block.
  lemma PayloadApart(rs: seq<Physmem>, tss: seq<seq<Tile>>, index: nat, k: nat, a: nat)
    requires |rs| == |tss| && Separate(rs) && index < |rs|
    requires forall i :: 0 <= i < |rs| ==> Tiled(tss[i], rs[i].start, rs[i].last) && rs[i].root + HEADER <= rs[i].start
    requires k < |tss[index]| && tss[index][k].addr + HEADER <= a < End(tss[index][k])
    ensures forall i, q :: 0 <= i < |rs| && 0 <= q < |tss[i]| ==> tss[i][q].addr != a
    ensures forall i :: 0 <= i < |rs| ==> rs[i].root != a && rs[i].last != a
  {
    Bounded(tss[index], rs[index].start, rs[index].last, k);
    assert Owns(rs[index], a);
    forall i, q | 0 <= i < |rs| && 0 <= q < |tss[i]|
      ensures tss[i][q].addr != a
    {
      Bounded(tss[i], rs[i].start, rs[i].last, q);
      if i == index {
        Covered(tss[i], rs[i].start, rs[i].last, a);
      } else {
        assert !Owns(rs[i], a);
      }
    }
    forall i | 0 <= i < |rs|
      ensures rs[i].root != a && rs[i].last != a
    {
      if i != index { assert !Owns(rs[i], a); }
      if tss[i] != [] { Bounded(tss[i], rs[i].start, rs[i].last, 0); }
    }
  }

  // ---------- the physical memories at boot ----------

  datatype Bank = Bank(start: nat, end: nat, min: nat, root: nat)

  // A bank without addresses takes those of the linker's heap section.
  function Placed(b: Bank, heapStart: nat, heapEnd: nat): Bank {
    if b.start == 0 && b.end == 0 then b.(start := heapStart, end := heapEnd) else b
  }

  function AlignUp(a: nat): nat { if a % 8 != 0 then (a + 8) / 8 * 8 else a }

  // The root object lies below the bank, and the aligned bank holds one block and the last node.
  predicate Usable(b: Bank) {
    && b.root + HEADER <= b.start
    && 8 <= b.min <= 256 && b.min % 8 == 0
    && AlignUp(b.start) + b.min + HEADER <= b.end / 8 * 8
    && b.end - b.start < TAG
  }

  function RegionOf(b: Bank): Physmem
    requires Usable(b)
  {
    var last := b.end / 8 * 8 - HEADER;
    Physmem(AlignUp(b.start), last, last - AlignUp(b.start), 0, b.min, b.root)
  }

  // The whole multiples of 8 between the ends of a bank, all of it but the last node: `lo` is the
  // first one not below the start, `hi` the last one not above the end.
  predicate Within(b: Bank, lo: nat, hi: nat) {
    lo % 8 == 0 && b.start <= lo < b.start + 8 && hi % 8 == 0 && hi <= b.end < hi + 8
  }

  // A memory set up over all of a bank.
  predicate Spans(r: Physmem, b: Bank) {
    && Within(b, r.start, r.last + HEADER)
    && r.size == r.last - r.start && r.used == 0 && r.min == b.min && r.root == b.root
  }

  // mm_init uses a bank up to its ends; it loses to the alignment and the last node what it must.
  lemma RegionSpans(b: Bank)
    requires Usable(b)
    ensures Spans(RegionOf(b), b) && RegionOf(b).size + HEADER >= b.end - b.start - 14
  {
  }

  lemma WithinOnce(b: Bank, lo: nat, hi: nat, lo': nat, hi': nat)
    requires Within(b, lo, hi) && Within(b, lo', hi')
    ensures lo == lo' && hi == hi'
  {
  }

  function PlacedAll(banks: seq<Bank>, heapStart: nat, heapEnd: nat): (bs: seq<Bank>)
    ensures |bs| == |banks|
  {
    seq(|banks|, i requires 0 <= i < |banks| => Placed(banks[i], heapStart, heapEnd))
  }

  // Root objects lie in different structures of the table.
  predicate RootsApart(a: nat, b: nat) { a + HEADER <= b || b + HEADER <= a }

  // Banks and root objects do not overlap.
  predicate Apart(bs: seq<Bank>) {
    && (forall i, j :: 0 <= i < j < |bs| ==>
          (bs[i].end <= bs[j].start || bs[j].end <= bs[i].start) && RootsApart(bs[i].root, bs[j].root))
    && (forall i, j :: 0 <= i < |bs| && 0 <= j < |bs| ==>
          bs[i].root + HEADER <= bs[j].start || bs[j].end <= bs[i].root)
  }

  ghost predicate Configured(bs: seq<Bank>) {
    |bs| <= 16 && Apart(bs) && forall i :: 0 <= i < |bs| ==> Usable(bs[i])
  }

  ghost function Layout(bs: seq<Bank>): (rs: seq<Physmem>)
    requires Configured(bs)
    ensures |rs| == |bs|
  {
    seq(|bs|, i requires 0 <= i < |bs| => RegionOf(bs[i]))
  }

  lemma OwnsWithin(b: Bank, a: nat)
    requires Usable(b) && Owns(RegionOf(b), a)
    ensures a == b.root || b.start <= a < b.end
  {
  }

  lemma LayoutSeparate(bs: seq<Bank>)
    requires Configured(bs)
    ensures Separate(Layout(bs))
    ensures forall i, j, a: nat :: 0 <= i < |bs| && 0 <= j < |bs| && i != j && Owns(Layout(bs)[i], a)
              ==> !(bs[j].start <= a < bs[j].end) && a != bs[j].root
  {
    forall i, j, a: nat | 0 <= i < |bs| && 0 <= j < |bs| && i != j && Owns(Layout(bs)[i], a)
      ensures !(bs[j].start <= a < bs[j].end) && a != bs[j].root && !Owns(Layout(bs)[j], a)
    {
      OwnsWithin(bs[i], a);
      assert bs[i].root + HEADER <= bs[j].start || bs[j].end <= bs[i].root;
      assert bs[j].root + HEADER <= bs[i].start || bs[i].end <= bs[j].root;
      if i < j {
        assert bs[i].end <= bs[j].start || bs[j].end <= bs[i].start;
      } else {
        assert bs[j].end <= bs[i].start || bs[i].end <= bs[j].start;
      }
      if Owns(Layout(bs)[j], a) { OwnsWithin(bs[j], a); }
    }
  }

  ghost function Whole(r: Physmem): seq<Tile> { [Tile(r.start, r.size, true)] }

  ghost function Wholes(rs: seq<Physmem>): (tss: seq<seq<Tile>>)
    ensures |tss| == |rs|
  {
    seq(|rs|, i requires 0 <= i < |rs| => Whole(rs[i]))
  }

  // Setting up a bank writes nothing that an earlier bank owns.
  lemma BanksKept(m: map<nat, MmNode>, m': map<nat, MmNode>, bs: seq<Bank>, index: nat)
    requires Configured(bs) && index < |bs|
    requires forall a: nat :: !(bs[index].start <= a < bs[index].end) && a != bs[index].root ==>
               Load(m', a) == Load(m, a)
    requires forall i :: 0 <= i < index ==> RegionOk(m, Layout(bs)[i], i, Whole(Layout(bs)[i]))
    ensures forall i :: 0 <= i < index ==> RegionOk(m', Layout(bs)[i], i, Whole(Layout(bs)[i]))
  {
    LayoutSeparate(bs);
    forall i | 0 <= i < index
      ensures RegionOk(m', Layout(bs)[i], i, Whole(Layout(bs)[i]))
    {
      RegionFrame(m, m', Layout(bs)[i], i, Whole(Layout(bs)[i]));
    }
  }

  lemma FreshRegion(m: map<nat, MmNode>, r: Physmem, index: nat)
    requires index < 16 && r.size == r.last - r.start < TAG && r.used == 0
    requires 8 <= r.min <= 256 && r.min % 8 == 0 && r.size >= r.min && r.root + HEADER <= r.start
    requires r.start % 8 == 0 && r.last % 8 == 0
    requires Load(m, r.root) == MmNode(r.start, 0) && Load(m, r.last) == MmNode(0, 0)
    requires Load(m, r.start) == MmNode(r.last, Pack(index, r.size))
    ensures RegionOk(m, r, index, Whole(r))
  {
    SizeOfOne(Whole(r)[0], false);
  }

  // The five memories of the kernel: the heap section in SRAM and four banks of DRAM.
  function Banks(roots: seq<nat>): seq<Bank>
    requires |roots| == 5
  {
    [Bank(0, 0, 16, roots[0]),
     Bank(0x70000000, 0x7007FFFF, 256, roots[1]),
     Bank(0x70080000, 0x700FFFFF, 256, roots[2]),
     Bank(0x70100000, 0x7017FFFF, 256, roots[3]),
     Bank(0x70180000, 0x701FFFFF, 256, roots[4])]
  }

  // The kernel's own table meets what mm_init needs, wherever the linker puts the heap:
  // above the five root objects, below DRAM, and large enough for one block.
  lemma KernelBanksConfigured(roots: seq<nat>, heapStart: nat, heapEnd: nat)
    requires |roots| == 5
    requires forall i :: 0 <= i < 5 ==> roots[i] + HEADER <= heapStart
    requires forall i, j :: 0 <= i < j < 5 ==> RootsApart(roots[i], roots[j])
    requires heapStart % 8 == 0 && heapEnd % 8 == 0 && heapStart + 24 <= heapEnd < heapStart + TAG
             && heapEnd < 0x70000000
    ensures Configured(PlacedAll(Banks(roots), heapStart, heapEnd))
  {
    var bs := PlacedAll(Banks(roots), heapStart, heapEnd);
    assert bs[0] == Bank(heapStart, heapEnd, 16, roots[0]);
    assert bs[1] == Bank(0x70000000, 0x7007FFFF, 256, roots[1]);
    assert bs[2] == Bank(0x70080000, 0x700FFFFF, 256, roots[2]);
    assert bs[3] == Bank(0x70100000, 0x7017FFFF, 256, roots[3]);
    assert bs[4] == Bank(0x70180000, 0x701FFFFF, 256, roots[4]);
    AscendingApart(bs, heapStart);
    forall i | 0 <= i < 5
      ensures Usable(bs[i])
    {
      assert i == 0 || i == 1 || i == 2 || i == 3 || i == 4;
    }
  }

  // What they amount to: all but the last node of the heap section, and 0x7FFF0 bytes of each of
  // the four banks.
  lemma KernelTotals(roots: seq<nat>, heapStart: nat, heapEnd: nat)
    requires |roots| == 5 && 0 < heapStart && heapStart % 8 == 0 && heapEnd % 8 == 0
    requires Configured(PlacedAll(Banks(roots), heapStart, heapEnd))
    ensures var rs := Layout(PlacedAll(Banks(roots), heapStart, heapEnd));
            && rs[0].start == heapStart && rs[0].size == heapEnd - heapStart - 8 && rs[0].min == 16
            && (forall i :: 1 <= i < 5 ==>
                  rs[i].start == 0x70000000 + (i - 1) * 0x80000 && rs[i].size == 0x7FFF0 && rs[i].min == 256)
  {
    var bs := PlacedAll(Banks(roots), heapStart, heapEnd);
    forall i | 0 <= i < 5
      ensures Spans(Layout(bs)[i], bs[i])
    {
      RegionSpans(bs[i]);
    }
  }

  lemma AscendingApart(bs: seq<Bank>, floor: nat)
    requires forall i, j :: 0 <= i < j < |bs| ==> bs[i].end <= bs[j].start && RootsApart(bs[i].root, bs[j].root)
    requires forall i :: 0 <= i < |bs| ==> bs[i].root + HEADER <= floor <= bs[i].start
    ensures Apart(bs)
  {
  }

  lemma FreeKeepsAll(m: map<nat, MmNode>, m': map<nat, MmNode>, rs: seq<Physmem>, tss: seq<seq<Tile>>,
                     index: nat, k: nat)
    requires |rs| == |tss| && Separate(rs) && index < |rs| && k < |tss[index]| && !tss[index][k].free
    requires forall i :: 0 <= i < |rs| ==> RegionOk(m, rs[i], i, tss[i])
    requires Linked(m', rs[index].root, Release(tss[index], k), rs[index].last, index)
    requires forall a: nat :: !Writable(rs[index], tss[index], k, a) ==> Load(m', a) == Load(m, a)
    ensures rs[index].used >= tss[index][k].size
    ensures var rs' := rs[index := rs[index].(used := rs[index].used - tss[index][k].size)];
            var tss' := tss[index := Release(tss[index], k)];
            Separate(rs') && forall i :: 0 <= i < |rs| ==> RegionOk(m', rs'[i], i, tss'[i])
  {
    hide Linked, Release, Writable, Separate, Tiled, Canonical;
    var r, ts := rs[index], tss[index];
    FreeRegion(m, m', r, index, ts, k);
    NeverWritable(r, ts, k);
    OthersKept(m, m', rs, rs[index := r.(used := r.used - ts[k].size)], tss, tss[index := Release(ts, k)], index);
  }

  class MemoryManager {
    var mem: map<nat, MmNode>
    var regions: seq<Physmem>
    ghost var tiles: seq<seq<Tile>>

    ghost predicate Valid()
      reads this
    {
      && |tiles| == |regions| <= 16
      && Separate(regions)
      && forall i :: 0 <= i < |regions| ==> RegionOk(mem, regions[i], i, tiles[i])
    }

    // The walk of mm_list_insert: the last node of the free list below `node`.
    method FindBefore(node: nat, root: nat, last: nat,
                      ghost ts: seq<Tile>, ghost lo: nat, ghost k: nat, ghost region: nat)
      returns (iter: nat, ghost j: int, ghost n: nat)
      requires Outside(ts, lo, last, root, region) && Linked(mem, root, ts, last, region)
      requires k < |ts| && !ts[k].free && ts[k].addr == node
      ensures Around(ts, k, j, n) && iter == At(ts, j, root)
    {
      Bounded(ts, lo, last, k);
      iter, j := root, -1;
      n := NextFreeFinds(ts, lo, last, 0);
      while Load(mem, iter).next < node
        invariant -1 <= j < k && iter == At(ts, j, root) && (j >= 0 ==> ts[j].free)
        invariant j < n <= |ts| && (n < |ts| ==> ts[n].free)
        invariant forall q :: j < q < n ==> !ts[q].free
        invariant Load(mem, iter).next == NextFree(ts, j + 1, last) == if n < |ts| then ts[n].addr else last
        decreases k - j
      {
        iter := Load(mem, iter).next;
        if n >= k { Ordered(ts, lo, last, k, n); }
        j := n;
        n := NextFreeFinds(ts, lo, last, n + 1);
      }
      if n < k { Ordered(ts, lo, last, n, k); }
    }

    // The merges of mm_list_insert: the block at `node` joins the one at `iter` when that
    // ends where it starts, and takes in the next free block when it ends where that starts.
    // The ghosts say what the headers hold: the sizes of the three blocks, the tag they
    // share, and the link of the block ahead.
    method Merge(node: nat, iter: nat, last: nat,
                 ghost region: nat, ghost a: nat, ghost b: nat, ghost c: nat, ghost beyond: nat)
      returns (target: nat)
      requires region < 16 && a + b + c < TAG && iter < node < last
      requires Load(mem, iter).size == Pack(region, a) || (a == 0 && Load(mem, iter).size == 0)
      requires iter + a == node ==> Load(mem, iter).size == Pack(region, a)
      requires Load(mem, node).size == Pack(region, b)
      requires var next := Load(mem, iter).next;
               node < next && (next == last || Load(mem, next) == MmNode(beyond, Pack(region, c)))
      modifies this`mem
      ensures target == if iter + a == node then iter else node
      ensures var next := old(Load(mem, iter).next);
              var ahead := node + b == next && next != last;
              Load(mem, target) == MmNode(if ahead then beyond else next,
                                          Pack(region, (if iter + a == node then a else 0) + b
                                                       + if ahead then c else 0))
      ensures forall x: nat :: x != target ==> Load(mem, x) == old(Load(mem, x))
    {
      PackUnpack(region, a);
      PackUnpack(region, b);
      PackUnpack(region, a + b);
      PackUnpack(region, c);
      var iterSize := GetSize(Load(mem, iter).size);
      var insertSize := GetSize(Load(mem, node).size);
      target := node;
      if iter + iterSize == node {
        mem := mem[iter := Load(mem, iter).(size := Load(mem, iter).size + insertSize)];
        target := iter;
      }
      var next := Load(mem, iter).next;
      var nextSize := GetSize(Load(mem, next).size);
      insertSize := GetSize(Load(mem, target).size);
      if target + insertSize == next {
        if next == last {
          mem := mem[target := Load(mem, target).(next := last)];
        } else {
          mem := mem[target := MmNode(Load(mem, next).next, Load(mem, target).size + nextSize)];
        }
      } else {
        mem := mem[target := Load(mem, target).(next := next)];
      }
    }

    // mm_list_insert: links the block at `node` in behind the last free block below it and
    // merges it with its free neighbours. The block is tile `k` of `ts`, not on the list yet.
    method ListInsert(node: nat, root: nat, last: nat,
                      ghost ts: seq<Tile>, ghost lo: nat, ghost k: nat, ghost region: nat)
      returns (ghost before: nat)
      requires Outside(ts, lo, last, root, region) && Linked(mem, root, ts, last, region)
      requires k < |ts| && !ts[k].free && ts[k].addr == node
      modifies this`mem
      ensures Linked(mem, root, Release(ts, k), last, region)
      ensures before == root || exists q :: 0 <= q < |ts| && ts[q].free && ts[q].addr == before
      ensures forall a: nat :: a != before && a != node ==> Load(mem, a) == old(Load(mem, a))
    {
      Bounded(ts, lo, last, k);
      assert root <= node <= last;  // mm_list_insert does not panic
      var iter;
      ghost var j, n;
      iter, j, n := FindBefore(node, root, last, ts, lo, k, region);
      before := iter;
      InsertFacts(mem, root, ts, lo, last, region, k, j, n);
      var target := Merge(node, iter, last, region,
                          if j < 0 then 0 else ts[j].size, ts[k].size, if n < |ts| then ts[n].size else 0,
                          NextFree(ts, n + 1, last));
      MergeRelinks(old(mem), mem, root, ts, lo, last, region, k, j, n);
      if target != iter {
        mem := mem[iter := Load(mem, iter).(next := target)];
      }
      ReleaseLinked(old(mem), mem, root, ts, lo, last, region, k, j, n);
    }

    // The search of mm_alloc: the first block on the free list that is large enough, and
    // the node before it; `iter` is the last node when there is none.
    method FindFit(root: nat, last: nat, size: nat, ghost ts: seq<Tile>, ghost lo: nat, ghost region: nat)
      returns (prev: nat, iter: nat, ghost p: int)
      requires Outside(ts, lo, last, root, region) && Linked(mem, root, ts, last, region)
      ensures var k := FitIndex(ts, size);
              && -1 <= p < k && prev == At(ts, p, root) && (p >= 0 ==> ts[p].free)
              && iter == (if k < |ts| then ts[k].addr else last)
              && (k < |ts| ==> forall q :: p < q < k ==> !ts[q].free)
      ensures Load(mem, iter).next == 0 <==> FitIndex(ts, size) == |ts|
    {
      prev, iter, p := root, Load(mem, root).next, -1;
      ghost var k := NextFreeFinds(ts, lo, last, 0);
      while Load(mem, iter).next != 0
        invariant -1 <= p < k <= |ts| && prev == At(ts, p, root) && (p >= 0 ==> ts[p].free)
        invariant iter == if k < |ts| then ts[k].addr else last
        invariant k < |ts| ==> ts[k].free
        invariant forall q :: p < q < k ==> !ts[q].free
        invariant forall q :: 0 <= q < k && ts[q].free ==> ts[q].size < size
        decreases |ts| - k
      {
        SizeRead(mem, root, ts, lo, last, region, k);
        if GetSize(Load(mem, iter).size) >= size {
          break;
        }
        p := k;
        k := NextFreeFinds(ts, lo, last, k + 1);
        prev, iter := iter, Load(mem, iter).next;
      }
      if k < |ts| { Bounded(ts, lo, last, k); NextPositive(ts, lo, last, k + 1); }
      FirstFit(ts, size, k);
    }

    // mm_init, over whatever memory holds at boot.
    constructor (boot: map<nat, MmNode>, banks: seq<Bank>, heapStart: nat, heapEnd: nat)
      requires Configured(PlacedAll(banks, heapStart, heapEnd))
      ensures Valid()
      ensures regions == Layout(PlacedAll(banks, heapStart, heapEnd)) && tiles == Wholes(regions)
      ensures forall i :: 0 <= i < |banks| ==>
                Spans(regions[i], Placed(banks[i], heapStart, heapEnd))
                && tiles[i] == [Tile(regions[i].start, regions[i].size, true)]
    {
      mem, regions, tiles := boot, [], [];
      new;
      ghost var bs := PlacedAll(banks, heapStart, heapEnd);
      LayoutSeparate(bs);
      forall i | 0 <= i < |bs| ensures Spans(Layout(bs)[i], bs[i]) { RegionSpans(bs[i]); }
      var index := 0;
      while index < |banks|
        invariant 0 <= index <= |banks|
        invariant regions == Layout(bs)[..index] && tiles == Wholes(regions)
        invariant forall i :: 0 <= i < index ==> RegionOk(mem, regions[i], i, tiles[i])
      {
        InitBank(Placed(banks[index], heapStart, heapEnd), bs);
        index := index + 1;
      }
    }

    // One round of mm_init's loop: clears a bank, aligns it, and makes it one free block.
    method InitBank(bank: Bank, ghost bs: seq<Bank>)
      requires Configured(bs) && |regions| < |bs| && bs[|regions|] == bank
      requires regions == Layout(bs)[..|regions|] && tiles == Wholes(regions)
      requires forall i :: 0 <= i < |regions| ==> RegionOk(mem, regions[i], i, tiles[i])
      modifies this
      ensures |regions| == old(|regions|) + 1 && Spans(regions[old(|regions|)], bank)
      ensures regions == Layout(bs)[..|regions|] && tiles == Wholes(regions)
      ensures forall i :: 0 <= i < |regions| ==> RegionOk(mem, regions[i], i, tiles[i])
    {
      var index := |regions|;
      ghost var all := Layout(bs);
      RegionSpans(bank);
      var r := FormatBank(bank, index);
      FreshRegion(mem, r, index);
      forall i | 0 <= i < index
        ensures all[i] == old(regions)[i] && Whole(all[i]) == old(tiles)[i]
      {
      }
      BanksKept(old(mem), mem, bs, index);
      regions := regions + [r];
      tiles := tiles + [Whole(r)];
      assert all[..index + 1] == all[..index] + [r];
    }

    // The headers mm_init writes: the root, one free block, and the last node.
    method FormatBank(bank: Bank, index: nat) returns (r: Physmem)
      requires Usable(bank) && index < 16
      modifies this`mem
      ensures r == RegionOf(bank)
      ensures Load(mem, r.root) == MmNode(r.start, 0) && Load(mem, r.last) == MmNode(0, 0)
      ensures Load(mem, r.start) == MmNode(r.last, Pack(index, r.size))
      ensures forall a: nat :: !(bank.start <= a < bank.end) && a != bank.root ==> Load(mem, a) == old(Load(mem, a))
    {
      mem := map a | a in mem && !(bank.start <= a < bank.end) :: mem[a];
      var start := if bank.start % 8 != 0 then (bank.start + 8) / 8 * 8 else bank.start;
      var end := bank.end / 8 * 8;
      var last := end - HEADER;
      var size := end - HEADER - start;
      r := Physmem(start, last, size, 0, bank.min, bank.root);
      mem := mem[bank.root := MmNode(start, 0)];
      mem := mem[start := MmNode(last, SetRegion(SetSize(0, size), index))];
      mem := mem[last := MmNode(0, 0)];
    }

    // Every region but one is in order.
    ghost predicate Others(index: nat)
      reads this
    {
      && |tiles| == |regions| <= 16
      && Separate(regions)
      && forall i :: 0 <= i < |regions| && i != index ==> RegionOk(mem, regions[i], i, tiles[i])
    }

    // mm_alloc's split: the tail of the block at `iter` becomes a block of its own and goes
    // back to the free list.
    method SplitOff(iter: nat, size: nat, blockSize: nat, index: nat, r: Physmem, ghost ts: seq<Tile>, ghost k: nat)
      requires RegionTaken(mem, r, index, ts, k)
      requires iter == ts[k].addr && blockSize == ts[k].size && r.min <= size && size + r.min <= blockSize
      modifies this`mem
      ensures Linked(mem, r.root, Carve(ts, k, size, r.min), r.last, index)
      ensures forall a: nat :: !Writable(r, ts, k, a) ==> Load(mem, a) == old(Load(mem, a))
    {
      var rest := iter + size;
      TakenTiled(ts, r.start, r.last, k);
      Bounded(ts, r.start, r.last, k);
      PackUnpack(index, ts[k].size);
      PackResize(index, ts[k].size, size);
      PackFresh(Load(mem, rest).size, index, blockSize - size);
      mem := mem[rest := Load(mem, rest).(size := SetRegion(Load(mem, rest).size, index))];
      mem := mem[rest := Load(mem, rest).(size := SetSize(Load(mem, rest).size, blockSize - size))];
      mem := mem[iter := Load(mem, iter).(size := SetSize(Load(mem, iter).size, size))];
      HalvedTiled(Taken(ts, k), r.start, r.last, k, size);
      HalvedLinked(old(mem), mem, r.root, Taken(ts, k), r.start, r.last, index, k, size);
      ghost var hs := Halved(Taken(ts, k), k, size);
      ghost var before := ListInsert(rest, r.root, r.last, hs, r.start, k + 1, index);
      HalvedReleased(ts, k, size, r.min);
      HalvedFree(ts, k, size);
      assert Writable(r, ts, k, before);
    }

    // What mm_alloc writes into block `iter`; the result is the size it hands out.
    method SplitAndMark(index: nat, iter: nat, size: nat, r: Physmem, ghost ts: seq<Tile>, ghost k: nat)
      returns (taken: nat)
      requires RegionTaken(mem, r, index, ts, k) && iter == ts[k].addr
      requires r.min <= size <= ts[k].size && size % 8 == 0
      modifies this`mem
      ensures taken == if size + r.min <= ts[k].size then size else ts[k].size
      ensures Linked(mem, r.root, Carve(ts, k, size, r.min), r.last, index)
      ensures Load(mem, iter).next == MAGIC
      ensures forall a: nat :: !Writable(r, ts, k, a) ==> Load(mem, a) == old(Load(mem, a))
    {
      ghost var us := Carve(ts, k, size, r.min);
      Bounded(ts, r.start, r.last, k);
      PackUnpack(index, ts[k].size);
      CarveTiled(ts, r.start, r.last, k, size, r.min);
      assert Taken(ts, k)[k] == ts[k].(free := false);
      var blockSize := GetSize(Load(mem, iter).size);
      if size + r.min <= blockSize {
        SplitOff(iter, size, blockSize, index, r, ts, k);
        taken := size;
      } else {
        taken := blockSize;
      }
      assert us[k].addr == iter && !us[k].free;
      MarkLinked(mem, r.root, us, r.start, r.last, index, k);
      mem := mem[iter := Load(mem, iter).(next := MAGIC)];
    }

    // The second half of mm_alloc: block `iter` is off the free list; its tail goes back
    // when it is large enough, and the block is marked as handed out.
    method TakeBlock(index: nat, iter: nat, size: nat, ghost k: nat)
      requires Others(index) && index < |regions|
      requires RegionTaken(mem, regions[index], index, tiles[index], k)
      requires iter == tiles[index][k].addr
      requires regions[index].min <= size <= tiles[index][k].size && size % 8 == 0
      modifies this
      ensures Valid()
      ensures SameShape(old(regions), regions)
      ensures tiles == old(tiles)[index := Carve(old(tiles)[index], k, size, regions[index].min)]
      ensures forall a: nat :: !Writable(old(regions)[index], old(tiles)[index], k, a)
                ==> Load(mem, a) == old(Load(mem, a))
    {
      var r := regions[index];
      ghost var ts := tiles[index];
      var taken := SplitAndMark(index, iter, size, r, ts, k);
      CarveSize(ts, k, size, r.min);
      regions := regions[index := r.(used := r.used + taken)];
      tiles := tiles[index := Carve(ts, k, size, r.min)];
      NeverWritable(r, ts, k);
      TakeRegion(old(mem), mem, r, regions[index], index, ts, k, size);
      OthersKept(old(mem), mem, old(regions), regions, old(tiles), tiles, index);
    }

    // The search of mm_alloc and what follows it.
    method AllocBlock(index: nat, size: nat) returns (ptr: nat)
      requires Valid() && index < |regions| && regions[index].min <= size && size % 8 == 0
      modifies this
      ensures Valid()
      ensures SameShape(old(regions), regions)
      ensures var ts := old(tiles)[index];
              var k := FitIndex(ts, size);
              if k == |ts| then ptr == 0 && tiles == old(tiles) && mem == old(mem)
              else ptr == ts[k].addr + HEADER
                   && tiles == old(tiles)[index := Carve(ts, k, size, regions[index].min)]
                   && forall a: nat :: !Writable(old(regions)[index], ts, k, a) ==> Load(mem, a) == old(Load(mem, a))
    {
      hide Tiled, FitIndex, Carve, Separate;
      var r := regions[index];
      ghost var ts := tiles[index];
      var prev, iter;
      ghost var p;
      prev, iter, p := FindFit(r.root, r.last, size, ts, r.start, index);
      if Load(mem, iter).next == 0 {
        return 0;
      }
      ghost var k := FitIndex(ts, size);
      UnlinkLinked(mem, r.root, ts, r.start, r.last, index, p, k);
      mem := mem[prev := Load(mem, prev).(next := Load(mem, iter).next)];
      PrevOwned(r, ts, p);
      OthersKept(old(mem), mem, regions, regions, tiles, tiles, index);
      assert Writable(r, ts, k, prev);
      TakeBlock(index, iter, size, k);
      ptr := iter + HEADER;
    }

    method RoundRequest(request: nat, min: nat) returns (size: nat)
      ensures size == Rounded(request, min)
    {
      size := (request + HEADER) % U32;
      if size < min { size := min; }
      if size % 8 != 0 { size := (size + 8) % U32 / 8 * 8; }
    }

    // mm_alloc
    method Alloc(request: nat, index: nat) returns (ptr: nat)
      requires Valid() && index < |regions|
      requires request < U32 && Roundable(request)
      modifies this
      ensures Valid()
      ensures SameShape(old(regions), regions)
      ensures var ts, need := old(tiles)[index], Rounded(request, regions[index].min);
              var k := FitIndex(ts, need);
              ptr == if k == |ts| then 0 else ts[k].addr + HEADER
      ensures tiles == Step(old(tiles), Mins(regions), AllocOp(index, request))
      ensures ptr == 0 ==> mem == old(mem)
      ensures forall i: nat, a: nat :: LiveExcept(old(tiles), index, -1, i, a) ==> Load(mem, a) == old(Load(mem, a))
    {
      var r := regions[index];
      ghost var ts := tiles[index];
      var size := RoundRequest(request, r.min);
      RoundedHolds(request, r.min);
      if size > r.size - r.used {
        NoFit(ts, r.start, r.last, size);
        return 0;
      }
      ghost var k := FitIndex(ts, size);
      ptr := AllocBlock(index, size);
      assert regions[index].min == r.min && Mins(regions)[index] == r.min;
      if k < |ts| { LiveUntouched(old(regions), old(tiles), index, k); }
    }

    // The body of mm_free once the header is found and bears the mark.
    method FreeBlock(node: nat, ghost index: nat, ghost k: nat)
      requires Valid() && index < |tiles| && k < |tiles[index]| && !tiles[index][k].free
      requires node == tiles[index][k].addr
      modifies this
      ensures Valid()
      ensures SameShape(old(regions), regions)
      ensures tiles == old(tiles)[index := Release(old(tiles)[index], k)]
      ensures forall a: nat :: !Writable(old(regions)[index], old(tiles)[index], k, a) ==>
                Load(mem, a) == old(Load(mem, a))
    {
      hide Release, Tiled, Linked, Separate;
      ghost var ts, r := tiles[index], regions[index];
      TagRead(mem, r.root, ts, r.start, r.last, index, k);
      var tag := GetRegion(Load(mem, node).size);
      assert tag == index;
      var region := regions[tag];
      var size := GetSize(Load(mem, node).size);
      ReleaseSize(ts, k);
      regions := regions[tag := region.(used := region.used - size)];
      ghost var before := ListInsert(node, region.root, region.last, ts, r.start, k, index);
      assert Writable(r, ts, k, before);
      tiles := tiles[index := Release(ts, k)];
      FreeKeepsAll(old(mem), mem, old(regions), old(tiles), index, k);
      assert regions == old(regions)[index := r.(used := r.used - ts[k].size)];
      assert tiles == old(tiles)[index := Release(ts, k)];
    }

    // mm_free. The block lives in region `index`; the code learns that from the tag.
    method Free(ptr: nat, ghost index: nat)
      requires Valid() && Possible(tiles, FreeOp(index, ptr))
      modifies this
      ensures Valid()
      ensures SameShape(old(regions), regions)
      ensures tiles == Step(old(tiles), Mins(regions), FreeOp(index, ptr))
      ensures forall i: nat, a: nat :: LiveExcept(old(tiles), index, FindLive(old(tiles)[index], ptr), i, a)
                ==> Load(mem, a) == old(Load(mem, a))
    {
      ghost var k := FindLive(tiles[index], ptr);
      var node := ptr - HEADER;
      assert Load(mem, node).next == MAGIC;  // mm_free does not panic
      FreeBlock(node, index, k);
      LiveUntouched(old(regions), old(tiles), index, k);
    }

    // The owner of a live block may write anything into it except the header. A store changes
    // one or more aligned cells of 8 bytes; as blocks are made of such cells, no store into a
    // block reaches another one.
    method StorePayload(a: nat, word: MmNode, ghost index: nat, ghost k: nat)
      requires Valid() && index < |regions| && k < |tiles[index]| && !tiles[index][k].free
      requires a % 8 == 0 && tiles[index][k].addr + HEADER <= a < End(tiles[index][k])
      modifies this`mem
      ensures a + 8 <= End(tiles[index][k])
      ensures Valid() && mem == old(mem)[a := word]
    {
      PayloadApart(regions, tiles, index, k, a);
      mem := mem[a := word];
      forall i | 0 <= i < |regions|
        ensures RegionOk(mem, regions[i], i, tiles[i])
      {
        assert RegionOk(old(mem), regions[i], i, tiles[i]);
      }
    }

    // mm_get_used, mm_get_free, mm_get_total
    method GetUsed(index: nat) returns (n: nat)
      requires Valid() && index < |regions|
      ensures n == SizeOf(tiles[index], false)
    {
      n := regions[index].used;
    }

    method GetFree(index: nat) returns (n: nat)
      requires Valid() && index < |regions|
      ensures n == SizeOf(tiles[index], true)
    {
      Conserved(tiles[index], regions[index].start, regions[index].last);
      n := regions[index].size - regions[index].used;
    }

    method GetTotal(index: nat) returns (n: nat)
      requires Valid() && index < |regions|
      ensures n == SizeOf(tiles[index], false) + SizeOf(tiles[index], true)
    {
      Conserved(tiles[index], regions[index].start, regions[index].last);
      n := regions[index].size;
    }
  }
}
