// The block structure behind kernel/src/mm/mm.c, seen as a sequence of tiles.
//
// A physical memory runs from its start address to its last node. Every byte of it
// belongs to exactly one block, so the whole region is a sequence of tiles, each one
// either on the free list or handed out. Splitting and merging are edits of that
// sequence; the headers in memory are the subject of Mm.dfy.
module Tiles {

  datatype Tile = Tile(addr: nat, size: nat, free: bool)

  function End(t: Tile): nat { t.addr + t.size }

  // The tiles cover [lo, hi) without gap or overlap.
  ghost predicate Tiled(ts: seq<Tile>, lo: nat, hi: nat) {
    && (ts == [] ==> lo == hi)
    && (ts != [] ==> ts[0].addr == lo && End(ts[|ts| - 1]) == hi)
    && (forall i :: 0 <= i < |ts| ==> ts[i].size > 0)
    && (forall i, j :: 0 <= i && j == i + 1 && j < |ts| ==> ts[j].addr == End(ts[i]))
  }

  // No two free blocks touch.
  ghost predicate Merged(ts: seq<Tile>) {
    forall i, j :: 0 <= i && j == i + 1 && j < |ts| ==> !(ts[i].free && ts[j].free)
  }

  // Every block starts and ends on the alignment and is at least `min` bytes long.
  ghost predicate Grained(ts: seq<Tile>, min: nat) {
    forall i :: 0 <= i < |ts| ==> ts[i].addr % 8 == 0 && ts[i].size % 8 == 0 && ts[i].size >= min
  }

  ghost predicate Canonical(ts: seq<Tile>, lo: nat, hi: nat, min: nat) {
    Tiled(ts, lo, hi) && Merged(ts) && Grained(ts, min)
  }

  lemma {:induction false} Ordered(ts: seq<Tile>, lo: nat, hi: nat, i: nat, j: nat)
    requires Tiled(ts, lo, hi) && i < j < |ts|
    ensures End(ts[i]) <= ts[j].addr
    decreases j
  {
    if i + 1 < j { Ordered(ts, lo, hi, i, j - 1); }
  }

  lemma Bounded(ts: seq<Tile>, lo: nat, hi: nat, i: nat)
    requires Tiled(ts, lo, hi) && i < |ts|
    ensures lo <= ts[i].addr < End(ts[i]) <= hi
  {
    if 0 < i { Ordered(ts, lo, hi, 0, i); }
    if i < |ts| - 1 { Ordered(ts, lo, hi, i, |ts| - 1); }
  }

  lemma SameAddress(ts: seq<Tile>, lo: nat, hi: nat, i: nat, j: nat)
    requires Tiled(ts, lo, hi) && i < |ts| && j < |ts|
    requires ts[i].addr == ts[j].addr
    ensures i == j
  {
    if i < j { Ordered(ts, lo, hi, i, j); }
    if j < i { Ordered(ts, lo, hi, j, i); }
  }

  // Exactly one tile holds a given address of the region.
  lemma {:induction false} Covered(ts: seq<Tile>, lo: nat, hi: nat, a: nat)
    requires Tiled(ts, lo, hi) && lo <= a < hi
    ensures exists i :: 0 <= i < |ts| && ts[i].addr <= a < End(ts[i])
    ensures forall i, j :: (0 <= i < |ts| && 0 <= j < |ts| && ts[i].addr <= a < End(ts[i])
              && ts[j].addr <= a < End(ts[j])) ==> i == j
  {
    var k := 0;
    while End(ts[k]) <= a
      invariant 0 <= k < |ts| && ts[k].addr <= a
      decreases |ts| - k
    {
      assert ts[k + 1].addr == End(ts[k]);
      k := k + 1;
    }
    forall i, j | 0 <= i < |ts| && 0 <= j < |ts| && ts[i].addr <= a < End(ts[i])
      && ts[j].addr <= a < End(ts[j])
      ensures i == j
    {
      if i < j { Ordered(ts, lo, hi, i, j); }
      if j < i { Ordered(ts, lo, hi, j, i); }
    }
  }

  // ---------- sizes ----------

  ghost function SizeOf(ts: seq<Tile>, free: bool): (n: nat) {
    if ts == [] then 0
    else SizeOf(ts[..|ts| - 1], free) + if ts[|ts| - 1].free == free then ts[|ts| - 1].size else 0
  }

  lemma {:induction false} SizeOfConcat(a: seq<Tile>, b: seq<Tile>, free: bool)
    ensures SizeOf(a + b, free) == SizeOf(a, free) + SizeOf(b, free)
    decreases |b|
  {
    if b == [] {
      assert a + b == a;
    } else {
      assert (a + b)[..|a + b| - 1] == a + b[..|b| - 1];
      SizeOfConcat(a, b[..|b| - 1], free);
    }
  }

  // Conservation: what is handed out plus what is free is the whole region.
  lemma {:induction false} Conserved(ts: seq<Tile>, lo: nat, hi: nat)
    requires Tiled(ts, lo, hi)
    ensures SizeOf(ts, true) + SizeOf(ts, false) == hi - lo
    decreases |ts|
  {
    if |ts| > 1 {
      Prefix(ts, lo, hi, |ts| - 1);
      Conserved(ts[..|ts| - 1], lo, ts[|ts| - 1].addr);
    } else if |ts| == 1 {
      assert ts[..0] == [];
    }
  }

  lemma {:induction false} TileWithinSizeOf(ts: seq<Tile>, i: nat)
    requires i < |ts|
    ensures ts[i].size <= SizeOf(ts, ts[i].free)
    decreases |ts|
  {
    if i < |ts| - 1 { TileWithinSizeOf(ts[..|ts| - 1], i); }
  }

  // ---------- the free list as a function of the tiles ----------

  // Address of the first free block at or after tile `i`; `last` when there is none.
  ghost function NextFree(ts: seq<Tile>, i: nat, last: nat): nat
    decreases |ts| - i
  {
    if i >= |ts| then last
    else if ts[i].free then ts[i].addr
    else NextFree(ts, i + 1, last)
  }

  lemma {:induction false} NextFreeSkip(ts: seq<Tile>, i: nat, j: nat, last: nat)
    requires i <= j <= |ts|
    requires forall k :: i <= k < j ==> !ts[k].free
    ensures NextFree(ts, i, last) == NextFree(ts, j, last)
    decreases j - i
  {
    if i < j { NextFreeSkip(ts, i + 1, j, last); }
  }

  // The free list after a point only depends on the tiles after that point.
  lemma {:induction false} NextFreeSuffix(ts: seq<Tile>, us: seq<Tile>, i: nat, j: nat, last: nat)
    requires i <= |ts| && j <= |us| && ts[i..] == us[j..]
    ensures NextFree(ts, i, last) == NextFree(us, j, last)
    decreases |ts| - i
  {
    assert |ts[i..]| == |us[j..]|;
    if i < |ts| {
      assert ts[i] == ts[i..][0] == us[j..][0] == us[j];
      assert ts[i + 1..] == ts[i..][1..] == us[j..][1..] == us[j + 1..];
      NextFreeSuffix(ts, us, i + 1, j + 1, last);
    }
  }

  lemma {:induction false} NextFreeFinds(ts: seq<Tile>, lo: nat, last: nat, i: nat) returns (k: nat)
    requires Tiled(ts, lo, last) && i <= |ts|
    ensures i <= k <= |ts|
    ensures forall j :: i <= j < k ==> !ts[j].free
    ensures k < |ts| ==> ts[k].free
    ensures NextFree(ts, i, last) == if k < |ts| then ts[k].addr else last
    decreases |ts| - i
  {
    if i < |ts| && !ts[i].free {
      k := NextFreeFinds(ts, lo, last, i + 1);
    } else {
      k := i;
    }
  }

  lemma {:induction false} NextFreeConcat(a: seq<Tile>, b: seq<Tile>, i: nat, last: nat)
    ensures i <= |a| ==> NextFree(a + b, i, last) == NextFree(a, i, NextFree(b, 0, last))
    ensures i >= |a| ==> NextFree(a + b, i, last) == NextFree(b, i - |a|, last)
    decreases |a| - i
  {
    if i < |a| {
      NextFreeConcat(a, b, i + 1, last);
    } else {
      if i <= |a + b| {
        assert (a + b)[i..] == b[i - |a|..];
        NextFreeSuffix(a + b, b, i, i - |a|, last);
      }
    }
  }

  lemma {:induction false} NextFreeStable(a: seq<Tile>, i: nat, q: nat, x: nat, y: nat)
    requires i <= q < |a| && a[q].free
    ensures NextFree(a, i, x) == NextFree(a, i, y)
    decreases q - i
  {
    if !a[i].free { NextFreeStable(a, i + 1, q, x, y); }
  }

  // ---------- first fit ----------

  // Index of the lowest free block of at least `size` bytes; |ts| when there is none.
  ghost function FitIndex(ts: seq<Tile>, size: nat, i: nat := 0): (k: nat)
    requires i <= |ts|
    ensures i <= k <= |ts|
    ensures k < |ts| ==> ts[k].free && ts[k].size >= size
    ensures forall j :: i <= j < k ==> !(ts[j].free && ts[j].size >= size)
    decreases |ts| - i
  {
    if i == |ts| then i
    else if ts[i].free && ts[i].size >= size then i
    else FitIndex(ts, size, i + 1)
  }

  // ---------- splitting and merging ----------

  // Tile `k` handed out for a request of `size` bytes; the tail becomes a free block of
  // its own when it can hold at least `min` bytes, and is handed out as well when it cannot.
  ghost function Carve(ts: seq<Tile>, k: nat, size: nat, min: nat): seq<Tile>
    requires k < |ts| && size <= ts[k].size
  {
    if size + min <= ts[k].size then
      ts[..k] + [Tile(ts[k].addr, size, false), Tile(ts[k].addr + size, ts[k].size - size, true)] + ts[k + 1..]
    else
      ts[k := ts[k].(free := false)]
  }

  ghost function MergesBack(ts: seq<Tile>, k: nat): bool
    requires k < |ts|
  {
    k > 0 && ts[k - 1].free
  }

  ghost function MergesAhead(ts: seq<Tile>, k: nat): bool
    requires k < |ts|
  {
    k + 1 < |ts| && ts[k + 1].free
  }

  // First tile of the block that releasing tile `k` produces, and one past its last tile.
  ghost function FirstMerged(ts: seq<Tile>, k: nat): (f: nat)
    requires k < |ts|
    ensures f <= k
  {
    if MergesBack(ts, k) then k - 1 else k
  }

  ghost function PastMerged(ts: seq<Tile>, k: nat): (p: nat)
    requires k < |ts|
    ensures k < p <= |ts|
  {
    if MergesAhead(ts, k) then k + 2 else k + 1
  }

  ghost function MergedSize(ts: seq<Tile>, k: nat): nat
    requires k < |ts|
  {
    (if MergesBack(ts, k) then ts[k - 1].size else 0) + ts[k].size +
    (if MergesAhead(ts, k) then ts[k + 1].size else 0)
  }

  // Tile `k` released: it joins the free blocks that touch it on either side.
  ghost function Release(ts: seq<Tile>, k: nat): seq<Tile>
    requires k < |ts|
  {
    ts[..FirstMerged(ts, k)] + [Tile(ts[FirstMerged(ts, k)].addr, MergedSize(ts, k), true)] + ts[PastMerged(ts, k)..]
  }

  lemma Join(a: seq<Tile>, b: seq<Tile>, lo: nat, mid: nat, hi: nat)
    requires Tiled(a, lo, mid) && Tiled(b, mid, hi)
    ensures Tiled(a + b, lo, hi)
  {
    var ts := a + b;
    forall i, j | 0 <= i && j == i + 1 && j < |ts|
      ensures ts[j].addr == End(ts[i])
    {
      if j < |a| {
        assert a[j].addr == End(a[i]);
      } else if i >= |a| {
        assert b[j - |a|].addr == End(b[i - |a|]);
      }
    }
  }

  lemma Prefix(ts: seq<Tile>, lo: nat, hi: nat, k: nat)
    requires Tiled(ts, lo, hi) && k < |ts|
    ensures Tiled(ts[..k], lo, ts[k].addr) && Tiled(ts[k..], ts[k].addr, hi)
  {
    if k > 0 { assert ts[k].addr == End(ts[k - 1]); }
  }

  lemma Suffix(ts: seq<Tile>, lo: nat, hi: nat, p: nat)
    requires Tiled(ts, lo, hi) && 0 < p <= |ts|
    ensures Tiled(ts[p..], End(ts[p - 1]), hi)
  {
    if p < |ts| { Prefix(ts, lo, hi, p); }
  }

  // Tiles `f` up to `p` replaced by other tiles over the same bytes.
  lemma Splice(ts: seq<Tile>, lo: nat, hi: nat, f: nat, p: nat, mid: seq<Tile>)
    requires Tiled(ts, lo, hi) && f < p <= |ts|
    requires Tiled(mid, ts[f].addr, End(ts[p - 1]))
    ensures Tiled(ts[..f] + mid + ts[p..], lo, hi)
  {
    Prefix(ts, lo, hi, f);
    Suffix(ts, lo, hi, p);
    Join(ts[..f], mid, lo, ts[f].addr, End(ts[p - 1]));
    Join(ts[..f] + mid, ts[p..], lo, End(ts[p - 1]), hi);
  }

  lemma SpliceMerged(ts: seq<Tile>, f: nat, p: nat, mid: seq<Tile>)
    requires Merged(ts) && Merged(mid) && f < p <= |ts| && mid != []
    requires f > 0 ==> !(ts[f - 1].free && mid[0].free)
    requires p < |ts| ==> !(mid[|mid| - 1].free && ts[p].free)
    ensures Merged(ts[..f] + mid + ts[p..])
  {
    var us := ts[..f] + mid + ts[p..];
    var d := p - f - |mid|;
    forall i, j | 0 <= i && j == i + 1 && j < |us|
      ensures !(us[i].free && us[j].free)
    {
      if j < f {
        assert us[i] == ts[i] && us[j] == ts[j];
      } else if i >= f + |mid| {
        assert us[i] == ts[i + d] && us[j] == ts[j + d];
      } else if f <= i && j < f + |mid| {
        assert us[i] == mid[i - f] && us[j] == mid[j - f];
      }
    }
  }

  lemma SpliceGrained(ts: seq<Tile>, min: nat, f: nat, p: nat, mid: seq<Tile>)
    requires Grained(ts, min) && Grained(mid, min) && f < p <= |ts|
    ensures Grained(ts[..f] + mid + ts[p..], min)
  {
  }

  ghost function Pieces(t: Tile, size: nat, min: nat): (ps: seq<Tile>)
    requires size <= t.size
    ensures ps != []
  {
    if size + min <= t.size
    then [Tile(t.addr, size, false), Tile(t.addr + size, t.size - size, true)]
    else [t.(free := false)]
  }

  lemma SumOfEights(a: nat, b: nat, c: nat)
    requires a % 8 == 0 && b % 8 == 0 && c % 8 == 0
    ensures (a + b + c) % 8 == 0
  {
  }

  lemma DifferenceOfEights(a: nat, b: nat)
    requires a % 8 == 0 && b % 8 == 0 && b <= a
    ensures (a - b) % 8 == 0
  {
  }

  lemma PiecesGrained(t: Tile, size: nat, min: nat)
    requires t.addr % 8 == 0 && t.size % 8 == 0 && size % 8 == 0 && min <= size <= t.size
    ensures Grained(Pieces(t, size, min), min)
  {
    SumOfEights(t.addr, size, 0);
    DifferenceOfEights(t.size, size);
  }

  lemma CarveIsSplice(ts: seq<Tile>, k: nat, size: nat, min: nat)
    requires k < |ts| && size <= ts[k].size
    ensures Carve(ts, k, size, min) == ts[..k] + Pieces(ts[k], size, min) + ts[k + 1..]
  {
  }

  lemma CarveTiled(ts: seq<Tile>, lo: nat, hi: nat, k: nat, size: nat, min: nat)
    requires Tiled(ts, lo, hi) && k < |ts| && 0 < size <= ts[k].size && 0 < min
    ensures Tiled(Carve(ts, k, size, min), lo, hi)
  {
    CarveIsSplice(ts, k, size, min);
    Splice(ts, lo, hi, k, k + 1, Pieces(ts[k], size, min));
  }

  lemma CarveCanonical(ts: seq<Tile>, lo: nat, hi: nat, k: nat, size: nat, min: nat)
    requires Canonical(ts, lo, hi, min) && k < |ts| && ts[k].free
    requires 0 < min <= size <= ts[k].size && size % 8 == 0
    ensures Canonical(Carve(ts, k, size, min), lo, hi, min)
  {
    CarveTiled(ts, lo, hi, k, size, min);
    CarveIsSplice(ts, k, size, min);
    var mid := Pieces(ts[k], size, min);
    assert k + 1 < |ts| ==> !(ts[k].free && ts[k + 1].free);
    SpliceMerged(ts, k, k + 1, mid);
    PiecesGrained(ts[k], size, min);
    SpliceGrained(ts, min, k, k + 1, mid);
  }

  lemma ReleaseTiled(ts: seq<Tile>, lo: nat, hi: nat, k: nat)
    requires Tiled(ts, lo, hi) && k < |ts|
    ensures Tiled(Release(ts, k), lo, hi)
    ensures ts[FirstMerged(ts, k)].addr + MergedSize(ts, k) == End(ts[PastMerged(ts, k) - 1])
  {
    var f, p := FirstMerged(ts, k), PastMerged(ts, k);
    assert MergesBack(ts, k) ==> ts[k].addr == End(ts[k - 1]);
    assert MergesAhead(ts, k) ==> ts[k + 1].addr == End(ts[k]);
    Splice(ts, lo, hi, f, p, [Tile(ts[f].addr, MergedSize(ts, k), true)]);
  }

  lemma ReleaseAt(ts: seq<Tile>, k: nat, i: nat)
    requires k < |ts| && i < |Release(ts, k)|
    ensures i < FirstMerged(ts, k) ==> Release(ts, k)[i] == ts[i]
    ensures i == FirstMerged(ts, k) ==> Release(ts, k)[i] == Tile(ts[i].addr, MergedSize(ts, k), true)
    ensures i > FirstMerged(ts, k) ==>
              i - FirstMerged(ts, k) - 1 + PastMerged(ts, k) < |ts|
              && Release(ts, k)[i] == ts[i - FirstMerged(ts, k) - 1 + PastMerged(ts, k)]
  {
  }

  lemma ReleaseMerged(ts: seq<Tile>, k: nat)
    requires Merged(ts) && k < |ts| && !ts[k].free
    ensures Merged(Release(ts, k))
  {
    var f, p := FirstMerged(ts, k), PastMerged(ts, k);
    SpliceMerged(ts, f, p, [Tile(ts[f].addr, MergedSize(ts, k), true)]);
  }

  lemma ReleaseGrained(ts: seq<Tile>, k: nat, min: nat)
    requires Grained(ts, min) && k < |ts|
    ensures Grained(Release(ts, k), min)
  {
    var f, p := FirstMerged(ts, k), PastMerged(ts, k);
    SumOfEights(if MergesBack(ts, k) then ts[k - 1].size else 0, ts[k].size,
                if MergesAhead(ts, k) then ts[k + 1].size else 0);
    var blk := Tile(ts[f].addr, MergedSize(ts, k), true);
    assert ts[f].addr % 8 == 0 && ts[k].size >= min;
    assert Grained([blk], min);
    SpliceGrained(ts, min, f, p, [blk]);
  }

  lemma ReleaseCanonical(ts: seq<Tile>, lo: nat, hi: nat, min: nat, k: nat)
    requires Canonical(ts, lo, hi, min) && k < |ts| && !ts[k].free
    ensures Canonical(Release(ts, k), lo, hi, min)
  {
    ReleaseTiled(ts, lo, hi, k);
    ReleaseMerged(ts, k);
    ReleaseGrained(ts, k, min);
  }

  lemma SpliceSize(ts: seq<Tile>, f: nat, p: nat, mid: seq<Tile>, free: bool)
    requires f <= p <= |ts|
    ensures SizeOf(ts[..f] + mid + ts[p..], free) + SizeOf(ts[f..p], free) ==
            SizeOf(ts, free) + SizeOf(mid, free)
  {
    assert ts == ts[..f] + ts[f..p] + ts[p..];
    SizeOfConcat(ts[..f] + ts[f..p], ts[p..], free);
    SizeOfConcat(ts[..f], ts[f..p], free);
    SizeOfConcat(ts[..f] + mid, ts[p..], free);
    SizeOfConcat(ts[..f], mid, free);
  }

  lemma SizeOfOne(t: Tile, free: bool)
    ensures SizeOf([t], free) == if t.free == free then t.size else 0
  {
    assert [t][..0] == [];
  }

  lemma CarveSize(ts: seq<Tile>, k: nat, size: nat, min: nat)
    requires k < |ts| && ts[k].free && size <= ts[k].size
    ensures SizeOf(Carve(ts, k, size, min), false) ==
            SizeOf(ts, false) + if size + min <= ts[k].size then size else ts[k].size
  {
    var mid := Pieces(ts[k], size, min);
    CarveIsSplice(ts, k, size, min);
    SpliceSize(ts, k, k + 1, mid, false);
    assert ts[k..k + 1] == [ts[k]];
    SizeOfOne(ts[k], false);
    SizeOfOne(mid[0], false);
    if |mid| == 2 {
      assert mid == [mid[0]] + [mid[1]];
      SizeOfConcat([mid[0]], [mid[1]], false);
      SizeOfOne(mid[1], false);
    } else {
      assert mid == [mid[0]];
    }
  }

  // Of the tiles that a release merges, only tile `k` was handed out.
  lemma MergedLive(ts: seq<Tile>, k: nat)
    requires k < |ts| && !ts[k].free
    ensures SizeOf(ts[FirstMerged(ts, k)..PastMerged(ts, k)], false) == ts[k].size
  {
    var pre, post := ts[FirstMerged(ts, k)..k], ts[k + 1..PastMerged(ts, k)];
    assert ts[FirstMerged(ts, k)..PastMerged(ts, k)] == pre + ([ts[k]] + post);
    SizeOfConcat(pre, [ts[k]] + post, false);
    SizeOfConcat([ts[k]], post, false);
    SizeOfOne(ts[k], false);
    if MergesBack(ts, k) { assert pre == [ts[k - 1]]; SizeOfOne(ts[k - 1], false); }
    if MergesAhead(ts, k) { assert post == [ts[k + 1]]; SizeOfOne(ts[k + 1], false); }
  }

  lemma ReleaseSize(ts: seq<Tile>, k: nat)
    requires k < |ts| && !ts[k].free
    ensures SizeOf(Release(ts, k), false) == SizeOf(ts, false) - ts[k].size
    ensures SizeOf(ts, false) >= ts[k].size
  {
    var f := FirstMerged(ts, k);
    var blk := Tile(ts[f].addr, MergedSize(ts, k), true);
    SpliceSize(ts, f, PastMerged(ts, k), [blk], false);
    SizeOfOne(blk, false);
    MergedLive(ts, k);
    TileWithinSizeOf(ts, k);
  }

  // ---------- laws ----------

  // Releasing the block an allocation has just handed out undoes the allocation.
  lemma ReleaseUndoesCarve(ts: seq<Tile>, lo: nat, hi: nat, k: nat, size: nat, min: nat)
    requires Tiled(ts, lo, hi) && Merged(ts) && k < |ts| && ts[k].free && 0 < size <= ts[k].size
    ensures Release(Carve(ts, k, size, min), k) == ts
  {
    var us := Carve(ts, k, size, min);
    assert k > 0 ==> us[k - 1] == ts[k - 1];
    assert !MergesBack(us, k);
    if size + min <= ts[k].size {
      assert us[k + 1].free && us[k + 2..] == ts[k + 1..];
      assert Release(us, k) == ts[..k] + [ts[k]] + ts[k + 1..];
    } else {
      assert k + 1 < |ts| ==> us[k + 1] == ts[k + 1] && !(ts[k].free && ts[k + 1].free);
      assert Release(us, k) == ts[..k] + [ts[k]] + ts[k + 1..];
    }
  }

  ghost function LiveBlocks(ts: seq<Tile>): set<(nat, nat)> {
    set i | 0 <= i < |ts| && !ts[i].free :: (ts[i].addr, ts[i].size)
  }

  lemma TiledTail(ts: seq<Tile>, lo: nat, hi: nat)
    requires Tiled(ts, lo, hi) && ts != []
    ensures Tiled(ts[1..], End(ts[0]), hi)
    ensures Merged(ts) ==> Merged(ts[1..])
  {
    Suffix(ts, lo, hi, 1);
  }

  lemma LiveTail(ts: seq<Tile>, lo: nat, hi: nat)
    requires Tiled(ts, lo, hi) && ts != []
    ensures LiveBlocks(ts[1..]) == LiveBlocks(ts) - if ts[0].free then {} else {(ts[0].addr, ts[0].size)}
    ensures forall b :: b in LiveBlocks(ts[1..]) ==> b.0 >= End(ts[0])
  {
    forall i | 0 < i < |ts|
      ensures ts[i].addr >= End(ts[0]) && ts[i] == ts[1..][i - 1]
    {
      Ordered(ts, lo, hi, 0, i);
    }
    forall b | b in LiveBlocks(ts) && b !in LiveBlocks(ts[1..])
      ensures !ts[0].free && b == (ts[0].addr, ts[0].size)
    {
      var i :| 0 <= i < |ts| && !ts[i].free && b == (ts[i].addr, ts[i].size);
      assert i == 0;
    }
  }

  // A free first tile ends where the first live block starts.
  lemma FirstLiveAfterFree(ts: seq<Tile>, us: seq<Tile>, lo: nat, hi: nat)
    requires Tiled(ts, lo, hi) && Tiled(us, lo, hi) && Merged(ts)
    requires ts != [] && us != [] && ts[0].free && us[0].free
    requires LiveBlocks(ts) == LiveBlocks(us)
    ensures ts[0].size >= us[0].size
  {
    if ts[0].size < us[0].size {
      Bounded(us, lo, hi, 0);
      assert |ts| > 1 && !ts[1].free && ts[1].addr == End(ts[0]);
      var b := (ts[1].addr, ts[1].size);
      assert b in LiveBlocks(ts);
      var i :| 0 <= i < |us| && !us[i].free && b == (us[i].addr, us[i].size);
      Ordered(us, lo, hi, 0, i);
      assert false;
    }
  }

  // Canonical form: the block structure, and with it the free list, is determined by the
  // set of live blocks alone, whatever the order in which they were handed out and released.
  lemma {:induction false} CanonicalForm(ts: seq<Tile>, us: seq<Tile>, lo: nat, hi: nat)
    requires Tiled(ts, lo, hi) && Tiled(us, lo, hi) && Merged(ts) && Merged(us)
    requires LiveBlocks(ts) == LiveBlocks(us)
    ensures ts == us
    decreases |ts|
  {
    if ts == [] {
      if us != [] { Bounded(us, lo, hi, 0); }
    } else if us == [] {
      Bounded(ts, lo, hi, 0);
    } else {
      FirstTileAgrees(ts, us, lo, hi);
      TiledTail(ts, lo, hi);
      TiledTail(us, lo, hi);
      LiveTail(ts, lo, hi);
      LiveTail(us, lo, hi);
      CanonicalForm(ts[1..], us[1..], End(ts[0]), hi);
      assert ts == [ts[0]] + ts[1..] && us == [us[0]] + us[1..];
    }
  }

  lemma FirstTileAgrees(ts: seq<Tile>, us: seq<Tile>, lo: nat, hi: nat)
    requires Tiled(ts, lo, hi) && Tiled(us, lo, hi) && Merged(ts) && Merged(us)
    requires ts != [] && us != []
    requires LiveBlocks(ts) == LiveBlocks(us)
    ensures ts[0] == us[0]
  {
    if ts[0].free && us[0].free {
      FirstLiveAfterFree(ts, us, lo, hi);
      FirstLiveAfterFree(us, ts, lo, hi);
    } else if !ts[0].free {
      LiveStartsFirst(ts, us, lo, hi);
    } else {
      LiveStartsFirst(us, ts, lo, hi);
    }
  }

  lemma LiveStartsFirst(ts: seq<Tile>, us: seq<Tile>, lo: nat, hi: nat)
    requires Tiled(ts, lo, hi) && Tiled(us, lo, hi)
    requires ts != [] && us != [] && !ts[0].free
    requires LiveBlocks(ts) == LiveBlocks(us)
    ensures ts[0] == us[0]
  {
    var b := (ts[0].addr, ts[0].size);
    assert b in LiveBlocks(ts);
    var i :| 0 <= i < |us| && !us[i].free && b == (us[i].addr, us[i].size);
    SameAddress(us, lo, hi, i, 0);
  }
}
