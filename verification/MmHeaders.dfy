// The block headers of kernel/src/mm/mm.c in memory, and what splitting and merging do to
// the links between them.
//
// A header is two u32 words at the start of a block: the next free block, and a size word
// whose upper 4 bits name the physical memory and whose lower 28 bits hold the block size.
module MmHeaders {
  import opened Tiles

  const U32: nat := 0x1_0000_0000
  const TAG: nat := 0x1000_0000
  const MAGIC: nat := 0xC0DEBABE
  const HEADER: nat := 8

  // ---------- the size word ----------

  function GetRegion(word: nat): nat { word / TAG % 16 }

  function SetRegion(word: nat, region: nat): nat { word % TAG + region * TAG }

  function GetSize(word: nat): nat { word % TAG }

  function SetSize(word: nat, size: nat): nat { word / TAG * TAG + size }

  ghost function Pack(region: nat, size: nat): nat { region * TAG + size }

  lemma PackUnpack(region: nat, size: nat)
    requires region < 16 && size < TAG
    ensures GetRegion(Pack(region, size)) == region && GetSize(Pack(region, size)) == size
    ensures Pack(region, size) < U32
  {
  }

  lemma PackResize(region: nat, size: nat, other: nat)
    requires region < 16 && size < TAG
    ensures SetSize(Pack(region, size), other) == Pack(region, other)
  {
  }

  // Setting tag and size overwrites whatever the word held.
  lemma PackFresh(word: nat, region: nat, size: nat)
    requires region < 16 && size < TAG
    ensures SetSize(SetRegion(word, region), size) == Pack(region, size)
  {
  }

  // Merging adds a size to a whole word; the 4-bit tag survives as long as the sum fits.
  lemma TagSurvivesAddition(region: nat, size: nat, more: nat)
    requires region < 16 && size + more < TAG
    ensures GetRegion(Pack(region, size) + more) == region
    ensures GetSize(Pack(region, size) + more) == size + more
  {
    PackUnpack(region, size + more);
  }

  // ---------- rounding a request ----------

  // The block size mm_alloc looks for, in wrapping u32 arithmetic.
  function Rounded(request: nat, min: nat): nat {
    var withHeader := (request + HEADER) % U32;
    var atLeast := if withHeader < min then min else withHeader;
    if atLeast % 8 != 0 then (atLeast + 8) % U32 / 8 * 8 else atLeast
  }

  // Requests in a window of seven values round to a block of no bytes at all.
  predicate Roundable(request: nat) {
    request + 15 < U32 || request + HEADER >= U32
  }

  // The block found for a request holds it exactly when adding header and padding does
  // not wrap; a request that wraps early gets the minimum block, one that wraps late none.
  lemma RoundedHolds(request: nat, min: nat)
    requires request < U32 && 8 <= min <= 256 && min % 8 == 0
    ensures Rounded(request, min) >= request + HEADER <==> request + 15 < U32
    ensures Roundable(request) <==> Rounded(request, min) > 0
    ensures Roundable(request) ==> Rounded(request, min) >= min && Rounded(request, min) % 8 == 0
    ensures request + 15 < U32 && request + HEADER >= min ==> Rounded(request, min) < request + HEADER + 8
    ensures request + HEADER < min ==> Rounded(request, min) == min
  {
  }

  // ---------- headers in memory ----------

  datatype MmNode = MmNode(next: nat, size: nat)

  // Memory by header address; mm_init clears it, so what was never written reads as zero.
  function Load(m: map<nat, MmNode>, a: nat): MmNode {
    if a in m then m[a] else MmNode(0, 0)
  }

  // The headers carry every tile's tag and size, and link the free tiles in address
  // order from the root to the last node.
  ghost predicate Linked(m: map<nat, MmNode>, root: nat, ts: seq<Tile>, last: nat, region: nat) {
    && Load(m, root) == MmNode(NextFree(ts, 0, last), 0)
    && Load(m, last) == MmNode(0, 0)
    && (forall i :: 0 <= i < |ts| ==> Load(m, ts[i].addr).size == Pack(region, ts[i].size))
    && (forall i :: 0 <= i < |ts| && ts[i].free ==> Load(m, ts[i].addr).next == NextFree(ts, i + 1, last))
  }

  ghost predicate Marked(m: map<nat, MmNode>, ts: seq<Tile>) {
    forall i :: 0 <= i < |ts| && !ts[i].free ==> Load(m, ts[i].addr).next == MAGIC
  }

  ghost predicate Outside(ts: seq<Tile>, lo: nat, last: nat, root: nat, region: nat) {
    Tiled(ts, lo, last) && root + HEADER <= lo && last - lo < TAG && region < 16
  }

  // ---------- how releasing a tile changes the links ----------

  lemma {:induction false} NextBeforeRelease(ts: seq<Tile>, k: nat, i: nat, last: nat)
    requires k < |ts| && i <= FirstMerged(ts, k)
    ensures (exists q :: i <= q < FirstMerged(ts, k) && ts[q].free)
            ==> NextFree(Release(ts, k), i, last) == NextFree(ts, i, last)
    ensures (forall q :: i <= q < FirstMerged(ts, k) ==> !ts[q].free)
            ==> NextFree(Release(ts, k), i, last) == ts[FirstMerged(ts, k)].addr
    decreases FirstMerged(ts, k) - i
  {
    var f := FirstMerged(ts, k);
    var us := Release(ts, k);
    if i < f {
      assert us[i] == ts[i];
      NextBeforeRelease(ts, k, i + 1, last);
    } else {
      assert us[f] == Tile(ts[f].addr, MergedSize(ts, k), true);
    }
  }

  lemma NextAfterRelease(ts: seq<Tile>, k: nat, i: nat, last: nat)
    requires k < |ts| && FirstMerged(ts, k) < i <= |Release(ts, k)|
    ensures NextFree(Release(ts, k), i, last) ==
            NextFree(ts, i - FirstMerged(ts, k) - 1 + PastMerged(ts, k), last)
  {
    var us, j := Release(ts, k), i - FirstMerged(ts, k) - 1 + PastMerged(ts, k);
    assert us[i..] == ts[j..];
    NextFreeSuffix(us, ts, i, j, last);
  }

  // What the walk of mm_list_insert finds: `j` is the last free tile before tile `k`
  // (-1 for the root), `n` the first free tile after it (|ts| for the last node).
  ghost predicate Around(ts: seq<Tile>, k: nat, j: int, n: nat) {
    && k < |ts| && -1 <= j < k && k < n <= |ts| && !ts[k].free
    && (j >= 0 ==> ts[j].free) && (n < |ts| ==> ts[n].free)
    && (forall q :: j < q < n ==> !ts[q].free)
  }

  ghost function At(ts: seq<Tile>, j: int, root: nat): nat
    requires j < |ts|
  {
    if j < 0 then root else ts[j].addr
  }

  lemma AroundMerges(ts: seq<Tile>, lo: nat, last: nat, root: nat, k: nat, j: int, n: nat)
    requires Tiled(ts, lo, last) && Around(ts, k, j, n) && root + HEADER <= lo
    ensures MergesBack(ts, k) <==> j >= 0 && j == k - 1
    ensures MergesAhead(ts, k) <==> n < |ts| && n == k + 1
    ensures At(ts, j, root) + (if j < 0 then 0 else ts[j].size) == ts[k].addr <==> MergesBack(ts, k)
    ensures n < |ts| ==> (End(ts[k]) == ts[n].addr <==> MergesAhead(ts, k))
    ensures At(ts, j, root) < ts[k].addr < last
  {
    Bounded(ts, lo, last, k);
    if j >= 0 {
      Ordered(ts, lo, last, j, k);
      if j < k - 1 { Ordered(ts, lo, last, j, j + 1); Ordered(ts, lo, last, j + 1, k); }
    }
    if n < |ts| && n > k + 1 {
      Ordered(ts, lo, last, k, k + 1);
      Ordered(ts, lo, last, k + 1, n);
    }
  }

  // Two words of memory decide whether the released block is linked in properly: the
  // header of the merged block, and the link of the free block before it.
  ghost predicate Relinked(m: map<nat, MmNode>, m': map<nat, MmNode>, root: nat, ts: seq<Tile>, last: nat,
                           region: nat, k: nat, j: int)
    requires k < |ts| && j < k
  {
    var f := FirstMerged(ts, k);
    && Load(m', ts[f].addr) == MmNode(NextFree(ts, PastMerged(ts, k), last), Pack(region, MergedSize(ts, k)))
    && (j < f ==> Load(m', At(ts, j, root)) == Load(m, At(ts, j, root)).(next := ts[f].addr))
    && (forall a: nat :: a != ts[f].addr && a != At(ts, j, root) ==> Load(m', a) == Load(m, a))
  }

  lemma ReleaseLinked(m: map<nat, MmNode>, m': map<nat, MmNode>, root: nat, ts: seq<Tile>, lo: nat, last: nat,
                      region: nat, k: nat, j: int, n: nat)
    requires Outside(ts, lo, last, root, region) && Linked(m, root, ts, last, region) && Around(ts, k, j, n)
    requires Relinked(m, m', root, ts, last, region, k, j)
    ensures Linked(m', root, Release(ts, k), last, region)
  {
    var f := FirstMerged(ts, k);
    var us := Release(ts, k);
    forall i | 0 <= i < |us|
      ensures Load(m', us[i].addr).size == Pack(region, us[i].size)
      ensures us[i].free ==> Load(m', us[i].addr).next == NextFree(us, i + 1, last)
    {
      if i < f {
        ReleaseLinkedBefore(m, m', root, ts, lo, last, region, k, j, n, i);
      } else if i > f {
        ReleaseLinkedAfter(m, m', root, ts, lo, last, region, k, j, n, i);
      } else {
        NextAfterRelease(ts, k, f + 1, last);
      }
    }
    ReleaseLinkedEnds(m, m', root, ts, lo, last, region, k, j, n);
  }

  lemma ReleaseLinkedEnds(m: map<nat, MmNode>, m': map<nat, MmNode>, root: nat, ts: seq<Tile>, lo: nat, last: nat,
                          region: nat, k: nat, j: int, n: nat)
    requires Outside(ts, lo, last, root, region) && Linked(m, root, ts, last, region) && Around(ts, k, j, n)
    requires Relinked(m, m', root, ts, last, region, k, j)
    ensures Load(m', root) == MmNode(NextFree(Release(ts, k), 0, last), 0) && Load(m', last) == MmNode(0, 0)
  {
    var f := FirstMerged(ts, k);
    Bounded(ts, lo, last, f);
    AroundMerges(ts, lo, last, root, k, j, n);
    NextBeforeRelease(ts, k, 0, last);
    if j >= 0 { Bounded(ts, lo, last, j); }
    if f == j { RootLink(ts, lo, last, k, j); }
  }

  lemma LaterTile(ts: seq<Tile>, lo: nat, last: nat, root: nat, k: nat, j: int, n: nat, q: nat)
    requires Tiled(ts, lo, last) && root + HEADER <= lo && Around(ts, k, j, n) && PastMerged(ts, k) <= q < |ts|
    ensures ts[q].addr != ts[FirstMerged(ts, k)].addr && ts[q].addr != At(ts, j, root)
  {
    Ordered(ts, lo, last, FirstMerged(ts, k), q);
    if j >= 0 { Ordered(ts, lo, last, j, q); }
    Bounded(ts, lo, last, q);
  }

  lemma ReleaseLinkedAfter(m: map<nat, MmNode>, m': map<nat, MmNode>, root: nat, ts: seq<Tile>, lo: nat, last: nat,
                           region: nat, k: nat, j: int, n: nat, i: nat)
    requires Outside(ts, lo, last, root, region) && Linked(m, root, ts, last, region) && Around(ts, k, j, n)
    requires Relinked(m, m', root, ts, last, region, k, j)
    requires FirstMerged(ts, k) < i < |Release(ts, k)|
    ensures var t := Release(ts, k)[i];
            && Load(m', t.addr).size == Pack(region, t.size)
            && (t.free ==> Load(m', t.addr).next == NextFree(Release(ts, k), i + 1, last))
  {
    hide Tiled, Release, Around, FirstMerged, PastMerged, Pack, NextFree;
    var q := i - FirstMerged(ts, k) - 1 + PastMerged(ts, k);
    ReleaseAt(ts, k, i);
    LaterTile(ts, lo, last, root, k, j, n, q);
    assert Load(m', ts[q].addr) == Load(m, ts[q].addr);
    assert ts[q].free ==> Load(m, ts[q].addr).next == NextFree(ts, q + 1, last);
    NextAfterRelease(ts, k, i + 1, last);
  }

  lemma RootLink(ts: seq<Tile>, lo: nat, last: nat, k: nat, j: nat)
    requires Tiled(ts, lo, last) && k < |ts| && j < k && ts[j].free && FirstMerged(ts, k) == j
    ensures NextFree(Release(ts, k), 0, last) == NextFree(ts, 0, last)
  {
    NextBeforeRelease(ts, k, 0, last);
    if forall q :: 0 <= q < j ==> !ts[q].free { NextFreeSkip(ts, 0, j, last); }
  }

  lemma ReleaseLinkedBefore(m: map<nat, MmNode>, m': map<nat, MmNode>, root: nat, ts: seq<Tile>, lo: nat, last: nat,
                            region: nat, k: nat, j: int, n: nat, i: nat)
    requires Outside(ts, lo, last, root, region) && Linked(m, root, ts, last, region) && Around(ts, k, j, n)
    requires i < FirstMerged(ts, k)
    requires Relinked(m, m', root, ts, last, region, k, j)
    ensures Release(ts, k)[i] == ts[i]
    ensures Load(m', ts[i].addr).size == Pack(region, ts[i].size)
    ensures ts[i].free ==> Load(m', ts[i].addr).next == NextFree(Release(ts, k), i + 1, last)
  {
    var f := FirstMerged(ts, k);
    Ordered(ts, lo, last, i, f);
    Bounded(ts, lo, last, i);
    NextBeforeRelease(ts, k, i + 1, last);
    if i < j {
      Ordered(ts, lo, last, i, j);
      if j == f && (forall q :: i + 1 <= q < f ==> !ts[q].free) { NextFreeSkip(ts, i + 1, f, last); }
    } else if j >= 0 && j < i {
      Ordered(ts, lo, last, j, i);
    }
  }

  // What the header words read by mm_list_insert say about the tiles around tile `k`.
  lemma InsertFacts(m: map<nat, MmNode>, root: nat, ts: seq<Tile>, lo: nat, last: nat,
                    region: nat, k: nat, j: int, n: nat)
    requires Outside(ts, lo, last, root, region) && Linked(m, root, ts, last, region) && Around(ts, k, j, n)
    ensures Load(m, At(ts, j, root)).next == NextFree(ts, k + 1, last) == (if n < |ts| then ts[n].addr else last)
    ensures At(ts, j, root) < ts[k].addr < last
    ensures MergesBack(ts, k) <==> At(ts, j, root) + (if j < 0 then 0 else ts[j].size) == ts[k].addr
    ensures MergesBack(ts, k) <==> j == FirstMerged(ts, k)
    ensures n < |ts| ==> ts[k].addr < ts[n].addr < last && (End(ts[k]) == ts[n].addr <==> MergesAhead(ts, k))
    ensures MergesAhead(ts, k) ==> n == k + 1 && n < |ts|
    ensures (if j < 0 then 0 else ts[j].size) + ts[k].size + (if n < |ts| then ts[n].size else 0) <= last - lo
  {
    AroundMerges(ts, lo, last, root, k, j, n);
    Bounded(ts, lo, last, k);
    if j >= 0 { Ordered(ts, lo, last, j, k); Bounded(ts, lo, last, j); }
    if n < |ts| { Bounded(ts, lo, last, n); Ordered(ts, lo, last, k, n); }
    NextFreeSkip(ts, j + 1, k + 1, last);
    NextFreeSkip(ts, k + 1, n, last);
  }

  // The header that merging leaves behind is the header of the merged block.
  lemma MergeRelinks(m: map<nat, MmNode>, m': map<nat, MmNode>, root: nat, ts: seq<Tile>, lo: nat, last: nat,
                     region: nat, k: nat, j: int, n: nat)
    requires Outside(ts, lo, last, root, region) && Linked(m, root, ts, last, region) && Around(ts, k, j, n)
    requires var iter, next := At(ts, j, root), if n < |ts| then ts[n].addr else last;
             var back := iter + (if j < 0 then 0 else ts[j].size) == ts[k].addr;
             var ahead := End(ts[k]) == next && next != last;
             var target := if back then iter else ts[k].addr;
             && Load(m', target) == MmNode(if ahead then NextFree(ts, n + 1, last) else next,
                                           Pack(region, (if back && j >= 0 then ts[j].size else 0) + ts[k].size
                                                        + if ahead && n < |ts| then ts[n].size else 0))
             && forall a: nat :: a != target ==> Load(m', a) == Load(m, a)
    ensures var f := FirstMerged(ts, k);
            && (j == f ==> Relinked(m, m', root, ts, last, region, k, j))
            && (j != f ==> f == k && At(ts, j, root) != ts[f].addr)
            && (j != f ==> Relinked(m, m'[At(ts, j, root) := Load(m', At(ts, j, root)).(next := ts[f].addr)],
                                    root, ts, last, region, k, j))
  {
    InsertFacts(m, root, ts, lo, last, region, k, j, n);
  }

  // ---------- how handing out a tile changes the links ----------

  ghost function Taken(ts: seq<Tile>, k: nat): seq<Tile>
    requires k < |ts|
  {
    ts[k := ts[k].(free := false)]
  }

  lemma TakenTiled(ts: seq<Tile>, lo: nat, last: nat, k: nat)
    requires Tiled(ts, lo, last) && k < |ts|
    ensures Tiled(Taken(ts, k), lo, last)
  {
    Splice(ts, lo, last, k, k + 1, [ts[k].(free := false)]);
    assert Taken(ts, k) == ts[..k] + [ts[k].(free := false)] + ts[k + 1..];
  }

  lemma NextFreeTaken(ts: seq<Tile>, k: nat, i: nat, last: nat)
    requires k < |ts| && ts[k].free && i <= |ts|
    ensures i <= k && (exists q :: i <= q < k && ts[q].free) ==>
              NextFree(Taken(ts, k), i, last) == NextFree(ts, i, last)
    ensures i <= k && (forall q :: i <= q < k ==> !ts[q].free)
            ==> NextFree(Taken(ts, k), i, last) == NextFree(ts, k + 1, last)
    ensures i > k ==> NextFree(Taken(ts, k), i, last) == NextFree(ts, i, last)
  {
    var us := Taken(ts, k);
    var a, b := ts[..k], ts[k..];
    assert ts == a + b && us == a + us[k..];
    NextFreeConcat(a, b, i, last);
    NextFreeConcat(a, us[k..], i, last);
    if i <= k {
      if q :| i <= q < k && ts[q].free {
        NextFreeStable(a, i, q, NextFree(b, 0, last), NextFree(us[k..], 0, last));
      } else {
        NextFreeSkip(us, i, k + 1, last);
        assert us[k + 1..] == ts[k + 1..];
        NextFreeSuffix(us, ts, k + 1, k + 1, last);
      }
    } else {
      assert us[i..] == ts[i..];
      NextFreeSuffix(us, ts, i, i, last);
    }
  }

  // Unlinking free tile `k` from the free tile (or root) before it.
  lemma UnlinkLinked(m: map<nat, MmNode>, root: nat, ts: seq<Tile>, lo: nat, last: nat, region: nat, p: int, k: nat)
    requires Outside(ts, lo, last, root, region) && Linked(m, root, ts, last, region)
    requires -1 <= p < k < |ts| && ts[k].free && (p >= 0 ==> ts[p].free)
    requires forall q :: p < q < k ==> !ts[q].free
    ensures var prev := At(ts, p, root);
            Linked(m[prev := Load(m, prev).(next := Load(m, ts[k].addr).next)], root, Taken(ts, k), last, region)
  {
    var us := Taken(ts, k);
    var prev := At(ts, p, root);
    var m' := m[prev := Load(m, prev).(next := Load(m, ts[k].addr).next)];
    Bounded(ts, lo, last, k);
    if p >= 0 { Bounded(ts, lo, last, p); }
    NextFreeTaken(ts, k, 0, last);
    forall i | 0 <= i < |us|
      ensures Load(m', us[i].addr).size == Pack(region, us[i].size)
      ensures us[i].free ==> Load(m', us[i].addr).next == NextFree(us, i + 1, last)
    {
      Bounded(ts, lo, last, i);
      NextFreeTaken(ts, k, i + 1, last);
      assert us[i].addr == ts[i].addr;
      if p >= 0 && ts[i].addr == prev { SameAddress(ts, lo, last, i, p); }
    }
  }

  ghost function Halved(ts: seq<Tile>, k: nat, size: nat): seq<Tile>
    requires k < |ts| && size <= ts[k].size
  {
    ts[..k] + [Tile(ts[k].addr, size, false), Tile(ts[k].addr + size, ts[k].size - size, false)] + ts[k + 1..]
  }

  lemma HalvedTiled(ts: seq<Tile>, lo: nat, last: nat, k: nat, size: nat)
    requires Tiled(ts, lo, last) && k < |ts| && 0 < size < ts[k].size
    ensures Tiled(Halved(ts, k, size), lo, last)
  {
    Splice(ts, lo, last, k, k + 1,
           [Tile(ts[k].addr, size, false), Tile(ts[k].addr + size, ts[k].size - size, false)]);
  }

  lemma NextFreeHalved(ts: seq<Tile>, k: nat, size: nat, i: nat, last: nat)
    requires k < |ts| && !ts[k].free && size <= ts[k].size && i <= |ts| && i != k + 1
    ensures NextFree(Halved(ts, k, size), if i <= k then i else i + 1, last) == NextFree(ts, i, last)
  {
    var us := Halved(ts, k, size);
    if i > k {
      assert us[i + 1..] == ts[i..];
      NextFreeSuffix(us, ts, i + 1, i, last);
    } else {
      assert ts == ts[..k] + ts[k..] && us == ts[..k] + us[k..];
      NextFreeConcat(ts[..k], ts[k..], i, last);
      NextFreeConcat(ts[..k], us[k..], i, last);
      NextFreeSkip(us[k..], 0, 2, last);
      NextFreeSkip(ts[k..], 0, 1, last);
      assert us[k..][2..] == ts[k..][1..];
      NextFreeSuffix(us[k..], ts[k..], 2, 1, last);
    }
  }

  // Writing the two headers of a split live tile.
  lemma HalvedLinked(m: map<nat, MmNode>, m': map<nat, MmNode>, root: nat, ts: seq<Tile>, lo: nat, last: nat,
                     region: nat, k: nat, size: nat)
    requires Outside(ts, lo, last, root, region) && Linked(m, root, ts, last, region)
    requires k < |ts| && !ts[k].free && 0 < size < ts[k].size
    requires Load(m', ts[k].addr).size == Pack(region, size)
    requires Load(m', ts[k].addr + size).size == Pack(region, ts[k].size - size)
    requires forall a: nat :: a != ts[k].addr && a != ts[k].addr + size ==> Load(m', a) == Load(m, a)
    ensures Linked(m', root, Halved(ts, k, size), last, region)
  {
    var us := Halved(ts, k, size);
    Bounded(ts, lo, last, k);
    NextFreeHalved(ts, k, size, 0, last);
    forall i | 0 <= i < |us|
      ensures Load(m', us[i].addr).size == Pack(region, us[i].size)
      ensures us[i].free ==> Load(m', us[i].addr).next == NextFree(us, i + 1, last)
    {
      if i < k {
        assert us[i] == ts[i];
        Ordered(ts, lo, last, i, k);
        NextFreeHalved(ts, k, size, i + 1, last);
      } else if i > k + 1 {
        assert us[i] == ts[i - 1];
        Ordered(ts, lo, last, k, i - 1);
        NextFreeHalved(ts, k, size, i, last);
      }
    }
  }

  lemma HalvedReleased(ts: seq<Tile>, k: nat, size: nat, min: nat)
    requires Merged(ts) && k < |ts| && ts[k].free && size + min <= ts[k].size
    ensures Release(Halved(Taken(ts, k), k, size), k + 1) == Carve(ts, k, size, min)
  {
    var hs := Halved(Taken(ts, k), k, size);
    assert k + 1 < |ts| ==> hs[k + 2] == ts[k + 1];
    assert hs[k + 2..] == ts[k + 1..];
    assert Release(hs, k + 1) == hs[..k + 1] + [hs[k + 1].(free := true)] + hs[k + 2..];
  }
}
