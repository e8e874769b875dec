// What any run of mm_alloc and mm_free keeps, and what it returns to.
//
// Mm.dfy proves that each call takes the block structure of the physical memories through
// one `Step`. The laws here are about runs of steps from the state mm_init leaves.
module MmRuns {
  import opened Tiles
  import opened MmHeaders
  import opened Mm

  ghost predicate AllPossible(tss: seq<seq<Tile>>, mins: seq<nat>, ops: seq<HeapOp>)
    requires |mins| == |tss|
    decreases |ops|
  {
    ops == [] || (Possible(tss, ops[0]) && AllPossible(Step(tss, mins, ops[0]), mins, ops[1..]))
  }

  ghost function Run(tss: seq<seq<Tile>>, mins: seq<nat>, ops: seq<HeapOp>): (out: seq<seq<Tile>>)
    requires |mins| == |tss| && AllPossible(tss, mins, ops)
    ensures |out| == |tss|
    decreases |ops|
  {
    if ops == [] then tss else Run(Step(tss, mins, ops[0]), mins, ops[1..])
  }

  ghost predicate Sound(rs: seq<Physmem>, tss: seq<seq<Tile>>) {
    && |tss| == |rs|
    && (forall i :: 0 <= i < |rs| ==> 8 <= rs[i].min <= 256 && rs[i].min % 8 == 0 && rs[i].start < rs[i].last)
    && (forall i :: 0 <= i < |rs| ==> Canonical(tss[i], rs[i].start, rs[i].last, rs[i].min))
  }

  lemma StepSound(rs: seq<Physmem>, tss: seq<seq<Tile>>, op: HeapOp)
    requires Sound(rs, tss) && Possible(tss, op)
    ensures Sound(rs, Step(tss, Mins(rs), op))
  {
    match op
    case AllocOp(i, request) =>
      var need := Rounded(request, rs[i].min);
      RoundedHolds(request, rs[i].min);
      var k := FitIndex(tss[i], need);
      if k < |tss[i]| { CarveCanonical(tss[i], rs[i].start, rs[i].last, k, need, rs[i].min); }
    case FreeOp(i, ptr) =>
      ReleaseCanonical(tss[i], rs[i].start, rs[i].last, rs[i].min, FindLive(tss[i], ptr));
  }

  // Every run keeps the tiling exact, the grain of 8 bytes and the minimum size, and the
  // free blocks apart.
  lemma {:induction false} RunSound(rs: seq<Physmem>, tss: seq<seq<Tile>>, ops: seq<HeapOp>)
    requires Sound(rs, tss) && AllPossible(tss, Mins(rs), ops)
    ensures Sound(rs, Run(tss, Mins(rs), ops))
    decreases |ops|
  {
    if ops != [] {
      StepSound(rs, tss, ops[0]);
      RunSound(rs, Step(tss, Mins(rs), ops[0]), ops[1..]);
    }
  }

  // Two histories that leave the same blocks live leave the same free list.
  lemma HistoryIndependent(rs: seq<Physmem>, tss: seq<seq<Tile>>, ops: seq<HeapOp>, ops': seq<HeapOp>)
    requires Sound(rs, tss)
    requires AllPossible(tss, Mins(rs), ops) && AllPossible(tss, Mins(rs), ops')
    requires forall i :: 0 <= i < |rs| ==>
               LiveBlocks(Run(tss, Mins(rs), ops)[i]) == LiveBlocks(Run(tss, Mins(rs), ops')[i])
    ensures Run(tss, Mins(rs), ops) == Run(tss, Mins(rs), ops')
  {
    var a, b := Run(tss, Mins(rs), ops), Run(tss, Mins(rs), ops');
    RunSound(rs, tss, ops);
    RunSound(rs, tss, ops');
    forall i | 0 <= i < |rs|
      ensures a[i] == b[i]
    {
      CanonicalForm(a[i], b[i], rs[i].start, rs[i].last);
    }
  }

  // Once nothing is live in a memory, in whatever order things were released, it is the one
  // free block that mm_init made.
  lemma AllReleased(rs: seq<Physmem>, tss: seq<seq<Tile>>, ops: seq<HeapOp>, i: nat)
    requires Sound(rs, tss) && AllPossible(tss, Mins(rs), ops) && i < |rs|
    requires LiveBlocks(Run(tss, Mins(rs), ops)[i]) == {}
    ensures Run(tss, Mins(rs), ops)[i] == [Tile(rs[i].start, rs[i].last - rs[i].start, true)]
  {
    RunSound(rs, tss, ops);
    var whole := [Tile(rs[i].start, rs[i].last - rs[i].start, true)];
    CanonicalForm(Run(tss, Mins(rs), ops)[i], whole, rs[i].start, rs[i].last);
  }

  // mm_free straight after the mm_alloc that returned the pointer restores every block.
  lemma FreeUndoesAlloc(rs: seq<Physmem>, tss: seq<seq<Tile>>, index: nat, request: nat)
    requires Sound(rs, tss) && Possible(tss, AllocOp(index, request))
    requires FitIndex(tss[index], Rounded(request, rs[index].min)) < |tss[index]|
    ensures var ptr := tss[index][FitIndex(tss[index], Rounded(request, rs[index].min))].addr + HEADER;
            var after := Step(tss, Mins(rs), AllocOp(index, request));
            && Possible(after, FreeOp(index, ptr))
            && Step(after, Mins(rs), FreeOp(index, ptr)) == tss
  {
    hide Tiled, Release, LiveBlocks, Rounded, FitIndex;
    var ts, need := tss[index], Rounded(request, rs[index].min);
    var k := FitIndex(ts, need);
    var us := Carve(ts, k, need, rs[index].min);
    RoundedHolds(request, rs[index].min);
    StepSound(rs, tss, AllocOp(index, request));
    ReleaseUndoesCarve(ts, rs[index].start, rs[index].last, k, need, rs[index].min);
    FindLiveIs(us, rs[index].start, rs[index].last, k, ts[k].addr + HEADER);
    assert tss[index := us][index := ts] == tss;
  }

  lemma FindLiveIs(ts: seq<Tile>, lo: nat, hi: nat, k: nat, ptr: nat)
    requires Tiled(ts, lo, hi) && LiveAt(ts, k, ptr)
    ensures FindLive(ts, ptr) == k
  {
    SameAddress(ts, lo, hi, k, FindLive(ts, ptr));
  }

  // Exact first fit: no block is returned exactly when no free block holds the rounded
  // request; otherwise the block is the lowest that does, it holds the request, and what is
  // handed out beyond the rounded request is less than the smallest block.
  lemma ExactFirstFit(rs: seq<Physmem>, tss: seq<seq<Tile>>, index: nat, request: nat)
    requires Sound(rs, tss) && index < |tss| && request + 15 < U32
    ensures var ts, need := tss[index], Rounded(request, rs[index].min);
            var k := FitIndex(ts, need);
            var after := Step(tss, Mins(rs), AllocOp(index, request));
            && (k == |ts| <==> forall q :: 0 <= q < |ts| && ts[q].free ==> ts[q].size < need)
            && (k == |ts| ==> after == tss)
            && (k < |ts| ==>
                  (forall q :: 0 <= q < |ts| && ts[q].free && ts[q].size >= need ==> ts[k].addr <= ts[q].addr)
                  && !after[index][k].free && after[index][k].addr == ts[k].addr
                  && request + HEADER <= need <= after[index][k].size < need + rs[index].min
                  && SizeOf(after[index], false) == SizeOf(ts, false) + after[index][k].size)
  {
    var ts, need := tss[index], Rounded(request, rs[index].min);
    var k := FitIndex(ts, need);
    RoundedHolds(request, rs[index].min);
    if k < |ts| {
      forall q | 0 <= q < |ts| && ts[q].free && ts[q].size >= need
        ensures ts[k].addr <= ts[q].addr
      {
        if k < q { Ordered(ts, rs[index].start, rs[index].last, k, q); }
      }
      CarveSize(ts, k, need, rs[index].min);
    }
  }

  // What MemoryManager.Valid says of the block structure, whatever run led there.
  lemma ManagerSound(m: MemoryManager)
    requires m.Valid()
    ensures Sound(m.regions, m.tiles)
    ensures forall i :: 0 <= i < |m.regions| ==> m.regions[i].used == SizeOf(m.tiles[i], false)
  {
  }

  // The same of the code: the call of mm_free is possible, and blocks, counts and all else that
  // is recorded of the memories are then as before. A call that returned NULL has changed nothing.
  method AllocThenFree(m: MemoryManager, request: nat, index: nat) returns (ptr: nat)
    requires m.Valid() && index < |m.regions| && request < U32 && Roundable(request)
    modifies m
    ensures m.Valid() && m.tiles == old(m.tiles) && m.regions == old(m.regions)
    ensures ptr == 0 ==> m.mem == old(m.mem)
  {
    hide MemoryManager.Valid, Sound, SameShape, Possible, Step, FitIndex, Rounded, Roundable, LiveExcept;
    ghost var rs, tss := m.regions, m.tiles;
    ManagerSound(m);
    PossibleAlloc(tss, index, request);
    ptr := m.Alloc(request, index);
    SameMins(rs, m.regions);
    if ptr != 0 {
      FreeUndoesAlloc(rs, tss, index, request);
      ghost var between := m.regions;
      m.Free(ptr, index);
      SameMins(between, m.regions);
      ShapeChain(rs, between, m.regions);
    } else {
      NoBlock(tss, rs, index, request);
    }
    ManagerSound(m);
    SameCounts(rs, m.regions, tss);
  }

  // The first allocation after mm_init: it takes the start of the memory, and succeeds exactly if
  // the rounded request and the last node fit between the multiples of 8 that the bank holds.
  method FirstAlloc(boot: map<nat, MmNode>, banks: seq<Bank>, heapStart: nat, heapEnd: nat, request: nat, index: nat)
    returns (ptr: nat)
    requires Configured(PlacedAll(banks, heapStart, heapEnd)) && index < |banks| && request < U32 && Roundable(request)
    ensures var b := Placed(banks[index], heapStart, heapEnd);
            forall lo: nat, hi: nat :: Within(b, lo, hi) ==>
              ptr == if Rounded(request, b.min) + HEADER <= hi - lo then lo + HEADER else 0
  {
    hide MemoryManager.Valid, Layout, PlacedAll, Configured, Rounded, Roundable, FitIndex, Within;
    var m := new MemoryManager(boot, banks, heapStart, heapEnd);
    ghost var b, ts := Placed(banks[index], heapStart, heapEnd), m.tiles[index];
    ghost var rs := m.regions;
    ptr := m.Alloc(request, index);
    SameMins(rs, m.regions);
    FitsWhole(ts[0], Rounded(request, b.min));
    forall lo: nat, hi: nat | Within(b, lo, hi)
      ensures lo == rs[index].start && hi == rs[index].last + HEADER
    {
      WithinOnce(b, lo, hi, rs[index].start, rs[index].last + HEADER);
    }
  }

  lemma FitsWhole(t: Tile, need: nat)
    requires t.free
    ensures FitIndex([t], need) == if need <= t.size then 0 else 1
  {
  }

  lemma PossibleAlloc(tss: seq<seq<Tile>>, index: nat, request: nat)
    requires index < |tss| && request < U32 && Roundable(request)
    ensures Possible(tss, AllocOp(index, request))
  {
  }

  lemma SameMins(rs: seq<Physmem>, rs': seq<Physmem>)
    requires SameShape(rs, rs')
    ensures |rs'| == |rs| && Mins(rs') == Mins(rs) && forall i :: 0 <= i < |rs| ==> rs'[i].min == rs[i].min
  {
  }

  lemma ShapeChain(rs: seq<Physmem>, rs': seq<Physmem>, rs'': seq<Physmem>)
    requires SameShape(rs, rs') && SameShape(rs', rs'')
    ensures SameShape(rs, rs'')
  {
  }

  lemma NoBlock(tss: seq<seq<Tile>>, rs: seq<Physmem>, index: nat, request: nat)
    requires |tss| == |rs| && Possible(tss, AllocOp(index, request))
    requires FitIndex(tss[index], Rounded(request, rs[index].min)) == |tss[index]|
    ensures Step(tss, Mins(rs), AllocOp(index, request)) == tss
  {
  }

  lemma SameCounts(rs: seq<Physmem>, rs': seq<Physmem>, tss: seq<seq<Tile>>)
    requires SameShape(rs, rs') && |tss| == |rs|
    requires forall i :: 0 <= i < |rs| ==> rs[i].used == SizeOf(tss[i], false) == rs'[i].used
    ensures rs' == rs
  {
    assert forall i :: 0 <= i < |rs| ==> rs'[i] == rs[i];
  }
}
