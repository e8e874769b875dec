// kernel/src/mm/umalloc.c: fixed-size blocks from one page allocation, with a bitmap behind
// the last block. A set bit means a free block.
module Umalloc {

  const U32: nat := 0x1_0000_0000

  // A 32-bit word of the bitmap, bit by bit: `w & (1 << j)` tests bit j, `w |= 1 << j` sets
  // it, `w &= ~(1 << j)` clears it, and the word is non-zero when some bit is set.
  type Word = w: seq<bool> | |w| == 32 witness seq(32, _ => false)

  predicate NonZero(w: Word) { exists j :: 0 <= j < 32 && w[j] }

  // ---------- the bitmap as a set of free indices ----------

  predicate FreeAt(bitmap: seq<Word>, i: nat)
    requires i < 32 * |bitmap|
  {
    bitmap[i / 32][i % 32]
  }

  ghost function FreeSet(bitmap: seq<Word>): set<nat> {
    set i: nat | i < 32 * |bitmap| && FreeAt(bitmap, i)
  }

  function Claim(bitmap: seq<Word>, i: nat): seq<Word>
    requires i < 32 * |bitmap|
  {
    bitmap[i / 32 := bitmap[i / 32][i % 32 := false]]
  }

  function Return(bitmap: seq<Word>, i: nat): seq<Word>
    requires i < 32 * |bitmap|
  {
    bitmap[i / 32 := bitmap[i / 32][i % 32 := true]]
  }

  lemma SameIndex(i: nat, j: nat)
    ensures i / 32 == j / 32 && i % 32 == j % 32 <==> i == j
  {
  }

  lemma ClaimRemoves(bitmap: seq<Word>, i: nat)
    requires i < 32 * |bitmap|
    ensures FreeSet(Claim(bitmap, i)) == FreeSet(bitmap) - {i}
  {
    forall j: nat | j < 32 * |bitmap|
      ensures FreeAt(Claim(bitmap, i), j) <==> FreeAt(bitmap, j) && j != i
    {
      SameIndex(i, j);
    }
  }

  lemma ReturnAdds(bitmap: seq<Word>, i: nat)
    requires i < 32 * |bitmap|
    ensures FreeSet(Return(bitmap, i)) == FreeSet(bitmap) + {i}
  {
    forall j: nat | j < 32 * |bitmap|
      ensures FreeAt(Return(bitmap, i), j) <==> FreeAt(bitmap, j) || j == i
    {
      SameIndex(i, j);
    }
  }

  // Giving back what was just taken restores every word of the bitmap.
  lemma ReturnUndoesClaim(bitmap: seq<Word>, i: nat)
    requires i in FreeSet(bitmap)
    ensures Return(Claim(bitmap, i), i) == bitmap
  {
    assert FreeAt(bitmap, i);
    assert bitmap[i / 32][i % 32 := false][i % 32 := true] == bitmap[i / 32];
  }

  ghost function Upto(n: nat): (s: set<nat>)
    ensures forall i: nat :: i in s <==> i < n
  {
    if n == 0 then {} else Upto(n - 1) + {n - 1}
  }

  lemma {:induction false} UptoSize(n: nat)
    ensures |Upto(n)| == n
  {
    if n > 0 {
      UptoSize(n - 1);
    }
  }

  lemma NoneInWord(bitmap: seq<Word>, i: nat)
    requires i < |bitmap| && !NonZero(bitmap[i])
    ensures forall k: nat :: 32 * i <= k < 32 * (i + 1) ==> !FreeAt(bitmap, k)
  {
    forall k: nat | 32 * i <= k < 32 * (i + 1)
      ensures !FreeAt(bitmap, k)
    {
      assert k / 32 == i;
    }
  }

  lemma LowestFree(bitmap: seq<Word>, i: nat, j: nat)
    requires i < |bitmap| && j < 32 && bitmap[i][j]
    requires forall k: nat :: k < 32 * i ==> !FreeAt(bitmap, k)
    requires forall k: nat :: k < j ==> !bitmap[i][k]
    ensures 32 * i + j in FreeSet(bitmap) && forall k :: k in FreeSet(bitmap) ==> 32 * i + j <= k
    ensures (32 * i + j) / 32 == i && (32 * i + j) % 32 == j
  {
    forall k: nat | 32 * i <= k < 32 * i + j
      ensures !FreeAt(bitmap, k)
    {
      assert k / 32 == i && k % 32 == k - 32 * i;
    }
  }

  // ---------- sizes ----------

  // The block count umalloc_new works with: the request plus 32, rounded down to 32.
  function Blocks(request: nat): nat { (request + 32) % U32 / 32 * 32 }

  // Sizes are 32-bit words, and so are their product, their sum and the bytes to fill.
  function ArenaSize(blockSize: nat, count: nat): nat { count * blockSize % U32 }

  function Pages(blockSize: nat, count: nat): nat {
    var bytes := (ArenaSize(blockSize, count) + count / 8) % U32;
    bytes / 512 + if bytes % 512 != 0 then 1 else 0
  }

  function Filled(blockSize: nat, count: nat): nat { Pages(blockSize, count) * 512 % U32 }

  // What blocks and bitmap really take.
  function Needed(blockSize: nat, request: nat): nat { Blocks(request) * blockSize + Blocks(request) / 8 }

  // The condition under which umalloc_new sets up what it was asked for.
  predicate Formed(blockSize: nat, request: nat) {
    request + 32 < U32 && Needed(blockSize, request) <= U32 - 512
  }

  lemma WrapSum(a: nat, b: nat)
    ensures (a % U32 + b) % U32 == (a + b) % U32
  {
  }

  lemma RoundUp(bytes: nat)
    ensures var p := bytes / 512 + if bytes % 512 != 0 then 1 else 0; bytes <= p * 512 < bytes + 512
  {
  }

  lemma Wrapped(n: nat)
    ensures n % U32 <= n && (n % U32 == n <==> n < U32) && (n >= U32 ==> n % U32 <= n - U32)
  {
  }

  // At least one block more than requested is set aside, and at most 32, exactly if the count
  // does not wrap.
  lemma BlockCount(request: nat)
    requires request < U32
    ensures Blocks(request) % 32 == 0 && Blocks(request) / 8 == 4 * (Blocks(request) / 32)
    ensures request < Blocks(request) <= request + 32 <==> request + 32 < U32
  {
  }

  // Arena and bitmap fit into the pages that are asked for exactly if the bytes they take are a
  // 32-bit number; the bitmap then follows the last block, and less than a page is wasted.
  lemma BitmapFits(blockSize: nat, request: nat)
    ensures var n, total := Blocks(request), Needed(blockSize, request);
            && (total <= Pages(blockSize, n) * 512 <==> total < U32)
            && (total < U32 ==> ArenaSize(blockSize, n) == n * blockSize && Pages(blockSize, n) * 512 < total + 512)
  {
    PagesFor(Blocks(request) * blockSize, Blocks(request) / 8);
  }

  lemma PagesFor(arena: nat, bitmap: nat)
    ensures var bytes := (arena % U32 + bitmap) % U32;
            var p := bytes / 512 + if bytes % 512 != 0 then 1 else 0;
            && (arena + bitmap <= p * 512 <==> arena + bitmap < U32)
            && (arena + bitmap < U32 ==> arena % U32 == arena && p * 512 < arena + bitmap + 512)
  {
    WrapSum(arena, bitmap);
    RoundUp((arena + bitmap) % U32);
    Wrapped(arena + bitmap);
    Wrapped(arena);
  }

  // The fill that marks every block free covers arena and bitmap exactly if there is also room
  // for the last page below the end of the address space.
  lemma FillCovers(blockSize: nat, request: nat)
    requires request < U32
    ensures Needed(blockSize, request) <= Filled(blockSize, Blocks(request))
            <==> Needed(blockSize, request) <= U32 - 512
  {
    hide Pages, Needed;
    var n, total := Blocks(request), Needed(blockSize, request);
    BitmapFits(blockSize, request);
    PageMultiple(Pages(blockSize, n), total);
  }

  lemma PageMultiple(pages: nat, total: nat)
    requires total <= pages * 512 <==> total < U32
    requires total < U32 ==> pages * 512 < total + 512
    ensures total <= pages * 512 % U32 <==> total <= U32 - 512
  {
    if total <= U32 - 512 {
      assert pages * 512 < U32;
    } else if total < U32 {
      assert pages * 512 == U32;
    }
  }

  // Where it fails: one block of 0x08000000 bytes makes 32 blocks of 4 GiB in all; the arena
  // size wraps to nothing, one page is asked for, and the bitmap lies at the first block.
  lemma BitmapOnArena()
    ensures var size, n := 0x0800_0000, Blocks(1);
            && n == 32 && ArenaSize(size, n) == 0 && Pages(size, n) == 1 && !Formed(size, 1)
            && Needed(size, 1) > Pages(size, n) * 512
  {
  }

  // index_to_addr
  function BlockAddr(arena: nat, size: nat, i: nat): nat { arena + size * i }

  // ---------- the allocator ----------

  class UmallocDesc {
    var arena: nat
    var bitmapAddr: nat
    var bitmap: seq<Word>
    var blockSize: nat
    var blockCount: nat
    var usedBlocks: nat

    ghost predicate Valid()
      reads this
    {
      && 0 < blockSize
      && blockCount == 32 * |bitmap|
      && bitmapAddr == arena + blockCount * blockSize
      && usedBlocks + |FreeSet(bitmap)| == blockCount
    }

    ghost predicate Live(ptr: nat)
      reads this
    {
      exists i: nat :: i < 32 * |bitmap| && !FreeAt(bitmap, i) && ptr == BlockAddr(arena, blockSize, i)
    }

    // The block at `ptr` has index `i`, was handed out in bitmap `was`, and is free again.
    ghost predicate ReturnedAs(ptr: nat, was: seq<Word>, i: nat)
      reads this
    {
      && i < blockCount && ptr == BlockAddr(arena, blockSize, i) && blockCount == 32 * |was|
      && i !in FreeSet(was) && bitmap == Return(was, i) && FreeSet(bitmap) == FreeSet(was) + {i}
    }

    // umalloc_new; `pages` is the page allocation that pmalloc returned.
    constructor (size: nat, request: nat, pages: nat)
      requires 0 < size && Formed(size, request)
      ensures Valid() && arena == pages && blockSize == size && blockCount == Blocks(request)
      ensures usedBlocks == 0 && FreeSet(bitmap) == Upto(blockCount)
      ensures bitmapAddr + 4 * |bitmap| <= arena + Pages(size, blockCount) * 512
    {
      BlockCount(request);
      BitmapFits(size, request);
      var count := (request + 32) % U32 / 32 * 32;
      arena := pages;
      blockSize := size;
      blockCount := count;
      usedBlocks := 0;
      bitmapAddr := pages + ArenaSize(size, count);
      bitmap := seq(count / 32, _ => seq(32, _ => true));
      new;
      forall i: nat | i < blockCount
        ensures FreeAt(bitmap, i)
      {
      }
      assert FreeSet(bitmap) == Upto(blockCount);
      UptoSize(blockCount);
    }

    // get_first_free_index: claims the lowest free index.
    method GetFirstFreeIndex() returns (ok: bool, index: nat)
      requires Valid()
      modifies this`bitmap
      ensures ok <==> FreeSet(old(bitmap)) != {}
      ensures ok ==> index in FreeSet(old(bitmap)) && (forall i :: i in FreeSet(old(bitmap)) ==> index <= i)
      ensures bitmap == if ok then Claim(old(bitmap), index) else old(bitmap)
    {
      ok, index := false, 0;
      var i := 0;
      while i < blockCount / 32
        invariant 0 <= i <= |bitmap| && bitmap == old(bitmap)
        invariant forall k: nat :: k < 32 * i ==> !FreeAt(bitmap, k)
      {
        if NonZero(bitmap[i]) {
          var j := 0;
          while j < 32
            invariant 0 <= j <= 32 && bitmap == old(bitmap)
            invariant forall k: nat :: k < j ==> !bitmap[i][k]
          {
            if bitmap[i][j] {
              index := 32 * i + j;
              LowestFree(bitmap, i, j);
              bitmap := bitmap[i := bitmap[i][j := false]];
              return true, index;
            }
            j := j + 1;
          }
        }
        NoneInWord(bitmap, i);
        i := i + 1;
      }
    }

    // umalloc: the lowest free block; NULL (after a panic) when there is none.
    method Umalloc() returns (ptr: nat, ghost index: nat)
      requires Valid() && 0 < arena
      modifies this`bitmap, this`usedBlocks
      ensures Valid()
      ensures FreeSet(old(bitmap)) == {} ==> ptr == 0 && bitmap == old(bitmap) && usedBlocks == old(usedBlocks)
      ensures FreeSet(old(bitmap)) != {} ==>
                && index in FreeSet(old(bitmap)) && (forall i :: i in FreeSet(old(bitmap)) ==> index <= i)
                && ptr == BlockAddr(arena, blockSize, index) && !old(Live(ptr)) && Live(ptr)
                && bitmap == Claim(old(bitmap), index) && FreeSet(bitmap) == FreeSet(old(bitmap)) - {index}
                && usedBlocks == old(usedBlocks) + 1
    {
      var ok, i := GetFirstFreeIndex();
      index := i;
      if !ok {
        return 0, index;
      }
      ClaimRemoves(old(bitmap), i);
      ptr := BlockAddr(arena, blockSize, i);
      usedBlocks := usedBlocks + 1;
      assert i !in FreeSet(bitmap);
      forall k: nat | k < 32 * |old(bitmap)| && BlockAddr(arena, blockSize, k) == ptr
        ensures k == i
      {
        SameBlock(blockSize, k, i);
      }
    }

    // addr_to_index
    method AddrToIndex(ptr: nat) returns (ok: bool, index: nat)
      requires Valid()
      ensures ok <==> exists i: nat :: i < blockCount && ptr == BlockAddr(arena, blockSize, i)
      ensures ok ==> index < blockCount && ptr == BlockAddr(arena, blockSize, index)
    {
      if ptr < arena || ptr >= bitmapAddr {
        OutOfRange(arena, blockSize, blockCount, ptr);
        return false, 0;
      }
      var offset := ptr - arena;
      if offset % blockSize != 0 {
        Unaligned(arena, blockSize, blockCount, ptr);
        return false, 0;
      }
      index := offset / blockSize;
      Quotient(blockSize, offset, blockCount);
      assert ptr == BlockAddr(arena, blockSize, index);
      ok := true;
    }

    // ufree; `ok` is false where the source panics.
    method Ufree(ptr: nat) returns (ok: bool)
      requires Valid()
      modifies this`bitmap, this`usedBlocks
      ensures Valid()
      ensures ok <==> old(Live(ptr))
      ensures !ok ==> bitmap == old(bitmap) && usedBlocks == old(usedBlocks)
      ensures ok ==> exists i: nat :: ReturnedAs(ptr, old(bitmap), i)
      ensures ok ==> usedBlocks == old(usedBlocks) - 1
    {
      var found, index := AddrToIndex(ptr);
      if !found {
        return false;
      }
      forall k: nat | k < blockCount && BlockAddr(arena, blockSize, k) == ptr
        ensures k == index
      {
        SameBlock(blockSize, k, index);
      }
      if bitmap[index / 32][index % 32] {
        return false;
      }
      assert index !in FreeSet(bitmap);
      SomeUsed(bitmap, index);
      ReturnAdds(bitmap, index);
      bitmap := bitmap[index / 32 := bitmap[index / 32][index % 32 := true]];
      usedBlocks := usedBlocks - 1;  // not zero: ufree does not panic here
      assert ReturnedAs(ptr, old(bitmap), index);
      ok := true;
    }

    // ufree of what umalloc has just returned succeeds, and leaves the allocator as it was.
    method UfreeUndoesUmalloc() returns (ok: bool)
      requires Valid() && 0 < arena && FreeSet(bitmap) != {}
      modifies this`bitmap, this`usedBlocks
      ensures Valid() && ok && bitmap == old(bitmap) && usedBlocks == old(usedBlocks)
    {
      ghost var before := bitmap;
      var ptr, index := Umalloc();
      ghost var claimed := bitmap;
      ok := Ufree(ptr);
      ghost var i: nat :| ReturnedAs(ptr, claimed, i);
      SameBlock(blockSize, i, index);
      ReturnUndoesClaim(before, index);
    }
  }

  // ---------- address arithmetic ----------

  lemma Multiple(size: nat, i: nat)
    requires size > 0
    ensures (size * i) % size == 0 && (size * i) / size == i
  {
    assert size * i == i * size + 0;
    DivideBack(size, i, 0);
  }

  lemma {:induction false} DivideBack(size: nat, i: nat, r: nat)
    requires r < size
    ensures (i * size + r) / size == i && (i * size + r) % size == r
  {
    var n := i * size + r;
    assert n == (n / size) * size + n % size;
    var d := n / size - i;
    assert d * size == r - n % size;
    TimesBig(d, size);
  }

  lemma TimesBig(d: int, size: nat)
    requires size > 0
    ensures d > 0 ==> d * size >= size
    ensures d < 0 ==> d * size + size <= 0
    ensures d >= 0 ==> d * size >= 0
  {
  }

  lemma SameBlock(size: nat, i: nat, j: nat)
    requires size > 0 && size * i == size * j
    ensures i == j
  {
    Multiple(size, i);
    Multiple(size, j);
  }

  lemma BlockInside(size: nat, i: nat, n: nat)
    requires size > 0 && i < n
    ensures size * i + size <= n * size
  {
    assert size * i + size == size * (i + 1);
    assert size * (i + 1) <= size * n;
  }

  lemma Quotient(size: nat, offset: nat, n: nat)
    requires size > 0 && offset % size == 0 && offset < n * size
    ensures offset / size < n && size * (offset / size) == offset
  {
    var q := offset / size;
    assert offset == q * size;
    TimesBig(q - n, size);
    assert (q - n) * size == q * size - n * size;
  }

  lemma SomeUsed(bitmap: seq<Word>, i: nat)
    requires i < 32 * |bitmap| && i !in FreeSet(bitmap)
    ensures |FreeSet(bitmap)| < 32 * |bitmap|
  {
    UptoSize(32 * |bitmap|);
    Smaller(FreeSet(bitmap), Upto(32 * |bitmap|), i);
  }

  lemma Smaller(a: set<nat>, b: set<nat>, i: nat)
    requires a <= b && i in b && i !in a
    ensures |a| < |b|
  {
    var rest := b - {i} - a;
    assert b == a + rest + {i};
    assert |a + rest| == |a| + |rest|;
  }

  lemma OutOfRange(arena: nat, size: nat, count: nat, ptr: nat)
    requires size > 0 && (ptr < arena || ptr >= arena + count * size)
    ensures forall i: nat :: i < count ==> ptr != BlockAddr(arena, size, i)
  {
    forall i: nat | i < count
      ensures ptr != BlockAddr(arena, size, i)
    {
      BlockInside(size, i, count);
    }
  }

  lemma Unaligned(arena: nat, size: nat, count: nat, ptr: nat)
    requires size > 0 && ptr >= arena && (ptr - arena) % size != 0
    ensures forall i: nat :: i < count ==> ptr != BlockAddr(arena, size, i)
  {
    forall i: nat | i < count
      ensures ptr != BlockAddr(arena, size, i)
    {
      Multiple(size, i);
    }
  }

  // Different indices are different, non-overlapping blocks, all below the bitmap.
  lemma BlocksDisjoint(arena: nat, size: nat, count: nat, i: nat, j: nat)
    requires size > 0 && i < j < count
    ensures arena + size * i + size <= arena + size * j
    ensures arena + size * j + size <= arena + count * size
  {
    BlockInside(size, i, j);
    BlockInside(size, j, count);
    assert j * size == size * j;
  }
}
