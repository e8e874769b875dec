// bootloader/src/drivers/flash.c, over a flash memory that can only clear bits when it is
// programmed and only set them when it is erased.
module FlashDriver {
  import opened Bytes

  const PAGE: nat := 512
  const PAGES: nat := 4096           // two megabytes
  const KERNEL_PAGE: nat := 32       // the page at 0x00404000
  const SECTION: nat := 16           // pages erased by one command
  const MASKED: nat := 224           // kernel pages the page argument can name

  type Page = seq<Byte>

  function Erased(): (p: Page)
    ensures |p| == PAGE && forall i :: 0 <= i < PAGE ==> p[i] == 0xFF
  {
    seq(PAGE, _ => 0xFF)
  }

  // Programming leaves a bit set only if it was set before and is to be set.
  function Programmed(old_: Page, data: Page): (p: Page)
    requires |old_| == |data|
    ensures |p| == |data| && forall i :: 0 <= i < |p| ==> p[i] == old_[i] & data[i]
  {
    seq(|data|, i requires 0 <= i < |data| => old_[i] & data[i])
  }

  lemma ProgramErased(data: Page)
    requires |data| == PAGE
    ensures Programmed(Erased(), data) == data
  {
    forall i | 0 <= i < PAGE
      ensures Programmed(Erased(), data)[i] == data[i]
    {
      Ones(data[i]);
    }
  }

  lemma Ones(b: Byte)
    ensures 0xFF & b == b
  {
  }

  // What has been done to the flash, in order.
  datatype Op = EraseSection(first: nat) | Program(page: nat) | Rewrite(page: nat)

  ghost predicate Sound(pages: seq<Page>) { |pages| == PAGES && forall p :: 0 <= p < PAGES ==> |pages[p]| == PAGE }

  // The page number of a command has eight bits.
  function Target(page: nat): (t: nat)
    ensures t < 0x100
  {
    (page + KERNEL_PAGE) % 0x100
  }

  // A kernel page is written where it is meant to be only below page 224.
  lemma TargetIsRight(page: nat)
    ensures Target(page) == page + KERNEL_PAGE <==> page < MASKED
  {
  }

  // Pages `first` up to `first + n` erased, the others as they are.
  ghost predicate ErasedFrom(pages: seq<Page>, pages': seq<Page>, first: nat, n: nat) {
    && |pages'| == |pages|
    && forall p :: 0 <= p < |pages| ==> pages'[p] == if first <= p < first + n then Erased() else pages[p]
  }

  function WithErased(pages: seq<Page>, first: nat, n: nat): (r: seq<Page>)
    ensures |r| == |pages|
    ensures forall p :: 0 <= p < |pages| ==> r[p] == if first <= p < first + n then Erased() else pages[p]
  {
    seq(|pages|, p requires 0 <= p < |pages| => if first <= p < first + n then Erased() else pages[p])
  }

  // The extent of an image ends inside the flash.
  predicate Fits(size: nat) { KERNEL_PAGE + Sections(size) * SECTION <= PAGES }

  // There are 4064 pages for the kernel, and so much it may have.
  lemma FitsExactly(size: nat)
    ensures Fits(size) <==> size <= 4064 * 512
  {
    ErasedExtent(size);
  }

  function Sections(size: nat): nat {
    var pages := size / PAGE + if size % PAGE != 0 then 1 else 0;
    pages / SECTION + if pages % SECTION != 0 then 1 else 0
  }

  // Commands for kernel pages 224 to 255 go to the first 32 pages: the bootloader itself.
  lemma TargetIsBootloader(page: nat)
    requires MASKED <= page < 0x100
    ensures Target(page) == page - MASKED < KERNEL_PAGE
  {
  }

  // Rounding up twice rounds up once: the bytes erased are the least multiple of 8192 that
  // holds the image.
  lemma ErasedExtent(size: nat)
    ensures size <= Sections(size) * 8192 < size + 8192
  {
  }

  class Flash {
    const reliable: bool     // whether every command succeeds
    var pages: seq<Page>
    ghost var log: seq<Op>

    constructor (pages: seq<Page>, reliable: bool)
      requires Sound(pages)
      ensures this.pages == pages && this.reliable == reliable && log == []
    {
      this.pages, this.reliable, log := pages, reliable, [];
    }

    // Erase-and-write command: the page takes the contents of the latch buffer.
    method RewritePage(page: nat, latch: Page) returns (ok: bool)
      requires Sound(pages) && page < PAGES && |latch| == PAGE
      modifies this
      ensures Sound(pages) && log == old(log) + [Rewrite(page)]
      ensures forall p :: 0 <= p < PAGES && p != page ==> pages[p] == old(pages)[p]
      ensures ok ==> pages[page] == latch
      ensures reliable ==> ok
    {
      log := log + [Rewrite(page)];
      var fault: bool := *;
      if fault && !reliable {
        var rest: Page :| |rest| == PAGE by { assert |latch| == PAGE; }
        pages := pages[page := rest];
        return false;
      }
      pages := pages[page := latch];
      ok := true;
    }

    // Write command
    method ProgramPage(page: nat, latch: Page) returns (ok: bool)
      requires Sound(pages) && page < PAGES && |latch| == PAGE
      modifies this
      ensures Sound(pages) && log == old(log) + [Program(page)]
      ensures forall p :: 0 <= p < PAGES && p != page ==> pages[p] == old(pages)[p]
      ensures ok ==> pages[page] == Programmed(old(pages)[page], latch)
      ensures reliable ==> ok
    {
      log := log + [Program(page)];
      var fault: bool := *;
      if fault && !reliable {
        var rest: Page :| |rest| == PAGE by { assert |latch| == PAGE; }
        pages := pages[page := rest];
        return false;
      }
      pages := pages[page := Programmed(pages[page], latch)];
      ok := true;
    }

    // Erase command for the 16 pages from `first` on; it fails for pages the flash does not have.
    method ErasePages(first: nat) returns (ok: bool)
      requires Sound(pages) && first % SECTION == 0
      modifies this
      ensures Sound(pages) && log == old(log) + [EraseSection(first)]
      ensures !ok ==> pages == old(pages)
      ensures ok ==> first + SECTION <= PAGES && ErasedFrom(old(pages), pages, first, SECTION)
      ensures reliable ==> (ok <==> first + SECTION <= PAGES)
    {
      log := log + [EraseSection(first)];
      var fault: bool := *;
      if (fault && !reliable) || first + SECTION > PAGES {
        return false;
      }
      pages := WithErased(pages, first, SECTION);
      ok := true;
    }

    // The comparison with the buffer at the end of every write
    method Verify(page: nat, buffer: Page) returns (same: bool)
      requires Sound(pages) && page < PAGES && |buffer| == PAGE
      ensures same <==> pages[page] == buffer
    {
      for i := 0 to PAGE
        invariant pages[page][..i] == buffer[..i]
      {
        if pages[page][i] != buffer[i] {
          return false;
        }
      }
      same := true;
      assert pages[page][..PAGE] == pages[page] && buffer[..PAGE] == buffer;
    }

    method FlashEraseWrite(page: nat, buffer: Page) returns (ok: bool)
      requires Sound(pages) && |buffer| == PAGE
      modifies this
      ensures Sound(pages)
      ensures page >= 32 ==> !ok && pages == old(pages) && log == old(log)
      ensures page < 32 ==> log == old(log) + [Rewrite(page)]
      ensures forall p :: 0 <= p < PAGES && p != page ==> pages[p] == old(pages)[p]
      ensures ok ==> pages[page] == buffer
      ensures reliable && page < 32 ==> ok
    {
      if page >= 32 {
        return false;
      }
      ok := RewritePage(page, buffer);
      if ok {
        ok := Verify(page, buffer);
      }
    }

    // The number of bytes erased, or zero
    method FlashEraseImage(size: nat) returns (bytes: nat)
      requires Sound(pages)
      modifies this
      ensures Sound(pages) && bytes < 0x1_0000_0000
      ensures bytes != 0 ==>
                && Fits(size) && bytes == Sections(size) * 8192 && log == old(log) + EraseLog(Sections(size))
                && ErasedFrom(old(pages), pages, KERNEL_PAGE, Sections(size) * SECTION)
      ensures forall p :: 0 <= p < KERNEL_PAGE ==> pages[p] == old(pages)[p]
      ensures size == 0 ==> bytes == 0 && pages == old(pages) && log == old(log)
      ensures reliable ==> (bytes != 0 <==> size > 0 && Fits(size))
    {
      var count := size / PAGE;
      if size % PAGE != 0 {
        count := count + 1;
      }
      var sections := count / SECTION;
      if count % SECTION != 0 {
        sections := sections + 1;
      }
      ErasedExtent(size);
      var base := KERNEL_PAGE;
      for i := 0 to sections
        invariant Sound(pages) && base == KERNEL_PAGE + i * SECTION && (i > 0 ==> base <= PAGES)
        invariant ErasedFrom(old(pages), pages, KERNEL_PAGE, i * SECTION)
        invariant log == old(log) + EraseLog(i)
      {
        var ok := ErasePages(base);
        if !ok {
          return 0;
        }
        base := base + SECTION;
      }
      bytes := sections * 8192;
    }

    // A page of the kernel image. The page is verified where it should be, and programmed
    // where the masked page number says.
    method FlashWriteImagePage(page: nat, buffer: Page) returns (ok: bool)
      requires Sound(pages) && KERNEL_PAGE + page < PAGES && |buffer| == PAGE
      modifies this
      ensures Sound(pages) && log == old(log) + [Program(Target(page))]
      ensures forall p :: 0 <= p < PAGES && p != Target(page) ==> pages[p] == old(pages)[p]
      ensures ok ==> pages[page + KERNEL_PAGE] == buffer
      ensures reliable ==> pages[Target(page)] == Programmed(old(pages)[Target(page)], buffer)
      ensures reliable && pages[page + KERNEL_PAGE] == buffer ==> ok
    {
      ok := ProgramPage(Target(page), buffer);
      if ok {
        ok := Verify(page + KERNEL_PAGE, buffer);
      }
    }
  }

  // Erasing n sections from the kernel's first page on.
  ghost function EraseLog(n: nat): seq<Op> { seq(n, (i: nat) => EraseSection(KERNEL_PAGE + i * SECTION)) }
}
