// load_kernel of tools/kernel_prog.py against the bootloader: a whole download.
module KernelProg {
  import opened Bytes
  import opened Bootloading
  import opened FlashDriver
  import opened Frames

  // The part of the image that goes into page i.
  function Fragment(image: seq<Byte>, i: nat): (f: seq<Byte>)
    requires i * PAGE <= |image|
    ensures |f| <= PAGE
  {
    if (i + 1) * PAGE <= |image| then image[i * PAGE..(i + 1) * PAGE] else image[i * PAGE..]
  }

  // Pages needed for the image.
  function Blocks(image: seq<Byte>): nat { |image| / PAGE + if |image| % PAGE != 0 then 1 else 0 }

  lemma BlockBounds(image: seq<Byte>, i: nat)
    requires i < Blocks(image)
    ensures i * PAGE < |image| && (i + 1 == Blocks(image) <==> |image| <= (i + 1) * PAGE)
    ensures 1 <= |Fragment(image, i)| <= PAGE
  {
  }

  lemma ExtentFits(image: seq<Byte>)
    requires 1 <= |image| && Fits(|image|)
    ensures 1 <= Blocks(image) <= Sections(|image|) * SECTION && KERNEL_PAGE + Blocks(image) <= PAGES
  {
  }

  // ---------- images that can be downloaded ----------

  // Nothing is to be programmed behind page 224, where page numbers are masked.
  ghost predicate TailBlank(image: seq<Byte>) {
    forall k :: MASKED * PAGE <= k < |image| ==> image[k] == 0xFF
  }

  // Page i ends up right.
  ghost predicate Writable(image: seq<Byte>, i: nat)
    requires i < Blocks(image)
  {
    BlockBounds(image, i);
    i < MASKED || Padded(Fragment(image, i)) == Erased()
  }

  // Images of up to 224 pages can be downloaded.
  lemma SmallImage(image: seq<Byte>)
    requires |image| <= MASKED * PAGE
    ensures Fits(|image|) && TailBlank(image)
  {
  }

  // An image that fits and cannot be downloaded: 224 pages and one byte of zeros.
  lemma TooLongByOne()
    ensures var image: seq<Byte> := seq(MASKED * PAGE + 1, _ => 0);
            0 < |image| < 0x1_0000_0000 && Fits(|image|) && !TailBlank(image)
  {
    var image: seq<Byte> := seq(MASKED * PAGE + 1, _ => 0);
    assert image[MASKED * PAGE] != 0xFF;
  }

  lemma TailBlankPages(image: seq<Byte>)
    ensures TailBlank(image) <==> forall i :: 0 <= i < Blocks(image) ==> Writable(image, i)
  {
    if TailBlank(image) {
      forall i | 0 <= i < Blocks(image)
        ensures Writable(image, i)
      {
        BlockBounds(image, i);
        if i >= MASKED { BlankPage(image, i); }
      }
    } else {
      var k :| MASKED * PAGE <= k < |image| && image[k] != 0xFF;
      var i := k / PAGE;
      BlockBounds(image, i);
      assert Padded(Fragment(image, i))[k - i * PAGE] == image[k];
      assert !Writable(image, i);
    }
  }

  lemma BlankPage(image: seq<Byte>, i: nat)
    requires TailBlank(image) && MASKED <= i < Blocks(image)
    ensures i * PAGE <= |image| && Padded(Fragment(image, i)) == Erased()
  {
    BlockBounds(image, i);
    var p := Padded(Fragment(image, i));
    forall j | 0 <= j < PAGE
      ensures p[j] == 0xFF
    {
      if j < |Fragment(image, i)| { assert p[j] == image[i * PAGE + j]; }
    }
  }

  // Programming a blank page changes nothing.
  lemma ProgramBlank(page: Page)
    requires |page| == PAGE
    ensures Programmed(page, Erased()) == page
  {
    forall i | 0 <= i < PAGE
      ensures Programmed(page, Erased())[i] == page[i]
    {
      AllOnes(page[i]);
    }
  }

  lemma AllOnes(b: Byte)
    ensures b & 0xFF == b
  {
  }

  ghost function ProgramLog(n: nat): seq<Op> { seq(n, (i: nat) => Program(Target(i))) }

  // The operations of a whole download, in order.
  ghost function SessionLog(image: seq<Byte>): seq<Op> {
    EraseLog(Sections(|image|)) + ProgramLog(Blocks(image)) + [Rewrite(HASH_PAGE)]
  }

  // Up to 224 pages every page is programmed once, after the one erase of its section, and the
  // hash page is rewritten last.
  lemma SessionPages(image: seq<Byte>)
    requires |image| <= MASKED * PAGE
    ensures var l, e := SessionLog(image), Sections(|image|);
            && |l| == e + Blocks(image) + 1 && l[|l| - 1] == Rewrite(HASH_PAGE)
            && (forall i :: 0 <= i < e ==> l[i] == EraseSection(KERNEL_PAGE + i * SECTION))
            && (forall k :: e <= k < |l| - 1 ==> l[k] == Program(KERNEL_PAGE + k - e))
            && Blocks(image) <= e * SECTION
  {
    hide Sections, Blocks;
    BlocksInSections(image);
    var l, e := SessionLog(image), Sections(|image|);
    forall k | e <= k < |l| - 1
      ensures l[k] == Program(KERNEL_PAGE + k - e)
    {
      TargetIsRight(k - e);
    }
  }

  lemma BlocksInSections(image: seq<Byte>)
    ensures Blocks(image) <= Sections(|image|) * SECTION
    ensures |image| <= MASKED * PAGE ==> Blocks(image) <= MASKED
  {
  }

  // The flash with the first n pages of the image in place, and the rest of the extent erased.
  ghost predicate Loaded(before: seq<Page>, pages: seq<Page>, image: seq<Byte>, n: nat)
    requires n <= Blocks(image)
  {
    && Sound(before) && Sound(pages)
    && forall p :: 0 <= p < PAGES && p != HASH_PAGE ==>
         pages[p] ==
           if KERNEL_PAGE <= p < KERNEL_PAGE + n then
             BlockBounds(image, p - KERNEL_PAGE); Padded(Fragment(image, p - KERNEL_PAGE))
           else if KERNEL_PAGE <= p < KERNEL_PAGE + Sections(|image|) * SECTION then Erased()
           else before[p]
  }

  // The link between the host's send_frame and the target's receiver
  method Deliver(dev: Bootloader, cmd: Byte, payload: seq<Byte>)
    requires dev.Valid() && dev.rx.busState == Idle && !dev.rx.overflow && 1 <= |payload| <= MAX_PAYLOAD
    modifies dev.rx, dev.rx.payload
    ensures dev.Valid() && dev.rx.busState == Idle && !dev.rx.overflow && dev.rx.frameReceived
    ensures dev.rx.sent == old(dev.rx.sent) && dev.rx.cmd == cmd && dev.rx.size == |payload|
    ensures dev.rx.payload[..|payload|] == payload
  {
    hide Feed, Frame, Ok;
    var bytes := SendFrame(cmd, payload);
    RoundTrip(dev.rx.View(), cmd, payload);
    dev.rx.Arrive(bytes);
  }

  ghost predicate Ready(dev: Bootloader)
    reads dev, dev.flash, dev.rx, dev.rx.payload
  {
    dev.Valid() && dev.stopped == Running && dev.rx.busState == Idle && !dev.rx.overflow
  }

  // The response the host reads: the last byte the target has sent.
  function Response(dev: Bootloader): Byte
    reads dev, dev.rx
    requires dev.rx.sent != []
  {
    dev.rx.sent[|dev.rx.sent| - 1]
  }

  // The byte that asks whether a bootloader is there
  method Knock(dev: Bootloader) returns (response: Byte)
    requires Ready(dev)
    modifies dev.rx, dev.rx.payload
    ensures Ready(dev) && response == RESP_OK
  {
    hide Val;
    var s := [0 as Byte];
    FeedOne(dev.rx.View(), 0);
    dev.rx.Arrive(s);
    response := Response(dev);
  }

  lemma WordOf(payload: seq<Byte>, n: nat)
    requires n < 0x1_0000_0000 && |payload| >= 4 && payload[..4] == Bytes32(n)
    ensures Le32(payload[0], payload[1], payload[2], payload[3]) == n
  {
    hide Low, Le32;
    Le32Low(n);
    var b := payload[..4];
    assert payload[0] == b[0] && payload[1] == b[1] && payload[2] == b[2] && payload[3] == b[3];
  }

  method SendOffset(dev: Bootloader)
    requires Ready(dev)
    modifies dev, dev.flash, dev.flashBuffer, dev.rx, dev.rx.payload
    ensures Ready(dev) && dev.kernelPage == 0
    ensures dev.flash.pages == old(dev.flash.pages) && dev.flash.log == old(dev.flash.log)
  {
    hide Low, Le32, Sections;
    Deliver(dev, CMD_SET_FLASH_OFFSET, Bytes32(0));
    WordOf(dev.rx.payload[..], 0);
    dev.HandleFrame();
  }

  method SendErase(dev: Bootloader, size: nat) returns (response: Byte)
    requires Ready(dev) && size < 0x1_0000_0000
    modifies dev, dev.flash, dev.flashBuffer, dev.rx, dev.rx.payload
    ensures Ready(dev) && dev.kernelPage == old(dev.kernelPage)
    ensures size == 0 ==> dev.flash.pages == old(dev.flash.pages)
    ensures forall p :: 0 <= p < KERNEL_PAGE ==> dev.flash.pages[p] == old(dev.flash.pages)[p]
    ensures dev.flash.reliable ==> (response == RESP_OK <==> size > 0 && Fits(size))
    ensures response == RESP_OK ==>
              && dev.kernelTotalSize == Sections(size) * 8192
              && ErasedFrom(old(dev.flash.pages), dev.flash.pages, KERNEL_PAGE, Sections(size) * SECTION)
              && dev.flash.log == old(dev.flash.log) + EraseLog(Sections(size))
  {
    hide Low, Le32, Sections, ErasedFrom, Fits;
    Deliver(dev, CMD_ERASE_FLASH, Bytes32(size));
    WordOf(dev.rx.payload[..], size);
    assert dev.Word() == size;
    dev.HandleFrame();
    response := if dev.rx.sent == [] then 0 else Response(dev);
    assert RESP_ERROR | RESP_FLASH_ERROR != RESP_OK;
  }

  // Page i has been written: the image has come a page further, or the bootloader has panicked
  // over a page that the command could not name.
  lemma Further(before: seq<Page>, pages: seq<Page>, pages': seq<Page>, image: seq<Byte>, i: nat)
    requires i < Blocks(image) && Fits(|image|) && Loaded(before, pages, image, i) && Sound(pages')
    requires |Fragment(image, i)| <= PAGE && Writable(image, i)
    requires forall p :: 0 <= p < PAGES && p != Target(i) && p != HASH_PAGE ==> pages'[p] == pages[p]
    requires Target(i) != HASH_PAGE ==> pages'[Target(i)] == Programmed(pages[Target(i)], Padded(Fragment(image, i)))
    requires KERNEL_PAGE + i < PAGES && pages'[KERNEL_PAGE + i] == Padded(Fragment(image, i))
    ensures Loaded(before, pages', image, i + 1)
  {
    hide Padded, Erased, Fragment, Programmed, Target;
    TargetIsRight(i);
    if i >= MASKED { ProgramBlank(pages[Target(i)]); }
  }

  // A download that panicked: over the first page that could not be written. Pages 224 to 255
  // have then spoilt pages 0 to 31, the bootloader's own.
  ghost predicate Spoilt(before: seq<Page>, pages: seq<Page>, image: seq<Byte>, i: nat)
    requires Sound(before) && Sound(pages)
  {
    && MASKED <= i < Blocks(image) && !Writable(image, i)
    && (forall j :: 0 <= j < i ==> Writable(image, j))
    && (i < 0x100 && i - MASKED != HASH_PAGE ==>
          (BlockBounds(image, i);
           pages[i - MASKED] == Programmed(before[i - MASKED], Padded(Fragment(image, i)))))
  }

  // Where the host is in the download, and what it has come to.
  ghost predicate Sending(dev: Bootloader, image: seq<Byte>, i: nat, before: seq<Page>)
    reads dev, dev.flash, dev.rx, dev.rx.payload
  {
    && Ready(dev) && dev.kernelPage == i < Blocks(image) && dev.kernelTotalSize == Sections(|image|) * 8192
    && Loaded(before, dev.flash.pages, image, i) && forall j :: 0 <= j < i ==> Writable(image, j)
  }

  // Page i of the image, which is not the last
  method SendBlock(dev: Bootloader, image: seq<Byte>, i: nat, ghost before: seq<Page>)
    requires Sending(dev, image, i, before) && dev.flash.reliable && i + 1 < Blocks(image) && Fits(|image|)
    modifies dev, dev.flash, dev.flashBuffer, dev.rx, dev.rx.payload
    ensures dev.Valid() && dev.flash.log == old(dev.flash.log) + [Program(Target(i))]
    ensures dev.stopped == Running <==> Writable(image, i)
    ensures dev.stopped == Running ==> Sending(dev, image, i + 1, before)
    ensures dev.stopped != Running ==> dev.stopped == Panicked && Spoilt(before, dev.flash.pages, image, i)
  {
    hide Padded, Erased, Sections, Fragment, Programmed, Blocks, Target, Fits;
    BlockBounds(image, i);
    ExtentFits(image);
    assert dev.flash.pages[KERNEL_PAGE + i] == Erased();
    ghost var pages := dev.flash.pages;
    Deliver(dev, CMD_WRITE_PAGE, Fragment(image, i));
    WholePage(dev.rx.payload[..], Fragment(image, i));
    dev.HandleFrame();
    if dev.stopped == Running {
      Further(before, pages, dev.flash.pages, image, i);
    } else {
      SpoiltNow(before, pages, dev.flash.pages, image, i);
    }
  }

  lemma WholePage(payload: seq<Byte>, fragment: seq<Byte>)
    requires |fragment| <= PAGE && |payload| == PAGE && payload[..|fragment|] == fragment
    ensures payload[..Cut(|fragment|)] == fragment
  {
  }

  lemma SpoiltNow(before: seq<Page>, pages: seq<Page>, pages': seq<Page>, image: seq<Byte>, i: nat)
    requires i < Blocks(image) && Loaded(before, pages, image, i) && Sound(pages') && |Fragment(image, i)| <= PAGE
    requires !Writable(image, i) && forall j :: 0 <= j < i ==> Writable(image, j)
    requires Target(i) != HASH_PAGE ==> pages'[Target(i)] == Programmed(pages[Target(i)], Padded(Fragment(image, i)))
    ensures Spoilt(before, pages', image, i)
  {
    hide Padded, Erased, Fragment, Programmed, Target;
    if MASKED <= i < 0x100 { TargetIsBootloader(i); }
  }

  // Page 30 is the record of the extent of the image.
  ghost predicate Recorded(pages: seq<Page>, image: seq<Byte>, hash: seq<Byte> -> seq<Byte>) {
    var extent := Sections(|image|) * 8192;
    && Sound(pages) && extent <= (PAGES - KERNEL_PAGE) * PAGE && |hash(KernelBytes(pages, extent))| == DIGEST
    && pages[HASH_PAGE] == Record(hash(KernelBytes(pages, extent)), extent)
  }

  lemma RecordBoots(pages: seq<Page>, size: nat, hash: seq<Byte> -> seq<Byte>)
    requires Sound(pages) && 0 < size <= (PAGES - KERNEL_PAGE) * PAGE && forall b :: |hash(b)| == DIGEST
    requires pages[HASH_PAGE] == Record(hash(KernelBytes(pages, size)), size)
    ensures Bootable(pages, hash)
  {
    StoredBoots(pages, pages, size, hash);
  }

  // The last page of the image
  method SendLast(dev: Bootloader, image: seq<Byte>, i: nat, ghost before: seq<Page>)
    requires Sending(dev, image, i, before) && dev.flash.reliable && i + 1 == Blocks(image) && Fits(|image|)
    modifies dev, dev.flash, dev.flashBuffer, dev.rx, dev.rx.payload
    ensures dev.Valid() && (dev.stopped == Reset <==> Writable(image, i))
    ensures dev.stopped == Reset ==>
              && Loaded(before, dev.flash.pages, image, i + 1) && Bootable(dev.flash.pages, dev.hash)
              && Recorded(dev.flash.pages, image, dev.hash)
              && dev.flash.log == old(dev.flash.log) + [Program(Target(i)), Rewrite(HASH_PAGE)]
    ensures dev.stopped != Reset ==> dev.stopped == Panicked && Spoilt(before, dev.flash.pages, image, i)
  {
    hide Padded, Erased, Sections, Fragment, Programmed, Blocks, Target, Fits, KernelBytes, Record, Bootable;
    BlockBounds(image, i);
    ExtentFits(image);
    assert dev.flash.pages[KERNEL_PAGE + i] == Erased();
    ghost var pages := dev.flash.pages;
    Deliver(dev, CMD_WRITE_PAGE_LAST, Fragment(image, i));
    WholePage(dev.rx.payload[..], Fragment(image, i));
    dev.HandleFrame();
    if dev.stopped == Reset {
      Further(before, pages, dev.flash.pages, image, i);
      ErasedExtent(|image|);
      RecordBoots(dev.flash.pages, dev.kernelTotalSize, dev.hash);
    } else {
      SpoiltNow(before, pages, dev.flash.pages, image, i);
    }
  }

  // The blocks of the image, one after the other; a panic leaves the host without a response.
  method SendBlocks(dev: Bootloader, image: seq<Byte>, ghost before: seq<Page>) returns (ok: bool, ghost i: nat)
    requires Sending(dev, image, 0, before) && dev.flash.reliable && Fits(|image|)
    modifies dev, dev.flash, dev.flashBuffer, dev.rx, dev.rx.payload
    ensures dev.Valid() && (ok <==> forall j :: 0 <= j < Blocks(image) ==> Writable(image, j))
    ensures ok ==>
              && dev.stopped == Reset && Loaded(before, dev.flash.pages, image, Blocks(image))
              && Bootable(dev.flash.pages, dev.hash) && Recorded(dev.flash.pages, image, dev.hash)
              && dev.flash.log == old(dev.flash.log) + ProgramLog(Blocks(image)) + [Rewrite(HASH_PAGE)]
    ensures !ok ==> dev.stopped == Panicked && Spoilt(before, dev.flash.pages, image, i)
  {
    hide Sections, Loaded, Bootable, Recorded, Writable, Blocks, Target;
    var n := 0;
    while n + 1 < Blocks(image)
      invariant Sending(dev, image, n, before)
      invariant dev.flash.log == old(dev.flash.log) + ProgramLog(n)
    {
      LogStep(n);
      SendBlock(dev, image, n, before);
      if dev.stopped != Running {
        return false, n;
      }
      n := n + 1;
    }
    LogStep(n);
    SendLast(dev, image, n, before);
    ok, i := dev.stopped == Reset, n;
  }

  lemma LogStep(i: nat)
    ensures ProgramLog(i + 1) == ProgramLog(i) + [Program(Target(i))]
  {
  }

  lemma LoadedFirst(before: seq<Page>, pages: seq<Page>, image: seq<Byte>)
    requires Sound(before) && Sound(pages) && ErasedFrom(before, pages, KERNEL_PAGE, Sections(|image|) * SECTION)
    ensures Loaded(before, pages, image, 0)
  {
  }

  // load_kernel. A download succeeds exactly if the image is not empty, has room in flash, and
  // is blank behind page 224, as every image of up to 224 pages is. It is in flash then, and is
  // accepted at the next boot. If it fails over what lies behind page 224, the bootloader has
  // panicked, and before that spoilt the page the masked number named.
  method LoadKernel(dev: Bootloader, image: seq<Byte>) returns (ok: bool)
    requires Ready(dev) && dev.flash.reliable && |image| < 0x1_0000_0000
    modifies dev, dev.flash, dev.flashBuffer, dev.rx, dev.rx.payload
    ensures dev.Valid() && (ok <==> |image| > 0 && Fits(|image|) && TailBlank(image))
    ensures ok ==> dev.stopped == Reset && Loaded(old(dev.flash.pages), dev.flash.pages, image, Blocks(image))
    ensures ok ==> dev.flash.log == old(dev.flash.log) + SessionLog(image)
    ensures ok ==> Bootable(dev.flash.pages, dev.hash) && Recorded(dev.flash.pages, image, dev.hash)
    ensures |image| == 0 ==> dev.stopped == Running && dev.flash.pages == old(dev.flash.pages)
    ensures !Fits(|image|) ==>
              dev.stopped == Running && forall p :: 0 <= p < KERNEL_PAGE ==>
                  dev.flash.pages[p] == old(dev.flash.pages)[p]
    ensures |image| > 0 && Fits(|image|) && !TailBlank(image) ==>
              dev.stopped == Panicked && exists i :: Spoilt(old(dev.flash.pages), dev.flash.pages, image, i)
  {
    hide Sections, Blocks, Loaded, Bootable, Recorded, ErasedFrom, EraseLog, ProgramLog, Fits, TailBlank, Writable,
         Spoilt;
    ghost var before := dev.flash.pages;
    var response := Knock(dev);
    if response != RESP_OK {
      return false;
    }
    SendOffset(dev);
    response := SendErase(dev, |image|);
    if response != RESP_OK {
      return false;
    }
    LoadedFirst(before, dev.flash.pages, image);
    ExtentFits(image);
    TailBlankPages(image);
    ghost var i;
    ok, i := SendBlocks(dev, image, before);
  }

  // ---------- what is in flash then ----------

  // A page more of the image, or the rest of it and the padding.
  lemma NextPage(image: seq<Byte>, i: nat)
    requires i * PAGE < |image|
    ensures image[..i * PAGE] + Padded(Fragment(image, i)) == Part(image, i + 1)
  {
    if (i + 1) * PAGE > |image| { assert image == image[..i * PAGE] + image[i * PAGE..]; }
  }

  function Part(image: seq<Byte>, n: nat): seq<Byte> {
    if n * PAGE <= |image| then image[..n * PAGE] else image + Fill(n * PAGE - |image|)
  }

  lemma LoadedPage(before: seq<Page>, pages: seq<Page>, image: seq<Byte>, i: nat)
    requires i < Blocks(image) && KERNEL_PAGE + Blocks(image) <= PAGES && Loaded(before, pages, image, Blocks(image))
    ensures i * PAGE < |image| && pages[KERNEL_PAGE + i] == Padded(Fragment(image, i))
  {
    BlockBounds(image, i);
  }

  lemma {:induction false} LoadedPrefix(before: seq<Page>, pages: seq<Page>, image: seq<Byte>, n: nat)
    requires n <= Blocks(image) && KERNEL_PAGE + Blocks(image) <= PAGES
    requires Loaded(before, pages, image, Blocks(image))
    ensures KernelPages(pages, n) == Part(image, n)
  {
    hide Blocks, Padded, Fragment, Fill;
    if n > 0 {
      LoadedPrefix(before, pages, image, n - 1);
      LoadedPage(before, pages, image, n - 1);
      NextPage(image, n - 1);
    }
  }

  lemma {:induction false} LoadedRest(before: seq<Page>, pages: seq<Page>, image: seq<Byte>, n: nat)
    requires 1 <= |image| && Fits(|image|) && Loaded(before, pages, image, Blocks(image))
    requires Blocks(image) <= n <= Sections(|image|) * SECTION
    ensures n * PAGE >= |image| && KERNEL_PAGE + n <= PAGES
    ensures KernelPages(pages, n) == image + Fill(n * PAGE - |image|)
  {
    hide Blocks, Sections, KernelPages, Fill, Erased;
    ExtentFits(image);
    BlocksCover(image);
    if n == Blocks(image) {
      LoadedPrefix(before, pages, image, n);
      WholePart(image, n);
    } else {
      LoadedRest(before, pages, image, n - 1);
      LoadedBlank(before, pages, image, n - 1);
      PagesStep(pages, n);
      FillStep(image, n);
    }
  }

  lemma BlocksCover(image: seq<Byte>)
    requires 1 <= |image|
    ensures Blocks(image) * PAGE >= |image|
  {
    BlockBounds(image, Blocks(image) - 1);
  }

  lemma WholePart(image: seq<Byte>, n: nat)
    requires n * PAGE >= |image|
    ensures Part(image, n) == image + Fill(n * PAGE - |image|)
  {
    if n * PAGE == |image| { assert image[..n * PAGE] == image + Fill(0); }
  }

  lemma LoadedBlank(before: seq<Page>, pages: seq<Page>, image: seq<Byte>, i: nat)
    requires Loaded(before, pages, image, Blocks(image)) && Blocks(image) <= i < Sections(|image|) * SECTION
    requires KERNEL_PAGE + i < PAGES
    ensures pages[KERNEL_PAGE + i] == Erased()
  {
  }

  lemma PagesStep(pages: seq<Page>, n: nat)
    requires Sound(pages) && 0 < n && KERNEL_PAGE + n <= PAGES
    ensures KernelPages(pages, n) == KernelPages(pages, n - 1) + pages[KERNEL_PAGE + (n - 1)]
  {
  }

  lemma FillStep(image: seq<Byte>, n: nat)
    requires 0 < n && (n - 1) * PAGE >= |image|
    ensures image + Fill((n - 1) * PAGE - |image|) + Erased() == image + Fill(n * PAGE - |image|)
  {
  }

  // The erased extent holds the image padded with 0xFF.
  lemma FlashHoldsImage(before: seq<Page>, pages: seq<Page>, image: seq<Byte>)
    requires 1 <= |image| && Fits(|image|) && Loaded(before, pages, image, Blocks(image))
    ensures var extent := Sections(|image|) * 8192;
            && |image| <= extent < |image| + 8192 && extent <= (PAGES - KERNEL_PAGE) * PAGE
            && KernelBytes(pages, extent) == image + Fill(extent - |image|)
  {
    hide Sections, Blocks, Fill, KernelPages;
    ExtentFits(image);
    ErasedExtent(|image|);
    var n := Sections(|image|) * SECTION;
    LoadedRest(before, pages, image, n);
    hide Loaded;
    PagesPrefix(pages, n, PAGES - KERNEL_PAGE);
  }

  lemma {:induction false} PagesPrefix(pages: seq<Page>, n: nat, m: nat)
    requires Sound(pages) && n <= m && KERNEL_PAGE + m <= PAGES
    ensures n * PAGE <= m * PAGE && KernelPages(pages, m)[..n * PAGE] == KernelPages(pages, n)
  {
    if n < m {
      PagesPrefix(pages, n, m - 1);
      assert KernelPages(pages, m)[..n * PAGE] == KernelPages(pages, m - 1)[..n * PAGE];
    } else {
      assert KernelPages(pages, n)[..n * PAGE] == KernelPages(pages, n);
    }
  }

  // The whole of it for images of up to 224 pages: the kernel area starts with the image, padded
  // with 0xFF to the end of the extent, every page has been programmed once, and it boots.
  method LoadSmall(dev: Bootloader, image: seq<Byte>)
    requires Ready(dev) && dev.flash.reliable && 1 <= |image| <= MASKED * PAGE
    modifies dev, dev.flash, dev.flashBuffer, dev.rx, dev.rx.payload
    ensures dev.Valid() && dev.stopped == Reset && Bootable(dev.flash.pages, dev.hash)
    ensures var extent := Sections(|image|) * 8192;
            && |image| <= extent <= (PAGES - KERNEL_PAGE) * PAGE
            && KernelBytes(dev.flash.pages, extent) == image + Fill(extent - |image|)
            && dev.flash.pages[HASH_PAGE] == Record(dev.hash(image + Fill(extent - |image|)), extent)
    ensures forall p :: 0 <= p < KERNEL_PAGE && p != HASH_PAGE ==> dev.flash.pages[p] == old(dev.flash.pages)[p]
    ensures dev.flash.log == old(dev.flash.log) + SessionLog(image)
  {
    hide Sections, Blocks, Bootable, SessionLog, Fits, TailBlank, Writable, Spoilt, Fill, KernelBytes, Ready;
    SmallImage(image);
    ghost var before := dev.flash.pages;
    var ok := LoadKernel(dev, image);
    assert ok;
    FlashHoldsImage(before, dev.flash.pages, image);
  }

  // A download, and a boot with whatever the kernel pages hold by then: the kernel is accepted
  // exactly if it has the digest of the image that was sent.
  method LoadThenBoot(dev: Bootloader, image: seq<Byte>, kernel: seq<Page>) returns (ok: bool, ghost later: seq<Page>)
    requires Ready(dev) && dev.flash.reliable && 1 <= |image| <= MASKED * PAGE
    requires |kernel| == PAGES - KERNEL_PAGE && forall p :: p in kernel ==> |p| == PAGE
    modifies dev, dev.flash, dev.flashBuffer, dev.rx, dev.rx.payload
    ensures Sound(later) && later[KERNEL_PAGE..] == kernel
    ensures var extent := Sections(|image|) * 8192;
            && |image| <= extent <= (PAGES - KERNEL_PAGE) * PAGE
            && (ok <==> dev.hash(KernelBytes(later, extent)) == dev.hash(image + Fill(extent - |image|)))
  {
    hide Sections, Bootable, SessionLog, Fill, KernelBytes, Ready, Record, RecordSize;
    LoadSmall(dev, image);
    var pages := dev.flash.pages[..KERNEL_PAGE] + kernel;
    ghost var extent := Sections(|image|) * 8192;
    StoredRefuses(pages, image + Fill(extent - |image|), dev.hash);
    var flash := new Flash(pages, true);
    var booted := new Bootloader(flash, dev.rx, dev.hash);
    later := pages;
    ok := booted.VerifyKernelHash();
  }
}
