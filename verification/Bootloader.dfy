// bootloader/src/bootloader.c and the command loop of bootloader/src/main.c.
//
// A panic or the final reset stops the machine: `stopped`. The hash engine is any function
// from bytes to 32 bytes.
module Bootloading {
  import opened Bytes
  import opened FlashDriver
  import opened Frames

  const CMD_ERASE_FLASH: Byte := 0x03
  const CMD_WRITE_PAGE: Byte := 0x04
  const CMD_WRITE_PAGE_LAST: Byte := 0x05
  const CMD_SET_FLASH_OFFSET: Byte := 0x06
  const CMD_CTRL_LED: Byte := 0x07

  const HASH_PAGE: nat := 30
  const DIGEST: nat := 32

  datatype Stop = Running | Panicked | Reset

  function Fill(n: nat): (s: seq<Byte>)
    ensures |s| == n && forall i :: 0 <= i < n ==> s[i] == 0xFF
  {
    seq(n, _ => 0xFF)
  }

  function Padded(data: seq<Byte>): (p: Page)
    requires |data| <= PAGE
    ensures |p| == PAGE
  {
    data + Fill(PAGE - |data|)
  }

  // A page holds no more than 512 bytes of a payload.
  function Cut(size: nat): nat { if size <= PAGE then size else PAGE }

  // The bytes of the kernel image in flash: n whole pages.
  ghost function KernelPages(pages: seq<Page>, n: nat): (b: seq<Byte>)
    requires Sound(pages) && KERNEL_PAGE + n <= PAGES
    ensures |b| == n * PAGE
  {
    if n == 0 then [] else KernelPages(pages, n - 1) + pages[KERNEL_PAGE + n - 1]
  }

  // The first `size` bytes of the kernel image.
  ghost function KernelBytes(pages: seq<Page>, size: nat): (b: seq<Byte>)
    requires Sound(pages) && size <= (PAGES - KERNEL_PAGE) * PAGE
    ensures |b| == size
  {
    KernelPages(pages, PAGES - KERNEL_PAGE)[..size]
  }

  // The record store_kernel_hash writes: digest, size, padding.
  function Record(digest: seq<Byte>, size: nat): (p: Page)
    requires |digest| == DIGEST
    ensures |p| == PAGE
  {
    Padded(digest + Bytes32(size))
  }

  function RecordSize(p: Page): nat
    requires |p| == PAGE
  {
    Le32(p[DIGEST], p[DIGEST + 1], p[DIGEST + 2], p[DIGEST + 3])
  }

  function RecordDigest(p: Page): seq<Byte>
    requires |p| == PAGE
  {
    p[..DIGEST]
  }

  lemma RecordParts(digest: seq<Byte>, size: nat)
    requires |digest| == DIGEST && size < 0x1_0000_0000
    ensures RecordSize(Record(digest, size)) == size && RecordDigest(Record(digest, size)) == digest
  {
    hide Low, Le32;
    Le32Low(size);
    var b := Bytes32(size);
    var r := Record(digest, size);
    assert r[DIGEST] == b[0] && r[DIGEST + 1] == b[1] && r[DIGEST + 2] == b[2] && r[DIGEST + 3] == b[3];
  }

  // What verify_kernel_hash accepts.
  ghost predicate Bootable(pages: seq<Page>, hash: seq<Byte> -> seq<Byte>) {
    && Sound(pages)
    && var size := RecordSize(pages[HASH_PAGE]);
       size != 0 && size != 0xFFFF_FFFF && size <= (PAGES - KERNEL_PAGE) * PAGE
       && hash(KernelBytes(pages, size)) == RecordDigest(pages[HASH_PAGE])
  }

  class Bootloader {
    const flash: Flash
    const rx: Receiver
    const hash: seq<Byte> -> seq<Byte>
    const flashBuffer: array<Byte>
    var kernelTotalSize: nat
    var kernelPage: nat
    var stopped: Stop

    constructor (flash: Flash, rx: Receiver, hash: seq<Byte> -> seq<Byte>)
      requires Sound(flash.pages) && rx.Valid() && forall b :: |hash(b)| == DIGEST
      ensures Valid() && this.flash == flash && this.rx == rx && this.hash == hash && fresh(flashBuffer)
      ensures stopped == Running
    {
      this.flash, this.rx, this.hash := flash, rx, hash;
      flashBuffer := new Byte[PAGE](_ => 0);
      kernelTotalSize, kernelPage, stopped := 0, 0, Running;
    }

    ghost predicate Valid()
      reads this, flash, rx, rx.payload
    {
      && Sound(flash.pages) && rx.Valid() && flashBuffer.Length == PAGE && flashBuffer != rx.payload
      && kernelTotalSize <= (PAGES - KERNEL_PAGE) * PAGE
      && forall b :: |hash(b)| == DIGEST
    }

    // The first word of the payload.
    ghost function Word(): nat
      reads this, rx, rx.payload
      requires rx.payload.Length == MAX_PAYLOAD
    {
      Le32(rx.payload[0], rx.payload[1], rx.payload[2], rx.payload[3])
    }

    // The padding loop of write_kernel_page
    method FillBuffer(data: array<Byte>, size: nat)
      requires flashBuffer.Length == PAGE <= data.Length && data != flashBuffer
      modifies flashBuffer
      ensures flashBuffer[..] == Padded(data[..Cut(size)])
    {
      for i := 0 to PAGE
        invariant forall j :: 0 <= j < i ==> flashBuffer[j] == if j < size then data[j] else 0xFF
      {
        flashBuffer[i] := if i < size then data[i] else 0xFF;
      }
    }

    // write_kernel_page returns only when the page is right; otherwise it panics. On erased
    // flash that is the case exactly below page 224, or if there was nothing to program. By then
    // the page the command names has been programmed, whichever that is.
    method WriteKernelPage(size: nat, page: nat)
      requires Valid() && stopped == Running && KERNEL_PAGE + page < PAGES
      modifies this`stopped, flash, flashBuffer
      ensures Valid() && flash.log == old(flash.log) + [Program(Target(page))]
      ensures stopped == Running || stopped == Panicked
      ensures forall p :: 0 <= p < PAGES && p != Target(page) ==> flash.pages[p] == old(flash.pages)[p]
      ensures flash.reliable ==>
                flash.pages[Target(page)] == Programmed(old(flash.pages)[Target(page)], Padded(rx.payload[..Cut(size)]))
      ensures stopped == Running ==> flash.pages[KERNEL_PAGE + page] == Padded(rx.payload[..Cut(size)])
      ensures flash.reliable && old(flash.pages)[KERNEL_PAGE + page] == Erased() ==>
                (stopped == Running <==> page < MASKED || Padded(rx.payload[..Cut(size)]) == Erased())
    {
      hide Target;
      FillBuffer(rx.payload, size);
      TargetIsRight(page);
      ProgramErased(Padded(rx.payload[..Cut(size)]));
      var ok := flash.FlashWriteImagePage(page, flashBuffer[..]);
      if ok {
        ok := flash.Verify(KERNEL_PAGE + page, flashBuffer[..]);
      }
      if !ok {
        stopped := Panicked;
      }
    }

    method EraseKernelImage() returns (ok: bool)
      requires Valid()
      modifies this`kernelTotalSize, flash
      ensures Valid()
      ensures ok ==>
                && Fits(Word()) && kernelTotalSize == Sections(Word()) * 8192
                && ErasedFrom(old(flash.pages), flash.pages, KERNEL_PAGE, Sections(Word()) * SECTION)
                && flash.log == old(flash.log) + EraseLog(Sections(Word()))
      ensures !ok ==> kernelTotalSize == old(kernelTotalSize)
      ensures flash.reliable ==> (ok <==> Word() > 0 && Fits(Word()))
      ensures Word() == 0 ==> !ok && flash.pages == old(flash.pages)
      ensures forall p :: 0 <= p < KERNEL_PAGE ==> flash.pages[p] == old(flash.pages)[p]
    {
      hide Le32, Sections, ErasedFrom, EraseLog, Fits;
      var size := Le32(rx.payload[0], rx.payload[1], rx.payload[2], rx.payload[3]);
      var bytes := flash.FlashEraseImage(size);
      if bytes == 0 {
        return false;
      }
      kernelTotalSize := bytes;
      ok := true;
    }

    // set_flash_write_offset
    method SetFlashWriteOffset()
      requires Valid()
      modifies this`kernelPage
      ensures Valid() && kernelPage == Word()
    {
      kernelPage := Le32(rx.payload[0], rx.payload[1], rx.payload[2], rx.payload[3]);
    }

    // store_kernel_hash
    method StoreKernelHash() returns (ok: bool)
      requires Valid()
      modifies flash, flashBuffer
      ensures Valid() && flash.log == old(flash.log) + [Rewrite(HASH_PAGE)]
      ensures forall p :: 0 <= p < PAGES && p != HASH_PAGE ==> flash.pages[p] == old(flash.pages)[p]
      ensures ok ==>
                flash.pages[HASH_PAGE] == Record(hash(KernelBytes(old(flash.pages), kernelTotalSize)), kernelTotalSize)
      ensures flash.reliable ==> ok
    {
      hide Record, KernelBytes;
      var hashed := HashedBytes(kernelTotalSize);
      var record := Record(hash(hashed), kernelTotalSize);
      for i := 0 to PAGE
        modifies flashBuffer
        invariant flashBuffer[..i] == record[..i]
      {
        flashBuffer[i] := record[i];
      }
      assert flashBuffer[..] == record;
      ok := flash.FlashEraseWrite(HASH_PAGE, flashBuffer[..]);
      if ok {
        ok := flash.Verify(HASH_PAGE, flashBuffer[..]);
      }
    }

    // The bytes the hash engine reads from flash
    method HashedBytes(size: nat) returns (b: seq<Byte>)
      requires Valid() && size <= (PAGES - KERNEL_PAGE) * PAGE
      ensures b == KernelBytes(flash.pages, size)
    {
      b := [];
      for n := 0 to PAGES - KERNEL_PAGE
        invariant b == KernelPages(flash.pages, n)
      {
        b := b + flash.pages[KERNEL_PAGE + n];
      }
      b := b[..size];
    }

    // verify_kernel_hash
    method VerifyKernelHash() returns (ok: bool)
      requires Valid()
      requires var size := RecordSize(flash.pages[HASH_PAGE]);
               size == 0xFFFF_FFFF || size <= (PAGES - KERNEL_PAGE) * PAGE
      ensures ok <==> Bootable(flash.pages, hash)
    {
      hide RecordSize, KernelBytes;
      var record := flash.pages[HASH_PAGE];
      var size := RecordSize(record);
      if size == 0 || size == 0xFFFF_FFFF {
        return false;
      }
      var b := HashedBytes(size);
      var digest := hash(b);
      for i := 0 to DIGEST
        invariant digest[..i] == record[..i]
      {
        if digest[i] != record[i] {
          assert RecordDigest(record)[i] == record[i];
          return false;
        }
      }
      assert digest[..DIGEST] == digest;
      ok := true;
    }

    // A page to write is one of the flash.
    ghost predicate InFlash()
      reads this, rx
    {
      rx.cmd == CMD_WRITE_PAGE || rx.cmd == CMD_WRITE_PAGE_LAST ==> KERNEL_PAGE + kernelPage < PAGES
    }

    // What a page written from the frame holds.
    ghost function Data(): Page
      reads this, rx, rx.payload
      requires rx.payload.Length == MAX_PAYLOAD
    {
      Padded(rx.payload[..Cut(rx.size)])
    }

    method Answer(code: Byte)
      requires rx.Valid()
      modifies rx`frameReceived, rx`sent
      ensures rx.Valid() && !rx.frameReceived && rx.sent == old(rx.sent) + [code]
    {
      rx.SendResponse(code);
    }

    // What each command does, as two-state predicates.
    twostate predicate Erases()
      requires Valid()
      reads this, flash, rx, rx.payload
    {
      && stopped == old(stopped) && kernelPage == old(kernelPage)
      && (rx.sent == old(rx.sent) + [RESP_OK] || rx.sent == old(rx.sent) + [RESP_ERROR | RESP_FLASH_ERROR])
      && (rx.sent == old(rx.sent) + [RESP_OK] ==>
            && kernelTotalSize == Sections(Word()) * 8192
            && ErasedFrom(old(flash.pages), flash.pages, KERNEL_PAGE, Sections(Word()) * SECTION)
            && flash.log == old(flash.log) + EraseLog(Sections(Word())))
      && (rx.sent != old(rx.sent) + [RESP_OK] ==> kernelTotalSize == old(kernelTotalSize))
      && (forall p :: 0 <= p < KERNEL_PAGE && p < old(|flash.pages|) ==> flash.pages[p] == old(flash.pages)[p])
      && (Word() == 0 ==> rx.sent != old(rx.sent) + [RESP_OK] && flash.pages == old(flash.pages))
      && (flash.reliable ==> (rx.sent == old(rx.sent) + [RESP_OK] <==> Word() > 0 && Fits(Word())))
    }

    twostate predicate Writes()
      requires Valid() && KERNEL_PAGE + old(kernelPage) < PAGES && old(|flash.pages|) == PAGES
               && Sound(old(flash.pages))
      reads this, flash, rx, rx.payload
    {
      var page, target := old(kernelPage), Target(old(kernelPage));
      && kernelPage == page + 1 && kernelTotalSize == old(kernelTotalSize)
      && flash.log == old(flash.log) + [Program(target)]
      && (forall p :: 0 <= p < PAGES && p != target ==> flash.pages[p] == old(flash.pages)[p])
      && (flash.reliable ==> flash.pages[target] == Programmed(old(flash.pages)[target], Data()))
      && (stopped == Running ==> flash.pages[KERNEL_PAGE + page] == Data() && rx.sent == old(rx.sent) + [RESP_OK])
      && (stopped != Running ==> stopped == Panicked && rx.sent == old(rx.sent))
      && (flash.reliable && old(flash.pages)[KERNEL_PAGE + page] == FlashDriver.Erased() ==>
            (stopped == Running <==> page < MASKED || Data() == FlashDriver.Erased()))
    }

    twostate predicate Finishes()
      requires Valid() && KERNEL_PAGE + old(kernelPage) < PAGES && old(|flash.pages|) == PAGES
               && Sound(old(flash.pages))
      reads this, flash, rx, rx.payload
    {
      var page, target := old(kernelPage), Target(old(kernelPage));
      && stopped != Running && kernelTotalSize == old(kernelTotalSize)
      && (forall p :: 0 <= p < PAGES && p != target && p != HASH_PAGE ==> flash.pages[p] == old(flash.pages)[p])
      && (flash.reliable && target != HASH_PAGE ==>
            flash.pages[target] == Programmed(old(flash.pages)[target], Data()))
      && (stopped == Reset ==>
            && flash.log == old(flash.log) + [Program(target), Rewrite(HASH_PAGE)]
            && flash.pages[KERNEL_PAGE + page] == Data()
            && flash.pages[HASH_PAGE] == Record(hash(KernelBytes(flash.pages, kernelTotalSize)), kernelTotalSize)
            && rx.sent == old(rx.sent) + [RESP_OK])
      && (flash.reliable && old(flash.pages)[KERNEL_PAGE + page] == FlashDriver.Erased() ==>
            (stopped == Reset <==> page < MASKED || Data() == FlashDriver.Erased()))
    }

    // CMD_ERASE_FLASH
    method OnErase()
      requires Valid() && rx.cmd == CMD_ERASE_FLASH
      modifies this`kernelTotalSize, flash, rx`frameReceived, rx`sent
      ensures Valid() && !rx.frameReceived && Erases()
    {
      hide Le32, Sections, ErasedFrom, EraseLog, Fits;
      assert RESP_ERROR | RESP_FLASH_ERROR != RESP_OK;
      var ok := EraseKernelImage();
      if !ok {
        Answer(RESP_ERROR | RESP_FLASH_ERROR);
        assert rx.sent[|rx.sent| - 1] != RESP_OK;
      } else {
        Answer(RESP_OK);
      }
    }

    // CMD_WRITE_PAGE
    method OnWrite()
      requires Valid() && stopped == Running && rx.cmd == CMD_WRITE_PAGE && InFlash()
      modifies this`kernelPage, this`stopped, flash, flashBuffer, rx`frameReceived, rx`sent
      ensures Valid() && (stopped == Running ==> !rx.frameReceived) && Writes()
    {
      hide Padded, Target, FlashDriver.Erased, Programmed;
      var page := kernelPage;
      kernelPage := kernelPage + 1;
      WriteKernelPage(rx.size, page);
      if stopped == Running {
        Answer(RESP_OK);
      }
    }

    // CMD_WRITE_PAGE_LAST: the page, the hash record, and the reset
    method OnLast()
      requires Valid() && stopped == Running && rx.cmd == CMD_WRITE_PAGE_LAST && InFlash()
      modifies this`stopped, flash, flashBuffer, rx`frameReceived, rx`sent
      ensures Valid() && Finishes()
    {
      hide Padded, Target, FlashDriver.Erased, Record, KernelPages, Programmed;
      WriteKernelPage(rx.size, kernelPage);
      if stopped == Running {
        Answer(RESP_OK);
        ghost var pages := flash.pages;
        var ok := StoreKernelHash();
        stopped := if ok then Reset else Panicked;
        SameKernel(pages, flash.pages, PAGES - KERNEL_PAGE);
      }
    }

    // The body of the command loop, for a frame that has been received. A command the
    // bootloader does not know is left unanswered.
    method HandleFrame()
      requires Valid() && stopped == Running && rx.frameReceived && InFlash()
      modifies this, flash, flashBuffer, rx`frameReceived, rx`sent
      ensures Valid()
      ensures rx.cmd == CMD_ERASE_FLASH ==> Erases() && !rx.frameReceived
      ensures rx.cmd == CMD_WRITE_PAGE ==> Writes() && (stopped == Running ==> !rx.frameReceived)
      ensures rx.cmd == CMD_WRITE_PAGE_LAST ==> Finishes()
      ensures rx.cmd == CMD_SET_FLASH_OFFSET ==>
                && kernelPage == Word() && stopped == Running && kernelTotalSize == old(kernelTotalSize)
                && unchanged(flash) && !rx.frameReceived && rx.sent == old(rx.sent) + [RESP_OK]
      ensures rx.cmd == CMD_CTRL_LED ==>
                unchanged(this) && unchanged(flash) && !rx.frameReceived && rx.sent == old(rx.sent) + [RESP_OK]
      ensures rx.cmd !in [CMD_ERASE_FLASH, CMD_WRITE_PAGE, CMD_WRITE_PAGE_LAST, CMD_SET_FLASH_OFFSET, CMD_CTRL_LED] ==>
                unchanged(this) && unchanged(flash) && unchanged(rx)
    {
      hide Le32, Sections, Padded, Target, FlashDriver.Erased, Record, KernelBytes, Programmed, Fits, ErasedFrom;
      if rx.cmd == CMD_ERASE_FLASH {
        OnErase();
      } else if rx.cmd == CMD_WRITE_PAGE {
        OnWrite();
      } else if rx.cmd == CMD_WRITE_PAGE_LAST {
        OnLast();
      } else if rx.cmd == CMD_SET_FLASH_OFFSET {
        SetFlashWriteOffset();
        Answer(RESP_OK);
      } else if rx.cmd == CMD_CTRL_LED {
        Answer(RESP_OK);
      }
    }
  }

  lemma {:induction false} SameKernel(pages: seq<Page>, pages': seq<Page>, n: nat)
    requires Sound(pages) && Sound(pages') && KERNEL_PAGE + n <= PAGES
    requires forall p :: KERNEL_PAGE <= p < KERNEL_PAGE + n ==> pages'[p] == pages[p]
    ensures KernelPages(pages', n) == KernelPages(pages, n)
  {
    if n > 0 { SameKernel(pages, pages', n - 1); }
  }

  // A stored record is accepted at the next boot, as long as the flash is as it was, exactly
  // if an erase has set the size.
  lemma StoredBoots(pages: seq<Page>, pages': seq<Page>, size: nat, hash: seq<Byte> -> seq<Byte>)
    requires Sound(pages) && Sound(pages') && size <= (PAGES - KERNEL_PAGE) * PAGE && forall b :: |hash(b)| == DIGEST
    requires forall p :: 0 <= p < PAGES && p != HASH_PAGE ==> pages'[p] == pages[p]
    requires pages'[HASH_PAGE] == Record(hash(KernelBytes(pages, size)), size)
    ensures Bootable(pages', hash) <==> size != 0
  {
    hide Record, RecordSize, KernelPages;
    RecordParts(hash(KernelBytes(pages, size)), size);
    SameKernel(pages, pages', PAGES - KERNEL_PAGE);
  }

  // What is compared: the digest of the kernel bytes in flash, as many as the word behind the
  // digest in page 30 says, with the first 32 bytes of that page.
  lemma BootableExactly(pages: seq<Page>, hash: seq<Byte> -> seq<Byte>, size: nat)
    requires Sound(pages) && 0 < size <= (PAGES - KERNEL_PAGE) * PAGE && pages[30][32..36] == Bytes32(size)
    ensures Bootable(pages, hash) <==> hash(KernelBytes(pages, size)) == pages[30][..32]
  {
    hide Low, Le32, KernelBytes;
    var p := pages[30];
    Le32Low(size);
    assert p[32] == p[32..36][0] && p[33] == p[32..36][1] && p[34] == p[32..36][2] && p[35] == p[32..36][3];
  }

  // Where page 30 holds the record of some kernel, the next boot accepts what is then in flash
  // exactly if it has the digest of that kernel: any other is refused.
  lemma StoredRefuses(pages: seq<Page>, kernel: seq<Byte>, hash: seq<Byte> -> seq<Byte>)
    requires Sound(pages) && 0 < |kernel| <= (PAGES - KERNEL_PAGE) * PAGE && forall b :: |hash(b)| == DIGEST
    requires pages[HASH_PAGE] == Record(hash(kernel), |kernel|)
    ensures Bootable(pages, hash) <==> hash(KernelBytes(pages, |kernel|)) == hash(kernel)
    ensures RecordSize(pages[HASH_PAGE]) == |kernel|
  {
    hide Record, RecordSize, KernelPages;
    RecordParts(hash(kernel), |kernel|);
  }
}
