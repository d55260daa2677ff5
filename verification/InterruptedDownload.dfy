/** A USB download that a loss of power cuts short between two halfwords, and what the bootloader
    makes of the flash it finds. */
module InterruptedDownload {
  import opened Bytes
  import opened FlashMemory
  import opened Checksum
  import opened SramImage
  import opened Boot
  import opened Usb
  import opened UsbRun
  import opened ControlWrite
  import opened Programming
  import opened Download

  /** WriteBlock up to the erase and the first h halfwords. */
  function CutBlock(f: Flash, a: int, data: seq<byte>, h: nat): (r: Flash)
    requires f.Valid() && 2 * h <= |data|
    ensures r.Valid()
    ensures h == |data| / 2 ==> r == WriteBlock(f, a, data)
  {
    ProgramHalves(EraseIfNeeded(f, a), a, data, h)
  }

  /** Block b of an image. */
  function Block(image: seq<byte>, b: nat): (data: seq<byte>)
    requires b * PAGE <= |image|
    ensures |data| == Min(PAGE, |image| - b * PAGE)
  {
    image[b * PAGE..b * PAGE + Min(PAGE, |image| - b * PAGE)]
  }

  /** The power fails behind b whole blocks, the erase for the next and h halfwords of it. */
  predicate IsCut(image: seq<byte>, b: nat, h: nat) {
    && |image| <= PAYLOAD && b * PAGE < |image| && 2 * h <= PAGE && b * PAGE + 2 * h <= |image|
  }

  /** The flash that is left. The reset locks it. */
  function CutFlash(f: Flash, image: seq<byte>, b: nat, h: nat): (r: Flash)
    requires f.Valid() && IsCut(image, b, h)
    ensures r.Valid()
  {
    CutBlock(f.(locked := false), APP + b * PAGE, Block(image, b), h).(locked := true)
  }

  /** The application area then: the image so far, the rest of its page erased, and behind it what
      was there before the download. */
  function CutArea(f: Flash, image: seq<byte>, b: nat, h: nat): (area: seq<byte>)
    requires f.Valid() && IsCut(image, b, h)
    ensures |area| == PAYLOAD
  {
    image[..b * PAGE + 2 * h] + Fill(PAGE - 2 * h, ERASED)
    + f.mem[BOOT_SIZE + (b + 1) * PAGE..BOOT_SIZE + PAYLOAD]
  }

  lemma WholeBlocks(d: Device, image: seq<byte>, b: nat)
    requires Ready(d) && b * PAGE <= |image| <= PAYLOAD
    ensures var r := Run(d, DownloadTokens(image[..b * PAGE]));
      r.flash == d.flash.(mem := Splice(d.flash.mem, BOOT_SIZE, image[..b * PAGE]))
  {
    hide Step, Inv, DownloadTokens, Splice, PaddedImage;
    var first := image[..b * PAGE];
    DownloadWritesImage(d, first);
    WholePages(first, b);
  }

  lemma WholePages(first: seq<byte>, b: nat)
    requires |first| == b * PAGE
    ensures PaddedImage(first) == first
  {
    PaddedImageBytes(first);
    assert |first| % 2 == 0 && (|first| + PAGE - 1) / PAGE == b;
    assert EvenPart(first) == first;
    hide PaddedImage, EvenPart;
    assert PaddedImage(first)[..|first|] == PaddedImage(first);
  }

  /** Cutting a block at the start of a page. */
  lemma CutAtPage(f: Flash, k: nat, data: seq<byte>, h: nat)
    requires f.Valid() && !f.locked && (k + 1) * PAGE <= FLASH_SIZE && 2 * h <= |data| <= PAGE
    ensures CutBlock(f, FLASH_BASE + k * PAGE, data, h) ==
            f.(mem := Splice(f.mem, k * PAGE, data[..2 * h] + Fill(PAGE - 2 * h, ERASED)))
  {
    hide EraseIfNeeded, ProgramHalves;
    var e := f.(mem := Splice(f.mem, k * PAGE, Fill(PAGE, ERASED)));
    EraseAtPage(f, k);
    ProgramErasedHalves(e, FLASH_BASE + k * PAGE, data, h);
    assert Splice(e.mem, k * PAGE, data[..2 * h])
        == Splice(f.mem, k * PAGE, data[..2 * h] + Fill(PAGE - 2 * h, ERASED));
  }

  lemma CutIsArea(f: Flash, g: Flash, image: seq<byte>, b: nat, h: nat)
    requires f.Valid() && g.Valid() && IsCut(image, b, h)
    requires g == f.(mem := Splice(f.mem, BOOT_SIZE, image[..b * PAGE]))
    ensures CutFlash(g, image, b, h).mem[BOOT_SIZE..BOOT_SIZE + PAYLOAD] == CutArea(f, image, b, h)
  {
    hide CutBlock, Splice;
    assert APP + b * PAGE == FLASH_BASE + (b + 8) * PAGE;
    CutAtPage(g.(locked := false), b + 8, Block(image, b), h);
    var first, next := image[..b * PAGE], Block(image, b)[..2 * h] + Fill(PAGE - 2 * h, ERASED);
    SpliceAppend(f.mem, BOOT_SIZE, first, next);
    SpliceFront(f.mem, BOOT_SIZE, first + next, BOOT_SIZE + PAYLOAD);
    assert first + next == image[..b * PAGE + 2 * h] + Fill(PAGE - 2 * h, ERASED);
  }

  lemma SpliceFront(mem: seq<byte>, off: nat, data: seq<byte>, end: nat)
    requires off + |data| <= end <= |mem|
    ensures Splice(mem, off, data)[off..end] == data + mem[off + |data|..end]
  {
  }

  /** The first words of the area. */
  lemma CutWords(f: Flash, image: seq<byte>, b: nat, h: nat)
    requires f.Valid() && IsCut(image, b, h) && (b > 0 || h >= 18)
    ensures |image| >= 0x24
    ensures Word(CutArea(f, image, b, h), 0) == Word(image, 0) && Word(CutArea(f, image, b, h), 8) == Word(image, 8)
  {
    hide Le32;
    SameWord(CutArea(f, image, b, h), 0, image, 0);
    SameWord(CutArea(f, image, b, h), 0x20, image, 0x20);
  }

  /** A loss of power during a USB download, for every device that can take a SETUP and every flash
      contents. Until word 8 of the image is in place the next boot goes to DFU mode. From then on
      it starts the application exactly if the stack pointer passes its test and the area, of the
      size that word 8 states, happens to have the right checksum. */
  lemma CutDownloadBoots(d: Device, image: seq<byte>, b: nat, h: nat, sram: seq<byte>, forced: bool)
    requires Ready(d) && IsCut(image, b, h) && IsSram(sram) && !HasValidImage(sram)
    ensures var g := Run(d, DownloadTokens(image[..b * PAGE])).flash;
      var s, area := Storage(CutFlash(g, image, b, h), sram), CutArea(d.flash, image, b, h);
      if b == 0 && h < 18 then Decide(s, forced) == DfuMode
      else
        && |image| >= 0x24
        && (Decide(s, forced) == Jump <==>
          && !forced && StackPointerOk(Word(image, 0)) && Word(image, 8) <= PAYLOAD / 4
          && Validates(area, Word(image, 8)))
  {
    hide Step, EpInv, Rom.Valid, DownloadTokens, CutFlash, CutArea;
    hide Decide, HasValidImage, Validates, StackPointerOk, Word;
    var g := Run(d, DownloadTokens(image[..b * PAGE])).flash;
    var s, area := Storage(CutFlash(g, image, b, h), sram), CutArea(d.flash, image, b, h);
    WholeBlocks(d, image, b);
    CutIsArea(d.flash, g, image, b, h);
    if b == 0 && h < 18 {
      CutBeforeSize(s.flash.mem, d.flash, image, h);
      BlankSizeMeansDfu(s, forced);
    } else {
      CutWords(d.flash, image, b, h);
      DecideOnArea(s, area, forced);
    }
  }

  lemma CutBeforeSize(mem: seq<byte>, f: Flash, image: seq<byte>, h: nat)
    requires f.Valid() && |mem| == FLASH_SIZE && IsCut(image, 0, h) && h < 18
    requires mem[BOOT_SIZE..BOOT_SIZE + PAYLOAD] == CutArea(f, image, 0, h)
    ensures mem[BOOT_SIZE + 0x22] == ERASED && mem[BOOT_SIZE + 0x23] == ERASED
  {
    var area := mem[BOOT_SIZE..BOOT_SIZE + PAYLOAD];
    assert area[0x22] == ERASED && area[0x23] == ERASED;
  }
}
