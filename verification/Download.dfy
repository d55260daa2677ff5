/** Firmware download and upload at the level of USB packets: what a host that follows the
    protocol leaves in the flash, and what it reads back. */
module Download {
  import opened Bytes
  import opened FlashMemory
  import opened Usb
  import opened UsbRun
  import opened ControlRead
  import opened ControlWrite
  import opened Programming
  import opened Transfers
  import Dfu

  /** One payload: a DNLOAD and the GETSTATUS that makes the device act on it. */
  function SendTokens(x: Payload): seq<Token>
    requires x.Valid()
  {
    DnloadTokens(x) + GetStatusTokens()
  }

  function SendAllTokens(xs: seq<Payload>): seq<Token>
    requires AllValid(xs)
    decreases |xs|
  {
    if xs == [] then [] else SendTokens(xs[0]) + SendAllTokens(xs[1..])
  }

  function MachineOf(d: Device): (m: Machine)
    requires Inv(d)
    ensures m.Valid()
  {
    Machine(d.dfu, d.flash)
  }

  lemma SendPayload(d: Device, x: Payload)
    requires Ready(d) && x.Valid()
    ensures var m := Perform(MachineOf(d), x);
      Rests(Run(d, SendTokens(x)), m.driver, m.flash, false)
  {
    hide Step, Rom.Valid, DnloadTokens, GetStatusTokens, Dfu.Commit;
    DnloadTransfer(d, x);
    var e := Run(d, DnloadTokens(x));
    GetStatusTransfer(e);
    RunAppend(d, DnloadTokens(x), GetStatusTokens());
  }

  /** Every sequence of payloads sent packet by packet has the effect of the same payloads on
      the driver and the flash. */
  lemma {:induction false} SendAllPayloads(d: Device, xs: seq<Payload>)
    requires Ready(d) && AllValid(xs)
    ensures var r := Run(d, SendAllTokens(xs));
      Ready(r) && MachineOf(r) == PerformAll(MachineOf(d), xs)
    decreases |xs|
  {
    hide Step, Inv, Perform, SendTokens;
    if xs != [] {
      SendPayload(d, xs[0]);
      var e := Run(d, SendTokens(xs[0]));
      SendAllPayloads(e, xs[1..]);
      RunAppend(d, SendTokens(xs[0]), SendAllTokens(xs[1..]));
    }
  }

  /** The command that moves the address pointer. */
  function SetAddressPayload(a: int): (x: Payload)
    requires 0 <= a < U32
    ensures x.Valid()
  {
    Payload(0, [Dfu.CMD_SETADDR] + Pack32(a))
  }

  lemma SetAddressEffect(m: Machine, a: int)
    requires m.Valid() && 0 <= a < U32
    ensures var n := Perform(m, SetAddressPayload(a));
      n.driver.prog.addr == a && n.flash == m.flash
  {
    var x := SetAddressPayload(a);
    assert x.data[1..5] == Pack32(a)[0..4];
    Le32Slice(x.data, 1, Pack32(a), 0);
    PackUnpack(a);
    BufferedCommand(m.driver, x);
    hide Dfu.CommandAddress, Buffered;
  }

  /** A download as the host tools do it: the address of the application, then the image in
      blocks of 1 KB numbered from 2, each acknowledged. */
  function DownloadPayloads(image: seq<byte>): seq<Payload> {
    [SetAddressPayload(APP)] + ImageBlocks(image, 2)
  }

  lemma DownloadPayloadsValid(image: seq<byte>)
    requires |image| <= PAYLOAD
    ensures AllValid(DownloadPayloads(image))
  {
    ImageBlocksValid(image, 2);
  }

  function DownloadTokens(image: seq<byte>): seq<Token>
    requires |image| <= PAYLOAD
  {
    DownloadPayloadsValid(image);
    SendAllTokens(DownloadPayloads(image))
  }

  lemma DownloadEffect(m: Machine, image: seq<byte>)
    requires m.Valid() && |image| <= PAYLOAD
    ensures AllValid(DownloadPayloads(image))
    ensures BOOT_SIZE + |PaddedImage(image)| <= FLASH_SIZE
    ensures PerformAll(m, DownloadPayloads(image)).flash ==
            m.flash.(mem := Splice(m.flash.mem, BOOT_SIZE, PaddedImage(image)))
  {
    hide Perform, Splice, SetAddressPayload, PaddedImage;
    DownloadPayloadsValid(image);
    SetAddressEffect(m, APP);
    var x := SetAddressPayload(APP);
    ImageEffect(Perform(m, x), image, 0);
    assert DownloadPayloads(image)[1..] == ImageBlocks(image, 2);
  }

  /** Whatever the flash held and whatever the device did before, a download leaves the padded
      image in the application area and every other page as it was. */
  lemma DownloadWritesImage(d: Device, image: seq<byte>)
    requires Ready(d) && |image| <= PAYLOAD
    ensures var r := Run(d, DownloadTokens(image));
      && Ready(r) && BOOT_SIZE + |PaddedImage(image)| <= FLASH_SIZE
      && r.flash == d.flash.(mem := Splice(d.flash.mem, BOOT_SIZE, PaddedImage(image)))
  {
    hide Step, Inv, Perform, PerformAll, Splice, SetAddressPayload, PaddedImage, DownloadPayloads;
    DownloadPayloadsValid(image);
    DownloadEffect(MachineOf(d), image);
    SendAllPayloads(d, DownloadPayloads(image));
  }

  /** The application area starts with the image. */
  predicate Holds(f: Flash, image: seq<byte>)
    requires f.Valid() && |image| <= PAYLOAD
  {
    f.mem[BOOT_SIZE..BOOT_SIZE + |image|] == image
  }

  /** Nothing is lost when an odd last byte is not programmed. */
  predicate SurvivesRounding(image: seq<byte>) {
    |image| % 2 == 0 || image[|image| - 1] == ERASED
  }

  lemma PaddedImageIsExact(mem: seq<byte>, image: seq<byte>)
    requires |mem| == FLASH_SIZE && |image| <= PAYLOAD && BOOT_SIZE + |PaddedImage(image)| <= FLASH_SIZE
    ensures Splice(mem, BOOT_SIZE, PaddedImage(image))[BOOT_SIZE..BOOT_SIZE + |image|] == image <==>
            SurvivesRounding(image)
  {
    PaddedImageBytes(image);
    var p, even, n := PaddedImage(image), EvenPart(image), |image|;
    assert if n % 2 == 0 then even == image else even == image[..n - 1];
    hide PaddedImage, EvenPart;
    var r := Splice(mem, BOOT_SIZE, p);
    assert r[BOOT_SIZE..BOOT_SIZE + n] == p[..n];
    if n % 2 != 0 {
      assert p[..n][..n - 1] == even && p[..n][n - 1] == ERASED;
      assert image == image[..n - 1] + [image[n - 1]];
    }
  }

  /** The application area holds exactly the image if and only if its length is even or its
      last byte is 0xFF: an odd last byte is never programmed. */
  lemma DownloadIsExact(d: Device, image: seq<byte>)
    requires Ready(d) && |image| <= PAYLOAD
    ensures Holds(Run(d, DownloadTokens(image)).flash, image) <==> SurvivesRounding(image)
  {
    hide Step, PaddedImage, DownloadTokens, SurvivesRounding;
    DownloadWritesImage(d, image);
    PaddedImageIsExact(d.flash.mem, image);
  }

  /** The smallest image that is lost: a single zero byte is never programmed. */
  lemma SingleByteIsLost(d: Device)
    requires Ready(d)
    ensures !Holds(Run(d, DownloadTokens([0])).flash, [0])
  {
    hide Step, DownloadTokens, Holds, Rom.Valid, Inv;
    assert !SurvivesRounding([0]);
    DownloadIsExact(d, [0]);
  }

  // Upload

  function UploadRequest(block: int, want: nat): (q: seq<byte>)
    requires 0 <= block < U16 && want < U16
    ensures IsDfuRequest(q, 0xA1, Dfu.UPLOAD, block, want)
  {
    DfuRequestBytes(0xA1, Dfu.UPLOAD, block, want)
  }

  /** The answer to an UPLOAD inside the application area is the flash itself. */
  lemma UploadAnswer(d: Device, q: seq<byte>, block: int, want: nat)
    requires Ready(d) && IsDfuRequest(q, 0xA1, Dfu.UPLOAD, block, want) && block != 0
    requires Dfu.InApplication(Dfu.BlockAddress(d.dfu.prog.addr, block), Dfu.TRANSFER)
    ensures ReadOutcome(d, q).ok && ReadOutcome(d, q).device.link == Up
    ensures var a := Dfu.BlockAddress(d.dfu.prog.addr, block);
      AnswerTo(d, q) == Dfu.FlashBytes(d.flash, a, Dfu.TRANSFER)[..Min(Dfu.TRANSFER, want)]
  {
    DfuRequestKind(q, 0xA1, Dfu.UPLOAD, block, want);
    hide Rom.Valid, StandardRequest, IsClassInterface, ReqLength, ReqValue, ReqCode, ReqType, Dfu.InApplication;
    hide Dfu.FlashBytes, Dfu.BlockAddress;
  }

  lemma FlashBytesOfPage(f: Flash, k: nat)
    requires f.Valid() && (k + 1) * PAGE <= FLASH_SIZE
    ensures Dfu.FlashBytes(f, FLASH_BASE + k * PAGE, PAGE) == Page(f.mem, k)
  {
    var a := FLASH_BASE + k * PAGE;
    forall i | 0 <= i < PAGE
      ensures ReadAt(f, a, i) == Page(f.mem, k)[i]
    {
    }
  }

  /** A whole block sent to an aligned address of the application area and read back with an
      UPLOAD of the same block number comes back byte for byte, through the reassembly of the
      OUT packets, the flash and the IN packets. */
  lemma UploadReturnsDownload(d: Device, x: Payload, want: nat)
    requires Ready(d) && x.Valid() && x.block != 0 && |x.data| == Dfu.TRANSFER
    requires d.dfu.prog.addr % PAGE == 0
    requires APP <= Dfu.BlockAddress(d.dfu.prog.addr, x.block) < FLASH_END
    requires Dfu.TRANSFER <= want < U16
    ensures var e := Run(d, SendTokens(x));
      var r := HostRead(Step(e, SetupToken(UploadRequest(x.block, want))), want);
      && Ready(e) && r.complete && Concat(r.packets) == x.data && r.packets == Packets(x.data, want)
  {
    hide Step, Rom.Valid, Perform, Splice, Padded, SendTokens, DfuRequestBytes, Dfu.BlockAddress, Dfu.FlashBytes;
    hide ReqLength, ReqValue, ReqCode, ReqType, IsIn, IsClassInterface, ReadOutcome, AnswerTo, Packets;
    var m := MachineOf(d);
    SendPayload(d, x);
    PageEffect(m, x);
    var e := Run(d, SendTokens(x));
    var a := Dfu.BlockAddress(d.dfu.prog.addr, x.block);
    var q := UploadRequest(x.block, want);
    DfuRequestKind(q, 0xA1, Dfu.UPLOAD, x.block, want);
    AlignedBlock(d.dfu.prog.addr, x.block);
    PageAddress(a);
    AlignedRange(a, Dfu.TRANSFER);
    UploadAnswer(e, q, x.block, want);
    var k := PageIndex(a);
    FlashBytesOfPage(e.flash, k);
    SplicePage(d.flash.mem, k, Padded(x.data), k);
    FullPage(x.data);
    assert AnswerTo(e, q) == x.data;
    ControlReadReassembles(e, q);
  }

  lemma FullPage(data: seq<byte>)
    requires |data| == PAGE
    ensures Padded(data) == data
  {
  }
}
