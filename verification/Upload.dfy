/** Reading the flash back over USB: what every UPLOAD answers, inside and outside the application
    area, and what a host gets that reads block after block to the end. */
module Upload {
  import opened Bytes
  import opened FlashMemory
  import opened Usb
  import opened UsbRun
  import opened ControlRead
  import opened ControlWrite
  import opened Transfers
  import opened Programming
  import opened Download
  import opened Answers
  import opened Enumeration
  import opened Conversation
  import Dfu

  /** The address of a block, as an unsigned 32-bit number. */
  function AddressOf(pointer: int, block: int): (a: int)
    ensures 0 <= a < 0x1_0000_0000
  {
    (pointer + (block - 2) * 1024) % 0x1_0000_0000
  }

  /** The KB at address a lies in the application area of the flash, or at the very end of the
      address space, where the sum in the range check wraps. */
  predicate IsReadable(a: int) {
    0x0800_2000 <= a && (a + 1024 <= 0x0802_0000 || a + 1024 >= 0x1_0000_0000)
  }

  lemma ReadableExactly(pointer: int, block: int)
    ensures AddressOf(pointer, block) == Dfu.BlockAddress(pointer, block)
    ensures IsReadable(AddressOf(pointer, block)) <==> Dfu.InApplication(Dfu.BlockAddress(pointer, block), Dfu.TRANSFER)
  {
    hide AddressOf, Dfu.InApplication;
    SameAddress(pointer, block);
    Dfu.RangeCheck(AddressOf(pointer, block), Dfu.TRANSFER);
  }

  lemma SameAddress(pointer: int, block: int)
    ensures AddressOf(pointer, block) == Dfu.BlockAddress(pointer, block)
  {
  }

  lemma UploadDispatched(e: Device)
    requires e.Valid() && e.ep.req[0] == 0xA1 && e.ep.req[1] == 2
    ensures var h, block, a := Dispatch(e), ReqValue(e.ep.req), Dfu.BlockAddress(e.dfu.prog.addr, ReqValue(e.ep.req));
      && h.ok && h.device.link == e.link && h.device.flash == e.flash && h.device.reset == e.reset
      && (h.device.ep.callback <==> e.ep.callback)
      && h.device.dfu.prog == e.dfu.prog
      && (if block == 0 then
            && h.device.dfu.state == Dfu.UploadIdle && h.device.ep.datasize == 3
            && h.device.ram == Splice(e.ram, 0, [0x00, 0x21, 0x41])
          else if Dfu.InApplication(a, Dfu.TRANSFER) then
            && h.device.dfu.state == Dfu.UploadIdle && h.device.ep.datasize == 1024
            && h.device.ram == Splice(e.ram, 0, Dfu.FlashBytes(e.flash, a, 1024))
          else h.device.dfu.state == Dfu.Error && h.device.ep.datasize == 0)
  {
    hide Rom.Valid, Dispatch, ReqValue, ReqLength, Splice, Dfu.FlashBytes, Dfu.InApplication, Dfu.BlockAddress;
    ToDfu(e);
  }

  /** Block 0 is the list of commands. */
  lemma CommandListAnswer(d: Device, q: seq<byte>)
    requires Ready(d) && Asks(q, 0xA1, 2) && ReqValue(q) == 0
    ensures Gets(d, q, [0x00, 0x21, 0x41])
  {
    hide Rom.Valid, Dispatch, Step, EpInv, ReqLength, ReqValue, Gets;
    hide Dfu.InApplication, Dfu.BlockAddress, Dfu.FlashBytes;
    UploadDispatched(Asked(d, q));
    var h := Dispatch(Asked(d, q)).device;
    assert h.ram[..3] == [0x00, 0x21, 0x41];
    AnswerIsRead(d, q, [0x00, 0x21, 0x41]);
  }

  /** For every address pointer and every block: an UPLOAD answers the KB of the flash at the address
      of the block if this is in the application area, and nothing if it is neither there nor at the
      end of the address space. */
  lemma UploadAnswers(d: Device, q: seq<byte>)
    requires Ready(d) && Asks(q, 0xA1, 2) && ReqValue(q) != 0
    ensures var a := AddressOf(d.dfu.prog.addr, ReqValue(q));
      && (0x0800_2000 <= a && a + 1024 <= 0x0802_0000 ==>
          a - 0x0800_0000 + 1024 <= |d.flash.mem| &&
          Gets(d, q, d.flash.mem[a - 0x0800_0000..a - 0x0800_0000 + 1024]))
      && (IsReadable(a) ==> Gets(d, q, Dfu.FlashBytes(d.flash, a, 1024)))
      && (!IsReadable(a) ==> Gets(d, q, []))
  {
    hide Rom.Valid, Dispatch, Step, EpInv, ReqLength, ReqValue, Gets, Dfu.FlashBytes, AddressOf;
    hide Dfu.InApplication, Dfu.BlockAddress;
    var e, a := Asked(d, q), AddressOf(d.dfu.prog.addr, ReqValue(q));
    ReadableExactly(d.dfu.prog.addr, ReqValue(q));
    UploadDispatched(e);
    var h := Dispatch(e).device;
    if IsReadable(a) {
      var s := Dfu.FlashBytes(d.flash, a, 1024);
      assert h.ram[..1024] == s;
      AnswerIsRead(d, q, s);
      if a + 1024 <= 0x0802_0000 {
        BytesOfFlash(d.flash, a);
      }
    } else {
      assert h.ram[..0] == [];
      AnswerIsRead(d, q, []);
    }
  }

  lemma BytesOfFlash(f: Flash, a: int)
    requires f.Valid() && 0x0800_2000 <= a && a + 1024 <= 0x0802_0000
    ensures Dfu.FlashBytes(f, a, 1024) == f.mem[a - 0x0800_0000..a - 0x0800_0000 + 1024]
  {
    var at := a - 0x0800_0000;
    forall i | 0 <= i < 1024
      ensures ReadAt(f, a, i) == f.mem[at..at + 1024][i]
    {
    }
  }

  /** A KB travels in sixteen packets of 64 bytes. */
  lemma {:induction false} BlockPackets(data: seq<byte>, n: nat)
    requires 0 < |data| == 64 * n
    ensures var ps := Packets(data, |data|);
      |ps| == n && forall i :: 0 <= i < n ==> ps[i] == data[64 * i..64 * i + 64]
    decreases n
  {
    if n > 1 {
      var rest := data[64..];
      BlockPackets(rest, n - 1);
      forall i | 1 <= i < n
        ensures Packets(data, |data|)[i] == data[64 * i..64 * i + 64]
      {
        assert rest[64 * (i - 1)..64 * (i - 1) + 64] == data[64 * i..64 * i + 64];
      }
    }
  }

  // The transfer with its status stage

  /** One UPLOAD of a KB, and what the host has got. */
  datatype Part = Part(device: Device, data: seq<byte>)

  function ReadBlock(d: Device, block: int): (p: Part)
    requires Inv(d) && 0 <= block < U16
    ensures Inv(p.device)
  {
    var r := HostRead(Step(d, SetupToken(UploadRequest(block, 1024))), 1024);
    Part(Step(r.device, OutToken([])), Concat(r.packets))
  }

  /** The device behind an UPLOAD: only the state of the driver has changed, to upload-idle, or to
      the error state if there was nothing to read. */
  lemma BlockIsRead(d: Device, block: int)
    requires Ready(d) && 0 < block < U16
    ensures var p, a := ReadBlock(d, block), AddressOf(d.dfu.prog.addr, block);
      && Ready(p.device) && p.device.flash == d.flash && p.device.dfu.prog == d.dfu.prog
      && p.device.dfu.state == (if IsReadable(a) then Dfu.UploadIdle else Dfu.Error)
      && (!IsReadable(a) ==> p.data == [])
      && (0x0800_2000 <= a && a + 1024 <= 0x0802_0000 ==>
          a - 0x0800_0000 + 1024 <= |d.flash.mem| && p.data == d.flash.mem[a - 0x0800_0000..a - 0x0800_0000 + 1024])
  {
    hide Rom.Valid, Dispatch, Step, EpInv, ReqLength, ReqValue, Dfu.FlashBytes, AddressOf;
    hide Dfu.InApplication, Dfu.BlockAddress, HostRead, Concat, UploadRequest, IsIn, Packets, LogGrows;
    var q := UploadRequest(block, 1024);
    RequestIsRead(q, block);
    UploadAnswers(d, q);
    UploadDispatched(Asked(d, q));
    DispatchFrame(Asked(d, q));
    ReadableExactly(d.dfu.prog.addr, block);
    ControlReadReassembles(d, q);
    var r := HostRead(Step(d, SetupToken(q)), 1024).device;
    StatusIsTaken(r);
    if 0x0800_2000 <= AddressOf(d.dfu.prog.addr, block) && AddressOf(d.dfu.prog.addr, block) + 1024 <= 0x0802_0000 {
      WholePart(d.flash.mem, AddressOf(d.dfu.prog.addr, block) - 0x0800_0000);
    }
  }

  lemma WholePart(mem: seq<byte>, at: nat)
    requires at + 1024 <= |mem|
    ensures mem[at..at + 1024][..1024] == mem[at..at + 1024]
  {
  }

  lemma RequestIsRead(q: seq<byte>, block: int)
    requires IsDfuRequest(q, 0xA1, Dfu.UPLOAD, block, 1024)
    ensures Asks(q, 0xA1, 2) && IsIn(q) && ReqValue(q) == block && ReqLength(q) == 1024
  {
    hide ReqLength, ReqValue;
  }

  lemma StatusIsTaken(r: Device)
    requires Inv(r) && !Deaf(r) && r.ep.fsm == StatusOut && !r.ep.callback && !r.ep.ctrRx
    ensures var s := Step(r, OutToken([]));
      Ready(s) && s.dfu == r.dfu && s.flash == r.flash
  {
    hide Rom.Valid, Step, EpInv;
    StatusOutStep(r, []);
  }

  // From the application on

  lemma ApplicationBlocks(block: int)
    requires 0 < block < U16
    ensures var a := AddressOf(0x0800_2000, block);
      && (2 <= block < 122 ==> a == 0x0800_2000 + 1024 * (block - 2) && a + 1024 <= 0x0802_0000)
      && (IsReadable(a) <==> 2 <= block < 122)
  {
    var s := 0x0800_2000 + (block - 2) * 1024;
    assert 0 <= s < 0x1_0000_0000;
  }

  /** With the address pointer at the application, block 1, which lies below it, and the blocks from
      122 on, which lie behind the flash, have no data and lead to the error state. */
  lemma NothingOutside(d: Device, block: int)
    requires Ready(d) && d.dfu.prog.addr == 0x0800_2000 && (block == 1 || 122 <= block < 0x1_0000)
    ensures var p := ReadBlock(d, block);
      Ready(p.device) && p.data == [] && p.device.dfu.state == Dfu.Error && p.device.flash == d.flash
  {
    hide Rom.Valid, Step, EpInv, ReadBlock, AddressOf, IsReadable;
    ApplicationBlocks(block);
    BlockIsRead(d, block);
  }

  /** GETSTATUS tells the host of the error until CLRSTATUS ends it. */
  lemma ErrorIsReported(d: Device, block: int, status: seq<byte>, clear: seq<byte>)
    requires Ready(d) && d.dfu.prog.addr == 0x0800_2000 && (block == 1 || 122 <= block < 0x1_0000)
    requires Asks(status, 0xA1, 3) && Commands(clear, 4)
    ensures var e := ReadBlock(d, block).device;
      && Ready(e) && Gets(e, status, [10, 0, 0, 0, 10, 0])
      && Ready(Run(e, NoDataTokens(clear))) && Gets(Run(e, NoDataTokens(clear)), status, [0, 0, 0, 0, 2, 0])
  {
    hide Rom.Valid, Step, EpInv, ReadBlock, Gets, ReqLength;
    NothingOutside(d, block);
    GetStatusAnswers(ReadBlock(d, block).device, status, [10, 0, 0, 0, 10, 0]);
    ClearStatus(ReadBlock(d, block).device, clear, status);
  }

  /** A host that reads from a block on until it gets less than it has asked for. */
  function ReadOn(d: Device, block: int): (p: Part)
    requires Inv(d) && 0 <= block <= U16
    decreases U16 - block
  {
    if block == U16 then Part(d, [])
    else
      var p := ReadBlock(d, block);
      if |p.data| < 1024 then p
      else
        var rest := ReadOn(p.device, block + 1);
        Part(rest.device, p.data + rest.data)
  }

  lemma {:induction false} RestIsRead(d: Device, block: int)
    requires Ready(d) && d.dfu.prog.addr == 0x0800_2000 && 2 <= block <= 122
    ensures var p, at := ReadOn(d, block), 0x2000 + 1024 * (block - 2);
      && Ready(p.device) && p.device.flash == d.flash && p.device.dfu.state == Dfu.Error
      && at <= |d.flash.mem| && p.data == d.flash.mem[at..]
    decreases 122 - block
  {
    hide Rom.Valid, Step, EpInv, ReadBlock, AddressOf, IsReadable;
    ApplicationBlocks(block);
    BlockIsRead(d, block);
    FlashSize(d.flash);
    var p, at := ReadBlock(d, block), 0x2000 + 1024 * (block - 2);
    if block == 122 {
      assert d.flash.mem[at..] == [];
    } else {
      RestIsRead(p.device, block + 1);
      assert d.flash.mem[at..at + 1024] + d.flash.mem[at + 1024..] == d.flash.mem[at..];
    }
  }

  lemma FlashSize(f: Flash)
    requires f.Valid()
    ensures |f.mem| == 128 * 1024
  {
  }

  /** A host that reads blocks 2, 3, ... to the end gets the 120 KB of the application area, byte for
      byte, and the device is in the error state. */
  lemma UploadIsComplete(d: Device)
    requires Ready(d) && d.dfu.prog.addr == 0x0800_2000
    ensures var p := ReadOn(d, 2);
      && Ready(p.device) && p.device.flash == d.flash && p.device.dfu.state == Dfu.Error
      && |d.flash.mem| == 0x2_0000 && |p.data| == 120 * 1024 && p.data == d.flash.mem[0x2000..]
  {
    hide Rom.Valid, Step, EpInv, ReadOn;
    FlashSize(d.flash);
    RestIsRead(d, 2);
  }

  /** Download, then upload of everything: the host gets the padded image back, and behind it what
      was in the flash before. */
  lemma DownloadThenUpload(d: Device, image: seq<byte>)
    requires Ready(d) && |image| <= PAYLOAD
    ensures BOOT_SIZE + |PaddedImage(image)| <= |d.flash.mem|
    ensures var e := Run(d, DownloadTokens(image) + SendTokens(SetAddressPayload(APP)));
      Ready(e) && ReadOn(e, 2).data == PaddedImage(image) + d.flash.mem[BOOT_SIZE + |PaddedImage(image)|..]
  {
    hide Rom.Valid, Step, EpInv, ReadOn, DownloadTokens, SendTokens, SetAddressPayload, PaddedImage, Splice, Perform;
    DownloadWritesImage(d, image);
    var r := Run(d, DownloadTokens(image));
    SendPayload(r, SetAddressPayload(APP));
    SetAddressEffect(MachineOf(r), APP);
    RunAppend(d, DownloadTokens(image), SendTokens(SetAddressPayload(APP)));
    UploadIsComplete(Run(r, SendTokens(SetAddressPayload(APP))));
    FlashSize(d.flash);
    BehindSplice(d.flash.mem, PaddedImage(image));
  }

  lemma BehindSplice(mem: seq<byte>, p: seq<byte>)
    requires BOOT_SIZE + |p| <= |mem|
    ensures Splice(mem, BOOT_SIZE, p)[BOOT_SIZE..] == p + mem[BOOT_SIZE + |p|..]
  {
  }
}
