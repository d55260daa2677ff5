/** What the device answers to the requests of an enumeration, by the bytes of the request: section
    9.4 of USB 2.0, and the vendor request of the WinUSB descriptors. */
module Enumeration {
  import opened Bytes
  import opened Usb
  import opened UsbRun
  import opened ControlWrite
  import opened Transfers
  import opened Answers
  import Dfu
  import PlainRegister

  /** A request with its type and code as bytes, which asks for data. */
  predicate Asks(q: seq<byte>, kind: byte, code: byte) {
    IsRequest(q) && q[0] == kind && q[1] == code && ReqLength(q) > 0
  }

  // The type byte

  /** The recipient of a standard request. */
  lemma Recipient(b: byte)
    ensures b < 0x20 ==> b % 0x20 == b
    ensures 0x80 <= b < 0xA0 ==> b % 0x20 == b - 0x80
  {
  }

  lemma ToDevice(e: Device)
    requires e.Valid() && (e.ep.req[0] == 0x00 || e.ep.req[0] == 0x80)
    ensures Dispatch(e) == DeviceRequest(e)
  {
    hide Rom.Valid, DeviceRequest, DfuDispatch;
    Recipient(e.ep.req[0]);
  }

  lemma ToInterface(e: Device)
    requires e.Valid() && (e.ep.req[0] == 0x01 || e.ep.req[0] == 0x81)
    ensures Dispatch(e) == InterfaceRequest(e)
  {
    hide Rom.Valid, InterfaceRequest, DfuDispatch;
    Recipient(e.ep.req[0]);
  }

  lemma ToEndpoint(e: Device)
    requires e.Valid() && (e.ep.req[0] == 0x02 || e.ep.req[0] == 0x82)
    ensures Dispatch(e) == EndpointRequest(e)
  {
    hide Rom.Valid, EndpointRequest, DfuDispatch;
    Recipient(e.ep.req[0]);
  }

  lemma ToDfu(e: Device)
    requires e.Valid() && (e.ep.req[0] == 0x21 || e.ep.req[0] == 0xA1)
    ensures Dispatch(e) == DfuDispatch(e)
  {
    hide Rom.Valid, DfuDispatch;
  }

  lemma ValueBytes(q: seq<byte>)
    requires IsRequest(q)
    ensures ReqValue(q) / 256 == q[3] && ReqValue(q) % 256 == q[2]
    ensures ReqIndex(q) % 256 == q[4]
    ensures ReqIndex(q) == 0x409 <==> q[4] == 0x09 && q[5] == 0x04
    ensures ReqValue(q) == 1 <==> q[2] == 1 && q[3] == 0
    ensures ReqValue(q) == 0 <==> q[2] == 0 && q[3] == 0
    ensures ReqValue(q) < 128 <==> q[2] < 128 && q[3] == 0
  {
  }

  // Descriptors

  /** GET_DESCRIPTOR for the device and the configuration. */
  lemma DescriptorAnswers(d: Device, q: seq<byte>)
    requires Ready(d) && Asks(q, 0x80, 6)
    ensures q[3] == 1 ==> Gets(d, q, d.rom.device)
    ensures q[3] == 2 ==> Gets(d, q, d.rom.config)
  {
    hide Rom.Valid, Step, EpInv, ReqLength, ReqValue, ReqIndex, Answer, Dispatch, Gets;
    var e := Asked(d, q);
    ToDevice(e);
    ValueBytes(q);
    RomLengths(d.rom);
    if q[3] == 1 {
      BodyIsRead(d, q, d.rom.device);
    } else if q[3] == 2 {
      BodyIsRead(d, q, d.rom.config);
    }
  }

  /** GET_DESCRIPTOR for a string: the list of languages, the OS string, one of the strings in US
      English, or a refusal. */
  lemma StringAnswers(d: Device, q: seq<byte>)
    requires Ready(d) && Asks(q, 0x80, 6) && q[3] == 3
    ensures q[2] == 0x00 ==> Gets(d, q, d.rom.language)
    ensures q[2] == 0xEE ==> Gets(d, q, d.rom.osString)
    ensures q[2] != 0x00 && q[2] != 0xEE ==>
      if q[2] <= |d.rom.strings| && q[4] == 0x09 && q[5] == 0x04 then Gets(d, q, d.rom.strings[q[2] - 1])
      else IsRefused(d, q)
  {
    hide Step, EpInv, ReqLength, ReqValue, ReqIndex, Answer, Dispatch, Gets, IsRefused, Splice;
    var e := Asked(d, q);
    ToDevice(e);
    ValueBytes(q);
    if q[2] == 0 {
      BodyIsRead(d, q, d.rom.language);
    } else if q[2] == 0xEE {
      BodyIsRead(d, q, d.rom.osString);
    } else if q[2] <= |d.rom.strings| && q[4] == 0x09 && q[5] == 0x04 {
      BodyIsRead(d, q, d.rom.strings[q[2] - 1]);
    } else {
      RefusalIsSeen(d, q);
    }
  }

  /** The vendor request 0x41 answers the WinUSB descriptors. */
  lemma VendorAnswers(d: Device, q: seq<byte>)
    requires Ready(d) && Asks(q, 0xC0, 0x41)
    ensures Gets(d, q, d.rom.winusb)
  {
    RomLengths(d.rom);
    WinusbLength(d.rom);
    hide Rom.Valid, Step, EpInv, ReqLength, Answer, Gets;
    BodyIsRead(d, q, d.rom.winusb);
  }

  lemma WinusbLength(rom: Rom)
    requires rom.Valid()
    ensures |rom.winusb| < 256
  {
  }

  // Status and configuration

  /** GET_CONFIGURATION, GET_STATUS of the device and GET_INTERFACE. GET_STATUS of an interface is
      refused, and SET_INTERFACE has no answer. */
  lemma StatusAnswers(d: Device, q: seq<byte>)
    requires Ready(d)
    ensures Asks(q, 0x80, 8) ==> Gets(d, q, [1])
    ensures Asks(q, 0x80, 0) ==> Gets(d, q, [0, 0])
    ensures Asks(q, 0x81, 10) ==> Gets(d, q, [1])
    ensures Asks(q, 0x81, 11) ==> Gets(d, q, [])
    ensures Asks(q, 0x81, 0) ==> IsRefused(d, q)
  {
    hide Rom.Valid, Step, EpInv, ReqLength, ReqValue, Answer, Dispatch, Gets, IsRefused, Splice;
    if Asks(q, 0x80, 8) || Asks(q, 0x80, 0) {
      ToDevice(Asked(d, q));
      BodyIsRead(d, q, if q[1] == 8 then [1] else [0, 0]);
    } else if Asks(q, 0x81, 10) {
      ToInterface(Asked(d, q));
      BodyIsRead(d, q, [1]);
    } else if Asks(q, 0x81, 11) {
      ToInterface(Asked(d, q));
      assert Dispatch(Asked(d, q)).device.ram[..0] == [];
      AnswerIsRead(d, q, []);
    } else if Asks(q, 0x81, 0) {
      ToInterface(Asked(d, q));
      RefusalIsSeen(d, q);
    }
  }

  // Which requests are handled

  /** The requests that are not refused, by their bytes. */
  predicate Supported(rom: Rom, q: seq<byte>)
    requires rom.Valid() && IsRequest(q)
  {
    if q[0] == 0x21 || q[0] == 0xA1 then q[1] <= 6
    else if q[0] == 0x40 || q[0] == 0xC0 then q[1] == 0x41
    else if q[0] == 0x00 || q[0] == 0x80 then
      || q[1] == 0 || q[1] == 8 || (q[1] == 9 && q[2] == 1 && q[3] == 0)
      || (q[1] == 5 && q[0] == 0x00 && q[2] < 128 && q[3] == 0)
      || (q[1] == 6 && (q[3] == 1 || q[3] == 2 || (q[3] == 3 && HasString(rom, q))))
    else if q[0] == 0x01 || q[0] == 0x81 then q[1] == 10 || q[1] == 11
    else if q[0] == 0x02 || q[0] == 0x82 then q[1] == 0 || ((q[1] == 1 || q[1] == 3) && q[2] == 0 && q[3] == 0)
    else false
  }

  predicate HasString(rom: Rom, q: seq<byte>)
    requires IsRequest(q)
  {
    q[2] == 0x00 || q[2] == 0xEE || (q[2] <= |rom.strings| && q[4] == 0x09 && q[5] == 0x04)
  }

  /** A request is handled if and only if it is in this table. */
  lemma HandledExactly(e: Device)
    requires e.Valid()
    ensures Dispatch(e).ok <==> Supported(e.rom, e.ep.req)
  {
    hide Rom.Valid, DeviceRequest, InterfaceRequest, EndpointRequest, DfuDispatch, Answer, Supported;
    var q := e.ep.req;
    Recipient(q[0]);
    SupportedTypes(e.rom, q);
    if q[0] == 0x00 || q[0] == 0x80 {
      DeviceExactly(e);
    } else if q[0] == 0x01 || q[0] == 0x81 {
      InterfaceExactly(e);
    } else if q[0] == 0x02 || q[0] == 0x82 {
      EndpointExactly(e);
    } else if q[0] == 0x21 || q[0] == 0xA1 {
      DfuExactly(e);
    }
  }

  lemma SupportedTypes(rom: Rom, q: seq<byte>)
    requires rom.Valid() && IsRequest(q)
    ensures q[0] == 0x40 || q[0] == 0xC0 ==> (Supported(rom, q) <==> q[1] == 0x41)
    ensures Supported(rom, q) ==>
      || q[0] == 0x00 || q[0] == 0x80 || q[0] == 0x01 || q[0] == 0x81 || q[0] == 0x02 || q[0] == 0x82
      || q[0] == 0x21 || q[0] == 0xA1 || q[0] == 0x40 || q[0] == 0xC0
  {
    hide Rom.Valid;
  }

  lemma DeviceExactly(e: Device)
    requires e.Valid() && (e.ep.req[0] == 0x00 || e.ep.req[0] == 0x80)
    ensures DeviceRequest(e).ok <==> Supported(e.rom, e.ep.req)
  {
    hide Rom.Valid, Answer, Splice, ReqValue, ReqIndex;
    ValueBytes(e.ep.req);
  }

  lemma InterfaceExactly(e: Device)
    requires e.Valid() && (e.ep.req[0] == 0x01 || e.ep.req[0] == 0x81)
    ensures InterfaceRequest(e).ok <==> Supported(e.rom, e.ep.req)
  {
    hide Rom.Valid, Answer;
  }

  lemma EndpointExactly(e: Device)
    requires e.Valid() && (e.ep.req[0] == 0x02 || e.ep.req[0] == 0x82)
    ensures EndpointRequest(e).ok <==> Supported(e.rom, e.ep.req)
  {
    hide Rom.Valid, Answer, StallSet, StallGet, ReqValue, ReqIndex;
    ValueBytes(e.ep.req);
  }

  lemma DfuExactly(e: Device)
    requires e.Valid() && (e.ep.req[0] == 0x21 || e.ep.req[0] == 0xA1)
    ensures DfuDispatch(e).ok <==> Supported(e.rom, e.ep.req)
  {
    hide Rom.Valid, Splice, Dfu.FlashBytes, Dfu.StatusBytes, Dfu.InApplication, ReqValue, ReqLength;
  }

  /** Every other request is refused with a STALL, before any data. */
  lemma UnsupportedIsRefused(d: Device, q: seq<byte>)
    requires Ready(d) && IsRequest(q) && (IsIn(q) || ReqLength(q) == 0) && !Supported(d.rom, q)
    ensures IsRefused(d, q)
  {
    hide Rom.Valid, Dispatch, Step, EpInv, ReqLength, IsIn, Supported, IsRefused;
    HandledExactly(Asked(d, q));
    RefusalIsSeen(d, q);
  }

  /** A write of such a request is refused behind its data. */
  lemma UnsupportedWriteIsRefused(d: Device, q: seq<byte>, data: seq<byte>)
    requires Ready(d) && IsRequest(q) && !IsIn(q) && 0 < ReqLength(q) == |data| <= Dfu.TRANSFER && !Supported(d.rom, q)
    ensures var r := Run(d, WriteTokens(q, data));
      r.ep.tx == Stall && r.ep.rx == Stall && r.ep.fsm == Idle && r.dfu == d.dfu && r.flash == d.flash
  {
    hide Rom.Valid, Dispatch, Step, EpInv, ReqLength, IsIn, Supported, LogGrows;
    ControlWriteReassembles(d, q, data);
    var g := WithData(d, q, data);
    var e := g.Log(Delivered(q, g.ram[..g.ep.datasize]));
    HandledExactly(e);
    DispatchFrame(e);
    RefusedKeepsDriver(e);
  }

  lemma RefusedKeepsDriver(e: Device)
    requires e.Valid() && !Dispatch(e).ok
    ensures Dispatch(e).device.dfu == e.dfu
  {
    if IsClassInterface(e.ep.req) {
      RefusedByDfu(e);
    } else {
      hide Rom.Valid, StandardRequest, DfuDispatch, HaltDone;
      StandardFrame(e);
      HaltFrame(e, e.ep.req);
    }
  }

  lemma RefusedByDfu(e: Device)
    requires e.Valid() && !DfuDispatch(e).ok
    ensures DfuDispatch(e).device.dfu == e.dfu
  {
    hide Rom.Valid, Splice, Dfu.FlashBytes, Dfu.StatusBytes, Dfu.InApplication, ReqValue, ReqLength;
  }

  // Halted endpoints

  /** An address of one of the endpoints from 1 to 7. */
  predicate IsOther(addr: byte) {
    1 <= addr <= 7 || 0x81 <= addr <= 0x87
  }

  /** GET_STATUS of an endpoint, which names it in the low byte of wIndex. Endpoint 0 is never halted
      when it answers. */
  lemma EndpointStatus(d: Device, q: seq<byte>)
    requires Ready(d) && Asks(q, 0x82, 0)
    ensures q[4] == 0x00 || q[4] == 0x80 ==> Gets(d, q, [0, 0])
    ensures IsOther(q[4]) ==> Gets(d, q, if q[4] in d.halted then [1, 0] else [0, 0])
  {
    hide Rom.Valid, Step, EpInv, ReqLength, ReqValue, ReqIndex, Answer, Dispatch, Gets;
    var e := Asked(d, q);
    ToEndpoint(e);
    ValueBytes(q);
    if q[4] == 0x00 || q[4] == 0x80 {
      BodyIsRead(d, q, [0, 0]);
    } else if IsOther(q[4]) {
      NotDaddr(q[4]);
      BodyIsRead(d, q, if q[4] in d.halted then [1, 0] else [0, 0]);
    }
  }

  /** For the endpoint address 0x93 it looks at the register USB_DADDR, of whatever value. */
  lemma DaddrStatus(d: Device, q: seq<byte>, r: bv16)
    requires Ready(d) && Asks(q, 0x82, 0) && q[4] == 0x93 && d.ep.daddr == PlainRegister.LowByte(r)
    ensures Gets(d, q, if r & 0x0030 == 0x0010 then [1, 0] else [0, 0])
  {
    PlainRegister.StatusBitsOf(r);
    hide Rom.Valid, Step, EpInv, ReqLength, ReqValue, ReqIndex, Answer, Dispatch, Gets, PlainRegister.LowByte;
    ToEndpoint(Asked(d, q));
    ValueBytes(q);
    BodyIsRead(d, q, if r & 0x0030 == 0x0010 then [1, 0] else [0, 0]);
  }

  lemma NotDaddr(addr: byte)
    requires IsOther(addr)
    ensures addr != 0x00 && addr != 0x80 && addr != DADDR_NUMBER + 0x80 && 1 <= NumberOf(addr) < 8
  {
  }

  /** SET_FEATURE (3) or CLEAR_FEATURE (1) of ENDPOINT_HALT for an endpoint from 1 to 7. */
  predicate HaltsEndpoint(q: seq<byte>) {
    && IsRequest(q) && q[0] == 0x02 && (q[1] == 1 || q[1] == 3) && q[2] == 0 && q[3] == 0 && IsOther(q[4])
    && q[6] == 0 && q[7] == 0
  }

  lemma HaltLength(q: seq<byte>)
    requires HaltsEndpoint(q)
    ensures ReqLength(q) == 0
  {
  }

  lemma HaltIsNoAddress(q: seq<byte>)
    requires HaltsEndpoint(q)
    ensures !Usb.IsSetAddress(q)
  {
  }

  lemma EndpointHalted(e: Device, addr: byte, stall: bool)
    requires e.Valid() && IsOther(addr)
    ensures StallSet(e, addr, stall) ==
            e.(halted := if stall then e.halted + {addr as int} else e.halted - {addr as int})
  {
    hide Rom.Valid, HaltedRegister;
    NotDaddr(addr);
  }

  lemma HaltDispatched(d: Device, q: seq<byte>)
    requires d.Valid() && HaltsEndpoint(q)
    ensures var h := Dispatch(Asked(d, q));
      && h.ok && h.device.link == d.link && !h.device.ep.callback && h.device.dfu == d.dfu && h.device.flash == d.flash
      && h.device.halted == if q[1] == 3 then d.halted + {q[4] as int} else d.halted - {q[4] as int}
  {
    hide Rom.Valid, Dispatch, ReqValue, ReqIndex, StallSet;
    var e := Asked(d, q);
    ToEndpoint(e);
    ValueBytes(q);
    EndpointHalted(e.Log(HaltRequest(q[4], q[1] == 3)), q[4], q[1] == 3);
  }

  /** A halt is reported from the next GET_STATUS on until it is cleared, and for no other endpoint
      address. */
  lemma HaltIsReported(d: Device, q: seq<byte>, ask: seq<byte>)
    requires Ready(d) && HaltsEndpoint(q) && Asks(ask, 0x82, 0) && IsOther(ask[4])
    ensures var r := Run(d, NoDataTokens(q));
      && Ready(r) && r.dfu == d.dfu && r.flash == d.flash
      && (ask[4] == q[4] ==> Gets(r, ask, if q[1] == 3 then [1, 0] else [0, 0]))
      && (ask[4] != q[4] ==> Gets(r, ask, if ask[4] in d.halted then [1, 0] else [0, 0]))
  {
    hide Rom.Valid, Dispatch, Step, EpInv, Gets, ReqLength, Usb.IsSetAddress;
    HaltLength(q);
    HaltIsNoAddress(q);
    HaltDispatched(d, q);
    NoDataTransfer(d, q);
    EndpointStatus(Run(d, NoDataTokens(q)), ask);
  }

  /** SET_CONFIGURATION for configuration 1 ends all halts. */
  lemma ConfigurationClearsHalts(d: Device, q: seq<byte>, ask: seq<byte>)
    requires Ready(d) && q == [0x00, 9, 1, 0, 0, 0, 0, 0] && Asks(ask, 0x82, 0) && IsOther(ask[4])
    ensures var r := Run(d, NoDataTokens(q));
      Ready(r) && r.dfu == d.dfu && r.flash == d.flash && Gets(r, ask, [0, 0])
  {
    hide Rom.Valid, Dispatch, Step, EpInv, Gets, ReqLength, Usb.IsSetAddress;
    ConfigurationLength(q);
    ConfigurationIsNoAddress(q);
    ConfigurationDispatched(d, q);
    NoDataTransfer(d, q);
    EndpointStatus(Run(d, NoDataTokens(q)), ask);
  }

  /** So does a bus reset. */
  lemma ResetClearsHalts(d: Device, ask: seq<byte>)
    requires Ready(d) && Asks(ask, 0x82, 0) && IsOther(ask[4])
    ensures var r := Step(d, ResetSignal);
      Ready(r) && r.dfu == d.dfu && r.flash == d.flash && r.ep.daddr == 0x80 && Gets(r, ask, [0, 0])
  {
    hide Rom.Valid, Step, EpInv, Gets, ReqLength;
    ResetStep(d);
    EndpointStatus(Step(d, ResetSignal), ask);
  }

  lemma ResetStep(d: Device)
    requires Ready(d)
    ensures var r := Step(d, ResetSignal);
      && !Deaf(r) && !r.ep.ctrRx && r.ep.rx == Valid && r.halted == {}
      && r.dfu == d.dfu && r.flash == d.flash && r.ep.daddr == 0x80
  {
    hide Rom.Valid, ControlOut, RegistersCallback, IsGetStatus;
  }

  lemma ConfigurationDispatched(d: Device, q: seq<byte>)
    requires d.Valid() && q == [0x00, 9, 1, 0, 0, 0, 0, 0]
    ensures var h := Dispatch(Asked(d, q));
      && h.ok && h.device.link == d.link && !h.device.ep.callback && h.device.dfu == d.dfu && h.device.flash == d.flash
      && forall a: byte :: a as int in h.device.halted ==> !IsOther(a)
  {
    hide Rom.Valid, Dispatch, ReqValue, Answer, GetDescriptor;
    ToDevice(Asked(d, q));
    ValueBytes(q);
  }

  lemma ConfigurationLength(q: seq<byte>)
    requires q == [0x00, 9, 1, 0, 0, 0, 0, 0]
    ensures ReqLength(q) == 0
  {
  }

  lemma ConfigurationIsNoAddress(q: seq<byte>)
    requires q == [0x00, 9, 1, 0, 0, 0, 0, 0]
    ensures !Usb.IsSetAddress(q)
  {
  }
}
