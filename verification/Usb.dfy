/** The control endpoint (Core/Src/usb.c) as a transition function over host tokens.

    The peripheral delivers a SETUP at any time, which sets both endpoint halves to NAK; an OUT
    packet is accepted only while reception is VALID and sets it to NAK; an IN packet is
    collected only while transmission is VALID and sets it to NAK. Each completion is serviced
    before the next token. A token the endpoint does not accept is answered with NAK or STALL
    by the hardware and leaves the device as it is.

    The SETUP bit of the endpoint register tells a SETUP from an OUT packet. The hardware keeps
    it frozen as long as CTR_RX, the flag of an unserved packet, is set. */
module Usb {
  import opened Bytes
  import opened FlashMemory
  import Dfu

  const MAX_PACKET := 64
  /** The control buffer and the RAM behind it, as far as a 16-bit length can reach. */
  const RAM_SPAN := Dfu.TRANSFER + U16

  datatype Fsm = Idle | Stalled | DataIn | LastDataIn | StatusIn | DataOut | LastDataOut | StatusOut

  datatype Stat = Disabled | Stall | Nak | Valid

  /** The request in usb_req: eight bytes as they came with the SETUP. */
  predicate IsRequest(q: seq<byte>) {
    |q| == 8
  }

  function ReqType(q: seq<byte>): byte requires IsRequest(q) { q[0] }

  function ReqCode(q: seq<byte>): byte requires IsRequest(q) { q[1] }

  function ReqValue(q: seq<byte>): (v: int)
    requires IsRequest(q)
    ensures 0 <= v < U16
  {
    Le16(q[2], q[3])
  }

  function ReqIndex(q: seq<byte>): (v: int)
    requires IsRequest(q)
    ensures 0 <= v < U16
  {
    Le16(q[4], q[5])
  }

  function ReqLength(q: seq<byte>): (v: nat)
    requires IsRequest(q)
    ensures v < U16
  {
    Le16(q[6], q[7])
  }

  /** Bit 7 of the request type. */
  predicate IsIn(q: seq<byte>) requires IsRequest(q) { ReqType(q) >= 0x80 }

  /** Class requests to the interface, vendor requests to the device and all standard requests, by
      the whole type byte with or without the direction bit. */
  predicate IsClassInterface(q: seq<byte>) requires IsRequest(q) {
    ReqType(q) == 0x21 || ReqType(q) == 0xA1
  }

  predicate IsVendorDevice(q: seq<byte>) requires IsRequest(q) {
    ReqType(q) == 0x40 || ReqType(q) == 0xC0
  }

  predicate IsStandard(q: seq<byte>) requires IsRequest(q) {
    ReqType(q) < 0x20 || 0x80 <= ReqType(q) < 0xA0
  }

  /** The same by the fields of the type byte, bits 6..5 and bits 4..0. */
  lemma TypeFields(q: seq<byte>)
    requires IsRequest(q)
    ensures IsClassInterface(q) <==> ReqType(q) / 0x20 % 4 == 1 && ReqType(q) % 0x20 == 1
    ensures IsVendorDevice(q) <==> ReqType(q) / 0x20 % 4 == 2 && ReqType(q) % 0x20 == 0
    ensures IsStandard(q) <==> ReqType(q) / 0x20 % 4 == 0
  {
  }

  predicate IsSetAddress(q: seq<byte>) requires IsRequest(q) {
    ReqType(q) == 0 && ReqCode(q) == 5
  }

  /** The constant answers of the device: descriptors, strings and the WinUSB block. */
  datatype Rom = Rom(device: seq<byte>, config: seq<byte>, language: seq<byte>, osString: seq<byte>,
                     strings: seq<seq<byte>>, winusb: seq<byte>)
  {
    predicate Valid() {
      && |device| < 256 && |config| < 256 && |language| < 256 && |osString| < 256 && |winusb| < 256
      && forall i :: 0 <= i < |strings| ==> |strings[i]| < 256
    }
  }

  /** What happened, in order. */
  datatype Event =
    | Setup(request: seq<byte>)
    | DfuRequest(code: byte, value: int, len: nat, payload: seq<byte>)
    | Packet(data: seq<byte>)
    | Delivered(request: seq<byte>, data: seq<byte>)
    | HaltRequest(addr: int, stall: bool)
    | StatusDone(request: seq<byte>)
    | Committed(prog: Dfu.Prog)
    | SystemReset
    | BusReset
    | PacketDropped

  /** The endpoint and the globals of usb.c. `callback` says that usb_complete_cb is set, `setup`
      and `ctrRx` are bits of the endpoint register, daddr is the register USB_DADDR. */
  datatype Ep0 = Ep0(fsm: Fsm, datasize: nat, dataoff: nat, needsZlp: bool, req: seq<byte>, forceNak: bool,
                     callback: bool, tx: Stat, rx: Stat, setup: bool, ctrRx: bool,
                     txPacket: seq<byte>, rxPacket: seq<byte>, daddr: int)

  /** Whether the peripheral still works as usb_init has left it: not if BTABLE was moved away from
      the packet buffers, and not if it was made to drive resume signalling onto the bus. */
  datatype Link = Up | TableMoved | Resuming

  /** The whole device. The first 1024 bytes of ram are the control buffer. `halted` holds the
      addresses of the endpoints 1 to 7 whose status is STALL. A device that was reset does
      nothing more, and one whose link is lost is not followed any further. */
  datatype Device = Device(ep: Ep0, ram: seq<byte>, dfu: Dfu.Driver, flash: Flash, rom: Rom, halted: set<int>,
                           link: Link, reset: bool, log: seq<Event>)
  {
    predicate Valid() {
      && IsRequest(ep.req) && |ram| == RAM_SPAN && dfu.Valid() && flash.Valid() && rom.Valid()
      && ep.datasize < U16 && |ep.txPacket| <= MAX_PACKET && |ep.rxPacket| <= MAX_PACKET
    }

    function Log(e: Event): Device {
      this.(log := log + [e])
    }
  }

  datatype Token =
    | SetupToken(data: seq<byte>)
    | OutToken(data: seq<byte>)
    | InToken
    | ResetSignal

  /** The device after a step of usb.c that reports success or failure. */
  datatype Outcome = Outcome(device: Device, ok: bool)

  // The functions below are the functions of usb.c.

  /** _stall_transaction, with _ep_stall_set(0, 1). */
  function StallTransaction(d: Device): (r: Device)
    requires d.Valid()
    ensures r.Valid()
  {
    d.(ep := d.ep.(tx := Stall, rx := Stall, fsm := Idle))
  }

  /** _usbd_ep_write_packet(0, data). */
  function WritePacket(d: Device, data: seq<byte>): (r: Device)
    requires d.Valid() && |data| <= MAX_PACKET
    ensures r.Valid()
  {
    if d.ep.tx == Valid then d.Log(PacketDropped)
    else d.(ep := d.ep.(txPacket := data, tx := Valid))
  }

  /** The bytes _usbd_ep_read_packet hands over when asked for at most len. */
  function Received(d: Device, len: nat): (s: seq<byte>)
    ensures |s| <= len
  {
    if d.ep.rx == Valid then [] else d.ep.rxPacket[..Min(|d.ep.rxPacket|, len)]
  }

  /** What _usbd_ep_read_packet does to the endpoint. */
  function ReadPacket(d: Device): (r: Device)
    requires d.Valid()
    ensures r.Valid()
  {
    if d.ep.rx == Valid then d.Log(PacketDropped)
    else d.(ep := d.ep.(ctrRx := false, rx := if d.ep.forceNak then d.ep.rx else Valid))
  }

  /** _usbd_ep_nak_set(0, nak). */
  function NakSet(d: Device, nak: bool): (r: Device)
    requires d.Valid()
    ensures r.Valid()
  {
    d.(ep := d.ep.(forceNak := nak, rx := if nak then Nak else Valid))
  }

  /** usb_control_send_chunk. */
  function SendChunk(d: Device): (r: Device)
    requires d.Valid() && d.ep.dataoff + d.ep.datasize <= RAM_SPAN
    ensures r.Valid() && r.ep.dataoff + r.ep.datasize <= RAM_SPAN
  {
    if MAX_PACKET < d.ep.datasize then
      var w := WritePacket(d, d.ram[d.ep.dataoff..d.ep.dataoff + MAX_PACKET]);
      w.(ep := w.ep.(fsm := DataIn, dataoff := d.ep.dataoff + MAX_PACKET, datasize := d.ep.datasize - MAX_PACKET))
    else
      var w := WritePacket(d, d.ram[d.ep.dataoff..d.ep.dataoff + d.ep.datasize]);
      w.(ep := w.ep.(fsm := if d.ep.needsZlp then DataIn else LastDataIn, needsZlp := false, datasize := 0))
  }

  /** usb_control_recv_chunk: the device afterwards and whether the chunk was complete. */
  function RecvChunk(d: Device): (r: Outcome)
    requires d.Valid() && d.ep.datasize <= ReqLength(d.ep.req) <= Dfu.TRANSFER
    ensures r.device.Valid() && (r.ok ==> r.device.ep.datasize <= Dfu.TRANSFER)
  {
    var size := Min(MAX_PACKET, ReqLength(d.ep.req) - d.ep.datasize);
    var data := Received(d, size);
    var e := ReadPacket(d).(ram := Splice(d.ram, d.ep.datasize, data));
    if |data| != size then Outcome(StallTransaction(e), false)
    else Outcome(e.(ep := e.ep.(datasize := d.ep.datasize + size)), true)
  }

  /** The handler puts an answer at the start of the control buffer. */
  function Answer(d: Device, body: seq<byte>): (r: Device)
    requires d.Valid() && |body| < 256
    ensures r.Valid()
  {
    d.(ram := Splice(d.ram, 0, body), ep := d.ep.(datasize := |body|))
  }

  /** The string that usb_standard_get_descriptor selects, if there is one. */
  function StringFor(rom: Rom, index: int, language: int): (s: seq<seq<byte>>)
    requires rom.Valid() && 0 <= index
    ensures |s| <= 1 && (s != [] ==> |s[0]| < 256)
  {
    if index == 0 then [rom.language]
    else if index == 0xEE then [rom.osString]
    else if index - 1 < |rom.strings| && language == 0x409 then [rom.strings[index - 1]]
    else []
  }

  /** usb_standard_get_descriptor. A refused string leaves its type byte in the buffer. */
  function GetDescriptor(d: Device): (r: Outcome)
    requires d.Valid()
    ensures r.device.Valid()
  {
    var kind, index := ReqValue(d.ep.req) / 256, ReqValue(d.ep.req) % 256;
    if kind == 1 then Outcome(Answer(d, d.rom.device), true)
    else if kind == 2 then Outcome(Answer(d, d.rom.config), true)
    else if kind == 3 then
      var s := StringFor(d.rom, index, ReqIndex(d.ep.req));
      if s == [] then Outcome(d.(ram := Splice(d.ram, 1, [3])), false) else Outcome(Answer(d, s[0]), true)
    else Outcome(d, false)
  }

  /** _usbd_standard_request_device. */
  function DeviceRequest(d: Device): (r: Outcome)
    requires d.Valid()
    ensures r.device.Valid()
  {
    var code := ReqCode(d.ep.req);
    if code == 5 then Outcome(d, ReqType(d.ep.req) == 0 && ReqValue(d.ep.req) < 128)
    else if code == 9 then
      if ReqValue(d.ep.req) != 1 then Outcome(d, false)
      else Outcome(d.(halted := set a | a in d.halted && !(1 <= a % 0x80 < 8)), true)
    else if code == 8 then Outcome(Answer(d, [1]), true)
    else if code == 6 then GetDescriptor(d)
    else if code == 0 then Outcome(Answer(d, [0, 0]), true)
    else Outcome(d, false)
  }

  /** _usbd_standard_request_interface. GET_STATUS fills the buffer and is then refused. */
  function InterfaceRequest(d: Device): (r: Outcome)
    requires d.Valid()
    ensures r.device.Valid()
  {
    var code := ReqCode(d.ep.req);
    if code == 10 then Outcome(Answer(d, [1]), true)
    else if code == 11 then Outcome(d.(ep := d.ep.(datasize := 0)), true)
    else if code == 0 then Outcome(Answer(d, [0, 0]), false)
    else Outcome(d, false)
  }

  /** The registers behind those of the endpoints, by the endpoint number that reaches them. */
  const CNTR_NUMBER := 16
  const DADDR_NUMBER := 19
  const BTABLE_NUMBER := 20

  /** The endpoint number in an endpoint address. */
  function NumberOf(addr: int): int {
    addr % 0x80
  }

  /** The seven address bits of USB_DADDR after the status macros were applied to it as if it
      were an endpoint register. Bit 4 alone survives as a toggle, and only for IN with STALL. */
  function HaltedAddress(a: int, addr: int, stall: bool): (r: int)
    requires 0 <= a < 0x80
    ensures 0 <= r < 0x80
  {
    if addr >= 0x80 && stall then (if a / 0x10 % 2 == 0 then a % 0x40 + 0x10 else a % 0x40 - 0x10) else a % 0x10
  }

  /** The whole register: the macros set bit 7, the enable bit. */
  function HaltedRegister(daddr: int, addr: int, stall: bool): int {
    HaltedAddress(daddr % 0x80, addr, stall) + 0x80
  }

  /** _ep_stall_set for the endpoint address in wIndex. Nothing keeps the endpoint number below
      8: from 16 on it reaches the control registers of the peripheral. */
  function StallSet(d: Device, addr: int, stall: bool): (r: Device)
    requires d.Valid()
    ensures r.Valid()
  {
    var tx := if stall then Stall else Nak;
    if addr == 0 then d.(ep := d.ep.(tx := tx, rx := if stall then Stall else Valid))
    else if addr == 0x80 then d.(ep := d.ep.(tx := tx))
    else StallOther(d, addr, stall)
  }

  /** The same for endpoint numbers other than 0. */
  function StallOther(d: Device, addr: int, stall: bool): (r: Device)
    requires d.Valid()
    ensures r.Valid()
  {
    var number := NumberOf(addr);
    if number < 8 then d.(halted := if stall then d.halted + {addr} else d.halted - {addr})
    else if number == DADDR_NUMBER then
      d.(ep := d.ep.(daddr := HaltedRegister(d.ep.daddr, addr, stall)))
    else if number == BTABLE_NUMBER then d.(link := TableMoved)
    else if addr == CNTR_NUMBER + 0x80 && stall then d.(link := Resuming)
    else d
  }

  /** _ep_stall_get. The endpoint address 0x93 reads bits 5 and 4 of USB_DADDR. */
  predicate StallGet(d: Device, addr: int) {
    if addr == 0 then d.ep.rx == Stall
    else if addr == 0x80 then d.ep.tx == Stall
    else if addr == DADDR_NUMBER + 0x80 then d.ep.daddr / 0x10 % 4 == 1
    else addr in d.halted
  }

  /** _usbd_standard_request_endpoint. */
  function EndpointRequest(d: Device): (r: Outcome)
    requires d.Valid()
    ensures r.device.Valid()
  {
    var code, addr := ReqCode(d.ep.req), ReqIndex(d.ep.req) % 256;
    if code == 1 || code == 3 then
      if ReqValue(d.ep.req) == 0 then Outcome(StallSet(d.Log(HaltRequest(addr, code == 3)), addr, code == 3), true)
      else Outcome(d, false)
    else if code == 0 then
      Outcome(Answer(d, [if StallGet(d, addr) then 1 else 0, 0]), true)
    else Outcome(d, false)
  }

  /** _usbd_standard_request. */
  function StandardRequest(d: Device): (r: Outcome)
    requires d.Valid()
    ensures r.device.Valid()
  {
    var recipient := ReqType(d.ep.req) % 0x20;
    if !IsStandard(d.ep.req) then Outcome(d, false)
    else if recipient == 0 then DeviceRequest(d)
    else if recipient == 1 then InterfaceRequest(d)
    else if recipient == 2 then EndpointRequest(d)
    else Outcome(d, false)
  }

  /** The class request, as usb_control_request_dispatch hands it to the DFU driver. */
  function DfuDispatch(d: Device): (r: Outcome)
    requires d.Valid()
    ensures r.device.Valid()
  {
    var q := d.ep.req;
    var p := Dfu.Request(d.dfu, d.ram, d.flash, ReqCode(q), ReqValue(q), ReqLength(q));
    var e := d.(dfu := p.driver, ram := p.ram,
                ep := d.ep.(datasize := p.len, callback := d.ep.callback || p.callback));
    var note := DfuRequest(ReqCode(q), ReqValue(q), ReqLength(q), p.driver.prog.Data());
    Outcome(if p.handled then e.Log(note) else e, p.handled)
  }

  /** usb_control_request_dispatch: the device afterwards and whether the request was handled. */
  function Dispatch(d: Device): (r: Outcome)
    requires d.Valid()
    ensures r.device.Valid()
  {
    if IsClassInterface(d.ep.req) then DfuDispatch(d)
    else if IsVendorDevice(d.ep.req) && ReqCode(d.ep.req) == 0x41 then Outcome(Answer(d, d.rom.winusb), true)
    else StandardRequest(d)
  }

  /** _needs_zlp. */
  predicate NeedsZlp(len: nat, wLength: nat) {
    len < wLength && len != 0 && len % MAX_PACKET == 0
  }

  /** _usb_control_setup_read. */
  function SetupRead(d: Device): (r: Device)
    requires d.Valid()
    ensures r.Valid()
  {
    var max := ReqLength(d.ep.req);
    var Outcome(e, handled) := Dispatch(d.(ep := d.ep.(dataoff := 0)));
    if !handled then StallTransaction(e)
    else if max != 0 then
      var size := Min(e.ep.datasize, max);
      SendChunk(e.(ep := e.ep.(datasize := size, dataoff := 0, needsZlp := NeedsZlp(size, max))))
    else
      var w := WritePacket(e.(ep := e.ep.(datasize := 0)), []);
      w.(ep := w.ep.(fsm := StatusIn))
  }

  /** _usb_control_setup_write. */
  function SetupWrite(d: Device): (r: Device)
    requires d.Valid()
    ensures r.Valid()
  {
    var len := ReqLength(d.ep.req);
    if len > Dfu.TRANSFER then StallTransaction(d)
    else NakSet(d.(ep := d.ep.(datasize := 0, fsm := if len > MAX_PACKET then DataOut else LastDataOut)), false)
  }

  /** _usbd_control_setup. */
  function ControlSetup(d: Device): (r: Device)
    requires d.Valid()
    ensures r.Valid()
  {
    var e := NakSet(d.(ep := d.ep.(callback := false)), true);
    var data := Received(e, 8);
    var g := ReadPacket(e);
    var h := g.(ep := g.ep.(req := Splice(g.ep.req, 0, data)));
    if |data| != 8 then StallTransaction(h)
    else
      var l := h.Log(Setup(data));
      if ReqLength(data) == 0 || IsIn(data) then SetupRead(l) else SetupWrite(l)
  }

  /** The completion callback, if one is registered. */
  function RunCallback(d: Device): (r: Device)
    requires d.Valid()
    ensures r.Valid() && r.ram == d.ram && r.ep == d.ep
  {
    if !d.ep.callback then d
    else
      var c := Dfu.Complete(d.dfu, d.flash);
      var e := d.(dfu := c.driver, flash := c.flash, reset := c.resets);
      if c.resets then e.Log(SystemReset) else if c.commits then e.Log(Committed(d.dfu.prog)) else e
  }

  /** The handler runs on complete data; the transfer goes to its status stage or stalls. */
  function Handle(e: Device): (r: Device)
    requires e.Valid() && e.ep.datasize <= Dfu.TRANSFER
    ensures r.Valid()
  {
    var Outcome(h, handled) := Dispatch(e.Log(Delivered(e.ep.req, e.ram[..e.ep.datasize])));
    if !handled then StallTransaction(h)
    else
      var w := WritePacket(h, []);
      w.(ep := w.ep.(fsm := StatusIn))
  }

  /** _usbd_control_out. A packet nobody expects stalls the endpoint and is not acknowledged: its
      CTR_RX stays set. */
  function ControlOut(d: Device): (r: Device)
    requires d.Valid() && !d.reset
    requires d.ep.fsm == DataOut || d.ep.fsm == LastDataOut ==> d.ep.datasize <= ReqLength(d.ep.req) <= Dfu.TRANSFER
    ensures r.Valid()
  {
    match d.ep.fsm
    case DataOut =>
      var Outcome(e, complete) := RecvChunk(d);
      if !complete then e
      else if ReqLength(e.ep.req) - e.ep.datasize <= MAX_PACKET then e.(ep := e.ep.(fsm := LastDataOut))
      else e
    case LastDataOut =>
      var Outcome(e, complete) := RecvChunk(d);
      if !complete then e else Handle(e)
    case StatusOut =>
      var e := ReadPacket(d);
      var g := RunCallback(e.(ep := e.ep.(fsm := Idle)).Log(StatusDone(d.ep.req)));
      if g.reset then g else g.(ep := g.ep.(callback := false))
    case _ => StallTransaction(d)
  }

  /** _usbd_control_in. */
  function ControlIn(d: Device): (r: Device)
    requires d.Valid() && !d.reset
    requires d.ep.fsm == DataIn ==> d.ep.dataoff + d.ep.datasize <= RAM_SPAN
    ensures r.Valid()
  {
    match d.ep.fsm
    case DataIn => SendChunk(d)
    case LastDataIn => NakSet(d.(ep := d.ep.(fsm := StatusOut)), false)
    case StatusIn =>
      var g := RunCallback(d.Log(StatusDone(d.ep.req)));
      if g.reset then g
      else
        var daddr := if IsSetAddress(g.ep.req) then ReqValue(g.ep.req) % 0x80 + 0x80 else g.ep.daddr;
        g.(ep := g.ep.(daddr := daddr, fsm := Idle))
    case _ => StallTransaction(d)
  }

  /** The reset branch of do_usb_poll, with _usbd_ep_setup(0, ...). The state of the control
      transfer is not touched. */
  function ControlReset(d: Device): (r: Device)
    requires d.Valid()
    ensures r.Valid()
  {
    d.(ep := d.ep.(tx := Nak, rx := Valid, daddr := 0x80), halted := {}).Log(BusReset)
  }
}
