/** Runs of the control endpoint: one host token at a time, in any order, and the invariant
    that every run keeps. */
module UsbRun {
  import opened Bytes
  import opened Usb
  import Dfu

  /** A DFU request whose completion callback was registered. */
  predicate RegistersCallback(q: seq<byte>)
    requires IsRequest(q)
  {
    && IsClassInterface(q)
    && (ReqCode(q) == Dfu.GETSTATUS || ReqCode(q) == Dfu.DETACH || (ReqCode(q) == Dfu.DNLOAD && ReqLength(q) == 0))
  }

  /** While the data of an OUT transfer is expected. */
  predicate OutPhase(ep: Ep0)
    requires IsRequest(ep.req)
  {
    && !ep.forceNak && ep.rx == Valid && !ep.callback && !IsIn(ep.req)
    && ReqLength(ep.req) <= Dfu.TRANSFER && ep.datasize % MAX_PACKET == 0
  }

  /** A GETSTATUS request. */
  predicate IsGetStatus(q: seq<byte>) {
    IsRequest(q) && IsClassInterface(q) && ReqCode(q) == Dfu.GETSTATUS
  }

  /** A GETSTATUS that was handled has registered the callback and moved the driver on. */
  predicate PollHandled(ep: Ep0, dfu: Dfu.State) {
    IsGetStatus(ep.req) ==> ep.callback && dfu != Dfu.DnloadSync && dfu != Dfu.ManifestSync
  }

  /** A packet nobody expected is still unserved. */
  predicate Stuck(ep: Ep0) {
    ep.fsm == Idle && ep.tx == Stall && ep.rx == Stall && !ep.setup
  }

  /** What relates the control state, the counters, the flags and the endpoint status. */
  predicate EpInv(ep: Ep0, dfu: Dfu.State)
    requires IsRequest(ep.req)
  {
    && ep.fsm != Stalled
    && (ep.tx == Valid ==> ep.fsm == DataIn || ep.fsm == LastDataIn || ep.fsm == StatusIn)
    && (ep.fsm == DataIn ==> ep.forceNak && ep.dataoff + ep.datasize < U16)
    && (ep.fsm == LastDataIn ==> ep.forceNak)
    && (ep.fsm == DataIn || ep.fsm == LastDataIn || ep.fsm == StatusOut ==> IsIn(ep.req))
    && (ep.fsm == DataOut ==> OutPhase(ep) && ReqLength(ep.req) - ep.datasize > MAX_PACKET)
    && (ep.fsm == LastDataOut ==> OutPhase(ep) && 0 < ReqLength(ep.req) - ep.datasize <= MAX_PACKET)
    && (ep.fsm == StatusOut ==> !ep.forceNak && ep.rx == Valid)
    && (ep.fsm == StatusIn && IsSetAddress(ep.req) ==> ReqValue(ep.req) < 128)
    && (ep.callback && ep.fsm != Idle ==>
      RegistersCallback(ep.req) && (ReqCode(ep.req) == Dfu.GETSTATUS || dfu == Dfu.ManifestSync))
    && (ep.fsm == DataIn || ep.fsm == LastDataIn || ep.fsm == StatusIn || ep.fsm == StatusOut ==> PollHandled(ep, dfu))
    && (ep.ctrRx ==> Stuck(ep))
  }

  /** The invariant of every run. The flash is locked between tokens, and no packet was ever
      dropped because its endpoint half was busy. */
  predicate Inv(d: Device) {
    && d.Valid() && d.flash.locked
    && (!d.reset ==> EpInv(d.ep, d.dfu.state))
    && PacketDropped !in d.log
  }

  /** A device after power-on: nothing configured, no transfer in progress. */
  predicate Initial(d: Device) {
    && d.Valid() && d.flash.locked && !d.reset && d.log == [] && d.halted == {} && d.link == Up
    && d.ep.fsm == Idle && d.ep.tx == Disabled && d.ep.rx == Disabled && !d.ep.callback && !d.ep.forceNak
    && !d.ep.setup && !d.ep.ctrRx && d.ep.daddr == 0 && d.dfu.state == Dfu.DfuIdle
  }

  /** The device receives a packet the peripheral has accepted. */
  function Arrived(d: Device, data: seq<byte>, setup: bool): (r: Device)
    requires d.Valid() && |data| <= MAX_PACKET
    ensures r.Valid()
  {
    d.(ep := d.ep.(rx := Nak, tx := if setup then Nak else d.ep.tx, rxPacket := data,
                   setup := if d.ep.ctrRx then d.ep.setup else setup, ctrRx := true),
       log := if setup then d.log else d.log + [Packet(data)])
  }

  /** The endpoint accepts the token. */
  predicate Accepted(d: Device, t: Token) {
    match t
    case SetupToken(data) => d.ep.rx != Disabled && |data| <= MAX_PACKET
    case OutToken(data) => d.ep.rx == Valid && |data| <= MAX_PACKET
    case InToken => d.ep.tx == Valid
    case ResetSignal => true
  }

  /** What the request handlers leave alone: all of the endpoint but the length of the answer,
      the callback, the address and the status, which does not become VALID for transmission
      nor DISABLED for reception. */
  predicate HandlerFrame(d: Device, r: Device) {
    && r.ep == d.ep.(datasize := r.ep.datasize, callback := r.ep.callback, tx := r.ep.tx, rx := r.ep.rx,
                     daddr := r.ep.daddr)
    && (r.ep.tx == Valid ==> d.ep.tx == Valid) && (r.ep.rx == Disabled ==> d.ep.rx == Disabled)
    && r.flash == d.flash && r.reset == d.reset && r.rom == d.rom
  }

  /** At most the note of a request is added to the log. */
  ghost predicate LogGrows(d: Device, r: Device) {
    r.log == d.log || exists e: Event :: (e.DfuRequest? || e.HaltRequest?) && r.log == d.log + [e]
  }

  /** The requests that no log mentions change answer and halted endpoints only. */
  predicate QuietOnly(d: Device, r: Device) {
    r == d.(ram := r.ram, halted := r.halted, ep := d.ep.(datasize := r.ep.datasize))
  }

  /** SET_FEATURE or CLEAR_FEATURE for ENDPOINT_HALT. */
  predicate IsHalt(q: seq<byte>)
    requires IsRequest(q)
  {
    IsStandard(q) && ReqType(q) % 0x20 == 2 && (ReqCode(q) == 1 || ReqCode(q) == 3) && ReqValue(q) == 0
  }

  /** The endpoint address a halt request names, and whether it sets the halt. */
  function HaltAddr(q: seq<byte>): (a: int)
    requires IsRequest(q)
    ensures 0 <= a < 0x100
  {
    ReqIndex(q) % 0x100
  }

  predicate HaltStall(q: seq<byte>) requires IsRequest(q) { ReqCode(q) == 3 }

  /** The device after the halt request q. */
  function HaltDone(d: Device, q: seq<byte>): (r: Device)
    requires d.Valid() && IsRequest(q)
    ensures r.Valid()
  {
    StallSet(d.Log(HaltRequest(HaltAddr(q), HaltStall(q))), HaltAddr(q), HaltStall(q))
  }

  /** The standard requests leave the DFU driver, the callback and the log alone as well, but for
      the halt requests. */
  predicate StandardOnly(d: Device, r: Device)
    requires d.Valid()
  {
    if IsHalt(d.ep.req) then r == HaltDone(d, d.ep.req) else QuietOnly(d, r)
  }

  lemma DescriptorFrame(d: Device)
    requires d.Valid()
    ensures QuietOnly(d, GetDescriptor(d).device)
  {
    hide Rom.Valid, Splice, Answer, StringFor, ReqValue, ReqIndex;
    AnswerFrame(d, d.rom.device) by { RomLengths(d.rom); }
    AnswerFrame(d, d.rom.config) by { RomLengths(d.rom); }
    var s := StringFor(d.rom, ReqValue(d.ep.req) % 256, ReqIndex(d.ep.req));
    if s != [] {
      AnswerFrame(d, s[0]);
    }
  }

  lemma RomLengths(rom: Rom)
    requires rom.Valid()
    ensures |rom.device| < 256 && |rom.config| < 256
  {
  }

  lemma DeviceFrame(d: Device)
    requires d.Valid()
    ensures QuietOnly(d, DeviceRequest(d).device)
  {
    hide Rom.Valid, GetDescriptor, Answer, ReqValue, ReqType, Splice;
    DescriptorFrame(d);
    AnswerFrame(d, [1]);
    AnswerFrame(d, [0, 0]);
  }

  lemma InterfaceFrame(d: Device)
    requires d.Valid()
    ensures QuietOnly(d, InterfaceRequest(d).device)
  {
    hide Rom.Valid;
  }

  lemma EndpointFrame(d: Device)
    requires d.Valid() && IsStandard(d.ep.req) && ReqType(d.ep.req) % 0x20 == 2
    ensures StandardOnly(d, EndpointRequest(d).device)
  {
    hide Rom.Valid, StallGet, StallSet, ReqIndex, ReqValue, Answer, Splice, QuietOnly;
    SelfQuiet(d);
    AnswerFrame(d, [if StallGet(d, HaltAddr(d.ep.req)) then 1 else 0, 0]);
  }

  lemma SelfQuiet(d: Device)
    ensures QuietOnly(d, d)
  {
  }

  lemma AnswerFrame(d: Device, body: seq<byte>)
    requires d.Valid() && |body| < 256
    ensures QuietOnly(d, Answer(d, body))
  {
    hide Rom.Valid;
  }

  lemma StandardFrame(d: Device)
    requires d.Valid()
    ensures StandardOnly(d, StandardRequest(d).device)
  {
    hide Rom.Valid, DeviceRequest, InterfaceRequest, EndpointRequest, HaltDone, ReqValue;
    DeviceFrame(d);
    InterfaceFrame(d);
    if IsStandard(d.ep.req) && ReqType(d.ep.req) % 0x20 == 2 {
      EndpointFrame(d);
    }
  }

  lemma HaltFrame(d: Device, q: seq<byte>)
    requires d.Valid() && IsRequest(q)
    ensures var r := HaltDone(d, q);
      && HandlerFrame(d, r) && r.log == d.log + [HaltRequest(HaltAddr(q), HaltStall(q))]
      && r.dfu == d.dfu && r.ram == d.ram && r.ep.callback == d.ep.callback
  {
    hide Rom.Valid, ReqIndex, StallSet;
    StallFrame(d.Log(HaltRequest(HaltAddr(q), HaltStall(q))), HaltAddr(q), HaltStall(q));
  }

  lemma StallFrame(d: Device, addr: int, stall: bool)
    requires d.Valid()
    ensures var r := StallSet(d, addr, stall);
      && r == d.(ep := d.ep.(tx := r.ep.tx, rx := r.ep.rx, daddr := r.ep.daddr), halted := r.halted, link := r.link)
      && (r.ep.tx == Valid ==> d.ep.tx == Valid) && (r.ep.rx == Disabled ==> d.ep.rx == Disabled)
  {
    hide Rom.Valid, StallOther;
    OtherFrame(d, addr, stall);
  }

  lemma OtherFrame(d: Device, addr: int, stall: bool)
    requires d.Valid()
    ensures var r := StallOther(d, addr, stall);
      r == d.(ep := d.ep.(daddr := r.ep.daddr), halted := r.halted, link := r.link)
  {
    hide Rom.Valid, HaltedRegister, NumberOf;
  }

  /** What putting a packet into the endpoint changes. */
  lemma PacketFrame(d: Device, data: seq<byte>)
    requires d.Valid() && |data| <= MAX_PACKET
    ensures var r := WritePacket(d, data);
      r == d.(ep := d.ep.(txPacket := r.ep.txPacket, tx := r.ep.tx), log := r.log)
    ensures d.ep.tx != Valid ==> WritePacket(d, data) == d.(ep := d.ep.(txPacket := data, tx := Valid))
  {
  }

  lemma SendFrame(d: Device)
    requires d.Valid() && d.ep.dataoff + d.ep.datasize <= RAM_SPAN
    ensures var r := SendChunk(d);
      && r == d.(ep := r.ep, log := r.log)
      && r.ep == d.ep.(txPacket := r.ep.txPacket, tx := r.ep.tx, fsm := r.ep.fsm, dataoff := r.ep.dataoff,
                       datasize := r.ep.datasize, needsZlp := r.ep.needsZlp)
      && (r.ep.fsm == DataIn || r.ep.fsm == LastDataIn)
    ensures d.ep.tx != Valid ==> SendChunk(d).log == d.log
  {
    hide Rom.Valid, WritePacket;
    PacketFrame(d, d.ram[d.ep.dataoff..d.ep.dataoff + Min(MAX_PACKET, d.ep.datasize)]);
  }

  /** What a read does behind its handler. */
  lemma ReadFrame(t: Device)
    requires t.Valid()
    ensures var h := Dispatch(t.(ep := t.ep.(dataoff := 0))).device;
      var r := SetupRead(t);
      && r == h.(ep := r.ep, log := r.log) && (r.ep.rx == h.ep.rx || r.ep.rx == Stall) && r.ep.ctrRx == h.ep.ctrRx
      && r.ep.req == h.ep.req && r.ep.daddr == h.ep.daddr && r.ep.fsm != DataOut && r.ep.fsm != LastDataOut
      && (h.ep.tx != Valid ==> r.log == h.log)
  {
    hide Rom.Valid, Dispatch, SendChunk, WritePacket, ReqLength, NeedsZlp;
    var Outcome(h, handled) := Dispatch(t.(ep := t.ep.(dataoff := 0)));
    var max := ReqLength(t.ep.req);
    if !handled {
      assert SetupRead(t) == StallTransaction(h);
    } else if max != 0 {
      var size := Min(h.ep.datasize, max);
      var c := h.(ep := h.ep.(datasize := size, dataoff := 0, needsZlp := NeedsZlp(size, max)));
      assert SetupRead(t) == SendChunk(c);
      hide SetupRead;
      SendFrame(c);
    } else {
      PacketFrame(h.(ep := h.ep.(datasize := 0)), []);
    }
  }

  lemma DfuFrame(d: Device)
    requires d.Valid()
    ensures HandlerFrame(d, DfuDispatch(d).device) && LogGrows(d, DfuDispatch(d).device)
  {
  }

  lemma DispatchFrame(d: Device)
    requires d.Valid()
    ensures HandlerFrame(d, Dispatch(d).device) && LogGrows(d, Dispatch(d).device)
  {
    if IsClassInterface(d.ep.req) {
      DfuFrame(d);
    } else {
      hide Rom.Valid, StandardRequest, HaltDone;
      StandardFrame(d);
      HaltFrame(d, d.ep.req);
    }
  }

  predicate CallbackJustified(r: Device)
    requires IsRequest(r.ep.req)
  {
    r.ep.callback ==>
      RegistersCallback(r.ep.req) && (ReqCode(r.ep.req) == Dfu.GETSTATUS || r.dfu.state == Dfu.ManifestSync)
  }

  /** A callback is registered by GETSTATUS, DETACH and the empty DNLOAD only, and the last two
      leave the driver waiting for GETSTATUS. */
  lemma DispatchCallback(d: Device)
    requires d.Valid() && !d.ep.callback
    ensures CallbackJustified(Dispatch(d).device)
    ensures Dispatch(d).ok ==> PollHandled(Dispatch(d).device.ep, Dispatch(d).device.dfu.state)
  {
    if IsClassInterface(d.ep.req) {
      DispatchRegisters(d);
    } else {
      hide Rom.Valid, StandardRequest, HaltDone;
      StandardFrame(d);
      HaltFrame(d, d.ep.req);
    }
  }

  lemma DispatchRegisters(d: Device)
    requires d.Valid() && !d.ep.callback && IsClassInterface(d.ep.req)
    ensures CallbackJustified(Dispatch(d).device)
    ensures Dispatch(d).ok ==> PollHandled(Dispatch(d).device.ep, Dispatch(d).device.dfu.state)
  {
    hide Rom.Valid;
  }

  /** A SET_ADDRESS that is handled carries an address. */
  lemma DispatchSetAddress(d: Device)
    requires d.Valid() && IsSetAddress(d.ep.req) && Dispatch(d).ok
    ensures ReqValue(d.ep.req) < 128
  {
  }

  lemma SetupReadInv(d: Device)
    requires d.Valid() && d.flash.locked && !d.reset && PacketDropped !in d.log
    requires d.ep.tx != Valid && d.ep.forceNak && !d.ep.callback && !d.ep.ctrRx
    requires ReqLength(d.ep.req) == 0 || IsIn(d.ep.req)
    ensures Inv(SetupRead(d))
  {
    hide Rom.Valid, Dispatch, IsGetStatus, RegistersCallback, OutPhase, ReqLength, ReqType, ReqValue;
    var d0 := d.(ep := d.ep.(dataoff := 0));
    DispatchFrame(d0);
    DispatchCallback(d0);
    var Outcome(e, handled) := Dispatch(d0);
    if handled && IsSetAddress(d.ep.req) {
      DispatchSetAddress(d0);
    }
  }

  lemma SetupWriteInv(d: Device)
    requires d.Valid() && d.flash.locked && !d.reset && PacketDropped !in d.log
    requires d.ep.tx != Valid && !d.ep.callback && !d.ep.ctrRx
    requires ReqLength(d.ep.req) != 0 && !IsIn(d.ep.req)
    ensures Inv(SetupWrite(d))
  {
  }

  lemma ControlSetupInv(d: Device)
    requires d.Valid() && d.flash.locked && !d.reset && PacketDropped !in d.log
    requires d.ep.tx == Nak && d.ep.rx == Nak
    ensures Inv(ControlSetup(d))
  {
    hide Rom.Valid, SetupRead, SetupWrite, IsGetStatus, RegistersCallback, OutPhase;
    var e := NakSet(d.(ep := d.ep.(callback := false)), true);
    var data := Received(e, 8);
    if |data| == 8 {
      var l := e.(ep := e.ep.(ctrRx := false, req := Splice(e.ep.req, 0, data))).Log(Setup(data));
      assert l.ep.req == data;
      if ReqLength(data) == 0 || IsIn(data) {
        SetupReadInv(l);
      } else {
        SetupWriteInv(l);
      }
    }
  }

  lemma RecvChunkInv(d: Device)
    requires d.Valid() && d.flash.locked && !d.reset && PacketDropped !in d.log
    requires d.ep.rx == Nak && d.ep.tx != Valid
    requires d.ep.fsm == DataOut || d.ep.fsm == LastDataOut
    requires OutPhase(d.ep.(rx := Valid)) && d.ep.datasize < ReqLength(d.ep.req)
    ensures var Outcome(r, complete) := RecvChunk(d);
      if complete then r == d.(ram := r.ram, ep := d.ep.(rx := Valid, ctrRx := false, datasize := r.ep.datasize))
        && r.ep.datasize == d.ep.datasize + Min(MAX_PACKET, ReqLength(d.ep.req) - d.ep.datasize)
      else Inv(r)
  {
  }

  lemma DataOutInv(d: Device)
    requires d.Valid() && d.flash.locked && !d.reset && PacketDropped !in d.log
    requires d.ep.rx == Nak && EpInv(d.ep.(rx := Valid, ctrRx := false), d.dfu.state)
    requires d.ep.fsm == DataOut
    ensures Inv(ControlOut(d))
  {
    hide Rom.Valid, RecvChunk, ReqLength, IsClassInterface, RegistersCallback;
    RecvChunkInv(d);
  }

  lemma LastDataOutInv(d: Device)
    requires d.Valid() && d.flash.locked && !d.reset && PacketDropped !in d.log
    requires d.ep.rx == Nak && EpInv(d.ep.(rx := Valid, ctrRx := false), d.dfu.state)
    requires d.ep.fsm == LastDataOut
    ensures Inv(ControlOut(d))
  {
    hide Rom.Valid, Handle, RecvChunk, IsClassInterface;
    RecvChunkInv(d);
    var Outcome(e, complete) := RecvChunk(d);
    if complete {
      HandledInv(e);
    }
  }

  /** The handler runs on complete data. */
  lemma HandledInv(e: Device)
    requires e.Valid() && e.flash.locked && !e.reset && PacketDropped !in e.log
    requires e.ep.tx != Valid && !e.ep.callback && !e.ep.ctrRx && e.ep.datasize <= Dfu.TRANSFER
    ensures Inv(Handle(e))
  {
    hide Rom.Valid, Dispatch, IsGetStatus;
    var g := e.Log(Delivered(e.ep.req, e.ram[..e.ep.datasize]));
    DispatchFrame(g);
    DispatchCallback(g);
    if Dispatch(g).ok && IsSetAddress(g.ep.req) {
      DispatchSetAddress(g);
    }
  }

  lemma StatusOutInv(d: Device)
    requires d.Valid() && d.flash.locked && !d.reset && PacketDropped !in d.log
    requires d.ep.rx == Nak && EpInv(d.ep.(rx := Valid, ctrRx := false), d.dfu.state)
    requires d.ep.fsm == StatusOut
    ensures Inv(ControlOut(d)) && !ControlOut(d).ep.ctrRx
  {
    hide Rom.Valid, ReqLength, ReqType, ReqCode, ReqValue, IsClassInterface, Dfu.Commit;
  }

  /** A packet nobody expects, or a SETUP that is taken for one. */
  lemma SurplusInv(d: Device)
    requires d.Valid() && d.flash.locked && !d.reset && PacketDropped !in d.log && !d.ep.setup
    requires d.ep.fsm != DataOut && d.ep.fsm != LastDataOut && d.ep.fsm != StatusOut
    ensures Inv(ControlOut(d))
  {
  }

  lemma ControlOutInv(d: Device)
    requires d.Valid() && d.flash.locked && !d.reset && PacketDropped !in d.log && !d.ep.setup
    requires d.ep.rx == Nak && EpInv(d.ep.(rx := Valid, ctrRx := false), d.dfu.state)
    ensures Inv(ControlOut(d))
  {
    match d.ep.fsm
    case DataOut => DataOutInv(d);
    case LastDataOut => LastDataOutInv(d);
    case StatusOut => StatusOutInv(d);
    case _ => SurplusInv(d);
  }

  lemma ControlInInv(d: Device)
    requires d.Valid() && d.flash.locked && !d.reset && PacketDropped !in d.log
    requires d.ep.tx == Nak && EpInv(d.ep.(tx := Valid), d.dfu.state)
    ensures Inv(ControlIn(d))
  {
    if d.ep.fsm == StatusIn {
      StatusInInv(d);
    } else {
      hide RegistersCallback, IsGetStatus, OutPhase, RunCallback;
      hide Rom.Valid, ReqLength, ReqType, ReqCode, ReqValue, IsClassInterface, Dfu.Commit;
    }
  }

  lemma StatusInInv(d: Device)
    requires d.Valid() && d.flash.locked && !d.reset && PacketDropped !in d.log
    requires d.ep.tx == Nak && EpInv(d.ep.(tx := Valid), d.dfu.state) && d.ep.fsm == StatusIn
    ensures Inv(ControlIn(d))
  {
    hide RegistersCallback, IsGetStatus, OutPhase, RunCallback;
    hide Rom.Valid, ReqLength, ReqType, ReqCode, ReqValue, IsClassInterface, Dfu.Commit;
    CallbackKeeps(d.Log(StatusDone(d.ep.req)));
  }

  lemma CallbackKeeps(g: Device)
    requires g.Valid() && g.flash.locked && !g.reset && PacketDropped !in g.log
    ensures RunCallback(g).flash.locked && PacketDropped !in RunCallback(g).log
  {
    hide Rom.Valid, Dfu.Commit;
  }

  /** The device hears no token any more. */
  predicate Deaf(d: Device) {
    d.reset || d.link != Up
  }

  /** A bus reset leaves an unserved packet where it is, and the next poll comes upon it. */
  function Unserved(d: Device): (r: Device)
    requires d.Valid() && !d.reset && (d.ep.ctrRx ==> d.ep.fsm == Idle)
    ensures r.Valid()
  {
    if d.ep.ctrRx then ControlOut(d) else d
  }

  lemma BusResetInv(d: Device)
    requires Inv(d) && !d.reset
    ensures Inv(Unserved(ControlReset(d)))
  {
    hide Rom.Valid, RegistersCallback, IsGetStatus;
  }

  lemma SetupServedInv(d: Device, data: seq<byte>)
    requires Inv(d) && !d.reset && |data| <= MAX_PACKET
    ensures var e := Arrived(d, data, true);
      if e.ep.setup then Inv(ControlSetup(e)) else e.ep.fsm == Idle && Inv(ControlOut(e))
  {
    hide Rom.Valid, ControlSetup, ControlOut, RegistersCallback, IsGetStatus, OutPhase;
    var e := Arrived(d, data, true);
    if e.ep.setup {
      ControlSetupInv(e);
    } else {
      SurplusInv(e);
    }
  }

  lemma OutServedInv(d: Device, data: seq<byte>)
    requires Inv(d) && !d.reset && d.ep.rx == Valid && |data| <= MAX_PACKET
    ensures Inv(ControlOut(Arrived(d, data, false)))
  {
    hide Rom.Valid, ControlOut, RegistersCallback, IsGetStatus;
    ControlOutInv(Arrived(d, data, false));
  }

  /** One token. */
  function Step(d: Device, t: Token): (r: Device)
    requires Inv(d)
    ensures Inv(r)
  {
    if Deaf(d) || !Accepted(d, t) then d
    else
      match t
      case SetupToken(data) =>
        SetupServedInv(d, data);
        var e := Arrived(d, data, true);
        if e.ep.setup then ControlSetup(e) else ControlOut(e)
      case OutToken(data) =>
        OutServedInv(d, data);
        ControlOut(Arrived(d, data, false))
      case InToken =>
        var e := d.(ep := d.ep.(tx := Nak));
        ControlInInv(e);
        ControlIn(e)
      case ResetSignal =>
        BusResetInv(d);
        Unserved(ControlReset(d))
  }

  /** A run: any tokens in any order. */
  function Run(d: Device, ts: seq<Token>): (r: Device)
    requires Inv(d)
    ensures Inv(r)
    decreases |ts|
  {
    if ts == [] then d else Run(Step(d, ts[0]), ts[1..])
  }

  lemma InitialInv(d: Device)
    requires Initial(d)
    ensures Inv(d)
  {
  }

  lemma {:induction false} RunAppend(d: Device, ts: seq<Token>, us: seq<Token>)
    requires Inv(d)
    ensures Run(d, ts + us) == Run(Run(d, ts), us)
    decreases |ts|
  {
    hide Step, Inv;
    if ts == [] {
      assert ts + us == us;
    } else {
      RunAppend(Step(d, ts[0]), ts[1..], us);
      assert (ts + us)[1..] == ts[1..] + us;
    }
  }
}
