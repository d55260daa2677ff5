/** The ways in which one token can change the device and its log. Module Causality builds what
    the log of a whole run says about the past on them. */
module History {
  import opened Bytes
  import opened FlashMemory
  import opened Usb
  import opened UsbRun
  import Dfu
  import Transfers

  /** How one token changes the log: events that say nothing about the driver, and behind them at
      most one request, or the end of a transfer with what its callback does. */
  datatype Change =
    | Plainly(pre: seq<Event>)
    | Requested(pre: seq<Event>, e: Event)
    | Done(pre: seq<Event>)
    | DoneCommit(pre: seq<Event>)
    | DoneReset(pre: seq<Event>)
    | NewBusReset

  /** An event that says nothing about the driver. */
  predicate Passive(e: Event) {
    e.Setup? || e.Packet? || e.Delivered?
  }

  predicate AllPassive(es: seq<Event>) {
    forall i :: 0 <= i < |es| ==> Passive(es[i])
  }

  /** The transition of the DFU driver that a logged request stands for. */
  predicate DriverStep(p: Dfu.Driver, r: Dfu.Driver, e: Event)
    requires p.Valid() && r.Valid()
  {
    && e.DfuRequest?
    && (if e.code == Dfu.DNLOAD && e.len != 0 then
          && r.state == Dfu.DnloadSync && r.prog.block == e.value
          && r.prog.Data() == e.payload && r.prog.len == Min(e.len, Dfu.TRANSFER)
        else
          && r.prog == p.prog
          && (if e.code == Dfu.DNLOAD || e.code == Dfu.DETACH then r.state == Dfu.ManifestSync
              else if e.code == Dfu.ABORT then r.state == Dfu.DfuIdle
              else if e.code == Dfu.UPLOAD then r.state == Dfu.UploadIdle || r.state == Dfu.Error
              else if e.code == Dfu.GETSTATUS then r.state == Dfu.AfterGetStatus(p.state)
              else if e.code == Dfu.CLRSTATUS then
                r.state == p.state || (p.state == Dfu.Error && r.state == Dfu.DfuIdle)
              else r.state == p.state))
  }

  /** USB_DADDR after a halt request. */
  function HaltedDaddr(daddr: int, addr: int, stall: bool): int {
    if NumberOf(addr) == DADDR_NUMBER then HaltedRegister(daddr, addr, stall) else daddr
  }

  /** The peripheral after a halt request. */
  function HaltedLink(link: Link, addr: int, stall: bool): Link {
    if NumberOf(addr) == BTABLE_NUMBER then TableMoved
    else if addr == CNTR_NUMBER + 0x80 && stall then Resuming
    else link
  }

  /** What a logged request does to the driver, the address and the peripheral. */
  predicate RequestStep(d: Device, r: Device, e: Event)
    requires d.Valid() && r.Valid()
  {
    if e.HaltRequest? then
      && r.dfu == d.dfu && r.ep.daddr == HaltedDaddr(d.ep.daddr, e.addr, e.stall)
      && r.link == HaltedLink(d.link, e.addr, e.stall)
    else
      DriverStep(d.dfu, r.dfu, e) && r.ep.daddr == d.ep.daddr && r.link == d.link
  }

  /** Nothing but the control transfer moves. */
  predicate SameDevice(d: Device, r: Device) {
    r.dfu == d.dfu && r.flash == d.flash && r.reset == d.reset && r.ep.daddr == d.ep.daddr && r.link == d.link
  }

  /** A transfer in progress behind the events pre is the one of the SETUP in pre, or the one that
      was in progress before. */
  predicate Open(d: Device, r: Device, pre: seq<Event>) {
    r.ep.fsm != Idle ==>
      if pre != [] && pre[0].Setup? then |pre| == 1 && r.ep.req == pre[0].request
      else d.ep.fsm != Idle && r.ep.req == d.ep.req && forall i :: 0 <= i < |pre| ==> !pre[i].Setup?
  }

  /** The end of a transfer is at most preceded by its packet. */
  predicate Ending(d: Device, r: Device, pre: seq<Event>) {
    && (pre == [] || (|pre| == 1 && pre[0].Packet?))
    && (d.ep.fsm == StatusIn || d.ep.fsm == StatusOut) && r.ep.fsm == Idle && r.link == d.link
  }

  /** The change c leads from d to r. */
  predicate Explains(d: Device, r: Device, c: Change)
    requires d.Valid() && r.Valid()
  {
    match c
    case Plainly(pre) => AllPassive(pre) && SameDevice(d, r) && r.log == d.log + pre && Open(d, r, pre)
    case Requested(pre, e) =>
      && AllPassive(pre) && RequestStep(d, r, e) && r.flash == d.flash && r.reset == d.reset
      && r.log == d.log + pre + [e] && Open(d, r, pre)
    case Done(pre) =>
      && Ending(d, r, pre) && r.dfu == d.dfu && r.flash == d.flash && r.reset == d.reset
      && r.log == d.log + pre + [StatusDone(d.ep.req)] && r.ep.daddr == AddressAfter(d.ep.daddr, d.ep.req)
      && (IsGetStatus(d.ep.req) ==> Rested(d.dfu.state))
    case DoneCommit(pre) =>
      && Ending(d, r, pre) && Dfu.Complete(d.dfu, d.flash) == Dfu.Completion(r.dfu, r.flash, true, false)
      && r.reset == d.reset && r.ep.daddr == d.ep.daddr
      && r.log == d.log + pre + [StatusDone(d.ep.req), Committed(d.dfu.prog)] && IsGetStatus(d.ep.req)
    case DoneReset(pre) =>
      && (pre == [] || (|pre| == 1 && pre[0].Packet?)) && d.dfu.state == Dfu.Manifest
      && r.dfu == d.dfu && r.flash == d.flash && r.reset && r.ep.daddr == d.ep.daddr && r.link == d.link
      && r.log == d.log + pre + [StatusDone(d.ep.req), SystemReset]
      && IsGetStatus(d.ep.req) && d.ep.fsm != Idle
    case NewBusReset =>
      && r.dfu == d.dfu && r.flash == d.flash && r.reset == d.reset && r.link == d.link && r.log == d.log + [BusReset]
      && r.ep.daddr == 0x80 && r.ep.fsm == d.ep.fsm && r.ep.req == d.ep.req
  }

  /** The driver waits for no GETSTATUS and has nothing to do behind one. */
  predicate Rested(s: Dfu.State) {
    s != Dfu.DnBusy && s != Dfu.Manifest && s != Dfu.DnloadSync && s != Dfu.ManifestSync
  }

  /** The address register after the status stage of request q. */
  function AddressAfter(daddr: int, q: seq<byte>): int
    requires IsRequest(q)
  {
    if IsSetAddress(q) then ReqValue(q) + 0x80 else daddr
  }

  lemma RequestDrives(p: Dfu.Driver, ram: seq<byte>, f: Flash, code: byte, value: int, len: nat)
    requires p.Valid() && f.Valid() && |ram| >= Dfu.TRANSFER && 0 <= value < U16 && len < U16
    ensures var r := Dfu.Request(p, ram, f, code, value, len);
      if r.handled then DriverStep(p, r.driver, DfuRequest(code, value, len, r.driver.prog.Data())) else r.driver == p
  {
    hide Splice, Dfu.StatusBytes, Dfu.FlashBytes, Dfu.InApplication;
  }

  /** The note a handler adds to the log. */
  function Noted(d: Device): (es: seq<Event>)
    requires d.Valid()
    ensures |es| <= 1
  {
    var r := Dispatch(d).device;
    var q := d.ep.req;
    if IsClassInterface(q) then
      if Dispatch(d).ok then [DfuRequest(ReqCode(q), ReqValue(q), ReqLength(q), r.dfu.prog.Data())] else []
    else if IsHalt(q) then [HaltRequest(HaltAddr(q), HaltStall(q))]
    else []
  }

  /** The requests that touch driver, address or peripheral are the noted ones. */
  lemma DispatchNotes(d: Device)
    requires d.Valid()
    ensures var r := Dispatch(d).device;
      && r.log == d.log + Noted(d) && r.flash == d.flash && r.reset == d.reset
      && (if Noted(d) == [] then SameDevice(d, r) else RequestStep(d, r, Noted(d)[0]))
  {
    hide Rom.Valid, StandardRequest, IsClassInterface, ReqValue;
    hide ReqLength, ReqCode, Dfu.Request, DriverStep, HaltDone;
    DispatchFrame(d);
    var q := d.ep.req;
    if IsClassInterface(q) {
      RequestDrives(d.dfu, d.ram, d.flash, ReqCode(q), ReqValue(q), ReqLength(q));
    } else {
      StandardFrame(d);
      HaltFrame(d, q);
      HaltReaches(d, q);
      HaltIsStandard(q);
    }
  }

  lemma HaltIsStandard(q: seq<byte>)
    requires IsRequest(q)
    ensures IsHalt(q) ==> !IsClassInterface(q) && !(IsVendorDevice(q) && ReqCode(q) == 0x41)
  {
  }

  lemma HaltReaches(d: Device, q: seq<byte>)
    requires d.Valid() && IsRequest(q)
    ensures var r := HaltDone(d, q);
      && r.ep.daddr == HaltedDaddr(d.ep.daddr, HaltAddr(q), HaltStall(q))
      && r.link == HaltedLink(d.link, HaltAddr(q), HaltStall(q))
  {
    hide Rom.Valid, ReqIndex, HaltedRegister, HaltAddr, HaltStall;
    StallReaches(d.Log(HaltRequest(HaltAddr(q), HaltStall(q))), HaltAddr(q), HaltStall(q));
  }

  lemma StallReaches(d: Device, addr: int, stall: bool)
    requires d.Valid() && 0 <= addr < 0x100
    ensures var r := StallSet(d, addr, stall);
      r.ep.daddr == HaltedDaddr(d.ep.daddr, addr, stall) && r.link == HaltedLink(d.link, addr, stall)
  {
    Numbers(addr);
    hide Rom.Valid, StallOther, HaltedRegister, NumberOf;
    if addr != 0 && addr != 0x80 {
      OtherReaches(d, addr, stall);
    }
  }

  lemma OtherReaches(d: Device, addr: int, stall: bool)
    requires d.Valid() && 0 <= addr < 0x100
    ensures var r := StallOther(d, addr, stall);
      r.ep.daddr == HaltedDaddr(d.ep.daddr, addr, stall) && r.link == HaltedLink(d.link, addr, stall)
  {
    Numbers(addr);
    hide Rom.Valid, HaltedRegister, NumberOf;
  }

  lemma Numbers(addr: int)
    ensures addr == 0 || addr == 0x80 ==> NumberOf(addr) == 0
    ensures addr == CNTR_NUMBER + 0x80 ==> NumberOf(addr) == CNTR_NUMBER
  {
  }

  /** Past the handler, a read only starts to move packets. */
  lemma SetupReadTail(t: Device)
    requires t.Valid() && t.ep.tx != Valid
    ensures var h := Dispatch(t.(ep := t.ep.(dataoff := 0))).device;
      var r := SetupRead(t);
      r == h.(ep := r.ep) && r.ep.req == t.ep.req && r.ep.daddr == h.ep.daddr
  {
    hide Rom.Valid, Dispatch, SetupRead, LogGrows;
    ReadFrame(t);
    DispatchFrame(t.(ep := t.ep.(dataoff := 0)));
  }

  /** Past the handler, a write only goes to its status stage. */
  lemma HandleTail(g: Device)
    requires g.Valid() && g.ep.tx != Valid && g.ep.datasize <= Dfu.TRANSFER
    ensures var h := Dispatch(g.Log(Delivered(g.ep.req, g.ram[..g.ep.datasize]))).device;
      var r := Handle(g);
      && r == h.(ep := r.ep) && r.ep.req == g.ep.req && r.ep.daddr == h.ep.daddr
      && r.ep.fsm != DataOut && r.ep.fsm != LastDataOut
  {
    hide Rom.Valid, Dispatch, LogGrows;
    DispatchFrame(g.Log(Delivered(g.ep.req, g.ram[..g.ep.datasize])));
  }

  lemma SetupReadChange(d: Device, t: Device) returns (c: Change)
    requires d.Valid() && t.Valid() && SameDevice(d, t) && t.log == d.log + [Setup(t.ep.req)] && t.ep.tx != Valid
    ensures Explains(d, SetupRead(t), c)
  {
    hide Rom.Valid, Dispatch, DriverStep, Noted, SetupRead, HaltedDaddr, HaltedLink;
    var e := t.(ep := t.ep.(dataoff := 0));
    SetupReadTail(t);
    DispatchNotes(e);
    if Noted(e) == [] {
      c := Plainly([Setup(t.ep.req)]);
    } else {
      c := Requested([Setup(t.ep.req)], Noted(e)[0]);
      assert Noted(e) == [Noted(e)[0]];
    }
  }

  lemma SetupChange(d: Device, e: Device) returns (c: Change)
    requires d.Valid() && e.Valid() && SameDevice(d, e) && e.log == d.log
    requires e.ep.tx == Nak && e.ep.rx == Nak
    ensures Explains(d, ControlSetup(e), c)
  {
    hide Rom.Valid, SetupRead, ReqLength, ReqType;
    var g := NakSet(e.(ep := e.ep.(callback := false)), true);
    var data := Received(g, 8);
    if |data| != 8 {
      c := Plainly([]);
    } else {
      var h := ReadPacket(g);
      var t := h.(ep := h.ep.(req := Splice(h.ep.req, 0, data))).Log(Setup(data));
      assert t.ep.req == data;
      if ReqLength(data) == 0 || IsIn(data) {
        c := SetupReadChange(d, t);
      } else {
        c := Plainly([Setup(data)]);
      }
    }
  }

  /** The completion callback of a transfer that is allowed to have one. */
  lemma CallbackChange(d: Device, g: Device, pre: seq<Event>) returns (c: Change)
    requires d.Valid() && g.Valid() && d.flash.locked && !d.reset && SameDevice(d, g)
    requires g.log == d.log + pre + [StatusDone(d.ep.req)] && g.ep.req == d.ep.req && d.ep.fsm != Idle
    requires d.ep.callback == g.ep.callback && PollHandled(d.ep, d.dfu.state)
    requires d.ep.callback ==> RegistersCallback(d.ep.req) && (IsGetStatus(d.ep.req) || d.dfu.state == Dfu.ManifestSync)
    ensures var r := RunCallback(g);
      match c
      case Done(p) => p == pre && r == g && (IsGetStatus(d.ep.req) ==> Rested(d.dfu.state))
      case DoneCommit(p) =>
        && p == pre
        && r == g.(dfu := r.dfu, flash := r.flash, log := d.log + pre + [StatusDone(d.ep.req), Committed(d.dfu.prog)])
        && Dfu.Complete(d.dfu, d.flash) == Dfu.Completion(r.dfu, r.flash, true, false) && IsGetStatus(d.ep.req)
      case DoneReset(p) =>
        && p == pre && r == g.(reset := true, log := d.log + pre + [StatusDone(d.ep.req), SystemReset])
        && d.dfu.state == Dfu.Manifest && IsGetStatus(d.ep.req)
      case _ => false
  {
    hide Rom.Valid, Dfu.Commit, RegistersCallback, IsClassInterface;
    c := if d.ep.callback && d.dfu.state == Dfu.DnBusy then DoneCommit(pre)
         else if d.ep.callback && d.dfu.state == Dfu.Manifest then DoneReset(pre) else Done(pre);
    assert d.log + pre + [StatusDone(d.ep.req)] + [SystemReset] == d.log + pre + [StatusDone(d.ep.req), SystemReset];
    assert d.log + pre + [StatusDone(d.ep.req)] + [Committed(d.dfu.prog)]
        == d.log + pre + [StatusDone(d.ep.req), Committed(d.dfu.prog)];
  }

  /** The handler at the end of the data stage of a write. */
  lemma HandleChange(d: Device, g: Device, p: Event) returns (c: Change)
    requires d.Valid() && g.Valid() && SameDevice(d, g) && g.log == d.log + [p] && p.Packet? && g.ep.tx != Valid
    requires g.ep.req == d.ep.req && g.ep.datasize <= Dfu.TRANSFER && d.ep.fsm != Idle
    ensures Explains(d, Handle(g), c)
    ensures Handle(g).ep.fsm != DataOut && Handle(g).ep.fsm != LastDataOut
  {
    hide Rom.Valid, Dispatch, DriverStep, Noted, HaltedDaddr, HaltedLink, Handle;
    HandleTail(g);
    var del := Delivered(g.ep.req, g.ram[..g.ep.datasize]);
    var e := g.Log(del);
    DispatchNotes(e);
    assert d.log + [p] + [del] == d.log + [p, del];
    if Noted(e) == [] {
      c := Plainly([p, del]);
    } else {
      c := Requested([p, del], Noted(e)[0]);
      assert Noted(e) == [Noted(e)[0]];
    }
  }

  lemma DataOutChange(d: Device, e: Device, p: Event) returns (c: Change)
    requires d.Valid() && d.flash.locked && !d.reset && EpInv(d.ep, d.dfu.state) && PacketDropped !in d.log
    requires d.ep.fsm == DataOut || d.ep.fsm == LastDataOut
    requires e.Valid() && e == d.(ep := e.ep, log := d.log + [p]) && p.Packet?
    requires e.ep == d.ep.(rx := Nak, rxPacket := e.ep.rxPacket, setup := false, ctrRx := true)
    ensures Explains(d, ControlOut(e), c)
  {
    hide Rom.Valid, Handle, RecvChunk;
    RecvChunkInv(e);
    RecvChunkChange(e);
    var Outcome(g, complete) := RecvChunk(e);
    c := Plainly([p]);
    if complete && d.ep.fsm == LastDataOut {
      c := HandleChange(d, g, p);
    }
  }

  lemma RecvChunkChange(e: Device)
    requires e.Valid() && e.ep.datasize <= ReqLength(e.ep.req) <= Dfu.TRANSFER && e.ep.rx != Valid
    ensures var r := RecvChunk(e).device;
      SameDevice(e, r) && r.log == e.log && r.ep.req == e.ep.req
  {
    hide Rom.Valid;
  }

  lemma StatusOutChange(d: Device, x: seq<byte>) returns (c: Change)
    requires Inv(d) && !Deaf(d) && d.ep.fsm == StatusOut && |x| <= MAX_PACKET
    ensures Explains(d, Step(d, OutToken(x)), c)
  {
    hide Rom.Valid, Step, RunCallback, IsClassInterface, DriverStep, Dfu.Complete;
    Transfers.StatusOutStep(d, x);
    c := CallbackChange(d, Transfers.BeforeCallback(d, x), [Packet(x)]);
  }

  lemma StatusInChange(d: Device, e: Device) returns (c: Change)
    requires d.Valid() && d.flash.locked && !d.reset && EpInv(d.ep, d.dfu.state) && d.ep.fsm == StatusIn
    requires e == d.(ep := d.ep.(tx := Nak))
    ensures Explains(d, ControlIn(e), c)
  {
    hide Rom.Valid, RunCallback, IsClassInterface, DriverStep, Dfu.Complete;
    assert d.log + [] == d.log;
    c := CallbackChange(d, e.Log(StatusDone(d.ep.req)), []);
  }

  lemma ReadPhaseChange(d: Device, e: Device)
    requires d.Valid() && d.flash.locked && !d.reset && EpInv(d.ep, d.dfu.state) && d.ep.fsm != StatusIn
    requires e == d.(ep := d.ep.(tx := Nak)) && d.ep.tx == Valid
    ensures Explains(d, ControlIn(e), Plainly([]))
  {
    hide Rom.Valid;
  }

  /** Every token changes the device in one of the ways above. */
  lemma StepChange(d: Device, t: Token) returns (c: Change)
    requires Inv(d)
    ensures Explains(d, Step(d, t), c)
  {
    hide Rom.Valid, ControlSetup, ControlOut, ControlIn, EpInv, Explains;
    c := Plainly([]);
    if Deaf(d) || !Accepted(d, t) {
      Unchanged(d);
    } else {
      match t
      case SetupToken(data) => c := SetupTokenChange(d, data);
      case OutToken(data) => c := OutChange(d, data);
      case InToken => c := InChange(d);
      case ResetSignal => c := NewBusReset; ResetChange(d);
    }
  }

  lemma Unchanged(d: Device)
    requires d.Valid()
    ensures Explains(d, d, Plainly([]))
  {
  }

  lemma ResetChange(d: Device)
    requires Inv(d) && !d.reset
    ensures Explains(d, Unserved(ControlReset(d)), NewBusReset)
  {
    hide Rom.Valid, RegistersCallback, PollHandled;
  }

  /** A SETUP is served as one unless an unserved packet keeps the SETUP bit frozen. */
  lemma SetupTokenChange(d: Device, data: seq<byte>) returns (c: Change)
    requires Inv(d) && !Deaf(d) && Accepted(d, SetupToken(data))
    ensures Explains(d, Step(d, SetupToken(data)), c)
  {
    hide Rom.Valid, ControlSetup, ControlOut, RegistersCallback, PollHandled, OutPhase;
    var e := Arrived(d, data, true);
    if e.ep.setup {
      c := SetupChange(d, e);
    } else {
      c := Plainly([]);
      SurplusChange(d, e, []);
    }
  }

  lemma SurplusChange(d: Device, e: Device, pre: seq<Event>)
    requires d.Valid() && !d.reset && SameDevice(d, e) && e.Valid() && e.log == d.log + pre && AllPassive(pre)
    requires e.ep.fsm != DataOut && e.ep.fsm != LastDataOut && e.ep.fsm != StatusOut
    ensures Explains(d, ControlOut(e), Plainly(pre))
  {
    hide Rom.Valid;
  }

  lemma OutChange(d: Device, data: seq<byte>) returns (c: Change)
    requires Inv(d) && !Deaf(d) && Accepted(d, OutToken(data))
    ensures Explains(d, Step(d, OutToken(data)), c)
  {
    hide Rom.Valid, ControlOut;
    if d.ep.fsm == StatusOut {
      c := StatusOutChange(d, data);
    } else if d.ep.fsm == DataOut || d.ep.fsm == LastDataOut {
      c := DataOutChange(d, Arrived(d, data, false), Packet(data));
    } else {
      c := Plainly([Packet(data)]);
      SurplusChange(d, Arrived(d, data, false), [Packet(data)]);
    }
  }

  lemma InChange(d: Device) returns (c: Change)
    requires Inv(d) && !Deaf(d) && Accepted(d, InToken)
    ensures Explains(d, Step(d, InToken), c)
  {
    hide Rom.Valid, ControlIn;
    var e := d.(ep := d.ep.(tx := Nak));
    if d.ep.fsm == StatusIn {
      c := StatusInChange(d, e);
    } else {
      c := Plainly([]);
      ReadPhaseChange(d, e);
    }
  }
}
