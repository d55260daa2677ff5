/** Memory safety of the control endpoint, over every run: what comes in never leaves the
    control buffer, whatever the host sends, and the states of a transfer mean what they say. */
module Safety {
  import opened Bytes
  import opened Usb
  import opened UsbRun
  import opened ControlWrite
  import opened Causality
  import Dfu
  import History
  import Transfers

  /** The RAM behind the control buffer is the same. */
  ghost predicate SameBehind(r: Device, d: Device)
    requires r.Valid() && d.Valid()
  {
    forall i :: Dfu.TRANSFER <= i < RAM_SPAN ==> r.ram[i] == d.ram[i]
  }

  lemma AnswerInside(d: Device, body: seq<byte>)
    requires d.Valid() && |body| < 256
    ensures SameBehind(Answer(d, body), d)
  {
    hide Rom.Valid;
  }

  lemma DescriptorInside(d: Device)
    requires d.Valid()
    ensures SameBehind(GetDescriptor(d).device, d)
  {
    hide Answer, SameBehind;
    AnswerInside(d, d.rom.device);
    AnswerInside(d, d.rom.config);
    var s := StringFor(d.rom, ReqValue(d.ep.req) % 256, ReqIndex(d.ep.req));
    if s != [] {
      AnswerInside(d, s[0]);
    }
    RefusedInside(d);
  }

  lemma RefusedInside(d: Device)
    requires d.Valid()
    ensures SameBehind(d.(ram := Splice(d.ram, 1, [3])), d) && SameBehind(d, d)
  {
    hide Rom.Valid;
  }

  lemma DeviceInside(d: Device)
    requires d.Valid()
    ensures SameBehind(DeviceRequest(d).device, d)
  {
    hide Rom.Valid, Answer, GetDescriptor;
    AnswerInside(d, [1]);
    AnswerInside(d, [0, 0]);
    DescriptorInside(d);
  }

  lemma StandardInside(d: Device)
    requires d.Valid()
    ensures SameBehind(StandardRequest(d).device, d)
  {
    hide Rom.Valid, Answer, DeviceRequest, StallGet;
    DeviceInside(d);
    AnswerInside(d, [1]);
    AnswerInside(d, [0, 0]);
    EndpointInside(d);
    hide EndpointRequest;
  }

  lemma EndpointInside(d: Device)
    requires d.Valid()
    ensures SameBehind(EndpointRequest(d).device, d)
  {
    hide Rom.Valid, Answer, StallSet;
    StallFrame(d.Log(HaltRequest(HaltAddr(d.ep.req), HaltStall(d.ep.req))), HaltAddr(d.ep.req), HaltStall(d.ep.req));
    var addr := ReqIndex(d.ep.req) % 256;
    AnswerInside(d, [if StallGet(d, addr) then 1 else 0, 0]);
  }

  lemma DfuInside(d: Device)
    requires d.Valid()
    ensures SameBehind(DfuDispatch(d).device, d)
  {
    hide Rom.Valid, Dfu.FlashBytes, Dfu.StatusBytes, Dfu.InApplication;
  }

  lemma DispatchInside(d: Device)
    requires d.Valid()
    ensures SameBehind(Dispatch(d).device, d)
  {
    AnswerInside(d, d.rom.winusb);
    DfuInside(d);
    StandardInside(d);
    hide Answer, DfuDispatch, StandardRequest, SameBehind;
  }

  lemma SetupReadInside(t: Device)
    requires t.Valid() && t.ep.tx != Valid
    ensures SameBehind(SetupRead(t), t)
  {
    hide Rom.Valid, Dispatch, SetupRead;
    var e := t.(ep := t.ep.(dataoff := 0));
    History.SetupReadTail(t);
    DispatchInside(e);
  }

  lemma SetupInside(e: Device)
    requires e.Valid() && e.ep.tx == Nak && e.ep.rx == Nak
    ensures SameBehind(ControlSetup(e), e)
  {
    hide Rom.Valid, SetupRead;
    var g := NakSet(e.(ep := e.ep.(callback := false)), true);
    var data := Received(g, 8);
    if |data| == 8 {
      var h := ReadPacket(g);
      var l := h.(ep := h.ep.(req := Splice(h.ep.req, 0, data))).Log(Setup(data));
      SetupReadInside(l);
    }
  }

  lemma ChunkInside(d: Device)
    requires d.Valid() && d.ep.datasize <= ReqLength(d.ep.req) <= Dfu.TRANSFER
    ensures SameBehind(RecvChunk(d).device, d)
  {
    hide Rom.Valid, ReqLength;
  }

  lemma OutInside(e: Device)
    requires e.Valid() && !e.reset
    requires e.ep.fsm == DataOut || e.ep.fsm == LastDataOut ==> e.ep.datasize <= ReqLength(e.ep.req) <= Dfu.TRANSFER
    ensures SameBehind(ControlOut(e), e)
  {
    hide Rom.Valid, RecvChunk, Handle, ReqLength;
    if e.ep.fsm == DataOut || e.ep.fsm == LastDataOut {
      ChunkInside(e);
      if RecvChunk(e).ok {
        HandleInside(RecvChunk(e).device);
      }
    }
  }

  lemma HandleInside(g: Device)
    requires g.Valid() && g.ep.datasize <= Dfu.TRANSFER
    ensures SameBehind(Handle(g), g)
  {
    hide Rom.Valid, Dispatch;
    DispatchInside(g.Log(Delivered(g.ep.req, g.ram[..g.ep.datasize])));
  }

  lemma InInside(e: Device)
    requires e.Valid() && !e.reset && (e.ep.fsm == DataIn ==> e.ep.dataoff + e.ep.datasize <= RAM_SPAN)
    ensures SameBehind(ControlIn(e), e)
  {
    hide Rom.Valid, RunCallback;
  }

  lemma StepInside(d: Device, t: Token)
    requires Inv(d)
    ensures SameBehind(Step(d, t), d)
  {
    hide Rom.Valid, ControlSetup, ControlOut, ControlIn;
    if !Deaf(d) && Accepted(d, t) {
      match t
      case SetupToken(data) =>
        SetupInside(Arrived(d, data, true));
        OutInside(Arrived(d, data, true));
      case OutToken(data) => OutInside(Arrived(d, data, false));
      case InToken => InInside(d.(ep := d.ep.(tx := Nak)));
      case ResetSignal => OutInside(ControlReset(d));
    }
  }

  /** Whatever the host sends, nothing is ever written behind the 1024 bytes of the control
      buffer. */
  lemma {:induction false} WritesStayInBuffer(d: Device, ts: seq<Token>)
    requires Inv(d)
    ensures SameBehind(Run(d, ts), d)
    decreases |ts|
  {
    hide Step, Rom.Valid, SameBehind;
    if ts == [] {
      RefusedInside(d);
    } else {
      StepInside(d, ts[0]);
      WritesStayInBuffer(Step(d, ts[0]), ts[1..]);
      BehindIsTransitive(Run(d, ts), Step(d, ts[0]), d);
    }
  }

  lemma BehindIsTransitive(r: Device, e: Device, d: Device)
    requires r.Valid() && e.Valid() && d.Valid() && SameBehind(r, e) && SameBehind(e, d)
    ensures SameBehind(r, d)
  {
  }

  /** What the control state says about counters, flags and endpoint status in every state that
      is reached after power-on, with SETUPs and bus resets at any time: how much data is
      missing, that reception is NAKed while data goes in and open while it comes out, that
      nothing is overrun, and that no packet was dropped on a busy endpoint. */
  lemma ReachableStates(d: Device, ts: seq<Token>)
    requires Initial(d) && !FromPowerOn(d, ts).reset
    ensures var r := FromPowerOn(d, ts);
      && PacketDropped !in r.log && r.flash.locked
      && (r.ep.fsm == DataOut ==> MAX_PACKET < ReqLength(r.ep.req) - r.ep.datasize)
      && (r.ep.fsm == LastDataOut ==> 0 < ReqLength(r.ep.req) - r.ep.datasize <= MAX_PACKET)
      && (r.ep.fsm == DataOut || r.ep.fsm == LastDataOut ==>
        ReqLength(r.ep.req) <= Dfu.TRANSFER && r.ep.datasize % MAX_PACKET == 0 && !IsIn(r.ep.req))
      && (r.ep.fsm == DataIn || r.ep.fsm == LastDataIn ==> r.ep.forceNak && IsIn(r.ep.req))
      && (r.ep.fsm == DataIn ==> r.ep.dataoff + r.ep.datasize < U16)
      && (r.ep.fsm == DataOut || r.ep.fsm == LastDataOut || r.ep.fsm == StatusOut ==> !r.ep.forceNak && r.ep.rx == Valid)
      && (r.ep.tx == Valid ==> r.ep.fsm == DataIn || r.ep.fsm == LastDataIn || r.ep.fsm == StatusIn)
  {
    hide Run, Rom.Valid, ReqLength, ReqType;
  }

  // What a read can show of the RAM

  /** The DFU requests that leave wLength as the length of their answer. */
  predicate EchoesLength(q: seq<byte>)
    requires IsRequest(q)
  {
    && IsClassInterface(q)
    && (ReqCode(q) == Dfu.DNLOAD || ReqCode(q) == Dfu.CLRSTATUS || ReqCode(q) == Dfu.ABORT || ReqCode(q) == Dfu.DETACH)
  }

  /** The standard requests that leave the length of the transfer before them. */
  predicate KeepsLength(q: seq<byte>)
    requires IsRequest(q)
  {
    IsStandard(q) && ((ReqType(q) % 0x20 == 0 && ReqCode(q) == 9) || IsHalt(q))
  }

  lemma ClassLength(e: Device)
    requires e.Valid() && IsClassInterface(e.ep.req) && ReqLength(e.ep.req) > 0
    ensures var h := DfuDispatch(e);
      h.ok ==> (h.device.ep.datasize > Dfu.TRANSFER <==> EchoesLength(e.ep.req) && ReqLength(e.ep.req) > Dfu.TRANSFER)
  {
    hide Rom.Valid, Dfu.FlashBytes, Dfu.StatusBytes, Dfu.InApplication, Splice, ReqLength, ReqValue, ReqType;
  }

  lemma DeviceLength(e: Device)
    requires e.Valid() && IsIn(e.ep.req)
    ensures var h := DeviceRequest(e);
      h.ok ==> if ReqCode(e.ep.req) == 9 then h.device.ep.datasize == e.ep.datasize else h.device.ep.datasize < 256
  {
    hide Rom.Valid, GetDescriptor, ReqValue;
    DescriptorLength(e);
  }

  lemma DescriptorLength(e: Device)
    requires e.Valid()
    ensures var h := GetDescriptor(e);
      h.ok ==> h.device.ep.datasize < 256
  {
  }

  lemma EndpointLength(e: Device)
    requires e.Valid() && IsStandard(e.ep.req) && ReqType(e.ep.req) % 0x20 == 2
    ensures var h := EndpointRequest(e);
      h.ok ==> if IsHalt(e.ep.req) then h.device.ep.datasize == e.ep.datasize else h.device.ep.datasize < 256
  {
    hide Rom.Valid, StallSet, StallGet, ReqValue, ReqIndex;
    var q := e.ep.req;
    StallFrame(e.Log(HaltRequest(HaltAddr(q), HaltStall(q))), HaltAddr(q), HaltStall(q));
  }

  lemma StandardLength(e: Device)
    requires e.Valid() && IsIn(e.ep.req)
    ensures var h := StandardRequest(e);
      h.ok ==> (h.device.ep.datasize > Dfu.TRANSFER <==> KeepsLength(e.ep.req) && e.ep.datasize > Dfu.TRANSFER)
  {
    hide Rom.Valid, DeviceRequest, EndpointRequest, ReqValue, ReqIndex;
    var q := e.ep.req;
    DeviceLength(e);
    if IsStandard(q) && ReqType(q) % 0x20 == 2 {
      EndpointLength(e);
    }
  }

  lemma HandlerLength(e: Device)
    requires e.Valid() && IsIn(e.ep.req) && ReqLength(e.ep.req) > 0
    ensures var h, q := Dispatch(e), e.ep.req;
      h.ok ==> (h.device.ep.datasize > Dfu.TRANSFER <==>
        (EchoesLength(q) && ReqLength(q) > Dfu.TRANSFER) || (KeepsLength(q) && e.ep.datasize > Dfu.TRANSFER))
  {
    KindsExclude(e.ep.req);
    hide Rom.Valid, DfuDispatch, StandardRequest, EchoesLength;
    hide KeepsLength, ReqLength, ReqType, IsClassInterface, IsVendorDevice;
    if IsClassInterface(e.ep.req) {
      ClassLength(e);
    } else {
      StandardLength(e);
    }
  }

  lemma KindsExclude(q: seq<byte>)
    requires IsRequest(q)
    ensures EchoesLength(q) ==> IsClassInterface(q)
    ensures KeepsLength(q) ==> !IsClassInterface(q) && !IsVendorDevice(q)
  {
  }

  /** A read shows RAM behind the control buffer if and only if it asks for more than 1024 bytes
      with a request that sets no length of its own: DNLOAD, CLRSTATUS, ABORT or DETACH sent as a
      read, or SET_CONFIGURATION or a halt request sent as one while the transfer before it had
      left more than 1024 bytes to go. */
  lemma ReadsLeaveBuffer(d: Device, q: seq<byte>)
    requires Ready(d) && IsRequest(q) && IsIn(q) && ReqLength(q) > 0 && Transfers.ReadOutcome(d, q).ok
    ensures |Transfers.AnswerTo(d, q)| > Dfu.TRANSFER <==>
            ReqLength(q) > Dfu.TRANSFER && (EchoesLength(q) || (KeepsLength(q) && d.ep.datasize > Dfu.TRANSFER))
  {
    hide Rom.Valid, Dispatch, EchoesLength, KeepsLength, ReqLength, ReqType, EpInv;
    var t := Taken(d, q);
    HandlerLength(t.(ep := t.ep.(dataoff := 0)));
  }

  /** ABORT sent as a read of 1025 bytes. */
  const LONG_ABORT: seq<byte> := [0xA1, Dfu.ABORT, 0, 0, 0, 0, 0x01, 0x04]

  /** The input: its answer has one byte from behind the buffer. */
  lemma LongAbortLeavesBuffer(d: Device)
    requires Ready(d)
    ensures IsRequest(LONG_ABORT) && Transfers.ReadOutcome(d, LONG_ABORT).ok
    ensures |Transfers.AnswerTo(d, LONG_ABORT)| == Dfu.TRANSFER + 1
    ensures Transfers.AnswerTo(d, LONG_ABORT)[Dfu.TRANSFER] == d.ram[Dfu.TRANSFER]
  {
    var q := LONG_ABORT;
    AbortFields();
    hide Rom.Valid, EpInv, IsClassInterface, ReqLength, ReqCode;
    var e := Taken(d, q);
    AbortEchoes(e.(ep := e.ep.(dataoff := 0)));
  }

  lemma AbortFields()
    ensures var q := LONG_ABORT;
      IsRequest(q) && IsClassInterface(q) && ReqCode(q) == Dfu.ABORT && ReqLength(q) == Dfu.TRANSFER + 1
  {
  }

  lemma AbortEchoes(e: Device)
    requires e.Valid() && IsClassInterface(e.ep.req) && ReqCode(e.ep.req) == Dfu.ABORT
    ensures var h := Dispatch(e);
      h.ok && h.device.ep.datasize == ReqLength(e.ep.req) && h.device.ram == e.ram
  {
    hide Rom.Valid, IsClassInterface, ReqLength, ReqValue;
  }
}
