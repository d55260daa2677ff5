/** When the control endpoint can take the next transfer: from the first bus reset on, unless the
    system was reset, a halt request has cut the peripheral off the bus, or a packet came that
    nobody expected. The last case is for good. */
module Readiness {
  import opened Bytes
  import opened FlashMemory
  import opened Usb
  import opened UsbRun
  import opened ControlWrite
  import opened History
  import opened Causality
  import opened Programming
  import opened Download
  import Dfu

  /** An OUT packet that the endpoint accepts in a state that has no use for it. */
  predicate Surplus(d: Device, t: Token) {
    && t.OutToken? && Accepted(d, t)
    && d.ep.fsm != DataOut && d.ep.fsm != LastDataOut && d.ep.fsm != StatusOut
  }

  // Reception is never disabled again

  lemma DispatchListens(d: Device)
    requires d.Valid() && d.ep.rx != Disabled
    ensures Dispatch(d).device.ep.rx != Disabled && Dispatch(d).device.ep.ctrRx == d.ep.ctrRx
  {
    hide Rom.Valid, Dispatch, LogGrows;
    DispatchFrame(d);
  }

  lemma ReadListens(t: Device)
    requires t.Valid() && t.ep.rx != Disabled && t.ep.tx != Valid
    ensures SetupRead(t).ep.rx != Disabled && SetupRead(t).ep.ctrRx == t.ep.ctrRx
  {
    hide Rom.Valid, Dispatch, SetupRead;
    ReadFrame(t);
    DispatchListens(t.(ep := t.ep.(dataoff := 0)));
  }

  lemma SetupListens(e: Device)
    requires e.Valid() && e.ep.rx == Nak && e.ep.tx == Nak
    ensures ControlSetup(e).ep.rx != Disabled && !ControlSetup(e).ep.ctrRx
  {
    hide Rom.Valid, SetupRead, ReqLength, ReqType;
    var g := NakSet(e.(ep := e.ep.(callback := false)), true);
    var s := Received(g, 8);
    if |s| == 8 {
      var h := ReadPacket(g);
      ReadListens(h.(ep := h.ep.(req := Splice(h.ep.req, 0, s))).Log(Setup(s)));
    }
  }

  lemma HandleListens(g: Device)
    requires g.Valid() && g.ep.rx != Disabled && g.ep.datasize <= Dfu.TRANSFER
    ensures Handle(g).ep.rx != Disabled && Handle(g).ep.ctrRx == g.ep.ctrRx
  {
    hide Rom.Valid, Dispatch, WritePacket;
    var h := Dispatch(g.Log(Delivered(g.ep.req, g.ram[..g.ep.datasize]))).device;
    PacketFrame(h, []);
    DispatchListens(g.Log(Delivered(g.ep.req, g.ram[..g.ep.datasize])));
  }

  /** CTR_RX stays set exactly behind a packet that nobody expects. */
  lemma OutListens(e: Device)
    requires e.Valid() && !e.reset && e.ep.rx == Nak && e.ep.ctrRx
    requires e.ep.fsm == DataOut || e.ep.fsm == LastDataOut ==> e.ep.datasize <= ReqLength(e.ep.req) <= Dfu.TRANSFER
    ensures ControlOut(e).ep.rx != Disabled
    ensures ControlOut(e).ep.ctrRx <==> e.ep.fsm != DataOut && e.ep.fsm != LastDataOut && e.ep.fsm != StatusOut
  {
    hide Rom.Valid, Handle, RunCallback, ReqLength;
    if e.ep.fsm == DataOut || e.ep.fsm == LastDataOut {
      ChunkListens(e);
      if RecvChunk(e).ok {
        HandleListens(RecvChunk(e).device);
      }
    }
  }

  lemma ChunkListens(e: Device)
    requires e.Valid() && e.ep.rx == Nak && e.ep.datasize <= ReqLength(e.ep.req) <= Dfu.TRANSFER
    ensures RecvChunk(e).device.ep.rx != Disabled && !RecvChunk(e).device.ep.ctrRx
  {
    hide Rom.Valid, ReqLength;
  }

  lemma InListens(e: Device)
    requires e.Valid() && !e.reset && (e.ep.fsm == DataIn ==> e.ep.dataoff + e.ep.datasize <= RAM_SPAN)
    ensures e.ep.rx != Disabled ==> ControlIn(e).ep.rx != Disabled
    ensures ControlIn(e).ep.ctrRx == e.ep.ctrRx
  {
    hide Rom.Valid, RunCallback, SendChunk, ReqValue, ReqType;
    if e.ep.fsm == DataIn {
      SendFrame(e);
    }
  }

  /** One token: reception that is open stays open, a bus reset opens it, and the endpoint gets
      stuck exactly on a surplus packet. */
  lemma StepListens(d: Device, t: Token)
    requires Inv(d) && !Deaf(d)
    ensures d.ep.rx != Disabled || t.ResetSignal? ==> Step(d, t).ep.rx != Disabled
    ensures Step(d, t).ep.ctrRx <==> d.ep.ctrRx || Surplus(d, t)
  {
    hide Rom.Valid, ControlSetup, ControlOut, ControlIn, RegistersCallback, IsGetStatus;
    if Accepted(d, t) {
      match t
      case SetupToken(data) =>
        if Arrived(d, data, true).ep.setup {
          SetupListens(Arrived(d, data, true));
        } else {
          OutListens(Arrived(d, data, true));
        }
      case OutToken(data) => OutListens(Arrived(d, data, false));
      case InToken => InListens(d.(ep := d.ep.(tx := Nak)));
      case ResetSignal => StuckReset(d);
    }
  }

  lemma StuckReset(d: Device)
    requires Inv(d) && !d.reset
    ensures var r := Unserved(ControlReset(d));
      r.ep.rx != Disabled && r.ep.ctrRx == d.ep.ctrRx
  {
    hide Rom.Valid, RegistersCallback, IsGetStatus;
  }

  // Guards on one token

  /** The token completes the status stage of a request whose callback resets the system. */
  predicate Resets(d: Device, t: Token) {
    && d.ep.callback && d.dfu.state == Dfu.Manifest && Accepted(d, t)
    && ((t.InToken? && d.ep.fsm == StatusIn) || (t.OutToken? && d.ep.fsm == StatusOut))
  }

  /** A halt request that moves the packet table or drives resume signalling. */
  predicate IsCut(q: seq<byte>) {
    IsRequest(q) && IsHalt(q) && HaltedLink(Up, HaltAddr(q), HaltStall(q)) != Up
  }

  /** Such a request without a data stage to wait for. */
  predicate CutsAtOnce(q: seq<byte>) {
    IsCut(q) && (ReqLength(q) == 0 || IsIn(q))
  }

  /** The token brings such a request to its handler: the SETUP of a request that is handled at
      once, or the packet that completes the data of one that is not. */
  predicate BringsCut(d: Device, t: Token)
    requires IsRequest(d.ep.req)
  {
    && Accepted(d, t)
    && (match t
        case SetupToken(data) => !d.ep.ctrRx && |data| >= 8 && CutsAtOnce(data[..8])
        case OutToken(data) =>
          d.ep.fsm == LastDataOut && IsCut(d.ep.req) && |data| >= ReqLength(d.ep.req) - d.ep.datasize
        case _ => false)
  }

  lemma DispatchCuts(d: Device)
    requires d.Valid() && d.link == Up
    ensures Dispatch(d).device.reset == d.reset
    ensures Dispatch(d).device.link != Up <==> IsCut(d.ep.req)
  {
    hide Rom.Valid, Dispatch, DriverStep, IsClassInterface, HaltedLink, HaltedDaddr, IsHalt;
    DispatchNotes(d);
    HaltIsStandard(d.ep.req);
  }

  lemma SetupCuts(e: Device)
    requires e.Valid() && e.link == Up && e.ep.rx == Nak && e.ep.tx == Nak
    ensures ControlSetup(e).reset == e.reset
    ensures ControlSetup(e).link != Up <==> |e.ep.rxPacket| >= 8 && CutsAtOnce(e.ep.rxPacket[..8])
  {
    hide Rom.Valid, SetupRead, ReqLength, ReqType, IsCut;
    assert e.ep.rxPacket[..|e.ep.rxPacket|] == e.ep.rxPacket;
    var g := NakSet(e.(ep := e.ep.(callback := false)), true);
    var s := Received(g, 8);
    if |s| == 8 {
      var h := ReadPacket(g);
      var t := h.(ep := h.ep.(req := Splice(h.ep.req, 0, s))).Log(Setup(s));
      assert t.ep.req == s;
      ReadCuts(t);
    }
  }

  lemma ReadCuts(t: Device)
    requires t.Valid() && t.link == Up && t.ep.tx != Valid
    ensures SetupRead(t).reset == t.reset && (SetupRead(t).link != Up <==> IsCut(t.ep.req))
  {
    hide Rom.Valid, Dispatch, SetupRead, IsCut;
    SetupReadTail(t);
    DispatchCuts(t.(ep := t.ep.(dataoff := 0)));
  }

  lemma CallbackResets(g: Device)
    requires g.Valid() && !g.reset
    ensures RunCallback(g).reset <==> g.ep.callback && g.dfu.state == Dfu.Manifest
    ensures RunCallback(g).link == g.link
  {
    hide Rom.Valid, Dfu.Commit;
  }

  lemma OutCuts(d: Device, data: seq<byte>)
    requires Inv(d) && !Deaf(d) && Accepted(d, OutToken(data))
    ensures var r := ControlOut(Arrived(d, data, false));
      && (r.reset <==> Resets(d, OutToken(data))) && (r.link != Up <==> BringsCut(d, OutToken(data)))
  {
    hide Rom.Valid, Handle, RunCallback, ReqLength, RegistersCallback, IsGetStatus, IsCut;
    var e := Arrived(d, data, false);
    if d.ep.fsm == DataOut || d.ep.fsm == LastDataOut {
      ChunkCuts(e);
      if RecvChunk(e).ok {
        HandleCuts(RecvChunk(e).device);
      }
    } else if d.ep.fsm == StatusOut {
      var g := ReadPacket(e);
      CallbackResets(g.(ep := g.ep.(fsm := Idle)).Log(StatusDone(e.ep.req)));
    }
  }

  lemma ChunkCuts(e: Device)
    requires e.Valid() && e.ep.rx == Nak && e.ep.datasize <= ReqLength(e.ep.req) <= Dfu.TRANSFER
    ensures var c := RecvChunk(e);
      && c.device.reset == e.reset && c.device.link == e.link && c.device.ep.req == e.ep.req
      && (c.ok <==> |e.ep.rxPacket| >= Min(MAX_PACKET, ReqLength(e.ep.req) - e.ep.datasize))
      && (c.ok ==> c.device.ep.tx == e.ep.tx)
  {
    hide Rom.Valid, ReqLength;
  }

  lemma HandleCuts(g: Device)
    requires g.Valid() && g.link == Up && g.ep.tx != Valid && g.ep.datasize <= Dfu.TRANSFER
    ensures Handle(g).reset == g.reset && (Handle(g).link != Up <==> IsCut(g.ep.req))
  {
    hide Rom.Valid, Dispatch, Handle, IsCut;
    HandleTail(g);
    DispatchCuts(g.Log(Delivered(g.ep.req, g.ram[..g.ep.datasize])));
  }

  lemma InCuts(d: Device)
    requires Inv(d) && !Deaf(d) && Accepted(d, InToken)
    ensures var r := ControlIn(d.(ep := d.ep.(tx := Nak)));
      (r.reset <==> Resets(d, InToken)) && r.link == d.link
  {
    hide Rom.Valid, RunCallback, SendChunk, ReqValue, ReqType, RegistersCallback, IsGetStatus;
    var e := d.(ep := d.ep.(tx := Nak));
    if d.ep.fsm == DataIn {
      SendFrame(e);
    } else if d.ep.fsm == StatusIn {
      CallbackResets(e.Log(StatusDone(e.ep.req)));
    }
  }

  /** Which tokens reset the system, and which take the peripheral off the bus: conditions on the
      token and the device before it. */
  lemma StepCuts(d: Device, t: Token)
    requires Inv(d) && !Deaf(d)
    ensures Step(d, t).reset <==> Resets(d, t)
    ensures Step(d, t).link != Up <==> BringsCut(d, t)
  {
    hide Rom.Valid, ControlSetup, ControlOut, ControlIn, RegistersCallback, IsGetStatus, IsCut;
    if Accepted(d, t) {
      match t
      case SetupToken(data) =>
        if Arrived(d, data, true).ep.setup {
          SetupCuts(Arrived(d, data, true));
        } else {
          SurplusCuts(Arrived(d, data, true));
        }
      case OutToken(data) => OutCuts(d, data);
      case InToken => InCuts(d);
      case ResetSignal => ResetCuts(d);
    }
  }

  lemma SurplusCuts(e: Device)
    requires e.Valid() && !e.reset && e.ep.fsm == Idle
    ensures !ControlOut(e).reset && ControlOut(e).link == e.link
  {
    hide Rom.Valid;
  }

  lemma ResetCuts(d: Device)
    requires Inv(d) && !d.reset
    ensures var r := Unserved(ControlReset(d));
      !r.reset && r.link == d.link
  {
    hide Rom.Valid, RegistersCallback, IsGetStatus;
  }

  /** A device that can take a SETUP still can behind a token if and only if the token does not
      complete a request to leave DFU mode, does not bring a halt request that takes the
      peripheral off the bus, and is no packet that nobody expects. */
  lemma ReadyKept(d: Device, t: Token)
    requires Ready(d)
    ensures Ready(Step(d, t)) <==> !Resets(d, t) && !BringsCut(d, t) && !Surplus(d, t)
  {
    hide Step, Rom.Valid, EpInv, Resets, BringsCut, Surplus;
    StepListens(d, t);
    StepCuts(d, t);
  }

  // From power-on

  /** A packet that nobody expects is among the tokens of a run. */
  predicate MeetsSurplus(d: Device, ts: seq<Token>)
    requires Inv(d)
    decreases |ts|
  {
    ts != [] && (Surplus(d, ts[0]) || MeetsSurplus(Step(d, ts[0]), ts[1..]))
  }

  /** A device that is not off the bus can take a SETUP if a bus reset has opened reception and no
      packet came that nobody expects. */
  lemma {:induction false} RunListens(d: Device, ts: seq<Token>)
    requires Inv(d) && !Deaf(Run(d, ts))
    ensures d.ep.rx != Disabled || ResetSignal in ts ==> Run(d, ts).ep.rx != Disabled
    ensures Run(d, ts).ep.ctrRx <==> d.ep.ctrRx || MeetsSurplus(d, ts)
    decreases |ts|
  {
    hide Step, Rom.Valid, EpInv, Surplus, Deaf;
    if ts != [] {
      if Deaf(d) {
        DeafRun(d, ts);
      } else {
        StepListens(d, ts[0]);
        RunListens(Step(d, ts[0]), ts[1..]);
      }
    }
  }

  lemma {:induction false} DeafRun(d: Device, ts: seq<Token>)
    requires Inv(d) && Deaf(d)
    ensures Run(d, ts) == d
    decreases |ts|
  {
    hide Step, Rom.Valid, EpInv, Deaf;
    if ts != [] {
      DeafIsFinal(d, ts[0]);
      DeafRun(d, ts[1..]);
    }
  }

  /** A reset of the system is noted. */
  lemma ResetIsLogged(d: Device, t: Token)
    requires Inv(d) && (d.reset <==> SystemReset in d.log)
    ensures Step(d, t).reset <==> SystemReset in Step(d, t).log
  {
    hide Rom.Valid, Step, EpInv, RegistersCallback, IsGetStatus, Dfu.Complete;
    hide ReqValue, HaltedDaddr, HaltedLink, Open, AddressAfter;
    if Deaf(d) {
      DeafIsFinal(d, t);
    } else {
      var c := StepChange(d, t);
    }
  }

  lemma {:induction false} ResetsAreLogged(d: Device, ts: seq<Token>)
    requires Inv(d) && (d.reset <==> SystemReset in d.log)
    ensures Run(d, ts).reset <==> SystemReset in Run(d, ts).log
    decreases |ts|
  {
    hide Step, Rom.Valid, EpInv;
    if ts != [] {
      ResetIsLogged(d, ts[0]);
      ResetsAreLogged(Step(d, ts[0]), ts[1..]);
    }
  }

  /** The log tells of no reset of the system and of no request that takes the peripheral off the
      bus. */
  ghost predicate StaysOnBus(log: seq<Event>) {
    SystemReset !in log && forall i :: 0 <= i < |log| ==> !Cuts(log[i])
  }

  lemma BusIsLogged(d: Device, ts: seq<Token>)
    requires Initial(d)
    ensures var r := FromPowerOn(d, ts);
      Deaf(r) <==> !StaysOnBus(r.log)
  {
    hide Step, Rom.Valid, EpInv, Cuts, Lawful, Replay, PhaseLink, OpenRequest, AddressNow, LinkOf;
    InitialInv(d);
    ResetsAreLogged(d, ts);
    RunFromPowerOn(d, ts);
    var log := FromPowerOn(d, ts).log;
    assert log[..|log|] == log;
    if LinkOf(log) != Up {
      LinkHasCause(log, |log|);
    }
    if i :| 0 <= i < |log| && Cuts(log[i]) {
      LinkSettled(log, i, |log|);
      CutsOff(log[i]);
    }
  }

  lemma CutsOff(e: Event)
    requires Cuts(e)
    ensures e.HaltRequest? && HaltedLink(Up, e.addr, e.stall) != Up
  {
  }

  /** In every run from power-on that contains a bus reset the device can take the next transfer
      if and only if the log tells of no reset of the system and of no halt request that takes
      the peripheral off the bus, and no packet came that nobody expects. */
  lemma ReadyFromPowerOn(d: Device, ts: seq<Token>)
    requires Initial(d) && ResetSignal in ts
    ensures Ready(FromPowerOn(d, ts)) <==> StaysOnBus(FromPowerOn(d, ts).log) && !MeetsSurplus(d, ts)
  {
    hide Step, Rom.Valid, EpInv, StaysOnBus, MeetsSurplus, Deaf;
    InitialInv(d);
    BusIsLogged(d, ts);
    if !Deaf(FromPowerOn(d, ts)) {
      RunListens(d, ts);
    }
  }

  /** A download at any time behind the bus reset of an enumeration: whatever came before, unless
      it was one of the events above, the image is in the application area and every other page
      is as it was. */
  lemma DownloadFromPowerOn(d: Device, ts: seq<Token>, image: seq<byte>)
    requires Initial(d) && ResetSignal in ts && |image| <= PAYLOAD
    requires StaysOnBus(FromPowerOn(d, ts).log) && !MeetsSurplus(d, ts)
    ensures BOOT_SIZE + |PaddedImage(image)| <= FLASH_SIZE
    ensures var e, r := FromPowerOn(d, ts), FromPowerOn(d, ts + DownloadTokens(image));
      Ready(r) && r.flash == e.flash.(mem := Splice(e.flash.mem, BOOT_SIZE, PaddedImage(image)))
  {
    hide Step, Rom.Valid, EpInv, DownloadTokens, PaddedImage, Splice, StaysOnBus, MeetsSurplus;
    InitialInv(d);
    ReadyFromPowerOn(d, ts);
    RunAppend(d, ts, DownloadTokens(image));
    DownloadWritesImage(FromPowerOn(d, ts), image);
  }

  // The stuck endpoint

  /** What the log of a stuck device can still gain. */
  predicate OnlyResets(es: seq<Event>) {
    forall i :: 0 <= i < |es| ==> es[i].BusReset?
  }

  lemma StuckStep(d: Device, t: Token) returns (es: seq<Event>)
    requires Inv(d) && !Deaf(d) && d.ep.ctrRx
    ensures var r := Step(d, t);
      && !Deaf(r) && r.ep.ctrRx && r.ep.fsm == Idle
      && r.dfu == d.dfu && r.flash == d.flash && r.ram == d.ram && r.log == d.log + es && OnlyResets(es)
  {
    hide Rom.Valid, ControlSetup, ControlIn, RegistersCallback, IsGetStatus, OutPhase;
    es := if t.ResetSignal? then [BusReset] else [];
  }

  /** The input: an empty OUT packet directly behind the first bus reset. */
  lemma StrayPacketSticks(d: Device)
    requires Initial(d)
    ensures Inv(d) && Ready(Step(d, ResetSignal))
    ensures Surplus(Step(d, ResetSignal), OutToken([])) && Step(Step(d, ResetSignal), OutToken([])).ep.ctrRx
  {
    InitialInv(d);
    hide Rom.Valid, Inv, ControlOut;
    ResetReady(d);
    StepListens(Step(d, ResetSignal), OutToken([]));
  }

  lemma ResetReady(d: Device)
    requires Initial(d) && Inv(d)
    ensures var r := Step(d, ResetSignal);
      Ready(r) && r.ep.rx == Valid && r.ep.fsm == Idle
  {
    hide Rom.Valid, ControlOut;
  }

  /** CLEAR_FEATURE(ENDPOINT_HALT) for endpoint 0x14. */
  const HALT_OF_BTABLE: seq<byte> := [0x02, 1, 0, 0, 0x14, 0, 0, 0]

  /** Another input: this request moves the packet table. */
  lemma TableMoves(d: Device)
    requires Ready(d)
    ensures BringsCut(d, SetupToken(HALT_OF_BTABLE)) && !Ready(Step(d, SetupToken(HALT_OF_BTABLE)))
  {
    hide Rom.Valid, Step, EpInv, IsCut, ReqLength, IsIn, Resets;
    TableRequest();
    var q := HALT_OF_BTABLE;
    assert q[..|q|] == q;
    StepCuts(d, SetupToken(q));
  }

  lemma TableRequest()
    ensures |HALT_OF_BTABLE| == 8 && CutsAtOnce(HALT_OF_BTABLE)
  {
    var q := HALT_OF_BTABLE;
    assert IsHalt(q) && ReqLength(q) == 0;
    hide IsHalt, ReqLength;
    assert HaltAddr(q) == 0x14 && NumberOf(0x14) == BTABLE_NUMBER;
  }

  /** A packet that came when nobody expected it is never acknowledged: its CTR_RX keeps the SETUP
      bit frozen, every SETUP is taken for one more such packet, and no request is handled any
      more. A bus reset does not help. */
  lemma {:induction false} StuckForever(d: Device, ts: seq<Token>) returns (es: seq<Event>)
    requires Inv(d) && !Deaf(d) && d.ep.ctrRx
    ensures var r := Run(d, ts);
      && r.ep.ctrRx && r.ep.fsm == Idle && r.dfu == d.dfu && r.flash == d.flash && r.ram == d.ram
      && r.log == d.log + es && OnlyResets(es)
    decreases |ts|
  {
    hide Step, Rom.Valid;
    if ts == [] {
      es := [];
      StuckIdle(d);
    } else {
      var first := StuckStep(d, ts[0]);
      var rest := StuckForever(Step(d, ts[0]), ts[1..]);
      es := first + rest;
      assert d.log + first + rest == d.log + es;
    }
  }

  lemma StuckIdle(d: Device)
    requires Inv(d) && !d.reset && d.ep.ctrRx
    ensures d.ep.fsm == Idle
  {
  }
}
