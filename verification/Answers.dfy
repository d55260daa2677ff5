/** What a host gets in reply to one request, through the whole transfer. */
module Answers {
  import opened Bytes
  import opened Usb
  import opened UsbRun
  import opened ControlRead
  import opened ControlWrite
  import opened Transfers
  import Dfu
  import Readiness

  /** The host reads the answer s, cut to the length it asked for. */
  predicate Gets(d: Device, q: seq<byte>, s: seq<byte>)
    requires Inv(d) && IsRequest(q)
  {
    var r := HostRead(Step(d, SetupToken(q)), ReqLength(q));
    r.complete && Concat(r.packets) == s[..Min(|s|, ReqLength(q))]
  }

  /** The request is refused: the host meets a STALL and no data. */
  predicate IsRefused(d: Device, q: seq<byte>)
    requires Inv(d) && IsRequest(q)
  {
    var r := Step(d, SetupToken(q));
    r.ep.tx == Stall && r.ep.rx == Stall && r.ep.fsm == Idle && HostRead(r, ReqLength(q)).packets == []
  }

  /** The device as the handler of q finds it. */
  function Asked(d: Device, q: seq<byte>): (e: Device)
    requires d.Valid() && IsRequest(q)
    ensures e.Valid() && e.ep.req == q && e.rom == d.rom && e.ram == d.ram && e.halted == d.halted && e.dfu == d.dfu
    ensures e.link == d.link && e.flash == d.flash && !e.ep.callback && e.reset == d.reset
  {
    var t := Taken(d, q);
    t.(ep := t.ep.(dataoff := 0))
  }

  /** A handler that puts the answer s into the buffer. */
  lemma AnswerIsRead(d: Device, q: seq<byte>, s: seq<byte>)
    requires Ready(d) && IsRequest(q) && IsIn(q) && ReqLength(q) > 0
    requires var h := Dispatch(Asked(d, q));
      && h.ok && h.device.link == Up && |s| <= |h.device.ram| && h.device.ep.datasize == |s| && h.device.ram[..|s|] == s
    ensures Gets(d, q, s)
  {
    hide Rom.Valid, Dispatch, Step, EpInv, ReqLength, IsIn, Packets, Concat, HostRead, InStatusOut;
    var h, n := Dispatch(Asked(d, q)), Min(|s|, ReqLength(q));
    assert ReadOutcome(d, q) == h;
    assert h.device.ram[..n] == s[..n];
    ControlReadReassembles(d, q);
  }

  lemma BodyIsRead(d: Device, q: seq<byte>, body: seq<byte>)
    requires Ready(d) && IsRequest(q) && IsIn(q) && ReqLength(q) > 0 && |body| < 256
    requires Dispatch(Asked(d, q)) == Outcome(Answer(Asked(d, q), body), true)
    ensures Gets(d, q, body)
  {
    hide Rom.Valid, Dispatch, Step, EpInv, ReqLength, IsIn, Gets;
    var e := Asked(d, q);
    assert Answer(e, body).ram[..|body|] == body;
    AnswerIsRead(d, q, body);
  }

  lemma RefusalIsSeen(d: Device, q: seq<byte>)
    requires Ready(d) && IsRequest(q) && (IsIn(q) || ReqLength(q) == 0) && !Dispatch(Asked(d, q)).ok
    ensures IsRefused(d, q)
  {
    hide Rom.Valid, Dispatch, Step, EpInv, ReqLength, IsIn;
    if ReqLength(q) == 0 {
      NoDataStarts(d, q);
    } else {
      ReadStarts(d, q);
    }
  }

  /** A SETUP packet of less than eight bytes is refused, and no request is noted. */
  lemma ShortSetup(d: Device, data: seq<byte>)
    requires Ready(d) && |data| < 8
    ensures var r := Step(d, SetupToken(data));
      r.ep.fsm == Idle && r.ep.tx == Stall && r.ep.rx == Stall && r.dfu == d.dfu && r.flash == d.flash && r.log == d.log
  {
    hide Rom.Valid, SetupRead, SetupWrite, ReqLength;
    assert data[..|data|] == data;
  }

  /** Of a longer one the first eight bytes count. */
  lemma LongSetup(d: Device, data: seq<byte>)
    requires Ready(d) && 8 < |data| <= MAX_PACKET
    ensures var q := data[..8];
      var t := Taken(d, q).(ep := Taken(d, q).ep.(rxPacket := data));
      Step(d, SetupToken(data)) == if ReqLength(q) == 0 || IsIn(q) then SetupRead(t) else SetupWrite(t)
  {
    hide Rom.Valid, SetupRead, SetupWrite, ReqLength, IsIn;
    var e := Arrived(d, data, true);
    assert Splice(e.ep.req, 0, data[..8]) == data[..8];
  }

  /** A request without data, and its status stage. */
  function NoDataTokens(q: seq<byte>): seq<Token> {
    [SetupToken(q), InToken]
  }

  /** A handled request without data leaves what its handler has made of the device. */
  predicate Keeps(h: Device, r: Device) {
    && r.dfu == h.dfu && r.flash == h.flash && r.halted == h.halted && r.rom == h.rom && r.ram == h.ram
    && r.ep.daddr == h.ep.daddr
  }

  lemma NoDataTransfer(d: Device, q: seq<byte>)
    requires Ready(d) && IsRequest(q) && ReqLength(q) == 0 && !Usb.IsSetAddress(q)
    requires var h := Dispatch(Asked(d, q));
      h.ok && h.device.link == Up && (!h.device.ep.callback || h.device.dfu.state == Dfu.ManifestSync)
    ensures var r := Run(d, NoDataTokens(q));
      Ready(r) && r.ep.fsm == Idle && Keeps(Dispatch(Asked(d, q)).device, r)
  {
    hide Rom.Valid, Dispatch, Step, EpInv, ReqLength, Usb.IsSetAddress;
    var h, e := Dispatch(Asked(d, q)).device, Step(d, SetupToken(q));
    NoDataStarts(d, q);
    DispatchFrame(Asked(d, q));
    Readiness.StepListens(d, SetupToken(q));
    NotSurplus(d, q);
    StatusIsSent(e);
    RunOne(d, SetupToken(q));
    RunOne(e, InToken);
    RunAppend(d, [SetupToken(q)], [InToken]);
    assert NoDataTokens(q) == [SetupToken(q)] + [InToken];
  }

  lemma NotSurplus(d: Device, q: seq<byte>)
    requires Ready(d)
    ensures !Readiness.Surplus(d, SetupToken(q))
  {
  }

  lemma StatusIsSent(e: Device)
    requires Inv(e) && !Deaf(e) && e.ep.fsm == StatusIn && e.ep.tx == Valid && e.ep.rx != Disabled && !e.ep.ctrRx
    requires !Usb.IsSetAddress(e.ep.req) && (!e.ep.callback || e.dfu.state == Dfu.ManifestSync)
    ensures var r := Step(e, InToken);
      Ready(r) && r.ep.fsm == Idle && Keeps(e, r)
  {
    hide Rom.Valid;
  }
}
