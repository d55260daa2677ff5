/** Complete control transfers, from SETUP to the status stage, as a host issues them. */
module Transfers {
  import opened Bytes
  import opened FlashMemory
  import opened Usb
  import opened UsbRun
  import opened ControlRead
  import opened ControlWrite
  import opened Programming
  import Dfu

  /** The eight bytes of a request. */
  function RequestBytes(kind: byte, code: byte, value: int, index: int, length: int): (q: seq<byte>)
    requires 0 <= value < U16 && 0 <= index < U16 && 0 <= length < U16
    ensures IsRequest(q)
  {
    [kind, code] + Pack16(value) + Pack16(index) + Pack16(length)
  }

  lemma RequestFields(kind: byte, code: byte, value: int, index: int, length: int)
    requires 0 <= value < U16 && 0 <= index < U16 && 0 <= length < U16
    ensures var q := RequestBytes(kind, code, value, index, length);
      && ReqType(q) == kind && ReqCode(q) == code && ReqValue(q) == value && ReqIndex(q) == index
      && ReqLength(q) == length
  {
    hide Pack16;
    PackUnpack16(value);
    PackUnpack16(index);
    PackUnpack16(length);
  }

  // Control reads

  /** The handler's verdict on a request with an IN data stage. */
  function ReadOutcome(d: Device, q: seq<byte>): (r: Outcome)
    requires d.Valid() && IsRequest(q)
    ensures r.device.Valid()
  {
    var t := Taken(d, q);
    Dispatch(t.(ep := t.ep.(dataoff := 0)))
  }

  /** The answer the host is entitled to: what the handler left at the start of the control
      buffer, cut to the length the host asked for. */
  function AnswerTo(d: Device, q: seq<byte>): (s: seq<byte>)
    requires d.Valid() && IsRequest(q)
    ensures |s| <= ReqLength(q)
  {
    var h := ReadOutcome(d, q).device;
    h.ram[..Min(h.ep.datasize, ReqLength(q))]
  }

  /** The device ready to send its answer. */
  function Answering(h: Device, want: nat): Device {
    var size := Min(h.ep.datasize, want);
    h.(ep := h.ep.(datasize := size, dataoff := 0, needsZlp := NeedsZlp(size, want)))
  }

  lemma ReadStarts(d: Device, q: seq<byte>)
    requires Ready(d) && IsRequest(q) && IsIn(q) && ReqLength(q) > 0
    ensures var h := ReadOutcome(d, q);
      if h.ok then
        var c := Answering(h.device, ReqLength(q));
        && Step(d, SetupToken(q)) == SendChunk(c) && Remaining(c) == AnswerTo(d, q)
        && ReadyToSend(c.(link := Up), ReqLength(q))
      else
        Step(d, SetupToken(q)) == StallTransaction(h.device)
  {
    hide Rom.Valid, Dispatch, SendChunk, Step, StallTransaction;
    SetupStep(d, q);
    var t := Taken(d, q);
    var e := t.(ep := t.ep.(dataoff := 0));
    DispatchFrame(e);
    DispatchCallback(e);
  }

  /** A request without data: it is handled and confirmed with an empty packet, or it stalls. */
  lemma NoDataStarts(d: Device, q: seq<byte>)
    requires Ready(d) && IsRequest(q) && ReqLength(q) == 0
    ensures var h := ReadOutcome(d, q);
      Step(d, SetupToken(q)) ==
      if h.ok then h.device.(ep := h.device.ep.(datasize := 0, fsm := StatusIn, tx := Valid, txPacket := []))
      else StallTransaction(h.device)
  {
    hide Rom.Valid, Dispatch, Step, StallTransaction;
    SetupStep(d, q);
    var t := Taken(d, q);
    DispatchFrame(t.(ep := t.ep.(dataoff := 0)));
  }

  /** Control read, for every request, every answer length and every wLength: the host gets
      exactly the packets that section 5.5.3 of USB 2.0 prescribes for the answer, stops at the
      device's last packet, and both are at the status stage; a refused request stalls, and one
      that cuts the peripheral off the bus gets no answer. */
  lemma ControlReadReassembles(d: Device, q: seq<byte>)
    requires Ready(d) && IsRequest(q) && IsIn(q) && ReqLength(q) > 0
    ensures var h := ReadOutcome(d, q);
      var r := HostRead(Step(d, SetupToken(q)), ReqLength(q));
      if h.ok && h.device.link == Up then
        && r.complete && r.packets == Packets(AnswerTo(d, q), ReqLength(q)) && Concat(r.packets) == AnswerTo(d, q)
        && InStatusOut(Answering(h.device, ReqLength(q)), r.device)
      else
        !r.complete && r.packets == [] && (!h.ok ==> r.device.ep.tx == Stall)
  {
    hide Rom.Valid, Dispatch, Step, InStatusOut;
    ReadStarts(d, q);
    var h := ReadOutcome(d, q);
    if h.ok && h.device.link == Up {
      assert Answering(h.device, ReqLength(q)) == Answering(h.device, ReqLength(q)).(link := Up);
      SendAll(Answering(h.device, ReqLength(q)), ReqLength(q));
      PacketsConcat(AnswerTo(d, q), ReqLength(q));
    }
  }

  // Status stages

  /** The device after the status stage of a read, before the callback. */
  function BeforeCallback(d: Device, x: seq<byte>): (r: Device)
    requires d.Valid() && |x| <= MAX_PACKET
    ensures r.Valid()
  {
    d.(ep := d.ep.(rx := Valid, rxPacket := x, setup := false, fsm := Idle),
       log := d.log + [Packet(x)] + [StatusDone(d.ep.req)])
  }

  lemma StatusOutStep(d: Device, x: seq<byte>)
    requires Inv(d) && !Deaf(d) && d.ep.fsm == StatusOut && |x| <= MAX_PACKET
    ensures var g := RunCallback(BeforeCallback(d, x));
      Step(d, OutToken(x)) == if g.reset then g else g.(ep := g.ep.(callback := false))
  {
    hide Rom.Valid, RunCallback;
  }

  /** The status stage of a write that registered no callback and set no address. */
  lemma StatusInStep(d: Device)
    requires Inv(d) && !Deaf(d) && d.ep.fsm == StatusIn && d.ep.tx == Valid
    requires !d.ep.callback && !Usb.IsSetAddress(d.ep.req)
    ensures Step(d, InToken) == d.(ep := d.ep.(tx := Nak, fsm := Idle)).Log(StatusDone(d.ep.req))
  {
    hide Rom.Valid;
  }

  // DNLOAD

  /** A class request to the interface with the given code, value and length. */
  predicate IsDfuRequest(q: seq<byte>, kind: byte, code: byte, value: int, len: nat) {
    && IsRequest(q) && ReqType(q) == kind && ReqCode(q) == code && ReqValue(q) == value && ReqLength(q) == len
    && (kind == 0x21 || kind == 0xA1)
  }

  lemma DfuRequestKind(q: seq<byte>, kind: byte, code: byte, value: int, len: nat)
    requires IsDfuRequest(q, kind, code, value, len)
    ensures IsClassInterface(q) && !Usb.IsSetAddress(q) && (IsIn(q) <==> kind == 0xA1)
  {
  }

  /** A request of the DFU class: 0x21 carries data to the device, 0xA1 from it. */
  function DfuRequestBytes(kind: byte, code: byte, value: int, len: nat): (q: seq<byte>)
    requires (kind == 0x21 || kind == 0xA1) && 0 <= value < U16 && len < U16
    ensures IsDfuRequest(q, kind, code, value, len)
  {
    RequestFields(kind, code, value, 0, len);
    RequestBytes(kind, code, value, 0, len)
  }

  /** A download of one block as the host sends it. */
  function DnloadTokens(x: Payload): seq<Token>
    requires x.Valid()
  {
    [SetupToken(DfuRequestBytes(0x21, Dfu.DNLOAD, x.block, |x.data|))] + OutTokens(x.data) + [InToken]
  }

  /** The device between two transfers, with its DFU driver, flash and reset flag given. */
  predicate Rests(d: Device, p: Dfu.Driver, f: Flash, reset: bool) {
    Inv(d) && d.dfu == p && d.flash == f && d.reset == reset && (!reset ==> Ready(d) && d.ep.fsm == Idle)
  }

  lemma WriteStarts(d: Device, q: seq<byte>, n: nat)
    requires Ready(d) && IsRequest(q) && !IsIn(q) && ReqLength(q) == n && 0 < n <= Dfu.TRANSFER
    ensures var e := Step(d, SetupToken(q));
      && Expects(e, n) && e.ep.req == q && e.ep.datasize == 0 && e.ep.tx == Nak
      && e.dfu == d.dfu && e.flash == d.flash && e.ram == d.ram && e.link == Up
  {
    hide Rom.Valid, SetupRead, Step, ReqLength, ReqType, IsIn;
    SetupStep(d, q);
    SetupWriteInv(Taken(d, q));
  }

  /** The device with the data of a write in place, as the handler finds it. */
  function WithData(d: Device, q: seq<byte>, data: seq<byte>): (r: Device)
    requires d.Valid() && IsRequest(q) && |data| <= Dfu.TRANSFER
    ensures r.Valid() && r.ep.datasize <= Dfu.TRANSFER
  {
    ChunkSizes(data);
    var ps := Chunks(data);
    d.(ram := Splice(d.ram, 0, data), log := d.log + [Setup(q)] + PacketEvents(ps),
       ep := d.ep.(fsm := LastDataOut, callback := false, forceNak := false, tx := Nak, rx := Valid, setup := false,
                   req := q, datasize := |data|, rxPacket := ps[|ps| - 1]))
  }

  lemma {:induction false} ChunkSizes(data: seq<byte>)
    ensures var ps := Chunks(data);
      (forall i :: 0 <= i < |ps| - 1 ==> |ps[i]| == MAX_PACKET) && |ps[|ps| - 1]| <= MAX_PACKET
    decreases |data|
  {
    if |data| > MAX_PACKET {
      ChunkSizes(data[MAX_PACKET..]);
    }
  }

  /** The SETUP and the data stage of a write. */
  function WriteTokens(q: seq<byte>, data: seq<byte>): seq<Token> {
    [SetupToken(q)] + OutTokens(data)
  }

  /** The device behind the SETUP of a write. */
  predicate Opened(d: Device, q: seq<byte>, n: nat, e: Device) {
    && e == d.(ep := e.ep).Log(Setup(q))
    && e.ep == d.ep.(fsm := if n > MAX_PACKET then DataOut else LastDataOut, callback := false, forceNak := false,
                     tx := Nak, rx := Valid, setup := true, req := q, datasize := 0, rxPacket := q)
  }

  lemma WriteState(d: Device, q: seq<byte>, n: nat)
    requires Ready(d) && IsRequest(q) && !IsIn(q) && ReqLength(q) == n && 0 < n <= Dfu.TRANSFER
    ensures Opened(d, q, n, Step(d, SetupToken(q)))
  {
    hide Rom.Valid, SetupRead, Step, ReqLength, ReqType, IsIn;
    SetupStep(d, q);
  }

  /** Control write, for every request and every data: a length beyond the control buffer stalls
      at once; otherwise the handler runs once, behind the last packet, and finds the data of all
      packets at the start of the control buffer, with nothing else of the device changed. */
  lemma ControlWriteReassembles(d: Device, q: seq<byte>, data: seq<byte>)
    requires Ready(d) && IsRequest(q) && !IsIn(q) && ReqLength(q) == |data| > 0
    ensures |data| > Dfu.TRANSFER ==> Step(d, SetupToken(q)) == StallTransaction(Taken(d, q))
    ensures |data| <= Dfu.TRANSFER ==> Run(d, WriteTokens(q, data)) == Handle(WithData(d, q, data))
  {
    hide Rom.Valid, SetupRead, Step, ReqLength, ReqType, IsIn, Handle, EpInv;
    SetupStep(d, q);
    if |data| <= Dfu.TRANSFER {
      WriteStarts(d, q, |data|);
      WriteState(d, q, |data|);
      var e := Step(d, SetupToken(q));
      WriteData(e, |data|, data);
      FilledIsWithData(d, q, e, data);
      RunOne(d, SetupToken(q));
      RunAppend(d, [SetupToken(q)], OutTokens(data));
    }
  }

  lemma FilledIsWithData(d: Device, q: seq<byte>, e: Device, data: seq<byte>)
    requires d.Valid() && IsRequest(q) && 0 < |data| == ReqLength(q) <= Dfu.TRANSFER
    requires Opened(d, q, |data|, e)
    ensures Filled(e, data, Chunks(data)) == WithData(d, q, data)
  {
    hide Rom.Valid, ReqLength;
  }

  /** The host sends as many packets as the length takes. */
  lemma {:induction false} PacketCount(data: seq<byte>)
    requires data != []
    ensures |OutTokens(data)| == |Chunks(data)| == (|data| + MAX_PACKET - 1) / MAX_PACKET
    decreases |data|
  {
    if |data| > MAX_PACKET {
      PacketCount(data[MAX_PACKET..]);
    }
  }

  /** Whole packets, possibly none. */
  function WholeTokens(data: seq<byte>): seq<Token> {
    if data == [] then [] else OutTokens(data)
  }

  function WholeEvents(data: seq<byte>): seq<Event> {
    if data == [] then [] else PacketEvents(Chunks(data))
  }

  /** A transfer that is cut short: after any whole packets that do not complete the data, a
      packet shorter than what is due stalls the endpoint. No handler has run: driver and flash are
      as the SETUP left them, and the log has taken note of the packets only. */
  lemma CutWriteStalls(d: Device, q: seq<byte>, data: seq<byte>, p: seq<byte>)
    requires Ready(d) && IsRequest(q) && !IsIn(q) && |data| < ReqLength(q) <= Dfu.TRANSFER
    requires |data| % MAX_PACKET == 0 && |p| < Min(MAX_PACKET, ReqLength(q) - |data|)
    ensures var r := Run(d, [SetupToken(q)] + WholeTokens(data) + [OutToken(p)]);
      && r.ep.fsm == Idle && r.ep.tx == Stall && r.ep.rx == Stall
      && r.dfu == d.dfu && r.flash == d.flash && !r.ep.callback
      && r.log == d.log + [Setup(q)] + WholeEvents(data) + [Packet(p)]
  {
    hide Rom.Valid, Step, ReqLength, ReqType, IsIn;
    var n := ReqLength(q);
    WriteStarts(d, q, n);
    WriteState(d, q, n);
    var e := Step(d, SetupToken(q));
    if data != [] {
      PartialWrite(e, n, data);
    }
    var f := Run(e, WholeTokens(data));
    ShortPacket(f, n - |data|, p);
    RunOne(d, SetupToken(q));
    RunOne(f, OutToken(p));
    RunAppend(d, [SetupToken(q)], WholeTokens(data));
    RunAppend(d, [SetupToken(q)] + WholeTokens(data), [OutToken(p)]);
  }

  /** What a handler of a write that only touches the DFU driver leaves. */
  predicate Handled(e: Device, r: Device, p: Dfu.Driver) {
    && r.ep == e.ep.(fsm := StatusIn, tx := Valid, txPacket := [], datasize := r.ep.datasize)
    && r.dfu == p && r.flash == e.flash && r.reset == e.reset && r.ram == e.ram && r.rom == e.rom && r.link == e.link
  }

  lemma DnloadHandled(e: Device, x: Payload)
    requires e.Valid() && e.ep.tx == Nak && x.Valid() && e.ep.datasize == |x.data|
    requires IsDfuRequest(e.ep.req, 0x21, Dfu.DNLOAD, x.block, |x.data|)
    requires e.ram[..|x.data|] == x.data
    ensures Handled(e, Handle(e), Buffered(e.dfu, x))
  {
    DfuRequestKind(e.ep.req, 0x21, Dfu.DNLOAD, x.block, |x.data|);
    hide Rom.Valid, StandardRequest, IsClassInterface, ReqLength, ReqValue, ReqCode, ReqType;
    assert e.ram[..Min(|x.data|, Dfu.TRANSFER)] == x.data;
  }

  /** A DNLOAD transfer buffers the payload and does nothing to the flash. */
  lemma DnloadTransfer(d: Device, x: Payload)
    requires Ready(d) && x.Valid()
    ensures Rests(Run(d, DnloadTokens(x)), Buffered(d.dfu, x), d.flash, false)
  {
    hide Step, Rom.Valid, Handle, DfuRequestBytes, ReqLength, ReqValue, ReqCode, ReqType, IsIn, IsClassInterface;
    hide Usb.IsSetAddress;
    var n := |x.data|;
    var q := DfuRequestBytes(0x21, Dfu.DNLOAD, x.block, n);
    DfuRequestKind(q, 0x21, Dfu.DNLOAD, x.block, n);
    WriteStarts(d, q, n);
    var e := Step(d, SetupToken(q));
    WriteData(e, n, x.data);
    var f := Filled(e, x.data, Chunks(x.data));
    assert f.ram[..n] == x.data;
    DnloadHandled(f, x);
    var g := Handle(f);
    RunOne(d, SetupToken(q));
    RunAppend(d, [SetupToken(q)], OutTokens(x.data));
    StatusInStep(g);
    RunOne(g, InToken);
    RunAppend(d, [SetupToken(q)] + OutTokens(x.data), [InToken]);
  }

  // GETSTATUS

  function GetStatusTokens(): seq<Token> {
    [SetupToken(DfuRequestBytes(0xA1, Dfu.GETSTATUS, 0, 6)), InToken, OutToken([])]
  }

  lemma GetStatusAnswer(d: Device, q: seq<byte>)
    requires d.Valid() && IsDfuRequest(q, 0xA1, Dfu.GETSTATUS, 0, 6)
    ensures var h := ReadOutcome(d, q);
      && h.ok && h.device.ep.callback && h.device.dfu == d.dfu.(state := Dfu.AfterGetStatus(d.dfu.state))
      && h.device.flash == d.flash && h.device.reset == d.reset && h.device.link == d.link && h.device.ep.datasize == 6
      && AnswerTo(d, q) == Dfu.StatusBytes(d.dfu.state)
  {
    DfuRequestKind(q, 0xA1, Dfu.GETSTATUS, 0, 6);
    hide Rom.Valid, StandardRequest, IsClassInterface, ReqLength, ReqValue, ReqCode, ReqType;
  }

  /** The data stage of an answer of at most 64 bytes, which one packet carries. */
  lemma ShortRead(d: Device, q: seq<byte>)
    requires Ready(d) && IsRequest(q) && IsIn(q) && ReqLength(q) > 0
    requires ReadOutcome(d, q).ok && ReadOutcome(d, q).device.link == Up && |AnswerTo(d, q)| < MAX_PACKET
    ensures InStatusOut(Answering(ReadOutcome(d, q).device, ReqLength(q)), Run(d, [SetupToken(q), InToken]))
  {
    hide Rom.Valid, Dispatch, Step, InStatusOut, Packets;
    ReadStarts(d, q);
    var c := Answering(ReadOutcome(d, q).device, ReqLength(q));
    assert !NeedsZlp(c.ep.datasize, ReqLength(q)) by {
      assert c.ep.datasize == |AnswerTo(d, q)|;
    }
    LastChunk(c, ReqLength(q));
    RunOne(SendChunk(c), InToken);
    RunOne(d, SetupToken(q));
    RunAppend(d, [SetupToken(q)], [InToken]);
    assert [SetupToken(q), InToken] == [SetupToken(q)] + [InToken];
  }

  lemma StatusStage(d: Device)
    requires Inv(d) && !Deaf(d) && d.ep.fsm == StatusOut && d.ep.callback && !d.ep.ctrRx
    ensures var c := Dfu.Complete(d.dfu, d.flash);
      Rests(Step(d, OutToken([])), c.driver, c.flash, c.resets)
  {
    hide Rom.Valid, Step, Dfu.Complete;
    StatusOutStep(d, []);
  }

  /** A GETSTATUS transfer moves the driver on and then runs the completion callback, once. */
  lemma GetStatusTransfer(d: Device)
    requires Ready(d)
    ensures var c := Polled(d.dfu, d.flash);
      Rests(Run(d, GetStatusTokens()), c.driver, c.flash, c.resets)
  {
    hide Step, Rom.Valid, DfuRequestBytes, ReqLength, ReqValue, ReqCode, ReqType, IsIn, IsClassInterface, Dispatch;
    hide Usb.IsSetAddress, ReadOutcome, AnswerTo, Dfu.Complete;
    var q := DfuRequestBytes(0xA1, Dfu.GETSTATUS, 0, 6);
    DfuRequestKind(q, 0xA1, Dfu.GETSTATUS, 0, 6);
    GetStatusAnswer(d, q);
    ShortRead(d, q);
    var r := Run(d, [SetupToken(q), InToken]);
    StatusStage(r);
    RunOne(r, OutToken([]));
    RunAppend(d, [SetupToken(q), InToken], [OutToken([])]);
    assert GetStatusTokens() == [SetupToken(q), InToken] + [OutToken([])];
  }

  // The request to leave DFU mode

  /** A DNLOAD without data. */
  function LeaveTokens(block: int): seq<Token>
    requires 0 <= block < U16
  {
    [SetupToken(DfuRequestBytes(0x21, Dfu.DNLOAD, block, 0)), InToken]
  }

  lemma LeaveSetup(d: Device, block: int, q: seq<byte>)
    requires Ready(d) && IsDfuRequest(q, 0x21, Dfu.DNLOAD, block, 0)
    ensures var e := Step(d, SetupToken(q));
      && e.ep.fsm == StatusIn && e.ep.tx == Valid && e.ep.rx != Disabled && !Deaf(e) && !e.ep.ctrRx && e.ep.req == q
      && e.dfu == d.dfu.(state := Dfu.ManifestSync) && e.flash == d.flash
  {
    DfuRequestKind(q, 0x21, Dfu.DNLOAD, block, 0);
    hide Rom.Valid, StandardRequest, Step, IsClassInterface, ReqLength, ReqValue, ReqCode, ReqType;
    SetupStep(d, q);
  }

  lemma LeaveStatus(e: Device)
    requires Inv(e) && e.ep.fsm == StatusIn && e.ep.tx == Valid && e.ep.rx != Disabled && !Deaf(e) && !e.ep.ctrRx
    requires !Usb.IsSetAddress(e.ep.req) && e.dfu.state == Dfu.ManifestSync
    ensures Rests(Step(e, InToken), e.dfu, e.flash, false)
  {
    hide Rom.Valid;
  }

  /** An empty DNLOAD leaves the driver waiting for the GETSTATUS that starts the manifest phase. */
  lemma LeaveTransfer(d: Device, block: int)
    requires Ready(d) && 0 <= block < U16
    ensures Rests(Run(d, LeaveTokens(block)), d.dfu.(state := Dfu.ManifestSync), d.flash, false)
  {
    hide Step, Rom.Valid, DfuRequestBytes, ReqLength, ReqValue;
    hide ReqCode, ReqType, IsIn, IsClassInterface, Usb.IsSetAddress;
    var q := DfuRequestBytes(0x21, Dfu.DNLOAD, block, 0);
    DfuRequestKind(q, 0x21, Dfu.DNLOAD, block, 0);
    LeaveSetup(d, block, q);
    var e := Step(d, SetupToken(q));
    LeaveStatus(e);
    RunOne(d, SetupToken(q));
    RunOne(e, InToken);
    RunAppend(d, [SetupToken(q)], [InToken]);
    assert LeaveTokens(block) == [SetupToken(q)] + [InToken];
  }

  /** Leaving DFU mode takes both transfers: the second one resets the system, with the flash
      as it was. */
  lemma LeaveResets(d: Device, block: int)
    requires Ready(d) && 0 <= block < U16
    ensures var r := Run(d, LeaveTokens(block) + GetStatusTokens());
      r.reset && r.flash == d.flash
  {
    hide Step, Rom.Valid, LeaveTokens, GetStatusTokens;
    LeaveTransfer(d, block);
    var e := Run(d, LeaveTokens(block));
    GetStatusTransfer(e);
    RunAppend(d, LeaveTokens(block), GetStatusTokens());
  }
}
