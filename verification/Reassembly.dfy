/** The data stage of a write, over every run: which packets the data of a request is made of.
    Nothing is said about how the host behaves; SETUPs, bus resets, refused tokens and packets of
    any length may come at any time. */
module Reassembly {
  import opened Bytes
  import opened Usb
  import opened UsbRun
  import opened ControlRead
  import opened ControlWrite
  import opened History
  import opened Causality
  import Dfu
  import Transfers

  /** The packets that have arrived since the last SETUP. */
  function PacketsSince(log: seq<Event>): (ps: seq<seq<byte>>)
    decreases |log|
  {
    if log == [] then []
    else
      match log[|log| - 1]
      case Setup(_) => []
      case Packet(p) => PacketsSince(log[..|log| - 1]) + [p]
      case _ => PacketsSince(log[..|log| - 1])
  }

  ghost predicate AllFull(ps: seq<seq<byte>>) {
    forall i :: 0 <= i < |ps| ==> |ps[i]| == MAX_PACKET
  }

  /** The number of packets that n bytes take. */
  function PacketsFor(n: nat): nat {
    (n + MAX_PACKET - 1) / MAX_PACKET
  }

  /** The data of the write request q is that of the packets ps: as many as its length takes, all
      of them full but the last, which brings at least the rest. */
  ghost predicate Assembled(q: seq<byte>, ps: seq<seq<byte>>, data: seq<byte>) {
    && IsRequest(q) && !IsIn(q) && 0 < ReqLength(q) <= Dfu.TRANSFER
    && |ps| == PacketsFor(ReqLength(q)) && ps != [] && AllFull(ps[..|ps| - 1])
    && ReqLength(q) - MAX_PACKET * (|ps| - 1) <= |ps[|ps| - 1]| <= MAX_PACKET
    && |data| == ReqLength(q) && data <= Concat(ps)
  }

  /** The logged request e is the request q. */
  predicate FromRequest(q: seq<byte>, e: Event) {
    && e.DfuRequest? && IsRequest(q) && IsClassInterface(q)
    && e.code == ReqCode(q) && e.value == ReqValue(q) && e.len == ReqLength(q)
  }

  /** The event e may follow the events before it. A handler runs behind the SETUP of a read or of
      a request without data, or behind the data of a write. */
  ghost predicate Fits(before: seq<Event>, e: Event) {
    match e
    case Delivered(q, data) => OpenRequest(before) == q && Assembled(q, PacketsSince(before), data)
    case DfuRequest(code, _, _, payload) =>
      && before != []
      && var last := before[|before| - 1];
        if last.Setup? then
          FromRequest(last.request, e) && (IsIn(last.request) || ReqLength(last.request) == 0)
        else
          last.Delivered? && FromRequest(last.request, e) && (code == Dfu.DNLOAD ==> payload == last.data)
    case _ => true
  }

  ghost predicate AllFit(log: seq<Event>) {
    forall i :: 0 <= i < |log| ==> Fits(log[..i], log[i])
  }

  lemma FitGrows(log: seq<Event>, e: Event)
    requires AllFit(log) && Fits(log, e)
    ensures AllFit(log + [e])
  {
    hide Fits;
    var l := log + [e];
    forall i | 0 <= i < |l|
      ensures Fits(l[..i], l[i])
    {
      if i < |log| {
        assert l[..i] == log[..i];
      } else {
        assert l[..i] == log;
      }
    }
  }

  /** While the data of a write comes in, the control buffer holds the packets so far. */
  ghost predicate DataLink(d: Device)
    requires d.Valid()
  {
    d.ep.fsm == DataOut || d.ep.fsm == LastDataOut ==>
      var ps := PacketsSince(d.log);
      && AllFull(ps) && d.ep.datasize == MAX_PACKET * |ps| <= Dfu.TRANSFER
      && d.ram[..d.ep.datasize] == Concat(ps) && OpenRequest(d.log) == d.ep.req
  }

  ghost predicate Kept(d: Device)
    requires d.Valid()
  {
    DataLink(d) && AllFit(d.log)
  }

  lemma ExtendPackets(log: seq<Event>, e: Event)
    ensures PacketsSince(log + [e]) ==
      if e.Setup? then [] else if e.Packet? then PacketsSince(log) + [e.data] else PacketsSince(log)
    ensures OpenRequest(log + [e]) ==
      if e.Setup? then e.request else if e.StatusDone? then [] else OpenRequest(log)
  {
    assert (log + [e])[..|log|] == log;
  }

  lemma {:induction false} ConcatAppend(ps: seq<seq<byte>>, p: seq<byte>)
    ensures Concat(ps + [p]) == Concat(ps) + p
    decreases |ps|
  {
    if ps == [] {
      assert Concat([p]) == p + Concat([]);
    } else {
      ConcatAppend(ps[1..], p);
      assert (ps + [p])[1..] == ps[1..] + [p];
    }
  }

  lemma {:induction false} FullConcat(ps: seq<seq<byte>>)
    requires AllFull(ps)
    ensures |Concat(ps)| == MAX_PACKET * |ps|
    decreases |ps|
  {
    if ps != [] {
      FullConcat(ps[1..]);
    }
  }

  /** Events that no handler and no data belongs to. */
  predicate Calm(e: Event) {
    !e.Setup? && !e.Delivered? && !e.DfuRequest?
  }

  lemma {:induction false} CalmFits(log: seq<Event>, es: seq<Event>)
    requires AllFit(log) && forall i :: 0 <= i < |es| ==> Calm(es[i])
    ensures AllFit(log + es)
    decreases |es|
  {
    hide AllFit;
    if es == [] {
      assert log + es == log;
    } else {
      var n := |es| - 1;
      CalmFits(log, es[..n]);
      FitGrows(log + es[..n], es[n]);
      assert log + es[..n] + [es[n]] == log + es;
    }
  }

  /** A token that opens no transfer and brings no data. */
  ghost predicate CalmStep(d: Device, r: Device, es: seq<Event>)
    requires d.Valid() && r.Valid()
  {
    && r.log == d.log + es && (forall i :: 0 <= i < |es| ==> Calm(es[i]))
    && (r.ep.fsm == DataOut || r.ep.fsm == LastDataOut ==>
      && (forall i :: 0 <= i < |es| ==> es[i].BusReset?)
      && r.ep.fsm == d.ep.fsm && r.ep.datasize == d.ep.datasize && r.ep.req == d.ep.req && r.ram == d.ram)
  }

  lemma CalmKeeps(d: Device, r: Device, es: seq<Event>)
    requires d.Valid() && r.Valid() && Kept(d) && CalmStep(d, r, es) && |es| <= 1
    ensures Kept(r)
  {
    hide AllFit, PacketsSince, OpenRequest, Concat;
    CalmFits(d.log, es);
    if es != [] {
      assert es == [es[0]];
      ExtendPackets(d.log, es[0]);
    } else {
      assert d.log + es == d.log;
    }
  }

  lemma EndKeeps(d: Device, r: Device, es: seq<Event>)
    requires d.Valid() && r.Valid() && Kept(d) && CalmStep(d, r, es)
    requires r.ep.fsm != DataOut && r.ep.fsm != LastDataOut
    ensures Kept(r)
  {
    hide AllFit, PacketsSince, OpenRequest, Concat;
    CalmFits(d.log, es);
  }

  // SETUP

  lemma NotedFrom(e: Device)
    requires e.Valid() && Noted(e) != [] && Noted(e)[0].DfuRequest?
    ensures FromRequest(e.ep.req, Noted(e)[0])
    ensures Noted(e)[0].code == Dfu.DNLOAD && 0 < ReqLength(e.ep.req) <= Dfu.TRANSFER ==>
      Noted(e)[0].payload == e.ram[..ReqLength(e.ep.req)]
  {
    hide Rom.Valid, IsClassInterface, IsHalt, ReqLength, ReqValue, ReqCode, HaltAddr, HaltStall, StandardRequest;
  }

  /** A read, or a request without data. */
  lemma ReadKeeps(d: Device, t: Device)
    requires d.Valid() && t.Valid() && Kept(d) && t.log == d.log + [Setup(t.ep.req)] && t.ep.tx != Valid
    requires ReqLength(t.ep.req) == 0 || IsIn(t.ep.req)
    ensures Kept(SetupRead(t))
  {
    hide Rom.Valid, SetupRead, Noted, AllFit, PacketsSince, OpenRequest, ReqLength, ReqType, IsClassInterface;
    hide Concat, Dispatch;
    var e := t.(ep := t.ep.(dataoff := 0));
    SetupReadTail(t);
    ReadFrame(t);
    DispatchNotes(e);
    FitGrows(d.log, Setup(t.ep.req));
    if Noted(e) != [] {
      if Noted(e)[0].DfuRequest? {
        NotedFrom(e);
      }
      FitGrows(e.log, Noted(e)[0]);
      assert Noted(e) == [Noted(e)[0]];
    } else {
      assert e.log + [] == e.log;
    }
  }

  /** A write: the data stage starts with nothing. */
  lemma WriteKeeps(d: Device, t: Device)
    requires d.Valid() && t.Valid() && Kept(d) && t.log == d.log + [Setup(t.ep.req)]
    ensures Kept(SetupWrite(t))
  {
    hide Rom.Valid, AllFit, PacketsSince, OpenRequest, ReqLength;
    FitGrows(d.log, Setup(t.ep.req));
    ExtendPackets(d.log, Setup(t.ep.req));
  }

  lemma SetupKeeps(d: Device, data: seq<byte>)
    requires Inv(d) && !Deaf(d) && Kept(d) && |data| <= MAX_PACKET && Arrived(d, data, true).ep.setup
    ensures Kept(ControlSetup(Arrived(d, data, true)))
  {
    hide Rom.Valid, SetupRead, SetupWrite, AllFit, PacketsSince, OpenRequest, ReqLength, ReqType, Concat, EpInv;
    var e := Arrived(d, data, true);
    var g := NakSet(e.(ep := e.ep.(callback := false)), true);
    var s := Received(g, 8);
    if |s| == 8 {
      var h := ReadPacket(g);
      var t := h.(ep := h.ep.(req := Splice(h.ep.req, 0, s))).Log(Setup(s));
      assert t.ep.req == s;
      if ReqLength(s) == 0 || IsIn(s) {
        ReadKeeps(d, t);
      } else {
        WriteKeeps(d, t);
      }
    } else {
      EndKeeps(d, ControlSetup(e), []);
    }
  }

  // OUT

  lemma DataPhaseReady(d: Device)
    requires Inv(d) && !Deaf(d) && (d.ep.fsm == DataOut || d.ep.fsm == LastDataOut)
    ensures d.ep.datasize < ReqLength(d.ep.req) <= Dfu.TRANSFER && !IsIn(d.ep.req)
    ensures Expects(d, ReqLength(d.ep.req) - d.ep.datasize)
    ensures d.ep.fsm == DataOut <==> ReqLength(d.ep.req) - d.ep.datasize > MAX_PACKET
  {
    hide Rom.Valid;
  }

  /** A full packet joins those before it. */
  lemma MiddleKeeps(d: Device, p: seq<byte>)
    requires d.Valid() && Kept(d) && d.ep.fsm == DataOut && |p| == MAX_PACKET && d.ep.datasize + |p| <= Dfu.TRANSFER
    requires Filled(d, p, [p]).Valid()
    ensures Kept(Filled(d, p, [p]))
  {
    hide Rom.Valid, AllFit, PacketsSince, OpenRequest, ReqLength;
    var r := Filled(d, p, [p]);
    assert r.log == d.log + [Packet(p)];
    ExtendPackets(d.log, Packet(p));
    CalmFits(d.log, [Packet(p)]);
    ConcatAppend(PacketsSince(d.log), p);
    assert r.ram[..r.ep.datasize] == d.ram[..d.ep.datasize] + p;
  }

  lemma CountPackets(k: nat, n: nat)
    requires 0 < n <= MAX_PACKET
    ensures PacketsFor(MAX_PACKET * k + n) == k + 1
  {
  }

  /** The last packet completes the data. */
  lemma LastAssembles(d: Device, n: nat, p: seq<byte>)
    requires d.Valid() && Kept(d) && d.ep.fsm == LastDataOut && 0 < n <= |p| <= MAX_PACKET
    requires n == ReqLength(d.ep.req) - d.ep.datasize && !IsIn(d.ep.req) && ReqLength(d.ep.req) <= Dfu.TRANSFER
    ensures var g := Filled(d, p[..n], [p]);
      && g.ep.datasize == ReqLength(d.ep.req) && g.ep.req == d.ep.req && g.log == d.log + [Packet(p)]
      && OpenRequest(g.log) == g.ep.req && Assembled(g.ep.req, PacketsSince(g.log), g.ram[..g.ep.datasize])
  {
    hide Rom.Valid, AllFit, PacketsSince, OpenRequest, ReqLength, ReqType, Concat, PacketsFor, Splice;
    var g := Filled(d, p[..n], [p]);
    var ps := PacketsSince(d.log);
    assert PacketEvents([p]) == [Packet(p)];
    ExtendPackets(d.log, Packet(p));
    ConcatAppend(ps, p);
    CountPackets(|ps|, n);
    assert (ps + [p])[..|ps|] == ps;
    SplicePrefix(d.ram, d.ep.datasize, p[..n]);
  }

  lemma SplicePrefix(s: seq<byte>, off: nat, data: seq<byte>)
    requires off + |data| <= |s|
    ensures Splice(s, off, data)[..off + |data|] == s[..off] + data
  {
  }

  /** The handler behind it. */
  lemma HandleKeeps(d: Device, g: Device, p: seq<byte>)
    requires d.Valid() && g.Valid() && Kept(d) && g.log == d.log + [Packet(p)] && g.ep.tx != Valid
    requires g.ep.datasize == ReqLength(g.ep.req) && 0 < g.ep.datasize <= Dfu.TRANSFER
    requires OpenRequest(g.log) == g.ep.req && Assembled(g.ep.req, PacketsSince(g.log), g.ram[..g.ep.datasize])
    ensures Kept(Handle(g))
  {
    hide Rom.Valid, Handle, Noted, AllFit, PacketsSince;
    hide OpenRequest, ReqLength, ReqType, IsClassInterface, Concat, Dispatch;
    hide Assembled;
    var e := g.Log(Delivered(g.ep.req, g.ram[..g.ep.datasize]));
    HandleTail(g);
    DispatchNotes(e);
    CalmFits(d.log, [Packet(p)]);
    FitGrows(g.log, e.log[|g.log|]);
    if Noted(e) != [] {
      if Noted(e)[0].DfuRequest? {
        NotedFrom(e);
      }
      FitGrows(e.log, Noted(e)[0]);
      assert Noted(e) == [Noted(e)[0]];
    } else {
      assert e.log + [] == e.log;
    }
  }

  lemma DataPacketKeeps(d: Device, p: seq<byte>)
    requires Inv(d) && !Deaf(d) && Kept(d) && |p| <= MAX_PACKET && (d.ep.fsm == DataOut || d.ep.fsm == LastDataOut)
    ensures Kept(Step(d, OutToken(p)))
  {
    hide Rom.Valid, Step, Kept, EpInv, ReqLength, ReqType, Handle, Filled;
    DataPhaseReady(d);
    var n := ReqLength(d.ep.req) - d.ep.datasize;
    if |p| < Min(MAX_PACKET, n) {
      ShortPacket(d, n, p);
      EndKeeps(d, Step(d, OutToken(p)), [Packet(p)]);
    } else if n > MAX_PACKET {
      MiddlePacket(d, n, p);
      MiddleKeeps(d, p);
    } else {
      LastPacket(d, n, p);
      LastAssembles(d, n, p);
      FilledStatus(d, p[..n], p);
      HandleKeeps(d, Filled(d, p[..n], [p]), p);
    }
  }

  lemma FilledStatus(d: Device, data: seq<byte>, p: seq<byte>)
    requires Inv(d) && !d.reset && (d.ep.fsm == DataOut || d.ep.fsm == LastDataOut)
    requires d.ep.datasize + |data| <= |d.ram|
    ensures Filled(d, data, [p]).ep.tx != Valid
  {
    hide Rom.Valid, ReqLength;
  }

  // The other tokens

  lemma OutKeeps(d: Device, p: seq<byte>)
    requires Inv(d) && !Deaf(d) && Kept(d) && Accepted(d, OutToken(p))
    ensures Kept(Step(d, OutToken(p)))
  {
    if d.ep.fsm == DataOut || d.ep.fsm == LastDataOut {
      DataPacketKeeps(d, p);
    } else if d.ep.fsm == StatusOut {
      StatusOutKeeps(d, p);
    } else {
      hide Rom.Valid, Kept, RunCallback, Handle, RecvChunk;
      EndKeeps(d, Step(d, OutToken(p)), [Packet(p)]);
    }
  }

  lemma StatusOutKeeps(d: Device, p: seq<byte>)
    requires Inv(d) && !Deaf(d) && Kept(d) && d.ep.fsm == StatusOut && |p| <= MAX_PACKET
    ensures Kept(Step(d, OutToken(p)))
  {
    hide Rom.Valid, Kept, RunCallback, Step;
    Transfers.StatusOutStep(d, p);
    var g := Transfers.BeforeCallback(d, p);
    var es := CallbackEvents(g);
    assert d.log + [Packet(p)] + [StatusDone(d.ep.req)] + es == d.log + ([Packet(p), StatusDone(d.ep.req)] + es);
    EndKeeps(d, Step(d, OutToken(p)), [Packet(p), StatusDone(d.ep.req)] + es);
  }

  /** What the completion callback adds to the log. */
  lemma CallbackEvents(g: Device) returns (es: seq<Event>)
    requires g.Valid()
    ensures RunCallback(g).log == g.log + es && forall i :: 0 <= i < |es| ==> Calm(es[i])
  {
    hide Rom.Valid, Dfu.Commit;
    if !g.ep.callback {
      es := [];
    } else {
      var c := Dfu.Complete(g.dfu, g.flash);
      es := if c.resets then [SystemReset] else if c.commits then [Committed(g.dfu.prog)] else [];
    }
  }

  lemma InKeeps(d: Device)
    requires Inv(d) && !Deaf(d) && Kept(d) && Accepted(d, InToken)
    ensures Kept(Step(d, InToken))
  {
    hide Rom.Valid, Kept, RunCallback, RegistersCallback, IsGetStatus, OutPhase, ControlIn, EpInv;
    var e := d.(ep := d.ep.(tx := Nak));
    if d.ep.fsm == StatusIn {
      var es := CallbackEvents(e.Log(StatusDone(d.ep.req)));
      StatusInLog(e);
      EndKeeps(d, Step(d, InToken), [StatusDone(d.ep.req)] + es);
    } else {
      ReadPhaseState(d, e);
      EndKeeps(d, Step(d, InToken), []);
    }
  }

  lemma StatusInLog(e: Device)
    requires e.Valid() && !e.reset && e.ep.fsm == StatusIn
    ensures var r := ControlIn(e);
      && r.log == RunCallback(e.Log(StatusDone(e.ep.req))).log
      && r.ep.fsm != DataOut && r.ep.fsm != LastDataOut
  {
    hide Rom.Valid, RunCallback, ReqValue;
  }

  lemma ReadPhaseState(d: Device, e: Device)
    requires Inv(d) && !d.reset && d.ep.tx == Valid && d.ep.fsm != StatusIn && e == d.(ep := d.ep.(tx := Nak))
    ensures var r := ControlIn(e);
      r.log == d.log && r.ep.fsm != DataOut && r.ep.fsm != LastDataOut
  {
    hide Rom.Valid, RegistersCallback, IsGetStatus, OutPhase;
  }

  lemma ResetKeeps(d: Device)
    requires Inv(d) && !Deaf(d) && Kept(d)
    ensures Kept(Step(d, ResetSignal))
  {
    hide Rom.Valid, Kept, RegistersCallback, IsGetStatus, OutPhase;
    CalmKeeps(d, Step(d, ResetSignal), [BusReset]);
  }

  lemma FrozenKeeps(d: Device, data: seq<byte>)
    requires Inv(d) && !Deaf(d) && Kept(d) && |data| <= MAX_PACKET && !Arrived(d, data, true).ep.setup
    ensures Kept(ControlOut(Arrived(d, data, true)))
  {
    hide Rom.Valid, Kept, RegistersCallback, IsGetStatus, OutPhase;
    EndKeeps(d, ControlOut(Arrived(d, data, true)), []);
  }

  lemma StepKeeps(d: Device, t: Token)
    requires Inv(d) && Kept(d)
    ensures Kept(Step(d, t))
  {
    hide Rom.Valid, Kept, ControlSetup, ControlOut, ControlIn, EpInv;
    if Deaf(d) || !Accepted(d, t) {
      assert Step(d, t) == d;
    } else {
      match t
      case SetupToken(data) =>
        if Arrived(d, data, true).ep.setup {
          SetupKeeps(d, data);
        } else {
          FrozenKeeps(d, data);
        }
      case OutToken(data) => OutKeeps(d, data);
      case InToken => InKeeps(d);
      case ResetSignal => ResetKeeps(d);
    }
  }

  lemma {:induction false} RunKeeps(d: Device, ts: seq<Token>)
    requires Inv(d) && Kept(d)
    ensures Kept(Run(d, ts))
    decreases |ts|
  {
    hide Step, Kept, EpInv;
    if ts != [] {
      StepKeeps(d, ts[0]);
      RunKeeps(Step(d, ts[0]), ts[1..]);
    }
  }

  // The theorems

  lemma KeptFromPowerOn(d: Device, ts: seq<Token>)
    requires Initial(d)
    ensures Kept(FromPowerOn(d, ts))
  {
    hide Step;
    InitialInv(d);
    RunKeeps(d, ts);
  }

  /** In every state in which data is expected the control buffer holds the packets that have
      arrived since the SETUP, all of them full. */
  lemma BufferHoldsPackets(d: Device, ts: seq<Token>)
    requires Initial(d)
    ensures var r := FromPowerOn(d, ts);
      r.ep.fsm == DataOut || r.ep.fsm == LastDataOut ==>
        var ps := PacketsSince(r.log);
        && AllFull(ps) && r.ep.datasize == MAX_PACKET * |ps| && r.ram[..r.ep.datasize] == Concat(ps)
  {
    hide Step, Rom.Valid;
    KeptFromPowerOn(d, ts);
  }

  /** Data is handed to a handler only when it is complete: it is the data of exactly as many
      packets as its length takes, since the SETUP of its request, and of no other. */
  lemma DeliveriesAreAssembled(d: Device, ts: seq<Token>, i: nat)
    requires Initial(d) && i < |FromPowerOn(d, ts).log| && FromPowerOn(d, ts).log[i].Delivered?
    ensures var log := FromPowerOn(d, ts).log;
      OpenRequest(log[..i]) == log[i].request && Assembled(log[i].request, PacketsSince(log[..i]), log[i].data)
  {
    hide Step, Rom.Valid, OpenRequest, PacketsSince, Assembled, DataLink;
    KeptFromPowerOn(d, ts);
  }

  /** The DFU handler runs only behind the SETUP of a read or of a request without data, or behind
      complete data; a download has that data as its payload. */
  lemma RequestsHaveData(d: Device, ts: seq<Token>, i: nat)
    requires Initial(d) && i < |FromPowerOn(d, ts).log| && FromPowerOn(d, ts).log[i].DfuRequest?
    ensures var log := FromPowerOn(d, ts).log;
      && i > 0
      && if log[i - 1].Setup? then
          FromRequest(log[i - 1].request, log[i]) && (IsIn(log[i - 1].request) || ReqLength(log[i - 1].request) == 0)
        else
          && log[i - 1].Delivered? && FromRequest(log[i - 1].request, log[i])
          && (log[i].code == Dfu.DNLOAD ==> log[i].payload == log[i - 1].data)
  {
    hide Step, Rom.Valid, OpenRequest, PacketsSince, Assembled, DataLink, FromRequest, ReqLength, ReqType;
    KeptFromPowerOn(d, ts);
    var log := FromPowerOn(d, ts).log;
    assert Fits(log[..i], log[i]);
  }
}
