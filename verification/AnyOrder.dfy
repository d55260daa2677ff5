/** Completions served in any order. do_usb_poll takes whatever the peripheral reports first, so a
    completion may be served when the transfer it belongs to is long gone. Here the hardware may
    present anything at any time: what a run promises about memory and flash still holds. */
module AnyOrder {
  import opened Bytes
  import opened FlashMemory
  import opened Usb
  import opened UsbRun
  import opened ControlWrite
  import opened Causality
  import opened Safety
  import opened StaleCompletion
  import Dfu

  /** What the poll finds: a bus reset, a packet with or without the SETUP bit, or the end of a
      transmission. */
  datatype Kind = Reset | SetupPacket | OutPacket | Sent

  /** The fields of the endpoint that the hardware may have changed since the last poll. A packet has
      at most 64 bytes. */
  datatype Service = Service(kind: Kind, tx: Stat, rx: Stat, setup: bool, ctrRx: bool, data: seq<byte>)

  /** The counters fit the buffers. This is all that the handlers need. */
  predicate Loose(d: Device) {
    && d.Valid() && d.flash.locked
    && (d.ep.fsm == DataOut || d.ep.fsm == LastDataOut ==> d.ep.datasize <= ReqLength(d.ep.req) <= Dfu.TRANSFER)
    && (d.ep.fsm == DataIn ==> d.ep.dataoff + d.ep.datasize <= RAM_SPAN)
  }

  function Presented(d: Device, s: Service): (r: Device)
    requires Loose(d)
    ensures Loose(r)
  {
    var packet := s.data[..Min(|s.data|, MAX_PACKET)];
    d.(ep := d.ep.(tx := s.tx, rx := s.rx, setup := s.setup, ctrRx := s.ctrRx, rxPacket := packet))
  }

  /** One poll. */
  function Serve(d: Device, s: Service): (r: Device)
    requires Loose(d)
    ensures Loose(r)
  {
    if d.reset then d
    else
      var e := Presented(d, s);
      match s.kind
      case Reset => ControlReset(e)
      case SetupPacket => SetupKept(e); ControlSetup(e)
      case OutPacket => OutKept(e); ControlOut(e)
      case Sent => SentKept(e); ControlIn(e)
  }

  function ServeAll(d: Device, ss: seq<Service>): (r: Device)
    requires Loose(d)
    ensures Loose(r)
    decreases |ss|
  {
    if ss == [] then d else ServeAll(Serve(d, ss[0]), ss[1..])
  }

  // Growth of the log without a commit

  ghost predicate NoCommits(es: seq<Event>) {
    forall i :: 0 <= i < |es| ==> !es[i].Committed?
  }

  /** The flash is the same, and no commit is noted. */
  ghost predicate Grows(d: Device, r: Device) {
    r.flash == d.flash && d.log <= r.log && NoCommits(r.log[|d.log|..])
  }

  lemma GrowsOn(a: Device, b: Device, c: Device)
    requires Grows(a, b) && Grows(b, c)
    ensures Grows(a, c)
  {
    var x, y := b.log[|a.log|..], c.log[|b.log|..];
    assert b.log == a.log + x && c.log == b.log + y;
    assert c.log[|a.log|..] == x + y;
  }

  lemma GrowsByOne(d: Device, r: Device, e: Event)
    requires r.flash == d.flash && r.log == d.log + [e] && !e.Committed?
    ensures Grows(d, r)
  {
    assert r.log[|d.log|..] == [e];
  }

  lemma GrowsByNone(d: Device, r: Device)
    requires r.flash == d.flash && r.log == d.log
    ensures Grows(d, r)
  {
  }

  lemma DispatchGrows(d: Device)
    requires d.Valid()
    ensures Grows(d, Dispatch(d).device)
  {
    hide Rom.Valid, Dispatch, Grows;
    DispatchFrame(d);
    var r := Dispatch(d).device;
    if r.log == d.log {
      GrowsByNone(d, r);
    } else {
      var e: Event :| (e.DfuRequest? || e.HaltRequest?) && r.log == d.log + [e];
      GrowsByOne(d, r, e);
    }
  }

  lemma PacketGrows(d: Device, r: Device, data: seq<byte>)
    requires d.Valid() && |data| <= MAX_PACKET && r.flash == d.flash && r.log == WritePacket(d, data).log
    ensures Grows(d, r)
  {
    hide Rom.Valid, Grows;
    if d.ep.tx == Valid {
      GrowsByOne(d, r, PacketDropped);
    } else {
      GrowsByNone(d, r);
    }
  }

  lemma SendKept(c: Device)
    requires c.Valid() && c.flash.locked && c.ep.dataoff + c.ep.datasize <= RAM_SPAN
    ensures Loose(SendChunk(c)) && Grows(c, SendChunk(c)) && SendChunk(c).ram == c.ram
  {
    hide Rom.Valid, Grows, WritePacket;
    var data := c.ram[c.ep.dataoff..c.ep.dataoff + Min(MAX_PACKET, c.ep.datasize)];
    PacketFrame(c, data);
    PacketGrows(c, SendChunk(c), data);
  }

  /** A read, whatever the transmission was doing. */
  lemma ReadKept(t: Device)
    requires t.Valid() && t.flash.locked
    ensures Loose(SetupRead(t)) && Grows(t, SetupRead(t)) && SameBehind(SetupRead(t), t)
  {
    hide Rom.Valid, Dispatch, LogGrows, SameBehind, ReqLength, Grows, SendChunk, WritePacket, NeedsZlp;
    var e := t.(ep := t.ep.(dataoff := 0));
    var h, max := Dispatch(e).device, ReqLength(t.ep.req);
    DispatchFrame(e);
    DispatchGrows(e);
    DispatchInside(e);
    GrowsByNone(t, e);
    GrowsOn(t, e, h);
    var r := SetupRead(t);
    if !Dispatch(e).ok {
      GrowsByNone(h, r);
    } else if max != 0 {
      var size := Min(h.ep.datasize, max);
      var c := h.(ep := h.ep.(datasize := size, dataoff := 0, needsZlp := NeedsZlp(size, max)));
      SendKept(c);
      GrowsByNone(h, c);
      GrowsOn(h, c, r);
    } else {
      var c := h.(ep := h.ep.(datasize := 0));
      PacketFrame(c, []);
      PacketGrows(c, r, []);
      GrowsByNone(h, c);
      GrowsOn(h, c, r);
    }
    GrowsOn(t, h, r);
    SameRam(h, e, r, t);
  }

  /** Only the memory counts. */
  lemma SameRam(h: Device, e: Device, r: Device, t: Device)
    requires h.Valid() && e.Valid() && r.Valid() && t.Valid() && r.ram == h.ram && t.ram == e.ram
    ensures SameBehind(h, e) ==> SameBehind(r, t)
  {
  }

  lemma SetupKept(e: Device)
    requires Loose(e)
    ensures Loose(ControlSetup(e)) && Grows(e, ControlSetup(e)) && SameBehind(ControlSetup(e), e)
  {
    hide Rom.Valid, SetupRead, ReqLength, ReqType, SameBehind, Grows;
    var g := NakSet(e.(ep := e.ep.(callback := false)), true);
    var data := Received(g, 8);
    var h := ReadPacket(g);
    var r := ControlSetup(e);
    if |data| != 8 {
      GrowsByNone(e, r);
      RefusedInside(e);
      SameRam(e, e, r, e);
    } else {
      var l := h.(ep := h.ep.(req := Splice(h.ep.req, 0, data))).Log(Setup(data));
      GrowsByOne(e, l, Setup(data));
      if ReqLength(data) == 0 || IsIn(data) {
        ReadKept(l);
      } else {
        WriteKept(l);
      }
      GrowsOn(e, l, r);
      SameRam(r, l, r, e);
    }
  }

  lemma WriteKept(l: Device)
    requires l.Valid() && l.flash.locked
    ensures Loose(SetupWrite(l)) && Grows(l, SetupWrite(l)) && SameBehind(SetupWrite(l), l)
  {
    hide Rom.Valid, Grows;
    GrowsByNone(l, SetupWrite(l));
  }

  // The callback

  /** A commit is the last thing noted, and it acts on the program buffer. */
  ghost predicate Commits(d: Device, r: Device)
    requires d.Valid()
  {
    r.log != [] &&
    var n := |r.log| - 1;
    && d.log <= r.log[..n] && NoCommits(r.log[|d.log|..n]) && r.log[n] == Committed(d.dfu.prog)
    && r.flash == Dfu.Commit(d.dfu.prog, d.flash.(locked := false)).flash.(locked := true)
  }

  lemma CallbackServes(g: Device)
    requires g.Valid() && g.flash.locked && !g.reset
    ensures var r := RunCallback(g);
      r.flash.locked && (Grows(g, r) || Commits(g, r))
  {
    hide Rom.Valid, Dfu.Commit;
    var r := RunCallback(g);
    if r.log == g.log {
      GrowsByNone(g, r);
    } else if r.reset {
      GrowsByOne(g, r, SystemReset);
    } else {
      assert r.log == g.log + [Committed(g.dfu.prog)];
      assert r.log[..|g.log|] == g.log && r.log[|g.log|..|g.log|] == [];
    }
  }

  lemma ServesOn(e: Device, g: Device, r: Device)
    requires e.Valid() && g.Valid() && Grows(e, g) && e.dfu == g.dfu && (Grows(g, r) || Commits(g, r))
    ensures Grows(e, r) || Commits(e, r)
  {
    if Grows(g, r) {
      GrowsOn(e, g, r);
    } else {
      var n := |r.log| - 1;
      var x, y := g.log[|e.log|..], r.log[|g.log|..n];
      assert g.log == e.log + x && r.log[..n] == g.log + y;
      assert r.log[|e.log|..n] == x + y;
    }
  }

  lemma StatusServes(e: Device, g: Device)
    requires e.Valid() && e.flash.locked && g.Valid() && !g.reset
    requires g.flash == e.flash && g.dfu == e.dfu && g.log == e.log + [StatusDone(e.ep.req)]
    ensures var r := RunCallback(g);
      r.flash.locked && (Grows(e, r) || Commits(e, r))
  {
    hide Rom.Valid, RunCallback, Grows, Commits;
    GrowsByOne(e, g, StatusDone(e.ep.req));
    CallbackServes(g);
    ServesOn(e, g, RunCallback(g));
  }

  lemma OutKept(e: Device)
    requires Loose(e) && !e.reset
    ensures var r := ControlOut(e);
      Loose(r) && SameBehind(r, e) && (Grows(e, r) || Commits(e, r))
  {
    hide Rom.Valid, RecvChunk, Handle, ReqLength, SameBehind, Grows, Commits, RunCallback;
    OutInside(e);
    var r := ControlOut(e);
    match e.ep.fsm
    case DataOut =>
      ChunkKept(e);
      var g := RecvChunk(e).device;
      GrowsByNone(g, r);
      GrowsOn(e, g, r);
    case LastDataOut =>
      ChunkKept(e);
      var Outcome(g, complete) := RecvChunk(e);
      if complete {
        HandleKept(g);
        GrowsOn(e, g, r);
      }
    case StatusOut => StatusOutKept(e);
    case _ => GrowsByNone(e, r);
  }

  lemma ChunkKept(e: Device)
    requires Loose(e) && (e.ep.fsm == DataOut || e.ep.fsm == LastDataOut)
    ensures var c := RecvChunk(e);
      && Loose(c.device) && Grows(e, c.device) && c.device.ep.req == e.ep.req
      && (c.ok ==> c.device.ep.fsm == e.ep.fsm)
  {
    hide Rom.Valid, Grows, ReqLength, ReadPacket, Received;
    var p, r := ReadPacket(e), RecvChunk(e).device;
    TakeKept(e);
    GrowsByNone(p, r);
    GrowsOn(e, p, r);
  }

  lemma TakeKept(e: Device)
    requires e.Valid()
    ensures var p := ReadPacket(e);
      Grows(e, p) && p == e.(ep := e.ep.(rx := p.ep.rx, ctrRx := p.ep.ctrRx), log := p.log)
  {
    hide Rom.Valid, Grows;
    if e.ep.rx == Valid {
      GrowsByOne(e, ReadPacket(e), PacketDropped);
    } else {
      GrowsByNone(e, ReadPacket(e));
    }
  }

  lemma HandleKept(g: Device)
    requires g.Valid() && g.flash.locked && g.ep.datasize <= Dfu.TRANSFER
    ensures Loose(Handle(g)) && Grows(g, Handle(g))
  {
    hide Rom.Valid, Dispatch, LogGrows, Grows, WritePacket;
    var del := Delivered(g.ep.req, g.ram[..g.ep.datasize]);
    var e := g.Log(del);
    var h, r := Dispatch(e).device, Handle(g);
    GrowsByOne(g, e, del);
    DispatchFrame(e);
    DispatchGrows(e);
    GrowsOn(g, e, h);
    if Dispatch(e).ok {
      PacketFrame(h, []);
      PacketGrows(h, r, []);
    } else {
      GrowsByNone(h, r);
    }
    GrowsOn(g, h, r);
  }

  lemma StatusOutKept(e: Device)
    requires Loose(e) && !e.reset && e.ep.fsm == StatusOut
    ensures var r := ControlOut(e);
      Loose(r) && (Grows(e, r) || Commits(e, r))
  {
    hide Rom.Valid, RunCallback, Grows, Commits;
    var p := ReadPacket(e);
    var g := p.(ep := p.ep.(fsm := Idle)).Log(StatusDone(e.ep.req));
    var r := RunCallback(g);
    TakeKept(e);
    StatusServes(p, g);
    ServesOn(e, p, r);
    SameEnd(e, r, ControlOut(e));
  }

  lemma SameEnd(e: Device, r: Device, s: Device)
    requires e.Valid() && s.log == r.log && s.flash == r.flash && (Grows(e, r) || Commits(e, r))
    ensures Grows(e, s) || Commits(e, s)
  {
  }

  lemma SentKept(e: Device)
    requires Loose(e) && !e.reset
    ensures var r := ControlIn(e);
      Loose(r) && SameBehind(r, e) && (Grows(e, r) || Commits(e, r))
  {
    hide Rom.Valid, RunCallback, Grows, Commits, SendChunk, SameBehind, ReqValue;
    InInside(e);
    var r := ControlIn(e);
    match e.ep.fsm
    case DataIn => SendKept(e);
    case StatusIn =>
      var g := e.Log(StatusDone(e.ep.req));
      StatusServes(e, g);
      SameEnd(e, RunCallback(g), r);
    case _ => GrowsByNone(e, r);
  }

  // The theorems

  lemma {:induction false} NoCommitNoChange(f: Flash, log: seq<Event>, n: nat)
    requires f.Valid() && n <= |log| && NoCommits(log[n..])
    ensures Replay(f, log) == Replay(f, log[..n])
    decreases |log|
  {
    if n < |log| {
      var m := |log| - 1;
      assert log[n..][..m - n] == log[..m][n..];
      assert !log[n..][m - n].Committed?;
      NoCommitNoChange(f, log[..m], n);
      assert log[..m][..n] == log[..n];
    } else {
      assert log[..n] == log;
    }
  }

  lemma ServeReplays(d: Device, s: Service, f: Flash)
    requires Loose(d) && f.Valid() && d.flash == Replay(f, d.log)
    ensures var r := Serve(d, s);
      r.flash == Replay(f, r.log) && SameBehind(r, d)
  {
    hide Rom.Valid, ControlSetup, ControlOut, ControlIn, Replay, Grows, Commits, SameBehind;
    var r := Serve(d, s);
    RefusedInside(d);
    if !d.reset {
      var e := Presented(d, s);
      ServeKept(d, s);
      SameRam(r, e, r, d);
      Replayed(e, r, f);
    }
  }

  lemma ServeKept(d: Device, s: Service)
    requires Loose(d) && !d.reset
    ensures var e, r := Presented(d, s), Serve(d, s);
      SameBehind(r, e) && (Grows(e, r) || Commits(e, r))
  {
    hide Rom.Valid, ControlSetup, ControlOut, ControlIn, Grows, Commits, SameBehind;
    var e, r := Presented(d, s), Serve(d, s);
    match s.kind
    case Reset =>
      GrowsByOne(e, r, BusReset);
      RefusedInside(e);
      SameRam(e, e, r, e);
    case SetupPacket => SetupKept(e);
    case OutPacket => OutKept(e);
    case Sent => SentKept(e);
  }

  lemma Replayed(d: Device, r: Device, f: Flash)
    requires d.Valid() && f.Valid() && d.flash == Replay(f, d.log) && (Grows(d, r) || Commits(d, r))
    ensures r.flash == Replay(f, r.log)
  {
    hide Rom.Valid, Replay, Dfu.Commit, NoCommits;
    if Grows(d, r) {
      NoCommitNoChange(f, r.log, |d.log|);
      assert r.log[..|d.log|] == d.log;
    } else {
      var before, e := r.log[..|r.log| - 1], r.log[|r.log| - 1];
      assert r.log == before + [e] && before[|d.log|..] == r.log[|d.log|..|r.log| - 1];
      NoCommitNoChange(f, before, |d.log|);
      assert before[..|d.log|] == d.log;
      Extend(before, e, f);
    }
  }

  /** Whatever the hardware presents, in whatever order: the flash is what the commits in the log
      make of it, and nothing is written behind the control buffer. */
  lemma {:induction false} AnyOrderReplays(d: Device, ss: seq<Service>, f: Flash)
    requires Loose(d) && f.Valid() && d.flash == Replay(f, d.log)
    ensures ServeAll(d, ss).flash == Replay(f, ServeAll(d, ss).log) && SameBehind(ServeAll(d, ss), d)
    decreases |ss|
  {
    hide Rom.Valid, Serve, Replay, SameBehind, Loose;
    LooseIsValid(d);
    if ss == [] {
      RefusedInside(d);
    } else {
      var e := Serve(d, ss[0]);
      LooseIsValid(e);
      LooseIsValid(ServeAll(e, ss[1..]));
      ServeReplays(d, ss[0], f);
      AnyOrderReplays(e, ss[1..], f);
      BehindIsTransitive(ServeAll(d, ss), e, d);
    }
  }

  lemma LooseIsValid(d: Device)
    requires Loose(d)
    ensures d.Valid()
  {
  }

  lemma ServeKeepsBootloader(d: Device, s: Service)
    requires Loose(d)
    ensures SameBootloader(Serve(d, s).flash, d.flash)
  {
    hide Rom.Valid, Serve, NoCommits, Dfu.Commit;
    if d.reset {
      StandsStill(d, s);
    } else {
      ServeKept(d, s);
      Dfu.CommitKeepsBootloader(d.dfu.prog, d.flash.(locked := false));
    }
  }

  lemma StandsStill(d: Device, s: Service)
    requires Loose(d) && d.reset
    ensures Serve(d, s) == d
  {
    hide Rom.Valid;
  }

  /** No byte of the bootloader changes either, and the flash is locked after every poll. */
  lemma {:induction false} AnyOrderKeepsBootloader(d: Device, ss: seq<Service>)
    requires Loose(d)
    ensures SameBootloader(ServeAll(d, ss).flash, d.flash) && ServeAll(d, ss).flash.locked
    decreases |ss|
  {
    hide Rom.Valid, Serve;
    if ss != [] {
      ServeKeepsBootloader(d, ss[0]);
      AnyOrderKeepsBootloader(Serve(d, ss[0]), ss[1..]);
    }
  }

  /** The two polls of StaleCompletion: the new SETUP, and the completion that was pending. */
  function LatePolls(d: Device, q: seq<byte>): (ss: seq<Service>)
    requires Ready(d) && IsRequest(q)
  {
    var f := Step(d, SetupToken(q)).ep;
    [Service(SetupPacket, Nak, Nak, true, true, q), Service(Sent, f.tx, f.rx, f.setup, f.ctrRx, f.rxPacket)]
  }

  /** A completion that is served late is one of the orders covered here. */
  lemma LateIsCovered(d: Device, q: seq<byte>)
    requires Ready(d) && IsRequest(q)
    ensures Loose(d) && !Step(d, SetupToken(q)).reset && ServeAll(d, LatePolls(d, q)) == ServedLate(d, q)
  {
    hide Rom.Valid, ControlSetup, ControlIn, Step;
    SetupNeverResets(d, q);
    LooseFromInv(d);
    var ss, f := LatePolls(d, q), Step(d, SetupToken(q));
    FirstPoll(d, q);
    SecondPoll(f);
    assert ServeAll(f, ss[1..]) == ServeAll(Serve(f, ss[1]), []);
  }

  lemma LooseFromInv(d: Device)
    requires Inv(d) && !d.reset
    ensures Loose(d)
  {
    hide Rom.Valid;
  }

  lemma FirstPoll(d: Device, q: seq<byte>)
    requires Ready(d) && IsRequest(q) && Loose(d)
    ensures Step(d, SetupToken(q)) == Serve(d, Service(SetupPacket, Nak, Nak, true, true, q))
  {
    hide Rom.Valid, ControlSetup;
    assert q[..|q|] == q;
  }

  lemma SecondPoll(f: Device)
    requires Loose(f) && !f.reset
    ensures Serve(f, Service(Sent, f.ep.tx, f.ep.rx, f.ep.setup, f.ep.ctrRx, f.ep.rxPacket)) == ControlIn(f)
  {
    hide Rom.Valid, ControlIn;
    assert f.ep.rxPacket[..|f.ep.rxPacket|] == f.ep.rxPacket;
  }
}
