/** Theorems over whole runs, stated on the log: every flash operation goes back to one
    downloaded payload and one completed GETSTATUS, a system reset goes back to a DETACH or an
    empty DNLOAD, the flash is the replay of the operations, and the device address is the one
    of the last SET_ADDRESS that completed. */
module Causality {
  import opened Bytes
  import opened FlashMemory
  import opened Usb
  import opened UsbRun
  import opened ControlWrite
  import opened History
  import Dfu
  import Transfers

  /** Where the driver stands, read off the log: a payload or a leave request at position `at`
      is waiting for a GETSTATUS, or has had one. */
  datatype Phase =
    | Quiet
    | Loaded(at: nat)
    | Armed(at: nat)
    | Leaving(at: nat)
    | Resetting(at: nat)

  predicate IsDataDownload(e: Event) {
    e.DfuRequest? && e.code == Dfu.DNLOAD && e.len != 0
  }

  predicate IsLeave(e: Event) {
    e.DfuRequest? && (e.code == Dfu.DETACH || (e.code == Dfu.DNLOAD && e.len == 0))
  }

  predicate IsPoll(e: Event) {
    e.DfuRequest? && e.code == Dfu.GETSTATUS
  }

  /** Events that end what was waiting before them. */
  predicate Ends(e: Event) {
    IsDataDownload(e) || IsLeave(e) || (e.DfuRequest? && (e.code == Dfu.ABORT || e.code == Dfu.UPLOAD)) || e.Committed?
  }

  function NextPhase(p: Phase, e: Event, i: nat): Phase {
    if IsDataDownload(e) then Loaded(i)
    else if IsLeave(e) then Leaving(i)
    else if Ends(e) then Quiet
    else if IsPoll(e) && p.Loaded? then Armed(p.at)
    else if IsPoll(e) && p.Leaving? then Resetting(p.at)
    else p
  }

  function PhaseOf(log: seq<Event>): Phase
    decreases |log|
  {
    if log == [] then Quiet else NextPhase(PhaseOf(log[..|log| - 1]), log[|log| - 1], |log| - 1)
  }

  /** The request of the transfer that is in progress, if any. */
  function OpenRequest(log: seq<Event>): seq<byte>
    decreases |log|
  {
    if log == [] then []
    else
      match log[|log| - 1]
      case Setup(q) => q
      case StatusDone(_) => []
      case _ => OpenRequest(log[..|log| - 1])
  }

  /** The address given by the last SET_ADDRESS whose status stage completed since the last bus
      reset, or 0. */
  function AddressOf(log: seq<Event>): int
    decreases |log|
  {
    if log == [] then 0
    else
      match log[|log| - 1]
      case StatusDone(q) => if IsRequest(q) && IsSetAddress(q) then ReqValue(q) else AddressOf(log[..|log| - 1])
      case BusReset => 0
      case _ => AddressOf(log[..|log| - 1])
  }

  /** The address bits of USB_DADDR: the halt requests for endpoint number 19 change them too. */
  function AddressNow(log: seq<Event>): (a: int)
    ensures 0 <= a < 0x80
    decreases |log|
  {
    if log == [] then 0
    else
      var a := AddressNow(log[..|log| - 1]);
      match log[|log| - 1]
      case StatusDone(q) => if IsRequest(q) && IsSetAddress(q) then ReqValue(q) % 0x80 else a
      case BusReset => 0
      case HaltRequest(addr, stall) => if NumberOf(addr) == DADDR_NUMBER then HaltedAddress(a, addr, stall) else a
      case _ => a
  }

  /** What the halt requests have made of the peripheral. */
  function LinkOf(log: seq<Event>): Link
    decreases |log|
  {
    if log == [] then Up
    else
      var l := LinkOf(log[..|log| - 1]);
      match log[|log| - 1]
      case HaltRequest(addr, stall) => HaltedLink(l, addr, stall)
      case _ => l
  }

  /** The flash after the operations in the log. */
  function Replay(f: Flash, log: seq<Event>): (r: Flash)
    requires f.Valid()
    ensures r.Valid()
    decreases |log|
  {
    if log == [] then f
    else
      var g := Replay(f, log[..|log| - 1]);
      match log[|log| - 1]
      case Committed(p) =>
        if p.Valid() then Dfu.Commit(p, g.(locked := false)).flash.(locked := true) else g
      case _ => g
  }

  lemma Extend(log: seq<Event>, e: Event, f: Flash)
    requires f.Valid()
    ensures PhaseOf(log + [e]) == NextPhase(PhaseOf(log), e, |log|)
    ensures OpenRequest(log + [e]) ==
      if e.Setup? then e.request else if e.StatusDone? then [] else OpenRequest(log)
    ensures Replay(f, log + [e]) ==
      if e.Committed? && e.prog.Valid()
      then Dfu.Commit(e.prog, Replay(f, log).(locked := false)).flash.(locked := true) else Replay(f, log)
  {
    hide NextPhase, IsSetAddress, ReqValue, Dfu.Commit;
    assert (log + [e])[..|log|] == log;
  }

  lemma ExtendAddress(log: seq<Event>, e: Event)
    ensures AddressNow(log + [e]) ==
      if e.StatusDone? && IsRequest(e.request) && IsSetAddress(e.request) then ReqValue(e.request) % 0x80
      else if e.BusReset? then 0
      else if e.HaltRequest? && NumberOf(e.addr) == DADDR_NUMBER then HaltedAddress(AddressNow(log), e.addr, e.stall)
      else AddressNow(log)
    ensures LinkOf(log + [e]) == if e.HaltRequest? then HaltedLink(LinkOf(log), e.addr, e.stall) else LinkOf(log)
  {
    hide IsSetAddress, ReqValue, HaltedAddress, HaltedLink, NumberOf;
    assert (log + [e])[..|log|] == log;
  }

  /** The event at position i is in order, given what comes before it and behind it. */
  ghost predicate LawfulAt(log: seq<Event>, i: nat)
    requires i < |log|
  {
    var before := log[..i];
    match log[i]
    case StatusDone(q) =>
      && OpenRequest(before) == q && IsRequest(q) && (IsSetAddress(q) ==> ReqValue(q) < 0x80)
      && (IsGetStatus(q) ==> !PhaseOf(before).Loaded? && !PhaseOf(before).Leaving?)
      && (IsGetStatus(q) && PhaseOf(before).Armed? ==> i + 1 < |log| && log[i + 1].Committed?)
      && (IsGetStatus(q) && PhaseOf(before).Resetting? ==> i + 1 < |log| && log[i + 1].SystemReset?)
    case Committed(p) =>
      && i > 0 && log[i - 1].StatusDone? && IsGetStatus(log[i - 1].request)
      && PhaseOf(before).Armed? && PhaseOf(before).at < i && p.Valid() && Buffers(log[PhaseOf(before).at], p)
    case SystemReset =>
      i > 0 && log[i - 1].StatusDone? && IsGetStatus(log[i - 1].request) && PhaseOf(before).Resetting?
    case HaltRequest(_, _) => LinkOf(before) == Up
    case _ => true
  }

  ghost predicate Lawful(log: seq<Event>) {
    forall i :: 0 <= i < |log| ==> LawfulAt(log, i)
  }

  /** The download e put the payload p into the program buffer. */
  predicate Buffers(e: Event, p: Dfu.Prog)
    requires p.Valid()
  {
    IsDataDownload(e) && e.value == p.block && e.payload == p.Data() && p.len == Min(e.len, Dfu.TRANSFER)
  }

  /** The driver is where the log says. */
  predicate PhaseLink(p: Dfu.Driver, log: seq<Event>)
    requires p.Valid()
  {
    match PhaseOf(log)
    case Quiet =>
      && p.state != Dfu.DnloadSync && p.state != Dfu.DnBusy && p.state != Dfu.ManifestSync && p.state != Dfu.Manifest
    case Loaded(j) => p.state == Dfu.DnloadSync && j < |log| && Buffers(log[j], p.prog)
    case Armed(j) => p.state == Dfu.DnBusy && j < |log| && Buffers(log[j], p.prog)
    case Leaving(_) => p.state == Dfu.ManifestSync
    case Resetting(_) => p.state == Dfu.Manifest
  }

  /** The seven address bits of USB_DADDR, whether or not the enable bit is set. */
  predicate AddressBits(daddr: int, a: int) {
    daddr == a || daddr == a + 0x80
  }

  /** What the log says about the device. */
  ghost predicate Linked(d: Device, f: Flash)
    requires d.Valid() && f.Valid()
  {
    && (!d.reset ==> PhaseLink(d.dfu, d.log))
    && (!d.reset && d.ep.fsm != Idle ==> OpenRequest(d.log) == d.ep.req)
    && AddressBits(d.ep.daddr, AddressNow(d.log)) && d.link == LinkOf(d.log)
    && d.flash == Replay(f, d.log)
    && Lawful(d.log)
  }

  lemma LawfulGrows(log: seq<Event>, e: Event)
    requires Lawful(log) && LawfulAt(log + [e], |log|)
    ensures Lawful(log + [e])
  {
    hide PhaseOf, OpenRequest, Buffers, IsGetStatus;
    var l := log + [e];
    forall i | 0 <= i < |l|
      ensures LawfulAt(l, i)
    {
      if i < |log| {
        assert LawfulAt(log, i);
        assert l[..i] == log[..i];
      }
    }
  }

  /** A driver request moves the phase along with the state. */
  lemma PhaseFollowsDriver(p: Dfu.Driver, r: Dfu.Driver, log: seq<Event>, e: Event)
    requires p.Valid() && r.Valid() && PhaseLink(p, log) && DriverStep(p, r, e)
    ensures PhaseLink(r, log + [e])
  {
    assert (log + [e])[..|log|] == log;
  }

  lemma LawfulGrowsTwice(log: seq<Event>, e: Event, g: Event)
    requires Lawful(log) && LawfulAt(log + [e, g], |log|) && LawfulAt(log + [e, g], |log| + 1)
    ensures Lawful(log + [e, g])
  {
    hide PhaseOf, OpenRequest, Buffers, IsGetStatus;
    var l := log + [e, g];
    forall i | 0 <= i < |l|
      ensures LawfulAt(l, i)
    {
      if i < |log| {
        assert LawfulAt(log, i);
        assert l[..i] == log[..i];
      }
    }
  }

  /** An event that neither completes a transfer nor acts on the flash. */
  predicate Plain(e: Event) {
    !e.StatusDone? && !e.Committed? && !e.SystemReset? && !e.HaltRequest?
  }

  lemma PlainIsLawful(log: seq<Event>, e: Event)
    requires Lawful(log) && Plain(e)
    ensures Lawful(log + [e])
  {
    LawfulGrows(log, e);
  }

  lemma RequestLinked(d: Device, r: Device, f: Flash, e: Event)
    requires d.Valid() && r.Valid() && f.Valid() && Linked(d, f) && d.link == Up && RequestStep(d, r, e)
    requires r.flash == d.flash && r.reset == d.reset && r.log == d.log + [e]
    requires !r.reset && r.ep.fsm != Idle ==> OpenRequest(d.log) == r.ep.req
    ensures Linked(r, f)
  {
    hide PhaseLink, Buffers, DriverStep, Replay, OpenRequest, AddressNow, LinkOf, PhaseOf, Lawful;
    hide HaltedAddress, HaltedLink, NumberOf;
    Extend(d.log, e, f);
    ExtendAddress(d.log, e);
    if e.HaltRequest? {
      assert (d.log + [e])[..|d.log|] == d.log;
      assert LawfulAt(d.log + [e], |d.log|);
      LawfulGrows(d.log, e);
    } else {
      DriverStepIsRequest(d.dfu, r.dfu, e);
      PlainIsLawful(d.log, e);
    }
    if !d.reset {
      if e.HaltRequest? {
        PhaseKept(d.dfu, d.log, e);
      } else {
        PhaseFollowsDriver(d.dfu, r.dfu, d.log, e);
      }
    }
    if e.HaltRequest? {
      RegisterOfAddress(d.ep.daddr, e.addr, e.stall);
    } else {
      DriverStepIsRequest(d.dfu, r.dfu, e);
    }
  }

  lemma RegisterOfAddress(daddr: int, addr: int, stall: bool)
    ensures HaltedRegister(daddr, addr, stall) % 0x80 == HaltedAddress(daddr % 0x80, addr, stall)
  {
    hide HaltedAddress;
  }

  lemma DriverStepIsRequest(p: Dfu.Driver, r: Dfu.Driver, e: Event)
    requires p.Valid() && r.Valid() && DriverStep(p, r, e)
    ensures e.DfuRequest?
  {
  }

  /** Events that say nothing about the driver. */
  lemma PhaseKept(p: Dfu.Driver, log: seq<Event>, e: Event)
    requires p.Valid() && PhaseLink(p, log) && !e.DfuRequest? && !e.Committed?
    ensures PhaseLink(p, log + [e])
  {
    assert (log + [e])[..|log|] == log;
  }

  /** One passive event. */
  lemma PassiveLinked(d: Device, r: Device, f: Flash, e: Event)
    requires d.Valid() && r.Valid() && f.Valid() && Linked(d, f) && Passive(e)
    requires SameDevice(d, r) && r.log == d.log + [e]
    requires !r.reset && r.ep.fsm != Idle ==>
      if e.Setup? then r.ep.req == e.request else d.ep.fsm != Idle && r.ep.req == d.ep.req
    ensures Linked(r, f)
  {
    hide PhaseLink, Buffers, Replay, OpenRequest, AddressNow, LinkOf, PhaseOf, Lawful;
    Extend(d.log, e, f);
    ExtendAddress(d.log, e);
    PlainIsLawful(d.log, e);
    if !d.reset {
      PhaseKept(d.dfu, d.log, e);
    }
  }

  /** The device with passive events in its log. */
  function Behind(d: Device, pre: seq<Event>, fsm: Fsm): (g: Device)
    requires d.Valid()
    ensures g.Valid()
  {
    d.(log := d.log + pre, ep := d.ep.(fsm := fsm))
  }

  /** Any passive events. */
  lemma {:induction false} PassivesLinked(d: Device, r: Device, f: Flash, pre: seq<Event>)
    requires d.Valid() && r.Valid() && f.Valid() && Linked(d, f) && AllPassive(pre)
    requires SameDevice(d, r) && r.log == d.log + pre && Open(d, r, pre)
    ensures Linked(r, f)
    decreases |pre|
  {
    hide PhaseLink, Replay, OpenRequest, AddressNow, LinkOf, PhaseOf, Lawful;
    if pre == [] {
      assert r.log == d.log;
    } else {
      var n := |pre| - 1;
      var g := Behind(d, pre[..n], if r.ep.fsm == Idle || pre[0].Setup? then Idle else d.ep.fsm);
      PassivesLinked(d, g, f, pre[..n]);
      assert d.log + pre[..n] + [pre[n]] == d.log + pre;
      PassiveLinked(g, r, f, pre[n]);
    }
  }

  lemma DoneLinked(d: Device, r: Device, f: Flash)
    requires d.Valid() && r.Valid() && f.Valid() && Linked(d, f) && !d.reset && Explains(d, r, Done([]))
    requires IsSetAddress(d.ep.req) ==> ReqValue(d.ep.req) < 0x80
    ensures Linked(r, f)
  {
    hide Buffers, Replay, OpenRequest, AddressNow, LinkOf, PhaseOf, Lawful, ReqValue, IsSetAddress, IsClassInterface;
    var e := StatusDone(d.ep.req);
    assert d.log + [] == d.log;
    Extend(d.log, e, f);
    ExtendAddress(d.log, e);
    assert (d.log + [e])[..|d.log|] == d.log;
    assert LawfulAt(d.log + [e], |d.log|);
    LawfulGrows(d.log, e);
    PhaseKept(d.dfu, d.log, e);
  }

  lemma CommitLinked(d: Device, r: Device, f: Flash)
    requires d.Valid() && r.Valid() && f.Valid() && Linked(d, f) && !d.reset && Explains(d, r, DoneCommit([]))
    ensures Linked(r, f)
  {
    hide Replay, OpenRequest, AddressNow, LinkOf, PhaseOf, Lawful, IsClassInterface, ReqValue, Dfu.Commit;
    var e, g := StatusDone(d.ep.req), Committed(d.dfu.prog);
    var l := d.log + [e];
    assert d.log + [] == d.log;
    GetStatusIsNotSetAddress(d.ep.req);
    Extend(d.log, e, f);
    ExtendAddress(d.log, e);
    Extend(l, g, f);
    ExtendAddress(l, g);
    PhaseKept(d.dfu, d.log, e);
    assert l + [g] == d.log + [e, g];
    assert (d.log + [e, g])[..|d.log|] == d.log && (d.log + [e, g])[..|d.log| + 1] == l;
    assert LawfulAt(d.log + [e, g], |d.log|);
    assert LawfulAt(d.log + [e, g], |d.log| + 1);
    LawfulGrowsTwice(d.log, e, g);
  }

  lemma GetStatusIsNotSetAddress(q: seq<byte>)
    requires IsGetStatus(q)
    ensures !IsSetAddress(q)
  {
  }

  lemma ResetLinked(d: Device, r: Device, f: Flash)
    requires d.Valid() && r.Valid() && f.Valid() && Linked(d, f) && !d.reset && Explains(d, r, DoneReset([]))
    ensures Linked(r, f)
  {
    hide Replay, OpenRequest, AddressNow, LinkOf, PhaseOf, Lawful, IsClassInterface, ReqValue, Dfu.Commit;
    var e, g := StatusDone(d.ep.req), SystemReset;
    var l := d.log + [e];
    assert d.log + [] == d.log;
    GetStatusIsNotSetAddress(d.ep.req);
    Extend(d.log, e, f);
    ExtendAddress(d.log, e);
    Extend(l, g, f);
    ExtendAddress(l, g);
    assert l + [g] == d.log + [e, g];
    assert (d.log + [e, g])[..|d.log|] == d.log && (d.log + [e, g])[..|d.log| + 1] == l;
    assert LawfulAt(d.log + [e, g], |d.log|);
    assert LawfulAt(d.log + [e, g], |d.log| + 1);
    LawfulGrowsTwice(d.log, e, g);
  }

  lemma BusResetLinked(d: Device, r: Device, f: Flash)
    requires d.Valid() && r.Valid() && f.Valid() && Linked(d, f) && Explains(d, r, NewBusReset)
    ensures Linked(r, f)
  {
    hide PhaseLink, Buffers, Replay, OpenRequest, AddressNow, LinkOf, PhaseOf, Lawful;
    Extend(d.log, BusReset, f);
    ExtendAddress(d.log, BusReset);
    PlainIsLawful(d.log, BusReset);
    if !d.reset {
      PhaseKept(d.dfu, d.log, BusReset);
    }
  }

  lemma RequestedLinked(d: Device, r: Device, f: Flash, pre: seq<Event>, e: Event)
    requires d.Valid() && r.Valid() && f.Valid() && Linked(d, f) && d.link == Up && Explains(d, r, Requested(pre, e))
    ensures Linked(r, f)
  {
    hide PhaseLink, Buffers, Replay, AddressNow, LinkOf, PhaseOf, Lawful, DriverStep, HaltedDaddr, HaltedLink;
    var g := Behind(d, pre, Idle);
    PassivesLinked(d, g, f, pre);
    OpenBehind(d, r, f, pre);
    RequestLinked(g, r, f, e);
  }

  /** The request in progress behind passive events. */
  lemma OpenBehind(d: Device, r: Device, f: Flash, pre: seq<Event>)
    requires d.Valid() && r.Valid() && f.Valid() && Linked(d, f) && AllPassive(pre) && Open(d, r, pre)
    ensures !d.reset && r.ep.fsm != Idle ==> OpenRequest(d.log + pre) == r.ep.req
  {
    hide PhaseLink, Replay, AddressNow, LinkOf, PhaseOf, Lawful, OpenRequest;
    if !d.reset && r.ep.fsm != Idle {
      var g := d.(log := d.log + pre, ep := r.ep.(daddr := d.ep.daddr));
      if g.Valid() {
        PassivesLinked(d, g, f, pre);
      }
    }
  }

  /** One token keeps the log and the device in agreement. */
  lemma StepLinked(d: Device, t: Token, f: Flash)
    requires Inv(d) && f.Valid() && Linked(d, f)
    ensures Linked(Step(d, t), f)
  {
    hide Rom.Valid, Step, Linked, Explains, RequestStep;
    if Deaf(d) {
      DeafIsFinal(d, t);
    } else {
      var c := StepChange(d, t);
      var r := Step(d, t);
      match c
      case Plainly(pre) => PlainlyLinked(d, r, f, pre);
      case Requested(pre, e) => RequestedLinked(d, r, f, pre, e);
      case Done(pre) =>
        SetAddressInRange(d, r, pre);
        EndLinked(d, r, f, c);
      case DoneCommit(pre) => EndLinked(d, r, f, c);
      case DoneReset(pre) => EndLinked(d, r, f, c);
      case NewBusReset => BusResetLinked(d, r, f);
    }
  }

  lemma PlainlyLinked(d: Device, r: Device, f: Flash, pre: seq<Event>)
    requires d.Valid() && r.Valid() && f.Valid() && Linked(d, f) && Explains(d, r, Plainly(pre))
    ensures Linked(r, f)
  {
    hide Linked;
    PassivesLinked(d, r, f, pre);
  }

  /** The end of a transfer, behind the packet of its status stage. */
  lemma EndLinked(d: Device, r: Device, f: Flash, c: Change)
    requires d.Valid() && r.Valid() && f.Valid() && Linked(d, f) && !d.reset && Explains(d, r, c)
    requires c.Done? || c.DoneCommit? || c.DoneReset?
    requires c.Done? && IsSetAddress(d.ep.req) ==> ReqValue(d.ep.req) < 0x80
    ensures Linked(r, f)
  {
    hide Linked, IsSetAddress, ReqValue, IsGetStatus, Dfu.Complete;
    var g := Behind(d, c.pre, d.ep.fsm);
    assert g.log + [] == g.log;
    PassivesLinked(d, g, f, c.pre);
    if c.Done? {
      DoneLinked(g, r, f);
    } else if c.DoneCommit? {
      CommitLinked(g, r, f);
    } else {
      ResetLinked(g, r, f);
    }
  }

  lemma DeafIsFinal(d: Device, t: Token)
    requires Inv(d) && Deaf(d)
    ensures Step(d, t) == d
  {
    hide ControlSetup, ControlOut, ControlIn;
  }

  lemma SetAddressInRange(d: Device, r: Device, pre: seq<Event>)
    requires Inv(d) && !d.reset && r.Valid() && Explains(d, r, Done(pre))
    ensures IsSetAddress(d.ep.req) ==> ReqValue(d.ep.req) < 0x80
  {
  }

  /** Any run of tokens. */
  lemma {:induction false} RunLinked(d: Device, ts: seq<Token>, f: Flash)
    requires Inv(d) && f.Valid() && Linked(d, f)
    ensures Linked(Run(d, ts), f)
    decreases |ts|
  {
    hide Step, Inv, Linked;
    if ts != [] {
      StepLinked(d, ts[0], f);
      RunLinked(Step(d, ts[0]), ts[1..], f);
    }
  }

  lemma RunFromPowerOn(d: Device, ts: seq<Token>)
    requires Initial(d)
    ensures Linked(FromPowerOn(d, ts), d.flash)
  {
    hide Step;
    InitialInv(d);
    assert Linked(d, d.flash);
    RunLinked(d, ts, d.flash);
  }

  // What a phase means

  /** Nothing between positions a and b ends what was waiting. */
  ghost predicate Undisturbed(log: seq<Event>, a: int, b: int)
    requires 0 <= a && b <= |log|
  {
    forall m :: a < m < b ==> !Ends(log[m])
  }

  /** A GETSTATUS request was handled between positions a and b. */
  ghost predicate PolledBetween(log: seq<Event>, a: int, b: int)
    requires 0 <= a && b <= |log|
  {
    exists l :: a < l < b && IsPoll(log[l])
  }

  /** What the phase of a log says about its events. */
  ghost predicate PhaseSays(log: seq<Event>, p: Phase) {
    match p
    case Quiet => true
    case Loaded(j) =>
      j < |log| && IsDataDownload(log[j]) && Undisturbed(log, j, |log|) && !PolledBetween(log, j, |log|)
    case Armed(j) =>
      j < |log| && IsDataDownload(log[j]) && Undisturbed(log, j, |log|) && PolledBetween(log, j, |log|)
    case Leaving(j) =>
      j < |log| && IsLeave(log[j]) && Undisturbed(log, j, |log|) && !PolledBetween(log, j, |log|)
    case Resetting(j) =>
      j < |log| && IsLeave(log[j]) && Undisturbed(log, j, |log|) && PolledBetween(log, j, |log|)
  }

  lemma {:induction false} PhaseMeaning(log: seq<Event>)
    ensures PhaseSays(log, PhaseOf(log))
    decreases |log|
  {
    hide IsDataDownload, IsLeave;
    if log != [] {
      var n := |log| - 1;
      var before := log[..n];
      PhaseMeaning(before);
      PhaseStep(log, PhaseOf(before));
    }
  }

  lemma PhaseStep(log: seq<Event>, p: Phase)
    requires log != [] && PhaseSays(log[..|log| - 1], p)
    ensures PhaseSays(log, NextPhase(p, log[|log| - 1], |log| - 1))
  {
    var n := |log| - 1;
    var before := log[..n];
    assert forall m :: 0 <= m < n ==> before[m] == log[m];
    if IsPoll(log[n]) {
      if p.Loaded? || p.Leaving? {
        assert p.at < n < |log| && IsPoll(log[n]);
      }
    }
  }

  /** From a waiting download or leave request on, the phase stays with it. */
  lemma {:induction false} PhaseAfter(log: seq<Event>, j: nat, n: nat)
    requires j < n <= |log| && Undisturbed(log, j, n) && (IsDataDownload(log[j]) || IsLeave(log[j]))
    ensures PhaseOf(log[..n]) ==
            if IsDataDownload(log[j]) then (if PolledBetween(log, j, n) then Armed(j) else Loaded(j))
            else (if PolledBetween(log, j, n) then Resetting(j) else Leaving(j))
    decreases n
  {
    var l := log[..n];
    assert l[..n - 1] == log[..n - 1] && l[n - 1] == log[n - 1];
    if n > j + 1 {
      PhaseAfter(log, j, n - 1);
      assert !Ends(log[n - 1]);
      assert PolledBetween(log, j, n) <==> PolledBetween(log, j, n - 1) || IsPoll(log[n - 1]);
    }
  }

  /** Position j is the SETUP with request q, and up to position i no other one and no
      completion follows it. */
  ghost predicate OpenSince(log: seq<Event>, j: int, i: int, q: seq<byte>)
    requires i <= |log|
  {
    0 <= j < i && log[j] == Setup(q) && forall m :: j < m < i ==> !log[m].Setup? && !log[m].StatusDone?
  }

  /** The transfer that is in progress was set up by the last SETUP, and has not completed. */
  lemma {:induction false} OpenMeaning(log: seq<Event>, n: nat)
    requires n <= |log| && OpenRequest(log[..n]) != []
    ensures exists j :: OpenSince(log, j, n, OpenRequest(log[..n]))
    decreases n
  {
    var before := log[..n];
    assert before[n - 1] == log[n - 1] && before[..n - 1] == log[..n - 1];
    if log[n - 1].Setup? {
      assert OpenSince(log, n - 1, n, OpenRequest(before));
    } else {
      OpenMeaning(log, n - 1);
      var j :| OpenSince(log, j, n - 1, OpenRequest(before));
      assert OpenSince(log, j, n, OpenRequest(before));
    }
  }

  // The theorems

  /** The device after any tokens since power-on. */
  function FromPowerOn(d: Device, ts: seq<Token>): (r: Device)
    requires Initial(d)
    ensures Inv(r)
  {
    InitialInv(d);
    Run(d, ts)
  }

  /** Commit discipline. The flash is touched, or the address pointer moved, only directly
      behind the status stage of a GETSTATUS transfer, and then for a payload that was
      downloaded before, with a GETSTATUS handled since and no other download, leave request,
      ABORT, UPLOAD or commit in between. */
  lemma CommitsHaveCause(d: Device, ts: seq<Token>, i: nat)
    requires Initial(d)
    requires i < |FromPowerOn(d, ts).log| && FromPowerOn(d, ts).log[i].Committed?
    ensures var log := FromPowerOn(d, ts).log;
      && i > 0 && log[i - 1].StatusDone? && IsGetStatus(log[i - 1].request)
      && log[i].prog.Valid()
      && exists j :: 0 <= j < i && Buffers(log[j], log[i].prog) && Undisturbed(log, j, i) && PolledBetween(log, j, i)
  {
    hide Step, Rom.Valid, IsGetStatus, Buffers, PhaseOf;
    RunFromPowerOn(d, ts);
    var log := FromPowerOn(d, ts).log;
    assert LawfulAt(log, i);
    PhaseMeaning(log[..i]);
    SayBefore(log, i, PhaseOf(log[..i]));
  }

  /** Facts about the events before position i, as facts about the log. */
  lemma SayBefore(log: seq<Event>, i: nat, p: Phase)
    requires i <= |log| && PhaseSays(log[..i], p) && (p.Armed? || p.Resetting?)
    ensures p.at < i && Undisturbed(log, p.at, i) && PolledBetween(log, p.at, i)
    ensures if p.Armed? then IsDataDownload(log[p.at]) else IsLeave(log[p.at])
  {
    var before := log[..i];
    assert forall m :: 0 <= m < i ==> before[m] == log[m];
    var l :| p.at < l < i && IsPoll(before[l]);
    assert IsPoll(log[l]);
  }

  /** A payload is acted on at most once: between two commits there is a new download. */
  lemma CommitsHaveDistinctCauses(d: Device, ts: seq<Token>, i: nat, k: nat)
    requires Initial(d)
    requires i < k < |FromPowerOn(d, ts).log|
    requires FromPowerOn(d, ts).log[i].Committed? && FromPowerOn(d, ts).log[k].Committed?
    ensures exists j :: i < j < k && IsDataDownload(FromPowerOn(d, ts).log[j])
  {
    hide Step, Rom.Valid;
    CommitsHaveCause(d, ts, k);
    var log := FromPowerOn(d, ts).log;
    var j :| 0 <= j < k && Buffers(log[j], log[k].prog) && Undisturbed(log, j, k) && PolledBetween(log, j, k);
    assert !(j < i < k) by {
      assert Ends(log[i]);
    }
  }

  lemma LinkedIsLawful(d: Device, f: Flash)
    requires d.Valid() && f.Valid() && Linked(d, f)
    ensures Lawful(d.log)
  {
  }

  /** What follows a completed GETSTATUS: never nothing while a download or a leave request waits. */
  lemma CompletionActs(log: seq<Event>, i: nat, j: nat)
    requires Lawful(log) && i < |log| && log[i].StatusDone? && IsGetStatus(log[i].request)
    ensures !PhaseOf(log[..i]).Loaded? && !PhaseOf(log[..i]).Leaving?
    ensures PhaseOf(log[..i]) == Armed(j) ==>
      && i + 1 < |log| && log[i + 1].Committed? && log[i + 1].prog.Valid() && j <= i
      && Buffers(log[j], log[i + 1].prog)
    ensures PhaseOf(log[..i]) == Resetting(j) ==> i + 1 < |log| && log[i + 1].SystemReset?
  {
    hide IsGetStatus, Buffers, PhaseOf, OpenRequest, IsSetAddress, ReqValue;
    assert LawfulAt(log, i);
    if PhaseOf(log[..i]) == Armed(j) {
      assert LawfulAt(log, i + 1);
      var before, e := log[..i], log[i];
      assert log[..i + 1] == before + [e];
      ExtendPhase(before, e);
    }
  }

  lemma ExtendPhase(log: seq<Event>, e: Event)
    ensures PhaseOf(log + [e]) == NextPhase(PhaseOf(log), e, |log|)
  {
    assert (log + [e])[..|log|] == log;
  }

  /** And it is acted on: if a GETSTATUS transfer completes before anything ends the wait, the
      commit of that very payload follows at once. */
  lemma DownloadsAreCommitted(d: Device, ts: seq<Token>, j: nat, i: nat)
    requires Initial(d)
    requires j < i < |FromPowerOn(d, ts).log| && IsDataDownload(FromPowerOn(d, ts).log[j])
    requires Undisturbed(FromPowerOn(d, ts).log, j, i)
    requires FromPowerOn(d, ts).log[i].StatusDone? && IsGetStatus(FromPowerOn(d, ts).log[i].request)
    ensures var log := FromPowerOn(d, ts).log;
      i + 1 < |log| && log[i + 1].Committed? && log[i + 1].prog.Valid() && Buffers(log[j], log[i + 1].prog)
  {
    hide Step, Rom.Valid, IsGetStatus, Buffers, PhaseOf, IsDataDownload, Ends, Linked, LawfulAt, PolledBetween;
    RunFromPowerOn(d, ts);
    var log := FromPowerOn(d, ts).log;
    LinkedIsLawful(FromPowerOn(d, ts), d.flash);
    PhaseAfter(log, j, i);
    CompletionActs(log, i, j);
  }

  /** A leave request is acted on in the same way: the completed GETSTATUS resets the system. */
  lemma LeavesAreReset(d: Device, ts: seq<Token>, j: nat, i: nat)
    requires Initial(d)
    requires j < i < |FromPowerOn(d, ts).log| && IsLeave(FromPowerOn(d, ts).log[j])
    requires Undisturbed(FromPowerOn(d, ts).log, j, i)
    requires FromPowerOn(d, ts).log[i].StatusDone? && IsGetStatus(FromPowerOn(d, ts).log[i].request)
    ensures var log := FromPowerOn(d, ts).log;
      i + 1 < |log| && log[i + 1].SystemReset?
  {
    hide Step, Rom.Valid, IsGetStatus, Buffers, PhaseOf, Ends, Linked, LawfulAt, PolledBetween;
    RunFromPowerOn(d, ts);
    var log := FromPowerOn(d, ts).log;
    LinkedIsLawful(FromPowerOn(d, ts), d.flash);
    PhaseAfter(log, j, i);
    CompletionActs(log, i, j);
  }

  /** Reset causality. The system is reset only directly behind the status stage of a
      GETSTATUS transfer, with a DETACH or an empty DNLOAD before it, a GETSTATUS handled
      since, and no download, further leave request, ABORT or UPLOAD in between. */
  lemma ResetsHaveCause(d: Device, ts: seq<Token>, i: nat)
    requires Initial(d)
    requires i < |FromPowerOn(d, ts).log| && FromPowerOn(d, ts).log[i].SystemReset?
    ensures var log := FromPowerOn(d, ts).log;
      && i > 0 && log[i - 1].StatusDone? && IsGetStatus(log[i - 1].request)
      && exists j :: 0 <= j < i && IsLeave(log[j]) && Undisturbed(log, j, i) && PolledBetween(log, j, i)
  {
    hide Step, Rom.Valid, IsGetStatus, PhaseOf, IsLeave;
    RunFromPowerOn(d, ts);
    var log := FromPowerOn(d, ts).log;
    assert LawfulAt(log, i);
    PhaseMeaning(log[..i]);
    SayBefore(log, i, PhaseOf(log[..i]));
  }

  /** A transfer completes at most once per SETUP, so its callback runs at most once: every
      completed transfer is that of the last SETUP before it, with no completion in between. */
  lemma CompletionsHaveSetup(d: Device, ts: seq<Token>, i: nat)
    requires Initial(d)
    requires i < |FromPowerOn(d, ts).log| && FromPowerOn(d, ts).log[i].StatusDone?
    ensures var log := FromPowerOn(d, ts).log;
      exists j :: OpenSince(log, j, i, log[i].request)
  {
    hide Step, Rom.Valid, PhaseOf, IsGetStatus;
    RunFromPowerOn(d, ts);
    var log := FromPowerOn(d, ts).log;
    assert LawfulAt(log, i);
    OpenMeaning(log, i);
  }

  /** The flash after any run is what the committed payloads, in order, make of the flash before
      it: nothing else ever changes it. */
  lemma FlashIsReplay(d: Device, ts: seq<Token>)
    requires Initial(d)
    ensures FromPowerOn(d, ts).flash == Replay(d.flash, FromPowerOn(d, ts).log)
  {
    hide Step, Rom.Valid, Replay, PhaseLink, OpenRequest, AddressOf, Lawful;
    RunFromPowerOn(d, ts);
  }

  // The device address

  /** Since the last store to the address register: whether a halt request for endpoint number 19
      was handled, whether one of them has cut the address to four bits, and whether bit 4 was
      toggled an odd number of times since then. */
  datatype Drift = Drift(hit: bool, cut: bool, odd: bool) {
    predicate Proper() {
      hit || (!cut && !odd)
    }
  }

  function NextDrift(f: Drift, addr: int, stall: bool): Drift {
    if addr >= 0x80 && stall then f.(hit := true, odd := !f.odd) else Drift(true, true, false)
  }

  function DriftOf(log: seq<Event>): (f: Drift)
    ensures f.Proper()
    decreases |log|
  {
    if log == [] then Drift(false, false, false)
    else
      var f := DriftOf(log[..|log| - 1]);
      match log[|log| - 1]
      case StatusDone(q) => if IsRequest(q) && IsSetAddress(q) then Drift(false, false, false) else f
      case BusReset => Drift(false, false, false)
      case HaltRequest(addr, stall) => if NumberOf(addr) == DADDR_NUMBER then NextDrift(f, addr, stall) else f
      case _ => f
  }

  /** Bit 4 toggled. */
  function Toggled(a: int, odd: bool): int {
    if !odd then a else if a / 0x10 % 2 == 0 then a + 0x10 else a - 0x10
  }

  /** What the halt requests leave of address a: bits 6 to 4 go with the first one that is not
      SET_FEATURE for IN, bit 6 goes with any. */
  function Drifted(a: int, f: Drift): int {
    if !f.hit then a else if f.cut then Toggled(a % 0x10, f.odd) else Toggled(a % 0x40, f.odd)
  }

  /** The address survives: no halt request for endpoint number 19, or those that were handled
      happen to give its bits 6 to 4 back. */
  predicate Survives(a: int, f: Drift) {
    if !f.hit then true
    else if f.cut then a / 0x10 == if f.odd then 1 else 0
    else a < 0x40 && !f.odd
  }

  lemma DriftStep(a: int, f: Drift, addr: int, stall: bool)
    requires 0 <= a < 0x80 && f.Proper()
    ensures 0 <= Drifted(a, f) < 0x80
    ensures HaltedAddress(Drifted(a, f), addr, stall) == Drifted(a, NextDrift(f, addr, stall))
  {
    DriftedRange(a, f);
    hide HaltedAddress, Drifted;
    ToggleIsHalt(Drifted(a, f), addr, stall);
    DriftToggles(a, f);
    DriftCuts(a, f);
  }

  lemma DriftedRange(a: int, f: Drift)
    requires 0 <= a < 0x80
    ensures 0 <= Drifted(a, f) < 0x80
  {
  }

  lemma ToggleIsHalt(b: int, addr: int, stall: bool)
    requires 0 <= b < 0x80
    ensures HaltedAddress(b, addr, stall) == if addr >= 0x80 && stall then Toggled(b % 0x40, true) else b % 0x10
  {
    BitOfLow(b);
  }

  lemma BitOfLow(b: int)
    requires 0 <= b < 0x80
    ensures b % 0x40 / 0x10 % 2 == b / 0x10 % 2
  {
    if b >= 0x40 {
      assert b % 0x40 == b - 0x40;
    } else {
      assert b % 0x40 == b;
    }
  }

  lemma DriftToggles(a: int, f: Drift)
    requires 0 <= a < 0x80 && f.Proper()
    ensures Toggled(Drifted(a, f) % 0x40, true) == Drifted(a, f.(hit := true, odd := !f.odd))
  {
  }

  lemma DriftCuts(a: int, f: Drift)
    requires 0 <= a < 0x80
    ensures Drifted(a, f) % 0x10 == Drifted(a, Drift(true, true, false))
  {
  }

  lemma SurvivesExactly(a: int, f: Drift)
    requires 0 <= a < 0x80
    ensures Drifted(a, f) == a <==> Survives(a, f)
  {
  }

  lemma ExtendDrift(log: seq<Event>, e: Event)
    ensures AddressOf(log + [e]) ==
      if e.StatusDone? && IsRequest(e.request) && IsSetAddress(e.request) then ReqValue(e.request)
      else if e.BusReset? then 0 else AddressOf(log)
    ensures DriftOf(log + [e]) ==
      if e.StatusDone? && IsRequest(e.request) && IsSetAddress(e.request) then Drift(false, false, false)
      else if e.BusReset? then Drift(false, false, false)
      else if e.HaltRequest? && NumberOf(e.addr) == DADDR_NUMBER then NextDrift(DriftOf(log), e.addr, e.stall)
      else DriftOf(log)
  {
    hide IsSetAddress, ReqValue, NextDrift, NumberOf;
    assert (log + [e])[..|log|] == log;
  }

  /** The address register, in terms of the last store to it and the halt requests since. */
  lemma {:induction false} AddressDrifts(log: seq<Event>, n: nat)
    requires Lawful(log) && n <= |log|
    ensures 0 <= AddressOf(log[..n]) < 0x80 && AddressNow(log[..n]) == Drifted(AddressOf(log[..n]), DriftOf(log[..n]))
    decreases n
  {
    hide LawfulAt, Lawful, Drifted, AddressNow, AddressOf;
    hide DriftOf, HaltedAddress, NextDrift, ReqValue, IsSetAddress, NumberOf;
    if n == 0 {
      assert log[..0] == [];
      NoDrift();
    } else {
      AddressDrifts(log, n - 1);
      var before, e := log[..n - 1], log[n - 1];
      assert log[..n] == before + [e];
      ExtendAddress(before, e);
      ExtendDrift(before, e);
      DriftStep(AddressOf(before), DriftOf(before), if e.HaltRequest? then e.addr else 0, e.HaltRequest? && e.stall);
      AddressFits(log, n - 1);
      NotDrifted(0);
      if e.StatusDone? && IsRequest(e.request) && IsSetAddress(e.request) {
        NotDrifted(ReqValue(e.request));
      }
    }
  }

  lemma NoDrift()
    ensures AddressOf([]) == 0 && AddressNow([]) == 0 && Drifted(0, DriftOf([])) == 0
  {
  }

  lemma NotDrifted(a: int)
    ensures Drifted(a, Drift(false, false, false)) == a
  {
  }

  lemma AddressFits(log: seq<Event>, i: nat)
    requires Lawful(log) && i < |log|
    ensures log[i].StatusDone? && IsRequest(log[i].request) && IsSetAddress(log[i].request) ==>
      0 <= ReqValue(log[i].request) < 0x80 && ReqValue(log[i].request) % 0x80 == ReqValue(log[i].request)
  {
    hide PhaseOf, OpenRequest, IsSetAddress, ReqValue, IsGetStatus;
    assert LawfulAt(log, i);
  }

  /** In every run the device answers to the address of the last SET_ADDRESS that completed its
      status stage since the last bus reset if and only if no halt request for endpoint number
      19 was handled since, or those that were leave that address as it is. In every case the
      address is what they make of it. */
  lemma AddressIsLatched(d: Device, ts: seq<Token>)
    requires Initial(d)
    ensures var r := FromPowerOn(d, ts);
      && r.ep.daddr % 0x80 == Drifted(AddressOf(r.log), DriftOf(r.log))
      && (r.ep.daddr % 0x80 == AddressOf(r.log) <==> Survives(AddressOf(r.log), DriftOf(r.log)))
  {
    hide Step, Rom.Valid, Replay, PhaseLink, OpenRequest, AddressOf;
    hide AddressNow, DriftOf, LinkOf, Lawful, Drifted, Survives;
    RunFromPowerOn(d, ts);
    var log := FromPowerOn(d, ts).log;
    AddressDrifts(log, |log|);
    assert log[..|log|] == log;
    SurvivesExactly(AddressOf(log), DriftOf(log));
  }

  /** What it means that the address was hit: a halt request for endpoint number 19. */
  lemma {:induction false} DriftHasCause(log: seq<Event>)
    ensures DriftOf(log).hit ==>
      exists i :: 0 <= i < |log| && log[i].HaltRequest? && NumberOf(log[i].addr) == DADDR_NUMBER
    decreases |log|
  {
    hide NumberOf, IsSetAddress;
    if log != [] {
      var n := |log| - 1;
      DriftHasCause(log[..n]);
      if DriftOf(log).hit && !(log[n].HaltRequest? && NumberOf(log[n].addr) == DADDR_NUMBER) {
        var i :| 0 <= i < n && log[..n][i].HaltRequest? && NumberOf(log[..n][i].addr) == DADDR_NUMBER;
        assert log[i] == log[..n][i];
      }
    }
  }

  /** Without such a request the device answers to the address it was given. */
  lemma AddressIsLatchedWithoutHalts(d: Device, ts: seq<Token>)
    requires Initial(d)
    requires forall i :: 0 <= i < |FromPowerOn(d, ts).log| && FromPowerOn(d, ts).log[i].HaltRequest? ==>
      NumberOf(FromPowerOn(d, ts).log[i].addr) != DADDR_NUMBER
    ensures FromPowerOn(d, ts).ep.daddr % 0x80 == AddressOf(FromPowerOn(d, ts).log)
  {
    hide Step, Rom.Valid, AddressOf, DriftOf, NumberOf;
    AddressIsLatched(d, ts);
    DriftHasCause(FromPowerOn(d, ts).log);
  }

  /** What a halt request does, at once and without regard to its status stage. */
  lemma HaltStep(d: Device, q: seq<byte>)
    requires Ready(d) && IsRequest(q) && ReqLength(q) == 0 && IsHalt(q)
    ensures var r := Step(d, SetupToken(q));
      && r.ep.daddr == HaltedDaddr(d.ep.daddr, HaltAddr(q), HaltStall(q))
      && r.link == HaltedLink(d.link, HaltAddr(q), HaltStall(q))
      && r.ep.fsm == StatusIn && r.ep.tx == Valid
  {
    hide Rom.Valid, Step, StallSet, IsHalt, HaltedDaddr, HaltedLink, ReqLength, Dispatch, HaltDone, EpInv;
    Transfers.NoDataStarts(d, q);
    var t := Taken(d, q);
    var e := t.(ep := t.ep.(dataoff := 0));
    HaltIsHandled(e);
    HaltReaches(e, q);
  }

  /** SET_FEATURE(ENDPOINT_HALT) for endpoint 0x13: a device at address 0x15 answers at address 5
      from then on. */
  lemma HaltMovesAddress(d: Device)
    requires Ready(d) && d.ep.daddr == 0x95
    ensures Step(d, SetupToken(HALT_OF_DADDR)).ep.daddr == 0x85
  {
    hide Rom.Valid, Step, IsHalt, ReqLength, HaltedDaddr, HaltedLink, EpInv, HaltAddr, HaltStall;
    HaltOfDaddrIsHalt();
    HaltStep(d, HALT_OF_DADDR);
  }

  const HALT_OF_DADDR: seq<byte> := [0x02, 3, 0, 0, 0x13, 0, 0, 0]

  lemma HaltOfDaddrIsHalt()
    ensures var q := HALT_OF_DADDR;
      && IsRequest(q) && IsHalt(q) && ReqLength(q) == 0 && HaltAddr(q) == 0x13 && HaltStall(q)
      && HaltedDaddr(0x95, HaltAddr(q), HaltStall(q)) == 0x85
  {
  }

  /** A halt request is handled, whatever the endpoint number. */
  lemma HaltIsHandled(e: Device)
    requires e.Valid() && IsHalt(e.ep.req)
    ensures Dispatch(e) == Outcome(HaltDone(e, e.ep.req), true)
  {
    HaltIsStandard(e.ep.req);
    hide Rom.Valid, StallSet;
  }

  // The peripheral

  /** The request takes the peripheral off the bus. */
  predicate Cuts(e: Event) {
    e.HaltRequest? && HaltedLink(Up, e.addr, e.stall) != Up
  }

  /** What a request that takes the peripheral off the bus does is final. */
  lemma {:induction false} LinkSettled(log: seq<Event>, i: nat, n: nat)
    requires Lawful(log) && i < n <= |log| && Cuts(log[i])
    ensures LinkOf(log[..n]) == HaltedLink(Up, log[i].addr, log[i].stall)
    decreases n
  {
    hide PhaseOf, OpenRequest, IsSetAddress, IsGetStatus, ReqValue, NumberOf;
    var before, e := log[..n - 1], log[n - 1];
    assert log[..n] == before + [e];
    ExtendAddress(before, e);
    assert LawfulAt(log, n - 1);
    if i < n - 1 {
      LinkSettled(log, i, n - 1);
    }
  }

  lemma {:induction false} LinkHasCause(log: seq<Event>, n: nat)
    requires Lawful(log) && n <= |log| && LinkOf(log[..n]) != Up
    ensures exists i :: 0 <= i < n && Cuts(log[i])
    decreases n
  {
    hide PhaseOf, OpenRequest, IsSetAddress, IsGetStatus, ReqValue, NumberOf;
    var before, e := log[..n - 1], log[n - 1];
    assert log[..n] == before + [e];
    ExtendAddress(before, e);
    assert LawfulAt(log, n - 1);
    if !Cuts(e) {
      LinkHasCause(log, n - 1);
    }
  }

  /** BTABLE stays where usb_init has put it exactly in the runs in which no halt request for
      endpoint number 20 was handled. */
  lemma TableIsKept(d: Device, ts: seq<Token>)
    requires Initial(d)
    ensures var r := FromPowerOn(d, ts);
      r.link == TableMoved <==>
      exists i :: 0 <= i < |r.log| && r.log[i].HaltRequest? && NumberOf(r.log[i].addr) == BTABLE_NUMBER
  {
    hide Step, Rom.Valid, Replay, PhaseLink, OpenRequest, AddressNow, LinkOf, Lawful, NumberOf;
    RunFromPowerOn(d, ts);
    var r := FromPowerOn(d, ts);
    assert r.log[..|r.log|] == r.log;
    if r.link == TableMoved {
      LinkHasCause(r.log, |r.log|);
      var i :| 0 <= i < |r.log| && Cuts(r.log[i]);
      LinkSettled(r.log, i, |r.log|);
      assert r.log[i].HaltRequest? && NumberOf(r.log[i].addr) == BTABLE_NUMBER;
    }
    if i :| 0 <= i < |r.log| && r.log[i].HaltRequest? && NumberOf(r.log[i].addr) == BTABLE_NUMBER {
      LinkSettled(r.log, i, |r.log|);
    }
  }

  lemma StepKeepsBootloader(d: Device, t: Token)
    requires Inv(d)
    ensures SameBootloader(Step(d, t).flash, d.flash)
  {
    hide Step, Rom.Valid, DriverStep, Dfu.Commit;
    var c := StepChange(d, t);
    if c.DoneCommit? {
      CommitKeepsBootloader(d);
    }
  }

  lemma CommitKeepsBootloader(d: Device)
    requires d.Valid() && d.dfu.state == Dfu.DnBusy
    ensures SameBootloader(Dfu.Complete(d.dfu, d.flash).flash, d.flash)
  {
    hide Rom.Valid, Dfu.Commit;
    Dfu.CommitKeepsBootloader(d.dfu.prog, d.flash.(locked := false));
  }

  /** No byte of the bootloader ever changes, over every run of tokens with whatever requests,
      addresses, block numbers and lengths, and the flash is locked after every token. */
  lemma {:induction false} RunKeepsBootloader(d: Device, ts: seq<Token>)
    requires Inv(d)
    ensures SameBootloader(Run(d, ts).flash, d.flash) && Run(d, ts).flash.locked
    decreases |ts|
  {
    hide Step, Rom.Valid;
    if ts != [] {
      StepKeepsBootloader(d, ts[0]);
      RunKeepsBootloader(Step(d, ts[0]), ts[1..]);
    }
  }
}
