/** What a DFU host reads from the device in the course of a download, by the bytes: the answers to
    GETSTATUS and GETSTATE of section 6.1 of the DFU class specification, and what the requests that
    carry no data do to them. */
module Conversation {
  import opened Bytes
  import opened FlashMemory
  import opened Usb
  import opened UsbRun
  import opened ControlWrite
  import opened Transfers
  import opened Programming
  import opened Download
  import opened Answers
  import opened Enumeration
  import Dfu

  /** The states by their numbers. */
  const STATES := [Dfu.AppIdle, Dfu.AppDetach, Dfu.DfuIdle, Dfu.DnloadSync, Dfu.DnBusy, Dfu.DnloadIdle,
                   Dfu.ManifestSync, Dfu.Manifest, Dfu.ManifestWaitReset, Dfu.UploadIdle, Dfu.Error]

  lemma StateNumber(s: Dfu.State, n: byte)
    requires n < 11 && s == STATES[n]
    ensures Dfu.Code(s) == n
  {
  }

  /** The six bytes of GETSTATUS: bStatus, three bytes of bwPollTimeout, bState and iString. The state
      is the one the request moves to. */
  predicate IsStatus(s: Dfu.State, b: seq<byte>) {
    if s == Dfu.DnloadSync then b == [0, 100, 0, 0, 4, 0]
    else if s == Dfu.ManifestSync then b == [0, 0, 0, 0, 7, 0]
    else if s == Dfu.Error then b == [10, 0, 0, 0, 10, 0]
    else |b| == 6 && b[4] < 10 && s == STATES[b[4]] && b == [0, 0, 0, 0, b[4], 0]
  }

  lemma StatusIsBytes(s: Dfu.State)
    ensures IsStatus(s, Dfu.StatusBytes(s))
  {
  }

  lemma StatusDispatched(e: Device)
    requires e.Valid() && e.ep.req[0] == 0xA1 && e.ep.req[1] == 3
    ensures var h := Dispatch(e);
      && h.ok && h.device.link == e.link && h.device.ep.datasize == 6
      && h.device.ram == Splice(e.ram, 0, Dfu.StatusBytes(e.dfu.state))
  {
    hide Rom.Valid, Dispatch, ReqValue, ReqLength, Splice, Dfu.StatusBytes;
    ToDfu(e);
  }

  lemma StateDispatched(e: Device)
    requires e.Valid() && e.ep.req[0] == 0xA1 && e.ep.req[1] == 5
    ensures var h := Dispatch(e);
      && h.ok && h.device.link == e.link && h.device.ep.datasize == 1
      && h.device.ram == Splice(e.ram, 0, [Dfu.Code(e.dfu.state)])
  {
    hide Rom.Valid, Dispatch, ReqValue, ReqLength, Splice, Dfu.Code;
    ToDfu(e);
  }

  /** Any device that can take a SETUP answers GETSTATUS with these bytes. */
  lemma GetStatusAnswers(d: Device, ask: seq<byte>, b: seq<byte>)
    requires Ready(d) && Asks(ask, 0xA1, 3) && IsStatus(d.dfu.state, b)
    ensures Gets(d, ask, b)
  {
    StatusIsUnique(d.dfu.state, b);
    hide Rom.Valid, Dispatch, Step, EpInv, ReqLength, Dfu.StatusBytes, IsStatus, Gets;
    StatusDispatched(Asked(d, ask));
    var h := Dispatch(Asked(d, ask)).device;
    assert h.ram[..6] == b;
    AnswerIsRead(d, ask, b);
  }

  lemma StatusIsUnique(s: Dfu.State, b: seq<byte>)
    requires IsStatus(s, b)
    ensures b == Dfu.StatusBytes(s)
  {
  }

  /** And GETSTATE with the number of its state. */
  lemma GetStateAnswers(d: Device, ask: seq<byte>, n: byte)
    requires Ready(d) && Asks(ask, 0xA1, 5) && n < 11 && d.dfu.state == STATES[n]
    ensures Gets(d, ask, [n])
  {
    StateNumber(d.dfu.state, n);
    hide Rom.Valid, Dispatch, Step, EpInv, ReqLength, Dfu.Code, Gets;
    StateDispatched(Asked(d, ask));
    var h := Dispatch(Asked(d, ask)).device;
    assert h.ram[..1] == [n];
    AnswerIsRead(d, ask, [n]);
  }

  // A download

  /** Behind the data of a DNLOAD the host is told to wait 100 ms for a busy device, and behind the
      GETSTATUS that has told so it is told to go on. */
  lemma DownloadConversation(d: Device, x: Payload, status: seq<byte>, state: seq<byte>)
    requires Ready(d) && x.Valid() && Asks(status, 0xA1, 3) && Asks(state, 0xA1, 5)
    ensures var e, r := Run(d, DnloadTokens(x)), Run(d, SendTokens(x));
      && Ready(e) && Gets(e, status, [0, 100, 0, 0, 4, 0]) && Gets(e, state, [3])
      && Ready(r) && Gets(r, status, [0, 0, 0, 0, 5, 0]) && Gets(r, state, [5])
  {
    hide Rom.Valid, Step, EpInv, DnloadTokens, SendTokens, ReqLength, Gets, Perform;
    DnloadTransfer(d, x);
    SendPayload(d, x);
    PerformState(MachineOf(d), x);
    var e, r := Run(d, DnloadTokens(x)), Run(d, SendTokens(x));
    GetStatusAnswers(e, status, [0, 100, 0, 0, 4, 0]);
    GetStateAnswers(e, state, 3);
    GetStatusAnswers(r, status, [0, 0, 0, 0, 5, 0]);
    GetStateAnswers(r, state, 5);
  }

  lemma PerformState(m: Machine, x: Payload)
    requires m.Valid() && x.Valid()
    ensures Perform(m, x).driver.state == Dfu.DnloadIdle
  {
    hide Perform;
    PerformEffect(m, x);
  }

  /** Behind a DNLOAD without data the device is about to reset. */
  lemma LeaveConversation(d: Device, block: int, status: seq<byte>, state: seq<byte>)
    requires Ready(d) && 0 <= block < U16 && Asks(status, 0xA1, 3) && Asks(state, 0xA1, 5)
    ensures var r := Run(d, LeaveTokens(block));
      Ready(r) && Gets(r, status, [0, 0, 0, 0, 7, 0]) && Gets(r, state, [6])
  {
    hide Rom.Valid, Step, EpInv, LeaveTokens, ReqLength, Gets;
    LeaveTransfer(d, block);
    GetStatusAnswers(Run(d, LeaveTokens(block)), status, [0, 0, 0, 0, 7, 0]);
    GetStateAnswers(Run(d, LeaveTokens(block)), state, 6);
  }

  // Requests without data

  /** A DFU request to the device without data. */
  predicate Commands(q: seq<byte>, code: byte) {
    IsRequest(q) && q[0] == 0x21 && q[1] == code && q[6] == 0 && q[7] == 0
  }

  lemma NoLength(q: seq<byte>, code: byte)
    requires Commands(q, code)
    ensures ReqLength(q) == 0
  {
  }

  lemma NoAddress(q: seq<byte>, code: byte)
    requires Commands(q, code)
    ensures !Usb.IsSetAddress(q)
  {
  }

  lemma CommandDispatched(d: Device, q: seq<byte>, code: byte)
    requires d.Valid() && Commands(q, code) && (code == 0 || code == 4 || code == 6)
    ensures var h := Dispatch(Asked(d, q));
      && h.ok && h.device.link == d.link && h.device.flash == d.flash
      && (h.device.ep.callback <==> code == 0) && h.device.dfu.prog == d.dfu.prog
      && h.device.dfu.state == if code == 0 then Dfu.ManifestSync
                               else if code == 6 || d.dfu.state == Dfu.Error then Dfu.DfuIdle
                               else d.dfu.state
  {
    hide Rom.Valid, Dispatch, ReqValue, ReqLength;
    ToDfu(Asked(d, q));
  }

  lemma CommandTransfer(d: Device, q: seq<byte>, code: byte)
    requires Ready(d) && Commands(q, code) && (code == 0 || code == 4 || code == 6)
    ensures var r := Run(d, NoDataTokens(q));
      && Ready(r) && r.flash == d.flash && r.dfu == Dispatch(Asked(d, q)).device.dfu
  {
    hide Rom.Valid, Dispatch, Step, EpInv, ReqLength, Usb.IsSetAddress;
    NoLength(q, code);
    NoAddress(q, code);
    CommandDispatched(d, q, code);
    NoDataTransfer(d, q);
  }

  /** CLRSTATUS (4) leads out of the error state, and changes nothing in any other state. */
  lemma ClearStatus(d: Device, q: seq<byte>, status: seq<byte>)
    requires Ready(d) && Commands(q, 4) && Asks(status, 0xA1, 3)
    ensures var r := Run(d, NoDataTokens(q));
      && Ready(r) && r.flash == d.flash
      && (d.dfu.state == Dfu.Error ==> Gets(r, status, [0, 0, 0, 0, 2, 0]) && r.dfu.prog == d.dfu.prog)
      && (d.dfu.state != Dfu.Error ==> r.dfu == d.dfu)
  {
    hide Rom.Valid, Dispatch, Step, EpInv, ReqLength, Gets;
    CommandDispatched(d, q, 4);
    CommandTransfer(d, q, 4);
    if d.dfu.state == Dfu.Error {
      GetStatusAnswers(Run(d, NoDataTokens(q)), status, [0, 0, 0, 0, 2, 0]);
    }
  }

  /** ABORT (6) leads to the idle state from any state, and a payload that waits is not acted on. */
  lemma AbortIdles(d: Device, q: seq<byte>, status: seq<byte>)
    requires Ready(d) && Commands(q, 6) && Asks(status, 0xA1, 3)
    ensures var r := Run(d, NoDataTokens(q));
      && Ready(r) && r.flash == d.flash && r.dfu == d.dfu.(state := Dfu.DfuIdle)
      && Gets(r, status, [0, 0, 0, 0, 2, 0]) && Run(r, GetStatusTokens()).flash == d.flash
  {
    hide Rom.Valid, Dispatch, Step, EpInv, ReqLength, Gets, GetStatusTokens;
    CommandDispatched(d, q, 6);
    CommandTransfer(d, q, 6);
    var r := Run(d, NoDataTokens(q));
    GetStatusAnswers(r, status, [0, 0, 0, 0, 2, 0]);
    GetStatusTransfer(r);
  }

  /** DETACH (0) announces the reset like a DNLOAD without data, and the next GETSTATUS brings it. */
  lemma DetachResets(d: Device, q: seq<byte>, status: seq<byte>)
    requires Ready(d) && Commands(q, 0) && Asks(status, 0xA1, 3)
    ensures var r := Run(d, NoDataTokens(q));
      && Ready(r) && r.flash == d.flash && Gets(r, status, [0, 0, 0, 0, 7, 0])
      && Run(r, GetStatusTokens()).reset && Run(r, GetStatusTokens()).flash == d.flash
  {
    hide Rom.Valid, Dispatch, Step, EpInv, ReqLength, Gets, GetStatusTokens;
    CommandDispatched(d, q, 0);
    CommandTransfer(d, q, 0);
    var r := Run(d, NoDataTokens(q));
    GetStatusAnswers(r, status, [0, 0, 0, 0, 7, 0]);
    GetStatusTransfer(r);
  }

  // Command payloads

  lemma CommandArgument(m: Machine, code: byte, a: byte, b: byte, c: byte, d: byte)
    requires m.Valid()
    ensures Argument(PointerOf(m.driver), Payload(0, [code, a, b, c, d])) == Number(a, b, c, d)
  {
    var h := NextHead(PointerOf(m.driver).head, Payload(0, [code, a, b, c, d]));
    assert h == [code, a, b, c, d];
    Le32Bytes(h, 1);
  }

  /** The command 0x21 sets the address pointer, least significant byte first. */
  lemma SetAddressCommand(m: Machine, a: byte, b: byte, c: byte, d: byte)
    requires m.Valid()
    ensures var r := Perform(m, Payload(0, [0x21, a, b, c, d]));
      r.driver.prog.addr == Number(a, b, c, d) && r.flash == m.flash
  {
    hide Perform, Argument;
    PerformEffect(m, Payload(0, [0x21, a, b, c, d]));
    CommandArgument(m, 0x21, a, b, c, d);
  }

  /** The command 0x41 erases the page that starts at the address, if it is one of the application,
      and no other page. */
  lemma EraseCommand(m: Machine, a: byte, b: byte, c: byte, d: byte, k: nat)
    requires m.Valid() && Number(a, b, c, d) == 0x0800_0000 + 1024 * k
    ensures var r := Perform(m, Payload(0, [0x41, a, b, c, d]));
      r.driver.prog.addr == m.driver.prog.addr &&
      r.flash == if 8 <= k < 128 then m.flash.(mem := Splice(m.flash.mem, 1024 * k, Fill(1024, 0xFF))) else m.flash
  {
    hide Perform, Argument, Splice, ErasedAt;
    PerformEffect(m, Payload(0, [0x41, a, b, c, d]));
    CommandArgument(m, 0x41, a, b, c, d);
    if 8 <= k < 128 {
      var f := m.flash.(locked := false);
      EraseAtPage(f, k);
      EraseAnywhere(f, k * PAGE);
    }
  }

  /** Any other command does nothing. */
  lemma UnknownCommand(m: Machine, x: Payload)
    requires m.Valid() && x.Valid() && x.block == 0 && x.data[0] != 0x21 && x.data[0] != 0x41
    ensures var r := Perform(m, x);
      r.driver.prog.addr == m.driver.prog.addr && r.flash == m.flash && r.driver.state == Dfu.DnloadIdle
  {
    hide Perform, Argument;
    PerformEffect(m, x);
  }
}
