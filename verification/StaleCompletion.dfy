/** Why every completion has to be served before the next SETUP arrives. do_usb_poll serves a
    SETUP first when an IN completion is pending as well, so the completion of the old transfer
    is then taken for one of the new transfer. This module says what that does to every request;
    every other module has completions served at once. */
module StaleCompletion {
  import opened Bytes
  import opened FlashMemory
  import opened Usb
  import opened UsbRun
  import opened ControlRead
  import opened ControlWrite
  import opened Transfers
  import Dfu
  import Download

  /** The device after a SETUP that came while an IN completion was pending: the SETUP is served
      first and the completion of the old transfer after it. */
  function ServedLate(d: Device, q: seq<byte>): (r: Device)
    requires Ready(d) && IsRequest(q) && !Step(d, SetupToken(q)).reset
    ensures r.Valid()
  {
    ControlIn(Step(d, SetupToken(q)))
  }

  lemma SetupNeverResets(d: Device, q: seq<byte>)
    requires Ready(d) && IsRequest(q)
    ensures !Step(d, SetupToken(q)).reset
  {
    hide Rom.Valid, SetupRead, Step;
    SetupStep(d, q);
    if ReqLength(q) == 0 || IsIn(q) {
      ReadTail(Taken(d, q));
    }
  }

  lemma ReadTail(t: Device)
    requires t.Valid() && t.ep.tx != Valid && !t.reset
    ensures !SetupRead(t).reset && SetupRead(t).ep.req == t.ep.req
  {
    hide Rom.Valid, Dispatch, SetupRead, LogGrows;
    ReadFrame(t);
    DispatchFrame(t.(ep := t.ep.(dataoff := 0)));
  }

  /** The next chunk goes onto an endpoint that still holds the first one. */
  lemma SecondChunkDropped(f: Device)
    requires f.Valid() && !f.reset && PacketDropped !in f.log
    requires f.ep.fsm == DataIn ==> f.ep.tx == Valid && f.ep.dataoff + f.ep.datasize <= RAM_SPAN
    ensures PacketDropped in ControlIn(f).log <==> f.ep.fsm == DataIn
  {
    hide Rom.Valid;
  }

  /** More than one packet means that the first chunk is not the last. */
  lemma ManyPackets(c: Device, want: nat)
    requires ReadyToSend(c.(link := Up), want)
    ensures SendChunk(c).ep.tx == Valid
    ensures SendChunk(c).ep.fsm == if |Packets(Remaining(c), want)| > 1 then DataIn else LastDataIn
  {
    hide Rom.Valid;
  }

  /** The new request is a read with an answer of several packets, or of one. */
  predicate LongRead(d: Device, q: seq<byte>)
    requires d.Valid() && IsRequest(q)
  {
    IsIn(q) && ReqLength(q) > 0 && ReadOutcome(d, q).ok && |Packets(AnswerTo(d, q), ReqLength(q))| > 1
  }

  predicate ShortRead(d: Device, q: seq<byte>)
    requires d.Valid() && IsRequest(q)
  {
    IsIn(q) && ReqLength(q) > 0 && ReadOutcome(d, q).ok && |Packets(AnswerTo(d, q), ReqLength(q))| <= 1
  }

  /** It is handled and has no data. */
  predicate NoData(d: Device, q: seq<byte>)
    requires d.Valid() && IsRequest(q)
  {
    ReqLength(q) == 0 && ReadOutcome(d, q).ok
  }

  /** Where the SETUP leaves the transfer. */
  lemma StateAfterSetup(d: Device, q: seq<byte>)
    requires Ready(d) && IsRequest(q)
    ensures var f := Step(d, SetupToken(q));
      && !f.reset && f.ep.req == q
      && (f.ep.fsm == DataIn <==> LongRead(d, q)) && (f.ep.fsm == LastDataIn <==> ShortRead(d, q))
      && (f.ep.fsm == StatusIn <==> NoData(d, q)) && f.ep.fsm != StatusOut
      && (f.ep.fsm == DataIn || f.ep.fsm == LastDataIn || f.ep.fsm == StatusIn ==> f.ep.tx == Valid)
  {
    hide Rom.Valid, Step, SendChunk, ReadOutcome, AnswerTo, ReqLength, ReqType, Packets, EpInv;
    SetupNeverResets(d, q);
    SetupStep(d, q);
    SetupKeepsRequest(d, q);
    if ReqLength(q) == 0 {
      NoDataStarts(d, q);
      hide SetupRead, SetupWrite;
    } else if IsIn(q) {
      ReadStarts(d, q);
      hide SetupRead, SetupWrite;
      if ReadOutcome(d, q).ok {
        ManyPackets(Answering(ReadOutcome(d, q).device, ReqLength(q)), ReqLength(q));
      }
    }
  }

  lemma SetupKeepsRequest(d: Device, q: seq<byte>)
    requires Ready(d) && IsRequest(q)
    ensures Step(d, SetupToken(q)).ep.req == q
  {
    hide Rom.Valid, Step, SetupRead, ReqLength, ReqType, EpInv;
    SetupStep(d, q);
    if ReqLength(q) == 0 || IsIn(q) {
      ReadTail(Taken(d, q));
    }
  }

  /** A SETUP served before a pending IN completion loses a packet if and only if the new request
      is a read whose answer takes more than one packet. */
  lemma StaleCompletionDrops(d: Device, q: seq<byte>)
    requires Ready(d) && d.ep.tx == Nak && IsRequest(q)
    ensures !Step(d, SetupToken(q)).reset
    ensures PacketDropped in ServedLate(d, q).log <==> LongRead(d, q)
  {
    hide Rom.Valid, Step, ControlIn, LongRead, ShortRead, NoData;
    StateAfterSetup(d, q);
    SecondChunkDropped(Step(d, SetupToken(q)));
  }

  /** For example the UPLOAD of a block of the application. */
  lemma UploadIsCut(d: Device)
    requires Ready(d) && d.ep.tx == Nak && d.dfu.prog.addr == APP
    ensures !Step(d, SetupToken(Download.UploadRequest(2, 1024))).reset
    ensures PacketDropped in ServedLate(d, Download.UploadRequest(2, 1024)).log
  {
    hide Rom.Valid, Step, ServedLate, ReadOutcome, AnswerTo;
    hide ReqLength, ReqType, Dfu.FlashBytes, EpInv, Transfers.DfuRequestBytes;
    var q := Download.UploadRequest(2, 1024);
    Transfers.DfuRequestKind(q, 0xA1, Dfu.UPLOAD, 2, 1024);
    Download.UploadAnswer(d, q, 2, 1024);
    PacketSizes(AnswerTo(d, q), 1024);
    StaleCompletionDrops(d, q);
  }

  /** The chunk of which the host never hears. */
  lemma ChunkSkipped(f: Device)
    requires f.Valid() && !f.reset && f.ep.fsm == DataIn && f.ep.tx == Valid && f.ep.dataoff + f.ep.datasize <= RAM_SPAN
    ensures var r, n := ControlIn(f), Min(MAX_PACKET, f.ep.datasize);
      && r.ep.txPacket == f.ep.txPacket && r.ep.datasize == f.ep.datasize - n
      && (f.ep.datasize > MAX_PACKET ==> r.ep.dataoff == f.ep.dataoff + n)
  {
    hide Rom.Valid;
  }

  /** A completion that ends a read too early: when the host does collect the answer, the device is
      already past it and stalls. */
  lemma ReadEndsEarly(f: Device)
    requires f.Valid() && !f.reset && f.ep.fsm == LastDataIn && f.ep.tx == Valid
    ensures var r := ControlIn(f);
      && r == f.(ep := f.ep.(fsm := StatusOut, forceNak := false, rx := Valid))
      && ControlIn(r.(ep := r.ep.(tx := Nak))) == StallTransaction(r)
  {
  }

  /** A completion that is taken for the status stage: the callback runs and the address changes
      while the status packet is still waiting for the host. */
  lemma StatusComesEarly(f: Device)
    requires f.Valid() && !f.reset && f.ep.fsm == StatusIn && f.ep.tx == Valid
    ensures var r := ControlIn(f);
      && r.ep.tx == Valid && f.log + [StatusDone(f.ep.req)] <= r.log
      && r.dfu == (if f.ep.callback then Dfu.Complete(f.dfu, f.flash).driver else f.dfu)
      && r.flash == (if f.ep.callback then Dfu.Complete(f.dfu, f.flash).flash else f.flash)
      && (IsSetAddress(f.ep.req) && !r.reset ==> r.ep.daddr == ReqValue(f.ep.req) % 0x80 + 0x80)
  {
    hide Rom.Valid, Dfu.Commit, ReqValue;
  }

  /** In all other states the completion stalls the new transfer. */
  lemma TransferStalls(f: Device)
    requires f.Valid() && !f.reset && f.ep.fsm != DataIn && f.ep.fsm != LastDataIn && f.ep.fsm != StatusIn
    ensures ControlIn(f) == StallTransaction(f)
  {
  }

  /** What serving the SETUP first does, for every request: a read with several packets loses its
      second one, a read with one packet is stalled when the host collects it, a request without
      data has its status stage before the host does, and every other request is stalled. */
  lemma ServedLateCases(d: Device, q: seq<byte>)
    requires Ready(d) && d.ep.tx == Nak && IsRequest(q)
    ensures !Step(d, SetupToken(q)).reset
    ensures var f, r := Step(d, SetupToken(q)), ServedLate(d, q);
      if LongRead(d, q) then
        PacketDropped in r.log && r.ep.txPacket == f.ep.txPacket
        && r.ep.datasize == f.ep.datasize - Min(MAX_PACKET, f.ep.datasize)
      else if ShortRead(d, q) then
        && r == f.(ep := f.ep.(fsm := StatusOut, forceNak := false, rx := Valid)) && r.ep.tx == Valid
        && ControlIn(r.(ep := r.ep.(tx := Nak))) == StallTransaction(r)
      else if NoData(d, q) then
        && r.ep.tx == Valid && f.log + [StatusDone(q)] <= r.log
        && r.flash == (if f.ep.callback then Dfu.Complete(f.dfu, f.flash).flash else f.flash)
        && (IsSetAddress(q) && !r.reset ==> r.ep.daddr == ReqValue(q) % 0x80 + 0x80)
      else r == StallTransaction(f)
  {
    hide Rom.Valid, Step, ControlIn, LongRead, ShortRead, NoData, StallTransaction, ReqValue, Dfu.Complete;
    StateAfterSetup(d, q);
    SentBounds(Step(d, SetupToken(q)));
    var f := Step(d, SetupToken(q));
    match f.ep.fsm
    case DataIn =>
      SecondChunkDropped(f);
      ChunkSkipped(f);
    case LastDataIn => ReadEndsEarly(f);
    case StatusIn => StatusComesEarly(f);
    case _ => TransferStalls(f);
  }

  lemma SentBounds(f: Device)
    requires Inv(f) && !f.reset
    ensures f.ep.fsm == DataIn ==> f.ep.dataoff + f.ep.datasize <= RAM_SPAN
  {
  }
}
