/** The SETUP stage and the data stage of a control write, seen from the host: the packets of
    an OUT transfer are put together in the control buffer and the handler runs once, when the
    last of them has arrived. */
module ControlWrite {
  import opened Bytes
  import opened Usb
  import opened UsbRun
  import Dfu

  /** A device that can take a SETUP. */
  predicate Ready(d: Device) {
    Inv(d) && !Deaf(d) && !d.ep.ctrRx && d.ep.rx != Disabled
  }

  /** The device with the request q taken in, before any handler runs. */
  function Taken(d: Device, q: seq<byte>): (r: Device)
    requires d.Valid() && IsRequest(q)
    ensures r.Valid()
  {
    d.(ep := d.ep.(callback := false, forceNak := true, tx := Nak, rx := Nak, setup := true, ctrRx := false,
                   rxPacket := q, req := q)).Log(Setup(q))
  }

  lemma SetupStep(d: Device, q: seq<byte>)
    requires Ready(d) && IsRequest(q)
    ensures Step(d, SetupToken(q)) ==
            if ReqLength(q) == 0 || IsIn(q) then SetupRead(Taken(d, q)) else SetupWrite(Taken(d, q))
  {
    hide Rom.Valid, SetupRead, SetupWrite;
    var e := Arrived(d, q, true);
    assert Splice(e.ep.req, 0, q) == q;
    assert e.ep.rxPacket[..8] == q;
  }

  /** The host sends data in packets of 64 bytes. */
  function OutTokens(data: seq<byte>): (ts: seq<Token>)
    decreases |data|
  {
    if |data| <= MAX_PACKET then [OutToken(data)]
    else [OutToken(data[..MAX_PACKET])] + OutTokens(data[MAX_PACKET..])
  }

  /** The device expects n more bytes of an OUT transfer. */
  predicate Expects(d: Device, n: nat) {
    && Ready(d) && (d.ep.fsm == DataOut || d.ep.fsm == LastDataOut)
    && n == ReqLength(d.ep.req) - d.ep.datasize
  }

  /** The packets the host sends. */
  function Chunks(data: seq<byte>): (ps: seq<seq<byte>>)
    ensures ps != []
    decreases |data|
  {
    if |data| <= MAX_PACKET then [data] else [data[..MAX_PACKET]] + Chunks(data[MAX_PACKET..])
  }

  /** What the log says of packets. */
  function PacketEvents(ps: seq<seq<byte>>): (es: seq<Event>)
    ensures |es| == |ps|
  {
    seq(|ps|, i requires 0 <= i < |ps| => Packet(ps[i]))
  }

  /** The packets ps have brought data into the control buffer. */
  function Filled(d: Device, data: seq<byte>, ps: seq<seq<byte>>): Device
    requires d.ep.datasize + |data| <= |d.ram| && IsRequest(d.ep.req) && ps != []
  {
    var size := d.ep.datasize + |data|;
    d.(ram := Splice(d.ram, d.ep.datasize, data), log := d.log + PacketEvents(ps),
       ep := d.ep.(datasize := size, rxPacket := ps[|ps| - 1], setup := false,
                   fsm := if ReqLength(d.ep.req) - size > MAX_PACKET then DataOut else LastDataOut))
  }

  /** A full packet with more to come: the device stores it and waits, and nothing else happens. */
  lemma MiddlePacket(d: Device, n: nat, p: seq<byte>)
    requires Expects(d, n) && n > MAX_PACKET && |p| == MAX_PACKET
    ensures d.ep.datasize + |p| <= |d.ram|
    ensures Step(d, OutToken(p)) == Filled(d, p, [p])
    ensures Expects(Step(d, OutToken(p)), n - MAX_PACKET)
  {
    hide Rom.Valid, Handle;
    assert p[..MAX_PACKET] == p;
    assert PacketEvents([p]) == [Packet(p)];
  }

  lemma LastChunkReceived(d: Device, n: nat, p: seq<byte>)
    requires Expects(d, n) && n <= |p| <= MAX_PACKET
    ensures d.ep.datasize + n <= |d.ram| && d.ep.fsm == LastDataOut
    ensures Filled(d, p[..n], [p]).Valid() && Filled(d, p[..n], [p]).ep.datasize <= Dfu.TRANSFER
    ensures RecvChunk(Arrived(d, p, false)) == Outcome(Filled(d, p[..n], [p]), true)
  {
    hide Rom.Valid;
    assert PacketEvents([p]) == [Packet(p)];
  }

  /** The packet that completes the data may be longer than the rest; what is too much is dropped. */
  lemma LastPacket(d: Device, n: nat, p: seq<byte>)
    requires Expects(d, n) && n <= |p| <= MAX_PACKET
    ensures Filled(d, p[..n], [p]).Valid() && Filled(d, p[..n], [p]).ep.datasize <= Dfu.TRANSFER
    ensures Step(d, OutToken(p)) == Handle(Filled(d, p[..n], [p]))
  {
    hide Rom.Valid, Dispatch, RecvChunk, Handle, StallTransaction, Filled;
    LastChunkReceived(d, n, p);
  }

  /** A packet shorter than what is expected ends the transfer: the endpoint stalls, and no
      handler has run. */
  lemma ShortPacket(d: Device, n: nat, p: seq<byte>)
    requires Expects(d, n) && |p| < Min(MAX_PACKET, n)
    ensures var r := Step(d, OutToken(p));
      && r == d.(ep := r.ep, ram := r.ram, log := d.log + [Packet(p)])
      && r.ep == d.ep.(fsm := Idle, tx := Stall, rx := Stall, setup := false, rxPacket := p)
  {
    hide Rom.Valid, Handle;
  }

  /** While data is expected an IN token is refused. */
  lemma NoInDuringWrite(d: Device, n: nat)
    requires Expects(d, n)
    ensures Step(d, InToken) == d
  {
  }

  lemma RunOne(d: Device, t: Token)
    requires Inv(d)
    ensures Run(d, [t]) == Step(d, t)
  {
    hide Step, Inv;
    assert Run(Step(d, t), []) == Step(d, t);
  }

  lemma ExpectsBounds(d: Device, n: nat)
    requires Expects(d, n)
    ensures 0 < n && d.ep.datasize + n == ReqLength(d.ep.req) <= Dfu.TRANSFER <= |d.ram|
  {
    hide ReqLength;
  }

  /** Packets behind packets. */
  lemma FilledTwice(d: Device, a: seq<byte>, p: seq<byte>, b: seq<byte>, ps: seq<seq<byte>>)
    requires IsRequest(d.ep.req) && d.ep.datasize + |a| + |b| <= |d.ram| && ps != []
    ensures Filled(Filled(d, a, [p]), b, ps) == Filled(d, a + b, [p] + ps)
  {
    hide ReqLength;
    SpliceAppend(d.ram, d.ep.datasize, a, b);
    assert PacketEvents([p]) + PacketEvents(ps) == PacketEvents([p] + ps);
    assert d.log + PacketEvents([p]) + PacketEvents(ps) == d.log + (PacketEvents([p]) + PacketEvents(ps));
  }

  /** Full packets that do not complete the data are stored and nothing else happens. */
  lemma {:induction false} PartialWrite(d: Device, n: nat, data: seq<byte>)
    requires Expects(d, n) && 0 < |data| < n && |data| % MAX_PACKET == 0
    ensures var r := Run(d, OutTokens(data));
      && d.ep.datasize + |data| <= |d.ram|
      && r == Filled(d, data, Chunks(data)) && Expects(r, n - |data|)
    decreases |data|
  {
    hide Step, Rom.Valid, Filled, EpInv, ReqLength;
    ExpectsBounds(d, n);
    if |data| == MAX_PACKET {
      MiddlePacket(d, n, data);
      RunOne(d, OutToken(data));
    } else {
      var p, rest := data[..MAX_PACKET], data[MAX_PACKET..];
      MiddlePacket(d, n, p);
      PartialWrite(Step(d, OutToken(p)), n - MAX_PACKET, rest);
      FilledTwice(d, p, p, rest, Chunks(rest));
      assert p + rest == data;
    }
  }

  /** The whole data stage: the handler runs exactly once, on a control buffer that holds the
      concatenation of the packets. */
  lemma {:induction false} WriteData(d: Device, n: nat, data: seq<byte>)
    requires Expects(d, n) && |data| == n
    ensures d.ep.datasize + n <= |d.ram|
    ensures Filled(d, data, Chunks(data)).Valid() && Filled(d, data, Chunks(data)).ep.datasize <= Dfu.TRANSFER
    ensures Run(d, OutTokens(data)) == Handle(Filled(d, data, Chunks(data)))
    decreases |data|
  {
    hide Step, Rom.Valid, Handle, Filled, EpInv, ReqLength;
    ExpectsBounds(d, n);
    if |data| <= MAX_PACKET {
      LastPacket(d, n, data);
      assert data[..n] == data;
      RunOne(d, OutToken(data));
    } else {
      var p, rest := data[..MAX_PACKET], data[MAX_PACKET..];
      MiddlePacket(d, n, p);
      var e := Step(d, OutToken(p));
      WriteData(e, n - MAX_PACKET, rest);
      FilledTwice(d, p, p, rest, Chunks(rest));
      assert p + rest == data;
    }
  }
}
