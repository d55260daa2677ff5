/** The data stage of a control read, seen from the host (USB 2.0, section 5.5.3): it asks
    for packets until it has the length it requested or gets a packet shorter than 64 bytes.
    The device agrees with it on where the data ends, for every answer and every length. */
module ControlRead {
  import opened Bytes
  import opened Usb
  import opened UsbRun

  /** The packets in which section 5.5.3 has data sent to a host that asked for want bytes:
      full ones, a last one with the rest, and an empty one behind a last full packet when
      the host would otherwise wait for more. */
  function Packets(data: seq<byte>, want: nat): (ps: seq<seq<byte>>)
    requires |data| <= want
    ensures ps != []
    decreases |data|
  {
    if |data| > MAX_PACKET then [data[..MAX_PACKET]] + Packets(data[MAX_PACKET..], want - MAX_PACKET)
    else if |data| == MAX_PACKET && want > MAX_PACKET then [data, []]
    else [data]
  }

  function Concat(ps: seq<seq<byte>>): seq<byte>
    decreases |ps|
  {
    if ps == [] then [] else ps[0] + Concat(ps[1..])
  }

  lemma {:induction false} PacketsConcat(data: seq<byte>, want: nat)
    requires |data| <= want
    ensures Concat(Packets(data, want)) == data
    decreases |data|
  {
    if |data| > MAX_PACKET {
      PacketsConcat(data[MAX_PACKET..], want - MAX_PACKET);
      assert data[..MAX_PACKET] + data[MAX_PACKET..] == data;
    } else if |data| == MAX_PACKET && want > MAX_PACKET {
      assert Concat([data, []]) == data + Concat([[]]);
    }
  }

  /** Every packet but the last is full, and the last is empty exactly when the data is a
      whole number of packets and less than the host asked for. */
  lemma {:induction false} PacketSizes(data: seq<byte>, want: nat)
    requires |data| <= want
    ensures var ps := Packets(data, want);
      && (forall i :: 0 <= i < |ps| - 1 ==> |ps[i]| == MAX_PACKET)
      && |ps[|ps| - 1]| <= MAX_PACKET
      && (ps[|ps| - 1] == [] <==> |data| % MAX_PACKET == 0 && (|data| < want || want == 0))
    decreases |data|
  {
    if |data| > MAX_PACKET {
      PacketSizes(data[MAX_PACKET..], want - MAX_PACKET);
    }
  }

  /** What the host has seen: the packets in order, and whether it met an end of data. */
  datatype Reading = Reading(device: Device, packets: seq<seq<byte>>, complete: bool)

  /** The host reads until it has want bytes or a short packet. If the endpoint answers NAK or
      STALL it gives up. */
  function HostRead(d: Device, want: nat): (r: Reading)
    requires Inv(d)
    ensures Inv(r.device)
    decreases want
  {
    if Deaf(d) || d.ep.tx != Valid then Reading(d, [], false)
    else
      var p := d.ep.txPacket;
      var e := Step(d, InToken);
      if |p| < MAX_PACKET || want <= |p| then Reading(e, [p], true)
      else
        var r := HostRead(e, want - |p|);
        Reading(r.device, [p] + r.packets, r.complete)
  }

  /** The device is about to send the next chunk of an answer to a host that still wants
      `want` bytes. */
  predicate ReadyToSend(c: Device, want: nat) {
    && c.Valid() && c.flash.locked && !Deaf(c) && PacketDropped !in c.log
    && c.ep.tx != Valid && c.ep.forceNak && !c.ep.ctrRx && IsIn(c.ep.req) && c.ep.dataoff + c.ep.datasize < U16
    && CallbackJustified(c) && PollHandled(c.ep, c.dfu.state)
    && c.ep.datasize <= want && c.ep.needsZlp == NeedsZlp(c.ep.datasize, want)
  }

  /** What remains to be sent. */
  function Remaining(c: Device): (s: seq<byte>)
    requires c.Valid() && c.ep.dataoff + c.ep.datasize < U16
    ensures |s| == c.ep.datasize
  {
    c.ram[c.ep.dataoff..c.ep.dataoff + c.ep.datasize]
  }

  lemma SendChunkInv(c: Device, want: nat)
    requires ReadyToSend(c, want)
    ensures Inv(SendChunk(c))
  {
    hide Rom.Valid;
  }

  /** The device as it is once the host has collected the packet. */
  function Collected(d: Device): Device {
    d.(ep := d.ep.(tx := Nak))
  }

  /** Sending changes nothing but the bookkeeping of the transfer. */
  predicate OnlySending(c: Device, r: Device) {
    && r == c.(ep := r.ep)
    && r.ep == c.ep.(fsm := r.ep.fsm, tx := r.ep.tx, needsZlp := r.ep.needsZlp, datasize := r.ep.datasize,
                     dataoff := r.ep.dataoff, txPacket := r.ep.txPacket)
  }

  lemma ChunkState(c: Device, want: nat)
    requires ReadyToSend(c, want) && SendChunk(c).ep.fsm == DataIn
    ensures var d := SendChunk(c);
      && OnlySending(c, d) && d.ep.tx == Valid && !Deaf(d) && |d.ep.txPacket| == MAX_PACKET < want
      && ReadyToSend(Collected(d), want - MAX_PACKET)
  {
    hide Rom.Valid;
  }

  lemma ChunkData(c: Device, want: nat)
    requires ReadyToSend(c, want) && SendChunk(c).ep.fsm == DataIn
    ensures var d := SendChunk(c);
      && d.Valid() && d.ep.dataoff + d.ep.datasize < U16 && d.ep.datasize <= want - MAX_PACKET
      && [d.ep.txPacket] + Packets(Remaining(d), want - MAX_PACKET) == Packets(Remaining(c), want)
  {
    hide Rom.Valid;
    var d := SendChunk(c);
    var s := Remaining(c);
    if c.ep.datasize > MAX_PACKET {
      assert s[..MAX_PACKET] == d.ep.txPacket;
      assert s[MAX_PACKET..] == Remaining(d);
    } else {
      assert s == d.ep.txPacket;
    }
  }

  lemma ChunkStep(d: Device)
    requires Inv(d) && !Deaf(d) && d.ep.tx == Valid && d.ep.fsm == DataIn
    ensures Step(d, InToken) == SendChunk(Collected(d))
  {
    hide Rom.Valid, SendChunk;
  }

  lemma LastChunk(c: Device, want: nat)
    requires ReadyToSend(c, want) && SendChunk(c).ep.fsm != DataIn
    ensures var d := SendChunk(c);
      && Inv(d) && !Deaf(d) && d.ep.tx == Valid && (|d.ep.txPacket| < MAX_PACKET || want <= |d.ep.txPacket|)
      && [d.ep.txPacket] == Packets(Remaining(c), want)
      && InStatusOut(c, Step(d, InToken))
  {
    hide Rom.Valid;
    SendChunkInv(c, want);
  }

  /** The device has nothing left to send and waits for the status stage. */
  predicate InStatusOut(c: Device, r: Device) {
    && r == c.(ep := r.ep)
    && r.ep == c.ep.(fsm := StatusOut, tx := Nak, rx := Valid, forceNak := false, needsZlp := false, datasize := 0,
                     dataoff := r.ep.dataoff, txPacket := r.ep.txPacket)
  }

  /** The host reads exactly the packets that section 5.5.3 prescribes, stops at the packet the
      device considers the last one, and the device then waits for the status stage. */
  lemma {:induction false} SendAll(c: Device, want: nat)
    requires ReadyToSend(c, want)
    ensures Inv(SendChunk(c))
    ensures var r := HostRead(SendChunk(c), want);
      r.complete && r.packets == Packets(Remaining(c), want) && InStatusOut(c, r.device)
    decreases want
  {
    hide Step, SendChunk, Inv, Rom.Valid;
    SendChunkInv(c, want);
    var d := SendChunk(c);
    if d.ep.fsm == DataIn {
      ChunkState(c, want);
      ChunkData(c, want);
      ChunkStep(d);
      SendAll(Collected(d), want - MAX_PACKET);
    } else {
      LastChunk(c, want);
    }
  }
}
