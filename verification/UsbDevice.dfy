/** The control endpoint as the firmware runs it (Core/Src/usb.c): the globals of usb.c, the
    endpoint register, the packet memory and the buffers, updated in place. Each method is
    proved against the transition function of the same name in module Usb. */
module UsbDevice {
  import opened Bytes
  import opened PacketMemory
  import opened Usb
  import opened UsbRun
  import EndpointRegister
  import PlainRegister
  import DfuDriver
  import Memory
  import Dfu

  /** The packet memory: 512 bytes, seen as 512 slots, with the buffers of endpoint 0 where
      usb_pm_top places them after a bus reset. */
  const PMA_SLOTS := 512
  const TX_AT := 0x40
  const RX_AT := 0x80

  /** STAT_TX and STAT_RX as they stand in the register. */
  function TxBits(s: Stat): bv16 {
    match s
    case Disabled => 0x0000
    case Stall => 0x0010
    case Nak => 0x0020
    case Valid => 0x0030
  }

  function RxBits(s: Stat): bv16 {
    match s
    case Disabled => 0x0000
    case Stall => 0x1000
    case Nak => 0x2000
    case Valid => 0x3000
  }

  function TxStat(b: bv16): (s: Stat)
    ensures forall t :: b == TxBits(t) ==> s == t
  {
    if b == 0x0030 then Valid else if b == 0x0020 then Nak else if b == 0x0010 then Stall else Disabled
  }

  function RxStat(b: bv16): (s: Stat)
    ensures forall t :: b == RxBits(t) ==> s == t
  {
    if b == 0x3000 then Valid else if b == 0x2000 then Nak else if b == 0x1000 then Stall else Disabled
  }

  /** The encoding of STAT_TX and STAT_RX: section 23.5.2 of the reference manual RM0008. */
  lemma StatusEncoding()
    ensures TxBits(Disabled) == 0x0000 && RxBits(Disabled) == 0x0000
    ensures TxBits(Stall) == 0x0010 && RxBits(Stall) == 0x1000
    ensures TxBits(Nak) == 0x0020 && RxBits(Nak) == 0x2000
    ensures TxBits(Valid) == 0x0030 && RxBits(Valid) == 0x3000
    ensures forall s :: TxStat(TxBits(s)) == s && RxStat(RxBits(s)) == s
  {
  }

  /** A packet that is read in part. */
  lemma LoadedPrefix(pma: seq<word16>, base: nat, m: nat, n: nat)
    requires n <= m && Fits(|pma|, base, m) && Fits(|pma|, base, n)
    ensures Loaded(pma, base, m)[..n] == Loaded(pma, base, n)
  {
  }

  /** Only the low byte of USB_DADDR matters. */
  lemma SameAddressBits(daddr: int, addr: int, stall: bool)
    ensures HaltedRegister(daddr % 0x100, addr, stall) == HaltedRegister(daddr, addr, stall)
  {
    hide HaltedAddress;
    assert daddr % 0x100 % 0x80 == daddr % 0x80;
  }

  /** The bits of ISTR that do_usb_poll acts on. */
  datatype Istr = Istr(reset: bool, ctr: bool, dir: bool)

  /** The counters are in the range the handlers rely on. */
  predicate Counters(d: Usb.Device)
    requires d.Valid()
  {
    && (d.ep.fsm == DataOut || d.ep.fsm == LastDataOut ==> d.ep.datasize <= ReqLength(d.ep.req) <= Dfu.TRANSFER)
    && (d.ep.fsm == DataIn ==> d.ep.dataoff + d.ep.datasize <= RAM_SPAN)
  }

  /** What one poll does, given ISTR. */
  function Polled(d: Usb.Device, istr: Istr): (r: Usb.Device)
    requires d.Valid() && !d.reset && Counters(d)
    ensures r.Valid()
  {
    if istr.reset then ControlReset(d)
    else if !istr.ctr then d
    else if !istr.dir then ControlIn(d)
    else if d.ep.setup then ControlSetup(d)
    else ControlOut(d)
  }

  class Endpoint {
    // The globals of usb.c
    var fsm: Fsm
    var datasize: nat
    var dataoff: nat
    var needsZlp: bool
    var forceNak: bool
    var callback: bool
    const req: array<byte>
    const ram: array<byte>
    // The peripheral
    const reg: EndpointRegister.Register
    const pma: array<word16>
    var txCount: nat
    var rxCount: nat
    var daddr: int
    var halted: set<int>
    var link: Link
    // The rest of the machine
    const driver: DfuDriver.Driver
    const rom: Rom
    var reset: bool
    ghost var log: seq<Event>

    constructor (req: array<byte>, reg: EndpointRegister.Register, pma: array<word16>, driver: DfuDriver.Driver, rom: Rom)
      requires driver.Valid() && rom.Valid() && req.Length == 8 && pma.Length == PMA_SLOTS
      requires driver.ram.Length == RAM_SPAN
      requires req != driver.ram && req != driver.buf && req != driver.chip.mem
      ensures Valid() && this.req == req && this.reg == reg && this.pma == pma && this.driver == driver && this.rom == rom
      ensures reg.raw == 0 && driver.state == Dfu.DfuIdle && driver.chip.lock ==> Initial(Model())
    {
      this.req, this.reg, this.pma, this.driver, this.rom := req, reg, pma, driver, rom;
      this.ram := driver.ram;
      fsm, datasize, dataoff, needsZlp, forceNak, callback := Fsm.Idle, 0, 0, false, false, false;
      txCount, rxCount, daddr, halted, link, reset, log := 0, 0, 0, {}, Up, false, [];
    }

    /** What the objects are to each other. */
    ghost predicate Valid()
      reads this, driver, driver.chip
    {
      && driver.Valid() && rom.Valid() && req.Length == 8 && pma.Length == PMA_SLOTS
      && ram == driver.ram && ram.Length == RAM_SPAN
      && req != ram && req != driver.buf && req != driver.chip.mem
      && datasize < U16 && txCount <= MAX_PACKET && rxCount <= MAX_PACKET
    }

    function Tx(): Stat
      reads reg
    {
      TxStat(EndpointRegister.View(reg.raw).txStat)
    }

    function Rx(): Stat
      reads reg
    {
      RxStat(EndpointRegister.View(reg.raw).rxStat)
    }

    /** USB_EP_SETUP and USB_EP_RX_CTR in the endpoint register. */
    function SetupFlag(): bool
      reads reg
    {
      EndpointRegister.View(reg.raw).setup != 0
    }

    function CtrFlag(): bool
      reads reg
    {
      EndpointRegister.View(reg.raw).rxCtr != 0
    }

    ghost function Ep(): (ep: Ep0)
      requires Valid()
      reads this, reg, pma, req, driver, driver.chip
    {
      Ep0(fsm, datasize, dataoff, needsZlp, req[..], forceNak, callback, Tx(), Rx(), SetupFlag(), CtrFlag(),
          Loaded(pma[..], TX_AT, txCount), Loaded(pma[..], RX_AT, rxCount), daddr)
    }

    ghost function Model(): (d: Usb.Device)
      requires Valid()
      reads this, reg, pma, req, ram, driver, driver.buf, driver.chip, driver.chip.mem
      ensures d.Valid()
    {
      Usb.Device(Ep(), ram[..], driver.Model(), driver.chip.Model(), rom, halted, link, reset, log)
    }

    /** USB_SET_EP_TX_STAT(0, ...). */
    method SetTx(s: Stat)
      requires Valid()
      modifies reg
      ensures Valid() && Model() == old(Model()).(ep := old(Ep()).(tx := s))
    {
      hide Rom.Valid, EndpointRegister.View, Loaded, TxStat;
      reg.UseSetTxStat(TxBits(s));
    }

    /** USB_SET_EP_RX_STAT(0, ...). */
    method SetRx(s: Stat)
      requires Valid()
      modifies reg
      ensures Valid() && Model() == old(Model()).(ep := old(Ep()).(rx := s))
    {
      hide Rom.Valid, EndpointRegister.View, Loaded, RxStat;
      reg.UseSetRxStat(RxBits(s));
    }

    /** _usbd_ep_write_packet(0, &usbd_control_buffer[off], len). */
    method WritePacket(off: nat, len: nat)
      requires Valid() && off + len <= ram.Length && len <= MAX_PACKET
      modifies reg, pma, this`txCount, this`log
      ensures Valid() && Model() == Usb.WritePacket(old(Model()), ram[..][off..off + len])
    {
      hide Rom.Valid, EndpointRegister.View, Loaded, Stored, TxStat, RxStat;
      if Tx() == Stat.Valid {
        log := log + [PacketDropped];
        return;
      }
      ghost var data := ram[off..off + len];
      assert ram[..][off..off + len] == data;
      CopyToPm(pma, TX_AT, ram, off, len);
      StoreLoad(old(pma[..]), TX_AT, data);
      StoreKeepsOthers(old(pma[..]), TX_AT, data, RX_AT, rxCount);
      txCount := len;
      SetTx(Stat.Valid);
    }

    /** The received packet, as far as len bytes, goes to dst. */
    method CopyPacket(dst: array<byte>, off: nat, len: nat) returns (size: nat)
      requires Valid() && (dst == ram || dst == req) && off + len <= dst.Length
      modifies dst
      ensures var p := old(Ep()).rxPacket;
        size == Min(|p|, len) && dst[..] == Splice(old(dst[..]), off, p[..size])
    {
      hide Rom.Valid, EndpointRegister.View, Loaded, TxStat, RxStat, Splice;
      size := if rxCount < len then rxCount else len;
      CopyFromPm(dst, off, pma, RX_AT, size);
      LoadedPrefix(pma[..], RX_AT, rxCount, size);
    }

    /** USB_CLR_EP_RX_CTR, and the endpoint receives again unless it is to say NAK. */
    method Rearm()
      requires Valid() && Rx() != Stat.Valid
      modifies reg
      ensures Valid() && Model() == Usb.ReadPacket(old(Model()))
    {
      hide Rom.Valid, EndpointRegister.View, Loaded, TxStat, RxStat;
      reg.UseClrRxCtr();
      if !forceNak {
        SetRx(Stat.Valid);
      }
    }

    /** _usbd_ep_read_packet(0, dst, len), with dst in the control buffer or in usb_req. */
    method ReadPacket(dst: array<byte>, off: nat, len: nat) returns (size: nat)
      requires Valid() && (dst == ram || dst == req) && off + len <= dst.Length
      modifies reg, dst, this`log
      ensures Valid() && size == |Received(old(Model()), len)|
      ensures dst[..] == Splice(old(dst[..]), off, Received(old(Model()), len))
      ensures var r := Usb.ReadPacket(old(Model()));
        Model() == r.(ram := ram[..], ep := r.ep.(req := req[..]))
    {
      hide Rom.Valid, EndpointRegister.View, Loaded, TxStat, RxStat, Splice;
      if Rx() == Stat.Valid {
        log := log + [PacketDropped];
        NoSplice(dst[..], off);
        return 0;
      }
      size := CopyPacket(dst, off, len);
      Rearm();
    }

    /** _usbd_ep_nak_set(0, nak). */
    method NakSet(nak: bool)
      requires Valid()
      modifies reg, this`forceNak
      ensures Valid() && Model() == Usb.NakSet(old(Model()), nak)
    {
      hide Rom.Valid, EndpointRegister.View, Loaded, TxStat, RxStat;
      forceNak := nak;
      if nak {
        SetRx(Stat.Nak);
      } else {
        SetRx(Stat.Valid);
      }
    }

    /** _ep_stall_set. From endpoint number 16 on the macros reach control registers of the
        peripheral instead of endpoint registers. */
    method StallSet(addr: int, stall: bool)
      requires Valid() && 0 <= addr < 256
      modifies reg, this`halted, this`daddr, this`link
      ensures Valid() && Model() == Usb.StallSet(old(Model()), addr, stall)
    {
      hide Rom.Valid, EndpointRegister.View, Loaded, TxStat, RxStat;
      if addr == 0 {
        StallControl(stall);
      } else if addr == 0x80 {
        SetTx(if stall then Stat.Stall else Stat.Nak);
        if !stall {
          ClearTxDtog();
        }
      } else {
        StallOther(addr, stall);
      }
    }

    /** _ep_stall_set(0, stall). */
    method StallControl(stall: bool)
      requires Valid()
      modifies reg
      ensures Valid() && Model() == Usb.StallSet(old(Model()), 0, stall)
    {
      hide Rom.Valid, EndpointRegister.View, Loaded, TxStat, RxStat;
      SetTx(if stall then Stat.Stall else Stat.Nak);
      if !stall {
        ClearRxDtog();
      }
      SetRx(if stall then Stat.Stall else Stat.Valid);
    }

    /** The same for the other endpoint numbers. */
    method StallOther(addr: int, stall: bool)
      requires Valid() && 0 <= addr < 256 && addr != 0 && addr != 0x80
      modifies this`halted, this`daddr, this`link
      ensures Valid() && Model() == Usb.StallOther(old(Model()), addr, stall)
    {
      hide EndpointRegister.View, Loaded, TxStat, RxStat, HaltedRegister, NumberOf, Rom.Valid;
      var number := NumberOf(addr);
      if number < 8 {
        halted := if stall then halted + {addr} else halted - {addr};
      } else if number == DADDR_NUMBER {
        SameAddressBits(daddr, addr, stall);
        daddr := PlainRegister.MacroByte(daddr % 0x100, addr, stall);
      } else if number == BTABLE_NUMBER {
        link := TableMoved;
      } else if addr == CNTR_NUMBER + 0x80 && stall {
        link := Resuming;
      }
    }

    /** USB_CLR_EP_TX_DTOG(0). The data toggles are otherwise left to the hardware. */
    method ClearTxDtog()
      requires Valid()
      modifies reg
      ensures Valid() && Model() == old(Model())
    {
      hide Rom.Valid, EndpointRegister.View, Loaded, TxStat, RxStat;
      reg.UseClrTxDtog();
    }

    /** USB_CLR_EP_RX_DTOG(0). */
    method ClearRxDtog()
      requires Valid()
      modifies reg
      ensures Valid() && Model() == old(Model())
    {
      hide Rom.Valid, EndpointRegister.View, Loaded, TxStat, RxStat;
      reg.UseClrRxDtog();
    }

    /** _stall_transaction. */
    method StallTransaction()
      requires Valid()
      modifies reg, this`fsm
      ensures Valid() && Model() == Usb.StallTransaction(old(Model()))
    {
      hide Rom.Valid, EndpointRegister.View, Loaded, TxStat, RxStat;
      StallControl(true);
      fsm := Fsm.Idle;
    }

    /** usb_control_send_chunk. */
    method SendChunk()
      requires Valid() && dataoff + datasize <= RAM_SPAN
      modifies reg, pma, this`txCount, this`log, this`fsm, this`dataoff, this`datasize, this`needsZlp
      ensures Valid() && Model() == Usb.SendChunk(old(Model()))
    {
      if MAX_PACKET < datasize {
        SendFull();
      } else {
        SendLast();
      }
    }

    /** Data stage, normal transmission. */
    method SendFull()
      requires Valid() && dataoff + datasize <= RAM_SPAN && MAX_PACKET < datasize
      modifies reg, pma, this`txCount, this`log, this`fsm, this`dataoff, this`datasize, this`needsZlp
      ensures Valid() && Model() == Usb.SendChunk(old(Model()))
    {
      hide Rom.Valid, EndpointRegister.View, Loaded, TxStat, RxStat, Usb.WritePacket, Usb.Device.Valid;
      WritePacket(dataoff, MAX_PACKET);
      Advance(DataIn, dataoff + MAX_PACKET, datasize - MAX_PACKET, needsZlp);
    }

    /** Data stage, end of transmission. */
    method SendLast()
      requires Valid() && dataoff + datasize <= RAM_SPAN && datasize <= MAX_PACKET
      modifies reg, pma, this`txCount, this`log, this`fsm, this`dataoff, this`datasize, this`needsZlp
      ensures Valid() && Model() == Usb.SendChunk(old(Model()))
    {
      hide Rom.Valid, EndpointRegister.View, Loaded, TxStat, RxStat, Usb.WritePacket, Usb.Device.Valid;
      WritePacket(dataoff, datasize);
      Advance(if needsZlp then DataIn else LastDataIn, dataoff, 0, false);
    }

    /** The next state of the data stage. */
    method Advance(state: Fsm, off: nat, size: nat, zlp: bool)
      requires Valid() && size < U16
      modifies this`fsm, this`dataoff, this`datasize, this`needsZlp
      ensures Valid()
      ensures Model() == old(Model()).(ep := old(Ep()).(fsm := state, dataoff := off, datasize := size, needsZlp := zlp))
    {
      hide Rom.Valid, EndpointRegister.View, Loaded, TxStat, RxStat;
      fsm, dataoff, datasize, needsZlp := state, off, size, zlp;
    }

    /** usb_control_recv_chunk: whether the chunk was complete. */
    method RecvChunk() returns (complete: bool)
      requires Valid() && datasize <= ReqLength(req[..]) <= Dfu.TRANSFER
      modifies reg, ram, this`log, this`fsm, this`halted, this`datasize
      ensures Valid() && Outcome(Model(), complete) == Usb.RecvChunk(old(Model()))
    {
      hide Rom.Valid, EndpointRegister.View, Loaded, TxStat;
      hide RxStat, Usb.StallTransaction, Usb.ReadPacket, Received, ReqLength, Splice;
      var packetsize := Min(MAX_PACKET, WLength() - datasize);
      var size := TakeChunk(packetsize);
      if size != packetsize {
        StallTransaction();
        return false;
      }
      datasize := datasize + size;
      return true;
    }

    /** A packet goes behind the data in the control buffer. */
    method TakeChunk(len: nat) returns (size: nat)
      requires Valid() && datasize + len <= Dfu.TRANSFER
      modifies reg, ram, this`log
      ensures Valid() && size == |Received(old(Model()), len)|
      ensures Model() ==
              Usb.ReadPacket(old(Model())).(ram := Splice(old(ram[..]), datasize, Received(old(Model()), len)))
    {
      hide Rom.Valid, EndpointRegister.View, Loaded, TxStat, RxStat, Received, Splice;
      size := ReadPacket(ram, datasize, len);
    }

    function WLength(): (n: nat)
      requires Valid()
      reads this, req, driver, driver.chip
      ensures n == ReqLength(req[..])
    {
      Le16(req[6], req[7])
    }

    // The request

    function Type(): (b: byte)
      requires Valid()
      reads this, req, driver, driver.chip
      ensures b == ReqType(req[..])
    {
      req[0]
    }

    function Code(): (b: byte)
      requires Valid()
      reads this, req, driver, driver.chip
      ensures b == ReqCode(req[..])
    {
      req[1]
    }

    function WValue(): (n: nat)
      requires Valid()
      reads this, req, driver, driver.chip
      ensures n == ReqValue(req[..])
    {
      Le16(req[2], req[3])
    }

    function WIndex(): (n: nat)
      requires Valid()
      reads this, req, driver, driver.chip
      ensures n == ReqIndex(req[..])
    {
      Le16(req[4], req[5])
    }

    /** An answer is copied to the start of the control buffer. */
    method Answer(body: seq<byte>)
      requires Valid() && |body| < 256
      modifies ram, this`datasize
      ensures Valid() && Model() == Usb.Answer(old(Model()), body)
    {
      hide Rom.Valid, EndpointRegister.View, Loaded, TxStat, RxStat, Splice;
      Memory.CopyConstant(ram, 0, body);
      datasize := |body|;
    }

    /** usb_standard_get_descriptor. */
    method GetDescriptor() returns (handled: bool)
      requires Valid()
      modifies ram, this`datasize
      ensures Valid() && Outcome(Model(), handled) == Usb.GetDescriptor(old(Model()))
    {
      hide EndpointRegister.View, Loaded, TxStat, RxStat, Splice, Usb.Answer, ReqValue, ReqIndex;
      var kind, index := WValue() / 256, WValue() % 256;
      if kind == 1 {
        Answer(rom.device);
        return true;
      } else if kind == 2 {
        Answer(rom.config);
        return true;
      } else if kind == 3 {
        var s := StringFor(rom, index, WIndex());
        if s == [] {
          RefuseString();
          return false;
        }
        Answer(s[0]);
        return true;
      }
      return false;
    }

    /** The type byte of a string that is then refused. */
    method RefuseString()
      requires Valid()
      modifies ram
      ensures Valid() && Model() == old(Model()).(ram := Splice(old(ram[..]), 1, [3]))
    {
      hide Rom.Valid, EndpointRegister.View, Loaded, TxStat, RxStat;
      ram[1] := 3;
      assert ram[..] == Splice(old(ram[..]), 1, [3]);
    }

    /** _usbd_standard_request_device. */
    method DeviceRequest() returns (handled: bool)
      requires Valid()
      modifies ram, this`datasize, this`halted
      ensures Valid() && Outcome(Model(), handled) == Usb.DeviceRequest(old(Model()))
    {
      hide Rom.Valid, EndpointRegister.View, Loaded, TxStat, RxStat, Usb.Answer, Usb.GetDescriptor, ReqValue;
      var code := Code();
      if code == 5 {
        return Type() == 0 && WValue() < 128;
      } else if code == 9 {
        if WValue() != 1 {
          return false;
        }
        halted := set a | a in halted && !(1 <= a % 0x80 < 8);
        return true;
      } else if code == 8 {
        Answer([1]);
        return true;
      } else if code == 6 {
        handled := GetDescriptor();
        return;
      } else if code == 0 {
        Answer([0, 0]);
        return true;
      }
      return false;
    }

    /** _usbd_standard_request_interface. */
    method InterfaceRequest() returns (handled: bool)
      requires Valid()
      modifies ram, this`datasize
      ensures Valid() && Outcome(Model(), handled) == Usb.InterfaceRequest(old(Model()))
    {
      hide Rom.Valid, EndpointRegister.View, Loaded, TxStat, RxStat, Usb.Answer;
      var code := Code();
      if code == 10 {
        Answer([1]);
        return true;
      } else if code == 11 {
        datasize := 0;
        return true;
      } else if code == 0 {
        Answer([0, 0]);
      }
      return false;
    }

    /** _ep_stall_get. */
    method StallGet(addr: int) returns (stalled: bool)
      requires Valid()
      ensures stalled == Usb.StallGet(Model(), addr)
    {
      hide Rom.Valid, EndpointRegister.View, Loaded, TxStat, RxStat;
      return
        if addr == 0 then Rx() == Stat.Stall
        else if addr == 0x80 then Tx() == Stat.Stall
        else if addr == DADDR_NUMBER + 0x80 then daddr / 0x10 % 4 == 1
        else addr in halted;
    }

    /** _usbd_standard_request_endpoint. */
    method EndpointRequest() returns (handled: bool)
      requires Valid()
      modifies ram, reg, this`datasize, this`halted, this`daddr, this`link, this`log
      ensures Valid() && Outcome(Model(), handled) == Usb.EndpointRequest(old(Model()))
    {
      hide Rom.Valid, EndpointRegister.View, Loaded, TxStat, RxStat, Usb.Answer, Usb.StallGet, Usb.StallSet;
      hide ReqValue, ReqIndex;
      var code, addr := Code(), WIndex() % 256;
      if code == 1 || code == 3 {
        if WValue() != 0 {
          return false;
        }
        Note(HaltRequest(addr, code == 3));
        StallSet(addr, code == 3);
        return true;
      } else if code == 0 {
        var stalled := StallGet(addr);
        Answer([if stalled then 1 else 0, 0]);
        return true;
      }
      return false;
    }

    /** _usbd_standard_request. */
    method StandardRequest() returns (handled: bool)
      requires Valid()
      modifies ram, reg, this`datasize, this`halted, this`daddr, this`link, this`log
      ensures Valid() && Outcome(Model(), handled) == Usb.StandardRequest(old(Model()))
    {
      hide Rom.Valid, EndpointRegister.View, Loaded, TxStat, RxStat;
      hide Usb.DeviceRequest, Usb.InterfaceRequest, Usb.EndpointRequest, IsStandard;
      TypeFields(req[..]);
      if Type() / 0x20 % 4 != 0 {
        return false;
      }
      var recipient := Type() % 0x20;
      if recipient == 0 {
        handled := DeviceRequest();
      } else if recipient == 1 {
        handled := InterfaceRequest();
      } else if recipient == 2 {
        handled := EndpointRequest();
      } else {
        handled := false;
      }
    }

    /** The class request goes to the DFU driver. */
    method DfuDispatch() returns (handled: bool)
      requires Valid()
      modifies this`datasize, this`callback, this`log, driver, driver.buf, ram
      ensures Valid() && Outcome(Model(), handled) == Usb.DfuDispatch(old(Model()))
    {
      hide Rom.Valid, EndpointRegister.View, Loaded, TxStat, RxStat;
      hide ReqCode, ReqValue, ReqLength, Dfu.Request, Splice;
      var size, register;
      size, register, handled := driver.ControlRequest(Code(), WValue(), WLength());
      ghost var note := DfuRequest(Code(), WValue(), WLength(), driver.Model().prog.Data());
      TakeReply(size, register, if handled then [note] else []);
    }

    /** The driver has written datasize and usb_complete_cb. */
    method TakeReply(size: nat, register: bool, ghost notes: seq<Event>)
      requires Valid() && size < U16
      modifies this`datasize, this`callback, this`log
      ensures Valid()
      ensures Model() == old(Model()).(log := old(log) + notes,
        ep := old(Ep()).(datasize := size, callback := old(callback) || register))
    {
      hide Rom.Valid, EndpointRegister.View, Loaded, TxStat, RxStat;
      datasize, callback, log := size, callback || register, log + notes;
    }

    /** usb_control_request_dispatch. */
    method Dispatch() returns (handled: bool)
      requires Valid()
      modifies this`datasize, this`callback, this`log, this`halted, this`daddr, this`link, reg, driver, driver.buf, ram
      ensures Valid() && Outcome(Model(), handled) == Usb.Dispatch(old(Model()))
    {
      hide EndpointRegister.View, Loaded, TxStat, RxStat, Usb.Answer, Usb.StandardRequest, Usb.DfuDispatch;
      hide ReqLength, ReqValue, IsClassInterface, IsVendorDevice;
      TypeFields(req[..]);
      if Type() / 0x20 % 4 == 1 && Type() % 0x20 == 1 {
        handled := DfuDispatch();
      } else if Type() / 0x20 % 4 == 2 && Type() % 0x20 == 0 && Code() == 0x41 {
        Answer(rom.winusb);
        handled := true;
      } else {
        handled := StandardRequest();
      }
    }

    // The stages of a control transfer

    /** A zero-length packet, and the status stage of a write. */
    method ConfirmWrite()
      requires Valid()
      modifies reg, pma, this`txCount, this`log, this`fsm
      ensures Valid()
      ensures var w := Usb.WritePacket(old(Model()), []);
        Model() == w.(ep := w.ep.(fsm := StatusIn))
    {
      hide Rom.Valid, EndpointRegister.View, Loaded, TxStat, RxStat, Usb.WritePacket;
      assert ram[..][0..0] == [];
      WritePacket(0, 0);
      fsm := StatusIn;
    }

    /** _usb_control_setup_read. */
    method SetupRead()
      requires Valid()
      modifies this, reg, pma, driver, driver.buf, ram
      ensures Valid() && Model() == Usb.SetupRead(old(Model()))
    {
      hide Rom.Valid, EndpointRegister.View, Loaded, TxStat, RxStat;
      hide Usb.Dispatch, Usb.SendChunk, Usb.StallTransaction, Usb.WritePacket, ReqLength, NeedsZlp;
      ghost var q := req[..];
      var max := WLength();
      Advance(fsm, 0, datasize, needsZlp);
      DispatchFrame(Model());
      var handled := Dispatch();
      if !handled {
        StallTransaction();
      } else if max != 0 {
        var size := Min(datasize, max);
        Advance(fsm, 0, size, NeedsZlp(size, max));
        SendChunk();
      } else {
        Advance(fsm, dataoff, 0, needsZlp);
        ConfirmWrite();
      }
    }

    /** _usb_control_setup_write. */
    method SetupWrite()
      requires Valid()
      modifies this`fsm, this`datasize, this`forceNak, this`halted, reg
      ensures Valid() && Model() == Usb.SetupWrite(old(Model()))
    {
      hide Rom.Valid, EndpointRegister.View, Loaded, TxStat, RxStat, Usb.StallTransaction, Usb.NakSet, ReqLength;
      if WLength() > Dfu.TRANSFER {
        StallTransaction();
        return;
      }
      datasize := 0;
      if WLength() > MAX_PACKET {
        fsm := DataOut;
      } else {
        fsm := LastDataOut;
      }
      NakSet(false);
    }

    /** _usbd_control_setup. */
    method ControlSetup()
      requires Valid()
      modifies this, reg, pma, req, driver, driver.buf, ram
      ensures Valid() && Model() == Usb.ControlSetup(old(Model()))
    {
      hide Rom.Valid, EndpointRegister.View, Loaded, TxStat, RxStat, Splice, Received;
      hide Usb.NakSet, Usb.ReadPacket, Usb.StallTransaction, Usb.SetupRead, Usb.SetupWrite, ReqLength, ReqType;
      ClearCallback();
      NakSet(true);
      ghost var data := Received(Model(), 8);
      var size := ReadRequest();
      if size != 8 {
        StallTransaction();
        return;
      }
      Note(Setup(data));
      if WLength() == 0 || Type() >= 0x80 {
        SetupRead();
      } else {
        SetupWrite();
      }
    }

    /** The SETUP packet goes to usb_req. */
    method ReadRequest() returns (size: nat)
      requires Valid()
      modifies reg, req, this`log
      ensures Valid()
      ensures var g, data := Usb.ReadPacket(old(Model())), Received(old(Model()), 8);
        && size == |data| && Model() == g.(ep := g.ep.(req := Splice(g.ep.req, 0, data)))
        && (size == 8 ==> req[..] == data)
    {
      hide Rom.Valid, EndpointRegister.View, Loaded, TxStat, RxStat, Splice, Received;
      WholeSplice(req[..], Received(Model(), 8));
      size := ReadPacket(req, 0, 8);
    }

    /** The packet of a status stage is acknowledged and its data ignored. */
    method ReadNothing()
      requires Valid()
      modifies reg, ram, this`log
      ensures Valid() && Model() == Usb.ReadPacket(old(Model()))
    {
      hide Rom.Valid, EndpointRegister.View, Loaded, TxStat, RxStat, Splice, Received;
      NoSplice(ram[..], 0);
      assert Received(Model(), 0) == [];
      var size := ReadPacket(ram, 0, 0);
    }

    /** usb_complete_cb = 0. */
    method ClearCallback()
      requires Valid()
      modifies this`callback
      ensures Valid() && Model() == old(Model()).(ep := old(Ep()).(callback := false))
    {
      hide Rom.Valid, EndpointRegister.View, Loaded, TxStat, RxStat;
      callback := false;
    }

    /** An entry in the log. */
    ghost method Note(e: Event)
      requires Valid()
      modifies this`log
      ensures Valid() && Model() == old(Model()).Log(e)
    {
      hide Rom.Valid, EndpointRegister.View, Loaded, TxStat, RxStat;
      log := log + [e];
    }

    /** A change of usb_fsm_state. */
    method Enter(state: Fsm)
      requires Valid()
      modifies this`fsm
      ensures Valid() && Model() == old(Model()).(ep := old(Ep()).(fsm := state))
    {
      hide Rom.Valid, EndpointRegister.View, Loaded, TxStat, RxStat;
      fsm := state;
    }

    /** The completion callback, if one is registered. */
    method RunCallback()
      requires Valid() && !reset
      modifies this`reset, this`log, driver`state, driver`addr, driver.chip, driver.chip.mem
      ensures Valid() && Model() == Usb.RunCallback(old(Model()))
    {
      hide Rom.Valid, EndpointRegister.View, Loaded, TxStat, RxStat, Dfu.Complete;
      if callback {
        ghost var was := driver.Model();
        ghost var c := Dfu.Complete(was, driver.chip.Model());
        var resets := driver.GetStatusComplete();
        reset := resets;
        log := log + (if c.resets then [SystemReset] else if c.commits then [Committed(was.prog)] else []);
      }
    }

    /** The last packet of the data stage: the request is handled. */
    method LastData()
      requires Valid() && !reset && fsm == LastDataOut && datasize <= ReqLength(req[..]) <= Dfu.TRANSFER
      modifies this, reg, pma, ram, driver, driver.buf
      ensures Valid() && Model() == Usb.ControlOut(old(Model()))
    {
      hide Rom.Valid, EndpointRegister.View, Loaded, TxStat, RxStat, ReqLength;
      hide Usb.RecvChunk, Usb.Handle;
      var complete := RecvChunk();
      if complete {
        Handle();
      }
    }

    /** The handler runs on complete data. */
    method Handle()
      requires Valid() && datasize <= Dfu.TRANSFER
      modifies this, reg, pma, ram, driver, driver.buf
      ensures Valid() && Model() == Usb.Handle(old(Model()))
    {
      hide Rom.Valid, EndpointRegister.View, Loaded, TxStat, RxStat;
      hide Usb.StallTransaction, Usb.Dispatch, Usb.WritePacket;
      Note(Delivered(req[..], ram[..][..datasize]));
      var handled := Dispatch();
      if handled {
        ConfirmWrite();
      } else {
        StallTransaction();
      }
    }

    /** The status stage of a read. */
    method StatusOutStage()
      requires Valid() && !reset && fsm == StatusOut
      modifies this, reg, ram, driver, driver.chip, driver.chip.mem
      ensures Valid() && Model() == Usb.ControlOut(old(Model()))
    {
      hide Rom.Valid, EndpointRegister.View, Loaded, TxStat, RxStat, Usb.RunCallback;
      ReadNothing();
      Enter(Fsm.Idle);
      Note(StatusDone(req[..]));
      RunCallback();
      if !reset {
        ClearCallback();
      }
    }

    /** _usbd_control_out. */
    method ControlOut()
      requires Valid() && !reset
      requires fsm == DataOut || fsm == LastDataOut ==> datasize <= ReqLength(req[..]) <= Dfu.TRANSFER
      modifies this, reg, pma, ram, driver, driver.buf, driver.chip, driver.chip.mem
      ensures Valid() && Model() == Usb.ControlOut(old(Model()))
    {
      hide Rom.Valid, EndpointRegister.View, Loaded, TxStat, RxStat;
      hide Usb.StallTransaction, ReqLength, Usb.RecvChunk;
      match fsm {
        case DataOut =>
          var complete := RecvChunk();
          if complete && WLength() - datasize <= MAX_PACKET {
            Enter(LastDataOut);
          }
        case LastDataOut => LastData();
        case StatusOut => StatusOutStage();
        case _ => StallTransaction();
      }
    }

    /** _usbd_control_in. */
    method ControlIn()
      requires Valid() && !reset && (fsm == DataIn ==> dataoff + datasize <= RAM_SPAN)
      modifies this, reg, pma, driver, driver.chip, driver.chip.mem
      ensures Valid() && Model() == Usb.ControlIn(old(Model()))
    {
      hide Rom.Valid, EndpointRegister.View, Loaded, TxStat, RxStat;
      hide Usb.StallTransaction, Usb.SendChunk, Usb.NakSet, Usb.RunCallback, ReqValue;
      match fsm {
        case DataIn => SendChunk();
        case LastDataIn =>
          Enter(StatusOut);
          NakSet(false);
        case StatusIn => StatusInStage();
        case _ => StallTransaction();
      }
    }

    /** The status stage of a write, where SET_ADDRESS takes effect. */
    method StatusInStage()
      requires Valid() && !reset && fsm == StatusIn
      modifies this, driver, driver.chip, driver.chip.mem
      ensures Valid() && Model() == Usb.ControlIn(old(Model()))
    {
      hide Rom.Valid, EndpointRegister.View, Loaded, TxStat, RxStat, Usb.RunCallback, ReqValue, ReqType, ReqCode;
      hide Usb.SendChunk, Usb.NakSet, Usb.StallTransaction;
      Note(StatusDone(req[..]));
      RunCallback();
      if !reset {
        if Type() == 0 && Code() == 5 {
          SetDaddr(WValue() % 0x80 + 0x80);
        }
        Enter(Fsm.Idle);
      }
    }

    /** A store to USB_DADDR. */
    method SetDaddr(value: int)
      requires Valid()
      modifies this`daddr
      ensures Valid() && Model() == old(Model()).(ep := old(Ep()).(daddr := value))
    {
      hide Rom.Valid, EndpointRegister.View, Loaded, TxStat, RxStat;
      daddr := value;
    }

    /** The reset branch of do_usb_poll, with _usbd_ep_setup for endpoint 0. */
    method ControlReset()
      requires Valid()
      modifies this`halted, this`daddr, this`log, reg
      ensures Valid() && Model() == Usb.ControlReset(old(Model()))
    {
      hide Rom.Valid, EndpointRegister.View, Loaded, TxStat, RxStat;
      SetKind();
      ClearTxDtog();
      SetTx(Stat.Nak);
      ClearRxDtog();
      SetRx(Stat.Valid);
      SetDaddr(0x80);
      halted := {};
      Note(BusReset);
    }

    /** USB_SET_EP_ADDR(0, 0) and USB_SET_EP_TYPE(0, USB_EP_TYPE_CONTROL). */
    method SetKind()
      requires Valid()
      modifies reg
      ensures Valid() && Model() == old(Model())
    {
      hide Rom.Valid, EndpointRegister.View, Loaded, TxStat, RxStat;
      reg.UseSetAddr(0);
      reg.UseSetType(0x0200);
    }

    // The peripheral and the main loop

    /** The hardware stores a packet it accepts and says NAK from then on. */
    method Receive(data: seq<byte>, setup: bool)
      requires Valid() && |data| <= MAX_PACKET
      modifies reg, pma, this`rxCount, this`log
      ensures Valid() && Model() == Arrived(old(Model()), data, setup)
    {
      hide Rom.Valid, EndpointRegister.View, Loaded, TxStat, RxStat;
      StorePacket(data);
      MarkReceived(setup);
      if !setup {
        Note(Packet(data));
      }
    }

    /** What the hardware writes into the endpoint register. */
    method MarkReceived(setup: bool)
      requires Valid()
      modifies reg
      ensures Valid()
      ensures var ep := old(Ep());
        Model() == old(Model()).(ep := ep.(rx := Stat.Nak, tx := if setup then Stat.Nak else ep.tx,
                                           setup := if ep.ctrRx then ep.setup else setup, ctrRx := true))
    {
      hide Rom.Valid, EndpointRegister.View, Loaded, TxStat, RxStat;
      reg.Receive(setup);
      assert TxBits(Stat.Nak) == 0x0020 && RxBits(Stat.Nak) == 0x2000;
    }

    /** The host collects the packet, and the hardware says NAK from then on. */
    method Send()
      requires Valid()
      modifies reg
      ensures Valid() && Model() == old(Model()).(ep := old(Ep()).(tx := Stat.Nak))
    {
      hide Rom.Valid, EndpointRegister.View, Loaded, TxStat, RxStat;
      reg.Send();
      assert TxBits(Stat.Nak) == 0x0020;
    }

    method StorePacket(data: seq<byte>)
      requires Valid() && |data| <= MAX_PACKET
      modifies pma, this`rxCount
      ensures Valid() && Model() == old(Model()).(ep := old(Ep()).(rxPacket := data))
    {
      hide Rom.Valid, EndpointRegister.View, Loaded, TxStat, RxStat;
      ghost var was := pma[..];
      forall k | 0 <= k < pma.Length {
        pma[k] := if InWords(k, RX_AT, WordsFor(|data|)) then PacketWord(data, (k - RX_AT) / 2) else pma[k];
      }
      assert pma[..] == Stored(was, RX_AT, data);
      StoreLoad(was, RX_AT, data);
      StoreKeepsOthers(was, RX_AT, data, TX_AT, txCount);
      rxCount := |data|;
    }

    /** do_usb_poll: a bus reset, or the transfer that ISTR reports. */
    method Poll(istr: Istr)
      requires Valid() && !reset && Counters(Model())
      modifies this, reg, pma, req, ram, driver, driver.buf, driver.chip, driver.chip.mem
      ensures Valid()
      ensures Model() == Polled(old(Model()), istr)
    {
      hide Rom.Valid, EndpointRegister.View, Loaded, TxStat, RxStat;
      hide Usb.ControlSetup, Usb.ControlOut, Usb.ControlIn, Usb.ControlReset;
      if istr.reset {
        ControlReset();
        return;
      }
      if istr.ctr {
        if istr.dir {
          if SetupFlag() {
            ControlSetup();
          } else {
            ControlOut();
          }
        } else {
          ClearTxCtr();
          ControlIn();
        }
      }
    }

    /** USB_CLR_EP_TX_CTR(0). */
    method ClearTxCtr()
      requires Valid()
      modifies reg
      ensures Valid() && Model() == old(Model())
    {
      hide Rom.Valid, EndpointRegister.View, Loaded, TxStat, RxStat;
      reg.UseClrTxCtr();
    }

    /** One round of the main loop: the hardware takes the token if the endpoint accepts it, and
        do_usb_poll serves what has been completed. */
    method Serve(t: Token)
      requires Valid() && Inv(Model())
      modifies this, reg, pma, req, ram, driver, driver.buf, driver.chip, driver.chip.mem
      ensures Valid() && Model() == Step(old(Model()), t) && Inv(Model())
    {
      hide Rom.Valid, EndpointRegister.View, Loaded, TxStat, RxStat, Inv, Counters;
      hide Usb.ControlSetup, Usb.ControlOut, Usb.ControlIn, Usb.ControlReset;
      if reset || link != Up || !Accepts(t) {
        return;
      }
      InvCounters(Model(), t);
      match t {
        case SetupToken(data) =>
          Receive(data, true);
          Poll(Istr(false, true, true));
        case OutToken(data) =>
          Receive(data, false);
          Poll(Istr(false, true, true));
        case InToken =>
          Send();
          Poll(Istr(false, true, false));
        case ResetSignal =>
          Poll(Istr(true, false, false));
          if CtrFlag() {
            Poll(Istr(false, true, true));
          }
      }
    }

    predicate Accepts(t: Token)
      requires Valid()
      reads this, reg, pma, req, ram, driver, driver.buf, driver.chip, driver.chip.mem
      ensures Accepts(t) <==> Accepted(Model(), t)
    {
      match t
      case SetupToken(data) => Rx() != Stat.Disabled && |data| <= MAX_PACKET
      case OutToken(data) => Rx() == Stat.Valid && |data| <= MAX_PACKET
      case InToken => Tx() == Stat.Valid
      case ResetSignal => true
    }

    /** Any number of tokens. */
    method ServeAll(ts: seq<Token>)
      requires Valid() && Inv(Model())
      modifies this, reg, pma, req, ram, driver, driver.buf, driver.chip, driver.chip.mem
      ensures Valid() && Model() == Run(old(Model()), ts) && Inv(Model())
    {
      hide *;
      ghost var d := Model();
      assert ts[0..] == ts;
      var i := 0;
      while i < |ts|
        invariant 0 <= i <= |ts|
        invariant Valid() && Inv(Model()) && Run(Model(), ts[i..]) == Run(d, ts)
      {
        RunFirst(Model(), ts[i..]);
        Serve(ts[i]);
        assert ts[i..][1..] == ts[i + 1..];
        i := i + 1;
      }
      RunFirst(Model(), ts[i..]);
    }
  }

  lemma WholeSplice(s: seq<byte>, data: seq<byte>)
    requires |data| <= |s|
    ensures |data| == |s| ==> Splice(s, 0, data) == data
  {
  }

  /** What the invariant says about the counters, before and after the token has arrived. */
  lemma InvCounters(d: Usb.Device, t: Token)
    requires Inv(d) && !d.reset && Accepted(d, t)
    ensures Counters(d) && Counters(d.(ep := d.ep.(tx := Stat.Nak)))
    ensures match t
      case SetupToken(data) => Counters(Arrived(d, data, true))
      case OutToken(data) => Counters(Arrived(d, data, false)) && !Arrived(d, data, false).ep.setup
      case ResetSignal =>
        var r := Usb.ControlReset(d);
        Counters(r) && !r.reset && (r.ep.ctrRx ==> !r.ep.setup)
      case _ => true
  {
    hide Rom.Valid, RegistersCallback, IsGetStatus;
  }

  lemma RunFirst(d: Usb.Device, ts: seq<Token>)
    requires Inv(d)
    ensures ts == [] ==> Run(d, ts) == d
    ensures ts != [] ==> Run(d, ts) == Run(Step(d, ts[0]), ts[1..])
  {
  }

  lemma NoSplice(s: seq<byte>, off: nat)
    requires off <= |s|
    ensures Splice(s, off, []) == s
  {
  }
}
