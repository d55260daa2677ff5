/** The endpoint register of the USB peripheral and the macros that write it
    (Core/Inc/usb.h).

    Of its 16 bits some toggle when 1 is written (STAT, DTOG), some only clear when 0 is
    written (CTR), one is read-only (SETUP) and the rest are plain. The macros read the
    register, mask it and write a word back. The module shows that the masking is right:
    every macro acts as one independent assignment to a record, over any sequence of
    macros, and says exactly which hardware event between the read and the write is lost.

    The masks are written out as numbers:
      0x8000 CTR_RX  0x4000 DTOG_RX  0x3000 STAT_RX  0x0800 SETUP    0x0600 TYPE
      0x0100 KIND    0x0080 CTR_TX   0x0040 DTOG_TX  0x0030 STAT_TX  0x000F EA
      0x8F8F the bits that do not toggle, 0xBF8F and 0x8FBF those with STAT_RX or STAT_TX */
module EndpointRegister {

  /** One use of a macro. The arguments are the values the driver passes: a STAT or TYPE
      value already in position, an endpoint number. */
  datatype Macro =
    | SetRxStat(stat: bv16)
    | SetTxStat(stat: bv16)
    | ClrRxDtog
    | ClrTxDtog
    | ClrRxCtr
    | ClrTxCtr
    | SetType(kind: bv16)
    | SetAddr(addr: bv16)
  {
    /** The argument stays inside its own field. */
    predicate InField() {
      match this
      case SetRxStat(s) => s & 0xCFFF == 0
      case SetTxStat(s) => s & 0xFFCF == 0
      case SetType(t) => t & 0xF9FF == 0
      case SetAddr(a) => a & 0xFFF0 == 0
      case _ => true
    }
  }

  /** What the register becomes when w is written while it holds r. */
  function Write(r: bv16, w: bv16): bv16 {
    ((r ^ w) & 0x7070) | (r & w & 0x8080) | (r & 0x0800) | (w & 0x070F)
  }

  /** The word a macro computes from the value r it has read. */
  function Word(m: Macro, r: bv16): bv16 {
    match m
    case SetRxStat(s) => ((r & 0xBF8F) ^ s) | 0x8080
    case SetTxStat(s) => ((r & 0x8FBF) ^ s) | 0x8080
    case ClrRxDtog => r & 0xCF8F
    case ClrTxDtog => r & 0x8FCF
    case ClrRxCtr => (r & 0x0F8F) | 0x0080
    case ClrTxCtr => (r & 0x8F0F) | 0x8000
    case SetType(t) => (r & 0x898F) | t
    case SetAddr(a) => (r & 0x8F80) | a
  }

  /** The register as a record of independent fields. */
  datatype Fields = Fields(rxCtr: bv16, rxDtog: bv16, rxStat: bv16, setup: bv16, kind: bv16, special: bv16,
                           txCtr: bv16, txDtog: bv16, txStat: bv16, addr: bv16)

  function View(r: bv16): Fields {
    Fields(r & 0x8000, r & 0x4000, r & 0x3000, r & 0x0800, r & 0x0600, r & 0x0100,
           r & 0x0080, r & 0x0040, r & 0x0030, r & 0x000F)
  }

  /** The assignment each macro is meant to be. */
  function Assign(f: Fields, m: Macro): Fields {
    match m
    case SetRxStat(s) => f.(rxStat := s)
    case SetTxStat(s) => f.(txStat := s)
    case ClrRxDtog => f.(rxDtog := 0)
    case ClrTxDtog => f.(txDtog := 0)
    case ClrRxCtr => f.(rxCtr := 0)
    case ClrTxCtr => f.(txCtr := 0)
    case SetType(t) => f.(kind := t)
    case SetAddr(a) => f.(addr := a)
  }

  function Apply(r: bv16, m: Macro): bv16 {
    Write(r, Word(m, r))
  }

  function ApplyAll(r: bv16, ms: seq<Macro>): bv16
    decreases |ms|
  {
    if ms == [] then r else ApplyAll(Apply(r, ms[0]), ms[1..])
  }

  function AssignAll(f: Fields, ms: seq<Macro>): Fields
    decreases |ms|
  {
    if ms == [] then f else AssignAll(Assign(f, ms[0]), ms[1..])
  }

  /** Nothing is hidden by the record: the register is the union of its fields. */
  lemma ViewIsFaithful(r: bv16, q: bv16)
    ensures View(r) == View(q) <==> r == q
  {
    Union(r);
    Union(q);
  }

  lemma Union(r: bv16)
    ensures r == (r & 0x8000) | (r & 0x4000) | (r & 0x3000) | (r & 0x0800) | (r & 0x0600) | (r & 0x0100)
                 | (r & 0x0080) | (r & 0x0040) | (r & 0x0030) | (r & 0x000F)
  {
  }

  lemma SetRxStatAssigns(r: bv16, s: bv16)
    requires s & 0xCFFF == 0
    ensures View(Write(r, ((r & 0xBF8F) ^ s) | 0x8080)) == View(r).(rxStat := s)
  {
  }

  lemma SetTxStatAssigns(r: bv16, s: bv16)
    requires s & 0xFFCF == 0
    ensures View(Write(r, ((r & 0x8FBF) ^ s) | 0x8080)) == View(r).(txStat := s)
  {
  }

  lemma ClrRxDtogAssigns(r: bv16)
    ensures View(Write(r, r & 0xCF8F)) == View(r).(rxDtog := 0)
  {
  }

  lemma ClrTxDtogAssigns(r: bv16)
    ensures View(Write(r, r & 0x8FCF)) == View(r).(txDtog := 0)
  {
  }

  lemma ClrRxCtrAssigns(r: bv16)
    ensures View(Write(r, (r & 0x0F8F) | 0x0080)) == View(r).(rxCtr := 0)
  {
  }

  lemma ClrTxCtrAssigns(r: bv16)
    ensures View(Write(r, (r & 0x8F0F) | 0x8000)) == View(r).(txCtr := 0)
  {
  }

  lemma SetTypeAssigns(r: bv16, t: bv16)
    requires t & 0xF9FF == 0
    ensures View(Write(r, (r & 0x898F) | t)) == View(r).(kind := t)
  {
  }

  lemma SetAddrAssigns(r: bv16, a: bv16)
    requires a & 0xFFF0 == 0
    ensures View(Write(r, (r & 0x8F80) | a)) == View(r).(addr := a)
  {
  }

  lemma StatusMacroAssigns(r: bv16, m: Macro)
    requires m.InField() && (m.SetRxStat? || m.SetTxStat?)
    ensures View(Apply(r, m)) == Assign(View(r), m)
  {
    if m.SetRxStat? {
      SetRxStatAssigns(r, m.stat);
    } else {
      SetTxStatAssigns(r, m.stat);
    }
  }

  lemma ClearMacroAssigns(r: bv16, m: Macro)
    requires m.ClrRxDtog? || m.ClrTxDtog? || m.ClrRxCtr? || m.ClrTxCtr?
    ensures View(Apply(r, m)) == Assign(View(r), m)
  {
    ClrRxDtogAssigns(r);
    ClrTxDtogAssigns(r);
    ClrRxCtrAssigns(r);
    ClrTxCtrAssigns(r);
  }

  lemma PlainMacroAssigns(r: bv16, m: Macro)
    requires m.InField() && (m.SetType? || m.SetAddr?)
    ensures View(Apply(r, m)) == Assign(View(r), m)
  {
    if m.SetType? {
      SetTypeAssigns(r, m.kind);
    } else {
      SetAddrAssigns(r, m.addr);
    }
  }

  lemma MacroAssigns(r: bv16, m: Macro)
    requires m.InField()
    ensures View(Apply(r, m)) == Assign(View(r), m)
  {
    if m.SetRxStat? || m.SetTxStat? {
      StatusMacroAssigns(r, m);
    } else if m.SetType? || m.SetAddr? {
      PlainMacroAssigns(r, m);
    } else {
      ClearMacroAssigns(r, m);
    }
  }

  /** Any sequence of macros acts on the raw register as the same sequence of independent
      assignments acts on the record. */
  lemma {:induction false} MacrosAreAssignments(r: bv16, ms: seq<Macro>)
    requires forall i :: 0 <= i < |ms| ==> ms[i].InField()
    ensures View(ApplyAll(r, ms)) == AssignAll(View(r), ms)
    decreases |ms|
  {
    if ms != [] {
      MacroAssigns(r, ms[0]);
      MacrosAreAssignments(Apply(r, ms[0]), ms[1..]);
    }
  }

  /** The hardware may complete a transfer, and so raise a CTR bit, after a macro has read
      the register and before it writes the word back. These are the CTR bits for which
      such a late flag is kept, given the macro and the value it read. */
  function KeptFlags(m: Macro, r: bv16): bv16 {
    match m
    case SetRxStat(_) => 0x8080
    case SetTxStat(_) => 0x8080
    case ClrRxCtr => 0x0080
    case ClrTxCtr => 0x8000
    case _ => r & 0x8080
  }

  lemma StatusWordFlags(r: bv16, s: bv16)
    ensures Word(SetRxStat(s), r) & 0x8080 == 0x8080
    ensures Word(SetTxStat(s), r) & 0x8080 == 0x8080
  {
  }

  lemma ClearWordFlags(r: bv16)
    ensures Word(ClrRxCtr, r) & 0x8080 == 0x0080
    ensures Word(ClrTxCtr, r) & 0x8080 == 0x8000
    ensures Word(ClrRxDtog, r) & 0x8080 == r & 0x8080
    ensures Word(ClrTxDtog, r) & 0x8080 == r & 0x8080
  {
  }

  lemma TypeWordFlags(r: bv16, t: bv16)
    requires t & 0xF9FF == 0
    ensures Word(SetType(t), r) & 0x8080 == r & 0x8080
  {
  }

  lemma AddrWordFlags(r: bv16, a: bv16)
    requires a & 0xFFF0 == 0
    ensures Word(SetAddr(a), r) & 0x8080 == r & 0x8080
  {
  }

  lemma LateFlags(r: bv16, w: bv16, late: bv16)
    requires late & 0x7F7F == 0
    ensures Write(r | late, w) & late == (w & 0x8080) & late
  {
  }

  /** The status macros never lose a transfer that completes between their read and their
      write, a CTR macro loses only the flag it is clearing, and the DTOG, type and address
      macros lose it exactly when the flag was still clear at the read. */
  lemma LateTransfer(r: bv16, m: Macro, late: bv16)
    requires m.InField()
    requires late & 0x7F7F == 0
    ensures Write(r | late, Word(m, r)) & late == KeptFlags(m, r) & late
  {
    LateFlags(r, Word(m, r), late);
    match m
    case SetRxStat(s) => StatusWordFlags(r, s);
    case SetTxStat(s) => StatusWordFlags(r, s);
    case SetType(t) => TypeWordFlags(r, t);
    case SetAddr(a) => AddrWordFlags(r, a);
    case _ => ClearWordFlags(r);
  }

  /** The toggle is computed from the value read, so the receive status becomes the wanted
      one if and only if the field did not change between the read and the write. */
  lemma LateStatusChange(r: bv16, now: bv16, s: bv16)
    requires s & 0xCFFF == 0
    ensures Write(now, Word(SetRxStat(s), r)) & 0x3000 == s <==> now & 0x3000 == r & 0x3000
  {
    StaleToggle(r, now, s);
    XorIsZero(now & 0x3000, r & 0x3000, s);
  }

  /** The same for transmission. */
  lemma LateTxStatusChange(r: bv16, now: bv16, s: bv16)
    requires s & 0xFFCF == 0
    ensures Write(now, Word(SetTxStat(s), r)) & 0x0030 == s <==> now & 0x0030 == r & 0x0030
  {
    StaleTxToggle(r, now, s);
    XorIsZero(now & 0x0030, r & 0x0030, s);
  }

  lemma StaleTxToggle(r: bv16, now: bv16, s: bv16)
    requires s & 0xFFCF == 0
    ensures Write(now, Word(SetTxStat(s), r)) & 0x0030 == ((now & 0x0030) ^ (r & 0x0030)) ^ s
  {
  }

  lemma StaleToggle(r: bv16, now: bv16, s: bv16)
    requires s & 0xCFFF == 0
    ensures Write(now, Word(SetRxStat(s), r)) & 0x3000 == ((now & 0x3000) ^ (r & 0x3000)) ^ s
  {
  }

  lemma XorIsZero(a: bv16, b: bv16, s: bv16)
    ensures (a ^ b) ^ s == s <==> a == b
  {
  }

  // Registers that are none of an endpoint

  /** An endpoint number from 16 on makes the macros read and write a control register of the
      peripheral, which just takes the word. In the low byte of USB_DADDR, the address with the
      enable bit in front, bit 6 is lost, and bits 5 and 4 survive SET_FEATURE for IN only, which
      toggles bit 4. */
  lemma HaltOnPlainRegister(r: bv16)
    ensures Word(SetRxStat(0x1000), r) & 0x00FF == (r & 0x000F) | 0x0080
    ensures Word(SetRxStat(0x3000), Word(ClrRxDtog, r)) & 0x00FF == (r & 0x000F) | 0x0080
    ensures Word(SetTxStat(0x0010), r) & 0x00FF == ((r & 0x003F) ^ 0x0010) | 0x0080
    ensures Word(ClrTxDtog, Word(SetTxStat(0x0020), r)) & 0x00FF == (r & 0x000F) | 0x0080
  {
  }

  /** USB_BTABLE, whose address is in bits 15 to 3, leaves its place with any of them. */
  lemma HaltOnTable()
    ensures Word(SetRxStat(0x1000), 0) & 0xFFF8 != 0
    ensures Word(SetRxStat(0x3000), Word(ClrRxDtog, 0)) & 0xFFF8 != 0
    ensures Word(SetTxStat(0x0010), 0) & 0xFFF8 != 0
    ensures Word(ClrTxDtog, Word(SetTxStat(0x0020), 0)) & 0xFFF8 != 0
  {
  }

  /** RESUME is bit 4 of USB_CNTR, and the bits that would stop the peripheral are bits 3 to 0:
      only SET_FEATURE for IN touches any of them, and it raises RESUME. */
  lemma HaltOnControl(r: bv16)
    requires r & 0x0010 == 0
    ensures Word(SetRxStat(0x1000), r) & 0x001F == r & 0x001F
    ensures Word(SetRxStat(0x3000), Word(ClrRxDtog, r)) & 0x001F == r & 0x001F
    ensures Word(SetTxStat(0x0010), r) & 0x001F == (r & 0x000F) | 0x0010
    ensures Word(ClrTxDtog, Word(SetTxStat(0x0020), r)) & 0x001F == r & 0x001F
  {
  }

  /** The register behind a received packet: CTR_RX and the status say so, and a SETUP also stops
      transmission. */
  function Marked(r: bv16, isSetup: bool): bv16 {
    if isSetup then (r & 0xCFCF) | 0xA020 else (r & 0xCFFF) | 0xA000
  }

  /** The same as a record, with the SETUP bit, which is frozen as long as an earlier packet is
      unserved. */
  function ReceivedAs(f: Fields, isSetup: bool): Fields {
    f.(rxCtr := 0x8000, rxStat := 0x2000, txStat := if isSetup then 0x0020 else f.txStat,
       setup := if f.rxCtr != 0 then f.setup else if isSetup then 0x0800 else 0x0000)
  }

  lemma SetupFields(r: bv16)
    ensures View((r & 0xCFCF) | 0xA020) == View(r).(rxCtr := 0x8000, rxStat := 0x2000, txStat := 0x0020)
  {
  }

  lemma PacketFields(r: bv16)
    ensures View((r & 0xCFFF) | 0xA000) == View(r).(rxCtr := 0x8000, rxStat := 0x2000)
  {
  }

  lemma MarkedFields(r: bv16, isSetup: bool)
    ensures View(Marked(r, isSetup)) ==
      View(r).(rxCtr := 0x8000, rxStat := 0x2000, txStat := if isSetup then 0x0020 else View(r).txStat)
  {
    hide View;
    if isSetup {
      SetupFields(r);
    } else {
      PacketFields(r);
    }
  }

  lemma SetupOn(r: bv16)
    ensures View(r | 0x0800) == View(r).(setup := 0x0800)
  {
  }

  lemma SetupOff(r: bv16)
    ensures View(r & 0xF7FF) == View(r).(setup := 0x0000)
  {
  }

  /** The register behind a packet that the host has collected. */
  function Sent(r: bv16): bv16 {
    (r & 0xFFCF) | 0x00A0
  }

  lemma SentFields(r: bv16)
    ensures View(Sent(r)) == View(r).(txCtr := 0x0080, txStat := 0x0020)
  {
  }

  /** The memory-mapped register itself: each macro is a read followed by a write. */
  class Register {
    var raw: bv16

    constructor ()
      ensures raw == 0
    {
      raw := 0;
    }

    /** The hardware reports a packet received. */
    method Receive(isSetup: bool)
      modifies this
      ensures View(raw) == ReceivedAs(View(old(raw)), isSetup)
    {
      hide View, Marked;
      var frozen := View(raw).rxCtr != 0;
      MarkedFields(raw, isSetup);
      raw := Marked(raw, isSetup);
      if !frozen {
        SetSetup(isSetup);
      }
    }

    method SetSetup(isSetup: bool)
      modifies this
      ensures View(raw) == View(old(raw)).(setup := if isSetup then 0x0800 else 0x0000)
    {
      if isSetup {
        SetupOn(raw);
        raw := raw | 0x0800;
      } else {
        SetupOff(raw);
        raw := raw & 0xF7FF;
      }
    }

    /** The hardware reports a packet sent. */
    method Send()
      modifies this
      ensures View(raw) == View(old(raw)).(txCtr := 0x0080, txStat := 0x0020)
    {
      SentFields(raw);
      raw := Sent(raw);
    }

    /** SET_REG: a store to the register. */
    method Store(w: bv16)
      modifies this
      ensures raw == Write(old(raw), w)
    {
      raw := Write(raw, w);
    }

    method UseSetRxStat(stat: bv16)
      requires stat & 0xCFFF == 0
      modifies this
      ensures View(raw) == View(old(raw)).(rxStat := stat)
    {
      SetRxStatAssigns(raw, stat);
      var toggleMask := raw & 0xBF8F;
      toggleMask := toggleMask ^ stat;
      Store(toggleMask | 0x8080);
    }

    method UseSetTxStat(stat: bv16)
      requires stat & 0xFFCF == 0
      modifies this
      ensures View(raw) == View(old(raw)).(txStat := stat)
    {
      SetTxStatAssigns(raw, stat);
      var toggleMask := raw & 0x8FBF;
      toggleMask := toggleMask ^ stat;
      Store(toggleMask | 0x8080);
    }

    method UseClrRxDtog()
      modifies this
      ensures View(raw) == View(old(raw)).(rxDtog := 0)
    {
      ClrRxDtogAssigns(raw);
      Store(raw & 0xCF8F);
    }

    method UseClrTxDtog()
      modifies this
      ensures View(raw) == View(old(raw)).(txDtog := 0)
    {
      ClrTxDtogAssigns(raw);
      Store(raw & 0x8FCF);
    }

    method UseClrRxCtr()
      modifies this
      ensures View(raw) == View(old(raw)).(rxCtr := 0)
    {
      ClrRxCtrAssigns(raw);
      Store((raw & 0x0F8F) | 0x0080);
    }

    method UseClrTxCtr()
      modifies this
      ensures View(raw) == View(old(raw)).(txCtr := 0)
    {
      ClrTxCtrAssigns(raw);
      Store((raw & 0x8F0F) | 0x8000);
    }

    method UseSetType(kind: bv16)
      requires kind & 0xF9FF == 0
      modifies this
      ensures View(raw) == View(old(raw)).(kind := kind)
    {
      SetTypeAssigns(raw, kind);
      Store((raw & 0x898F) | kind);
    }

    method UseSetAddr(addr: bv16)
      requires addr & 0xFFF0 == 0
      modifies this
      ensures View(raw) == View(old(raw)).(addr := addr)
    {
      SetAddrAssigns(raw, addr);
      Store((raw & 0x8F80) | addr);
    }
  }
}
