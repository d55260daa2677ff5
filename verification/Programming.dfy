/** What a sequence of acknowledged downloads does to the flash. Each payload is buffered by a
    DNLOAD and acted on by the GETSTATUS behind it. The flash is then a set of pages each of
    which was last written by somebody. */
module Programming {
  import opened Bytes
  import opened FlashMemory
  import Dfu

  /** One download: a block number and up to 1024 bytes. Block 0 carries a command. */
  datatype Payload = Payload(block: int, data: seq<byte>) {
    predicate Valid() {
      0 <= block < U16 && 0 < |data| <= Dfu.TRANSFER
    }
  }

  /** The DFU driver and the flash. */
  datatype Machine = Machine(driver: Dfu.Driver, flash: Flash) {
    predicate Valid() {
      driver.Valid() && flash.Valid() && flash.locked
    }
  }

  /** The driver with the payload buffered. */
  function Buffered(p: Dfu.Driver, x: Payload): (r: Dfu.Driver)
    requires p.Valid() && x.Valid()
    ensures r.Valid() && r.prog.Data() == x.data
  {
    Dfu.Driver(Dfu.DnloadSync, Dfu.Prog(Splice(p.prog.buf, 0, x.data), |x.data|, p.prog.addr, x.block))
  }

  /** The effect of a GETSTATUS that completes: the state moves on, then the callback runs. */
  function Polled(p: Dfu.Driver, f: Flash): (c: Dfu.Completion)
    requires p.Valid() && f.Valid()
    ensures c.driver.Valid() && c.flash.Valid()
  {
    Dfu.Complete(p.(state := Dfu.AfterGetStatus(p.state)), f)
  }

  function Perform(m: Machine, x: Payload): (r: Machine)
    requires m.Valid() && x.Valid()
    ensures r.Valid()
  {
    var c := Polled(Buffered(m.driver, x), m.flash);
    Machine(c.driver, c.flash)
  }

  predicate AllValid(xs: seq<Payload>) {
    forall i :: 0 <= i < |xs| ==> xs[i].Valid()
  }

  function PerformAll(m: Machine, xs: seq<Payload>): (r: Machine)
    requires m.Valid() && AllValid(xs)
    ensures r.Valid()
    decreases |xs|
  {
    if xs == [] then m else PerformAll(Perform(m, xs[0]), xs[1..])
  }

  // The effect of any payload

  /** What earlier payloads leave behind for later ones: the address pointer, and the first five
      bytes of the program buffer, which a command reads whether or not it has brought them. */
  datatype Pointer = Pointer(addr: int, head: seq<byte>) {
    predicate Valid() {
      0 <= addr < U32 && |head| == 5
    }
  }

  function PointerOf(p: Dfu.Driver): (q: Pointer)
    requires p.Valid()
    ensures q.Valid()
  {
    Pointer(p.prog.addr, p.prog.buf[..5])
  }

  /** A payload of less than five bytes leaves the rest of them as they were. */
  function NextHead(head: seq<byte>, x: Payload): (r: seq<byte>)
    requires |head| == 5
    ensures |r| == 5
  {
    if |x.data| >= 5 then x.data[..5] else x.data + head[|x.data|..]
  }

  /** The address a command is about, partly from the buffer if the command is short. */
  function Argument(p: Pointer, x: Payload): (a: int)
    requires p.Valid()
    ensures 0 <= a < U32
  {
    Le32(NextHead(p.head, x), 1)
  }

  predicate IsSetAddress(x: Payload)
    requires x.Valid()
  {
    x.block == 0 && x.data[0] == Dfu.CMD_SETADDR
  }

  predicate IsErase(x: Payload)
    requires x.Valid()
  {
    x.block == 0 && x.data[0] == Dfu.CMD_ERASE
  }

  function NextPointer(p: Pointer, x: Payload): (r: Pointer)
    requires p.Valid() && x.Valid()
    ensures r.Valid()
  {
    Pointer(if IsSetAddress(x) then Argument(p, x) else p.addr, NextHead(p.head, x))
  }

  /** The flash after a payload. Commands and blocks beyond the application area do nothing. */
  function Recorded(p: Pointer, f: Flash, x: Payload): (r: Flash)
    requires p.Valid() && f.Valid() && x.Valid()
    ensures r.Valid() && r.outside == f.outside && r.locked == f.locked
  {
    if x.block == 0 then
      var a := Argument(p, x);
      if IsErase(x) && APP <= a && a + PAGE <= FLASH_END then
        f.(mem := ErasedAt(f.mem, f.outside, a - FLASH_BASE))
      else f
    else
      var a := Dfu.BlockAddress(p.addr, x.block);
      if APP <= a && a + |x.data| <= FLASH_END then
        f.(mem := WrittenAt(f.mem, f.outside, a - FLASH_BASE, x.data))
      else f
  }

  /** The command bytes in the program buffer are those of the payload, and behind a short payload
      those of the one before it. */
  lemma BufferedCommand(p: Dfu.Driver, x: Payload)
    requires p.Valid() && x.Valid()
    ensures PointerOf(Buffered(p, x)).head == NextHead(PointerOf(p).head, x)
    ensures Dfu.CommandAddress(Buffered(p, x).prog) == Argument(PointerOf(p), x)
    ensures Buffered(p, x).prog.buf[0] == x.data[0]
  {
    var b, h := Buffered(p, x).prog.buf, NextHead(PointerOf(p).head, x);
    assert b[..5] == h;
    Le32Slice(b, 1, h, 1);
  }

  /** Above the flash nothing is programmed, even when the addresses wrap. */
  lemma {:induction false} ProgramOutside(f: Flash, a: int, data: seq<byte>, n: nat)
    requires f.Valid() && 2 * n <= |data| <= PAGE && FLASH_END <= a < U32
    ensures ProgramHalves(f, a, data, n) == f
  {
    if n > 0 {
      ProgramOutside(f, a, data, n - 1);
      OutsideStaysOutside(a, 2 * (n - 1));
    }
  }

  lemma OutsideStaysOutside(a: int, k: nat)
    requires FLASH_END <= a < U32 && k < PAGE
    ensures !InFlash((a + k) % U32)
  {
  }

  lemma EraseOutside(f: Flash, a: int)
    requires f.Valid() && FLASH_END <= a
    ensures EraseIfNeeded(f, a) == f
  {
  }

  /** An ERASE command for any address. */
  lemma EraseEffect(f: Flash, a: int)
    requires f.Valid() && !f.locked && 0 <= a < U32
    ensures (if Dfu.InApplication(a, PAGE) then EraseIfNeeded(f, a) else f) ==
      if APP <= a && a + PAGE <= FLASH_END then f.(mem := ErasedAt(f.mem, f.outside, a - FLASH_BASE)) else f
  {
    hide EraseIfNeeded, ErasedAt, Dfu.InApplication;
    Dfu.RangeCheck(a, PAGE);
    if APP <= a && a + PAGE <= FLASH_END {
      EraseAnywhere(f, a - FLASH_BASE);
    } else if Dfu.InApplication(a, PAGE) {
      EraseOutside(f, a);
    }
  }

  /** A data block at any address. */
  lemma BlockEffect(f: Flash, a: int, data: seq<byte>)
    requires f.Valid() && !f.locked && 0 <= a < U32 && 0 < |data| <= PAGE
    ensures (if Dfu.InApplication(a, |data|) then WriteBlock(f, a, data) else f) ==
      if APP <= a && a + |data| <= FLASH_END then f.(mem := WrittenAt(f.mem, f.outside, a - FLASH_BASE, data)) else f
  {
    hide EraseIfNeeded, WrittenAt, ProgramHalves, Dfu.InApplication;
    Dfu.RangeCheck(a, |data|);
    if APP <= a && a + |data| <= FLASH_END {
      WriteBlockAnywhere(f, a - FLASH_BASE, data);
    } else if Dfu.InApplication(a, |data|) {
      EraseOutside(f, a);
      ProgramOutside(f, a, data, |data| / 2);
    }
  }

  /** The exact effect of any acknowledged payload: a command or a block, short or not, at any
      address, on any flash. */
  lemma PerformEffect(m: Machine, x: Payload)
    requires m.Valid() && x.Valid()
    ensures var r := Perform(m, x);
      && r.driver.state == Dfu.DnloadIdle && r.flash == Recorded(PointerOf(m.driver), m.flash, x)
      && PointerOf(r.driver) == NextPointer(PointerOf(m.driver), x)
  {
    hide EraseIfNeeded, WriteBlock, ErasedAt, WrittenAt;
    hide Dfu.InApplication, Dfu.BlockAddress, Argument, NextHead, Splice;
    var f := m.flash.(locked := false);
    BufferedCommand(m.driver, x);
    EraseEffect(f, Argument(PointerOf(m.driver), x));
    BlockEffect(f, Dfu.BlockAddress(m.driver.prog.addr, x.block), x.data);
  }

  function RecordedAll(p: Pointer, f: Flash, xs: seq<Payload>): (r: Flash)
    requires p.Valid() && f.Valid() && AllValid(xs)
    ensures r.Valid()
    decreases |xs|
  {
    if xs == [] then f else RecordedAll(NextPointer(p, xs[0]), Recorded(p, f, xs[0]), xs[1..])
  }

  /** The same for any sequence of payloads. */
  lemma {:induction false} PerformAllEffect(m: Machine, xs: seq<Payload>)
    requires m.Valid() && AllValid(xs)
    ensures PerformAll(m, xs).flash == RecordedAll(PointerOf(m.driver), m.flash, xs)
    decreases |xs|
  {
    hide Perform, Recorded, NextPointer, PointerOf;
    if xs != [] {
      PerformEffect(m, xs[0]);
      PerformAllEffect(Perform(m, xs[0]), xs[1..]);
    }
  }

  // Pages

  lemma AlignedBlock(addr: int, block: int)
    requires addr % PAGE == 0
    ensures Dfu.BlockAddress(addr, block) % PAGE == 0
  {
    var q := addr / PAGE + block - 2;
    assert addr + (block - 2) * Dfu.TRANSFER == q * PAGE;
    assert U32 == 0x40_0000 * PAGE;
    assert q * PAGE % (0x40_0000 * PAGE) == q % 0x40_0000 * PAGE;
  }

  function PageIndex(a: int): (k: nat)
    requires APP <= a < FLASH_END
    ensures (k + 1) * PAGE <= FLASH_SIZE
    ensures FLASH_BASE + k * PAGE <= a < FLASH_BASE + (k + 1) * PAGE
  {
    (a - FLASH_BASE) / PAGE
  }

  lemma PageAddress(a: int)
    requires APP <= a < FLASH_END && a % PAGE == 0
    ensures a == FLASH_BASE + PageIndex(a) * PAGE
    ensures a + PAGE <= FLASH_END
  {
    assert FLASH_BASE % PAGE == 0;
  }

  /** An aligned address passes the range check exactly when it is in the application area,
      or so high that nothing of the flash is reached. */
  lemma AlignedRange(a: int, len: nat)
    requires 0 <= a < U32 && a % PAGE == 0 && len <= PAGE
    ensures APP <= a < FLASH_END ==> Dfu.InApplication(a, len)
    ensures Dfu.InApplication(a, len) && !(APP <= a < FLASH_END) ==> FLASH_END <= a && a + len <= U32
  {
    if APP <= a < FLASH_END {
      PageAddress(a);
    }
    assert U32 % PAGE == 0;
  }

  /** The payload decides what page k holds. A block does when its address starts the page. An ERASE
      does when its address is in the page and the 1024 bytes from there on are not all erased. */
  predicate Strikes(p: Pointer, f: Flash, x: Payload, k: nat)
    requires p.Valid() && f.Valid() && x.Valid()
  {
    if x.block == 0 then
      var a := Argument(p, x);
      && IsErase(x) && APP <= a && a + PAGE <= FLASH_END && PageIndex(a) == k
      && !WindowErased(f.mem, f.outside, a - FLASH_BASE)
    else
      var a := Dfu.BlockAddress(p.addr, x.block);
      APP <= a < FLASH_END && a % PAGE == 0 && PageIndex(a) == k
  }

  /** The payload is a block at an address inside a page and may reach page k. What it makes of the
      page depends on what the page held. */
  predicate Smears(p: Pointer, x: Payload, k: nat)
    requires p.Valid() && x.Valid()
  {
    var a := Dfu.BlockAddress(p.addr, x.block);
    && x.block != 0 && a % PAGE != 0 && APP <= a && a + |x.data| <= FLASH_END
    && FLASH_BASE + k * PAGE < a + |x.data| && a < FLASH_BASE + (k + 1) * PAGE
  }

  /** What a page holds behind a payload that strikes it. */
  function Content(x: Payload): (p: seq<byte>)
    requires x.Valid()
    ensures |p| == PAGE
  {
    if x.block == 0 then Fill(PAGE, ERASED) else Padded(x.data)
  }

  lemma ErasedPage(f: Flash, a: int, k: nat)
    requires f.Valid() && APP <= a && a + PAGE <= FLASH_END && (k + 1) * PAGE <= FLASH_SIZE
    ensures Page(ErasedAt(f.mem, f.outside, a - FLASH_BASE), k) ==
      if PageIndex(a) == k && !WindowErased(f.mem, f.outside, a - FLASH_BASE) then Fill(PAGE, ERASED)
      else Page(f.mem, k)
  {
    hide WindowErased, Page, Splice;
    var i := PageIndex(a);
    assert PageOf(a - FLASH_BASE) == i * PAGE;
    SplicePage(f.mem, i, Fill(PAGE, ERASED), k);
  }

  /** A block at the start of a page, in terms of the page. */
  lemma BlockAtPage(f: Flash, a: int, data: seq<byte>)
    requires f.Valid() && APP <= a < FLASH_END && a % PAGE == 0 && 0 < |data| <= PAGE
    ensures a + |data| <= FLASH_END
    ensures WrittenAt(f.mem, f.outside, a - FLASH_BASE, data) == Splice(f.mem, PageIndex(a) * PAGE, Padded(data))
  {
    hide WrittenAt, Padded, WriteBlock;
    PageAddress(a);
    var g := f.(locked := false);
    WriteBlockAnywhere(g, a - FLASH_BASE, data);
    WriteBlockAtPage(g, PageIndex(a), data);
  }

  /** A block leaves the pages alone that it does not reach. */
  lemma UnreachedPage(mem: seq<byte>, outside: byte, at: nat, data: seq<byte>, k: nat)
    requires |mem| == FLASH_SIZE && at < FLASH_SIZE && at + |data| <= FLASH_SIZE && 0 < |data|
    requires (k + 1) * PAGE <= FLASH_SIZE && !(k * PAGE < at + |data| && at < (k + 1) * PAGE)
    ensures Page(WrittenAt(mem, outside, at, data), k) == Page(mem, k)
  {
    hide WindowErased, Takes;
    var r := WrittenAt(mem, outside, at, data);
    PagesApart(at, k);
    forall i | k * PAGE <= i < (k + 1) * PAGE
      ensures r[i] == mem[i]
    {
    }
  }

  lemma PagesApart(at: nat, k: nat)
    requires at < FLASH_SIZE
    ensures at < k * PAGE ==> PageOf(at) + PAGE <= k * PAGE
    ensures (k + 1) * PAGE <= at ==> (k + 1) * PAGE <= PageOf(at)
  {
  }

  /** What page k holds behind the payload x, if it held `before`. */
  function PageAfter(p: Pointer, f: Flash, x: Payload, k: nat, before: seq<byte>): (r: seq<byte>)
    requires p.Valid() && f.Valid() && x.Valid() && (k + 1) * PAGE <= FLASH_SIZE
  {
    if Strikes(p, f, x, k) then Content(x) else if Smears(p, x, k) then Page(Recorded(p, f, x).mem, k) else before
  }

  /** Page k after one payload. */
  lemma RecordedPage(p: Pointer, f: Flash, x: Payload, k: nat)
    requires p.Valid() && f.Valid() && x.Valid() && (k + 1) * PAGE <= FLASH_SIZE
    ensures Page(Recorded(p, f, x).mem, k) == PageAfter(p, f, x, k, Page(f.mem, k))
  {
    hide ErasedAt, WrittenAt, WindowErased, Page, Padded, PageIndex, Argument, Dfu.BlockAddress, Splice;
    if x.block == 0 {
      var a := Argument(p, x);
      if IsErase(x) && APP <= a && a + PAGE <= FLASH_END {
        ErasedPage(f, a, k);
      }
    } else {
      var a := Dfu.BlockAddress(p.addr, x.block);
      if APP <= a < FLASH_END && a % PAGE == 0 {
        BlockAtPage(f, a, x.data);
        SplicePage(f.mem, PageIndex(a), Padded(x.data), k);
      } else if APP <= a && a + |x.data| <= FLASH_END && !Smears(p, x, k) {
        UnreachedPage(f.mem, f.outside, a - FLASH_BASE, x.data, k);
      }
    }
  }

  /** The content given to page k by the last payload that strikes it, or what it held before. */
  function LastWriter(p: Pointer, f: Flash, xs: seq<Payload>, k: nat, before: seq<byte>): (r: seq<byte>)
    requires p.Valid() && f.Valid() && AllValid(xs) && (k + 1) * PAGE <= FLASH_SIZE
    decreases |xs|
  {
    if xs == [] then before
    else
      LastWriter(NextPointer(p, xs[0]), Recorded(p, f, xs[0]), xs[1..], k, PageAfter(p, f, xs[0], k, before))
  }

  /** Over every sequence of ERASE commands, address commands and blocks for any addresses, short
      commands among them, in any order and with repetitions, every page of the flash holds what
      the last payload that struck it says, or what a block that started inside a page has made
      of that. */
  lemma {:induction false} PagesAreLastWritten(m: Machine, xs: seq<Payload>, k: nat)
    requires m.Valid() && AllValid(xs) && (k + 1) * PAGE <= FLASH_SIZE
    ensures Page(PerformAll(m, xs).flash.mem, k) ==
            LastWriter(PointerOf(m.driver), m.flash, xs, k, Page(m.flash.mem, k))
    decreases |xs|
  {
    hide Perform, Page, Strikes, Smears, Content, Recorded, NextPointer, PointerOf;
    if xs != [] {
      PerformEffect(m, xs[0]);
      RecordedPage(PointerOf(m.driver), m.flash, xs[0], k);
      PagesAreLastWritten(Perform(m, xs[0]), xs[1..], k);
    }
  }

  /** An ERASE command leaves the page of its address blank if and only if the 1024 bytes from the
      address on were not all erased, or the bytes of the page in front of it were. */
  lemma EraseBlanks(m: Machine, x: Payload)
    requires m.Valid() && x.Valid() && IsErase(x)
    requires APP <= Argument(PointerOf(m.driver), x) && Argument(PointerOf(m.driver), x) + PAGE <= FLASH_END
    ensures var at := Argument(PointerOf(m.driver), x) - FLASH_BASE;
      var p := PageOf(at);
      (forall i :: p <= i < p + PAGE ==> Perform(m, x).flash.mem[i] == ERASED) <==>
      || (exists i :: at <= i < at + PAGE && m.flash.mem[i] != ERASED)
      || (forall i :: p <= i < at ==> m.flash.mem[i] == ERASED)
  {
    hide Perform, ErasedAt, Argument, PointerOf;
    PerformEffect(m, x);
    ErasedPageIsBlank(m.flash.mem, m.flash.outside, Argument(PointerOf(m.driver), x) - FLASH_BASE);
  }

  /** Equal pages make an equal flash. */
  lemma PagesDetermineFlash(a: seq<byte>, b: seq<byte>)
    requires |a| == |b| == FLASH_SIZE
    requires forall k: nat :: (k + 1) * PAGE <= FLASH_SIZE ==> Page(a, k) == Page(b, k)
    ensures a == b
  {
    forall i | 0 <= i < FLASH_SIZE
      ensures a[i] == b[i]
    {
      var k := i / PAGE;
      assert Page(a, k)[i - k * PAGE] == Page(b, k)[i - k * PAGE];
    }
  }

  /** With the pointer at the start of a page no block starts inside one. */
  lemma NothingSmeared(p: Pointer, x: Payload, k: nat)
    requires p.Valid() && x.Valid() && p.addr % PAGE == 0
    ensures !Smears(p, x, k)
  {
    hide Dfu.BlockAddress;
    AlignedBlock(p.addr, x.block);
  }

  /** A block alone, or the second of two. */
  lemma OneBlock(p: Pointer, f: Flash, y: Payload, k: nat, before: seq<byte>)
    requires p.Valid() && f.Valid() && y.Valid() && p.addr % PAGE == 0 && (k + 1) * PAGE <= FLASH_SIZE
    ensures LastWriter(p, f, [y], k, before) == if Strikes(p, f, y, k) then Content(y) else before
  {
    hide Strikes, Smears, Content, Recorded, NextPointer;
    NothingSmeared(p, y, k);
    assert [y][1..] == [];
  }

  lemma TwoBlocks(p: Pointer, f: Flash, x: Payload, y: Payload, k: nat, before: seq<byte>)
    requires p.Valid() && f.Valid() && x.Valid() && y.Valid() && x.block != 0 && y.block != 0
    requires p.addr % PAGE == 0 && (k + 1) * PAGE <= FLASH_SIZE
    ensures LastWriter(p, f, [x, y], k, before) ==
      if Strikes(p, f, y, k) then Content(y) else if Strikes(p, f, x, k) then Content(x) else before
  {
    BlockKeepsPointer(p, x);
    BlockStrikes(NextPointer(p, x), p, Recorded(p, f, x), f, y, k);
    hide Strikes, Smears, Content, Recorded, NextPointer;
    NothingSmeared(p, x, k);
    assert [x, y][1..] == [y];
    OneBlock(NextPointer(p, x), Recorded(p, f, x), y, k, if Strikes(p, f, x, k) then Content(x) else before);
  }

  lemma BlockKeepsPointer(p: Pointer, x: Payload)
    requires p.Valid() && x.Valid() && x.block != 0
    ensures NextPointer(p, x).addr == p.addr
  {
  }

  /** Where a block goes depends on the pointer alone. */
  lemma BlockStrikes(p: Pointer, q: Pointer, f: Flash, g: Flash, y: Payload, k: nat)
    requires p.Valid() && q.Valid() && f.Valid() && g.Valid() && y.Valid() && y.block != 0 && p.addr == q.addr
    ensures Strikes(p, f, y, k) == Strikes(q, g, y, k)
  {
  }

  /** Different addresses are different pages. */
  lemma DifferentPages(p: Pointer, f: Flash, x: Payload, y: Payload, k: nat)
    requires p.Valid() && f.Valid() && x.Valid() && y.Valid() && x.block != 0 && y.block != 0 && p.addr % PAGE == 0
    requires Dfu.BlockAddress(p.addr, x.block) != Dfu.BlockAddress(p.addr, y.block)
    ensures !(Strikes(p, f, x, k) && Strikes(p, f, y, k))
  {
    hide Dfu.BlockAddress, PageIndex;
    AlignedBlock(p.addr, x.block);
    AlignedBlock(p.addr, y.block);
    var a, b := Dfu.BlockAddress(p.addr, x.block), Dfu.BlockAddress(p.addr, y.block);
    if APP <= a < FLASH_END && APP <= b < FLASH_END {
      PageAddress(a);
      PageAddress(b);
    }
  }

  /** Blocks for different pages commute. */
  lemma DistinctBlocksCommute(m: Machine, x: Payload, y: Payload)
    requires m.Valid() && x.Valid() && y.Valid() && x.block != 0 && y.block != 0
    requires m.driver.prog.addr % PAGE == 0
    requires Dfu.BlockAddress(m.driver.prog.addr, x.block) != Dfu.BlockAddress(m.driver.prog.addr, y.block)
    ensures PerformAll(m, [x, y]).flash.mem == PerformAll(m, [y, x]).flash.mem
  {
    hide Perform, PerformAll, Page, Content, Strikes, LastWriter, Dfu.BlockAddress;
    var p, f := PointerOf(m.driver), m.flash;
    var a, b := PerformAll(m, [x, y]).flash.mem, PerformAll(m, [y, x]).flash.mem;
    forall k: nat | (k + 1) * PAGE <= FLASH_SIZE
      ensures Page(a, k) == Page(b, k)
    {
      PagesAreLastWritten(m, [x, y], k);
      PagesAreLastWritten(m, [y, x], k);
      TwoBlocks(p, f, x, y, k, Page(f.mem, k));
      TwoBlocks(p, f, y, x, k, Page(f.mem, k));
      DifferentPages(p, f, x, y, k);
    }
    PagesDetermineFlash(a, b);
  }

  /** Sending a block again, whatever was sent for its page before, replaces the page. */
  lemma ResendReplaces(m: Machine, x: Payload, y: Payload)
    requires m.Valid() && x.Valid() && y.Valid() && x.block == y.block != 0
    requires m.driver.prog.addr % PAGE == 0
    ensures PerformAll(m, [x, y]).flash.mem == PerformAll(m, [y]).flash.mem
  {
    hide Perform, PerformAll, Page, Content, LastWriter, Dfu.BlockAddress, PageIndex;
    var p, f := PointerOf(m.driver), m.flash;
    var a, b := PerformAll(m, [x, y]).flash.mem, PerformAll(m, [y]).flash.mem;
    forall k: nat | (k + 1) * PAGE <= FLASH_SIZE
      ensures Page(a, k) == Page(b, k)
    {
      PagesAreLastWritten(m, [x, y], k);
      PagesAreLastWritten(m, [y], k);
      TwoBlocks(p, f, x, y, k, Page(f.mem, k));
      OneBlock(p, f, y, k, Page(f.mem, k));
    }
    PagesDetermineFlash(a, b);
  }

  /** A block for a page of the application, with the address pointer at the start of a page. */
  lemma PageEffect(m: Machine, x: Payload)
    requires m.Valid() && x.Valid() && x.block != 0 && m.driver.prog.addr % PAGE == 0
    requires APP <= Dfu.BlockAddress(m.driver.prog.addr, x.block) < FLASH_END
    ensures var r, a := Perform(m, x), Dfu.BlockAddress(m.driver.prog.addr, x.block);
      && r.driver.prog.addr == m.driver.prog.addr
      && r.flash == m.flash.(mem := Splice(m.flash.mem, PageIndex(a) * PAGE, Padded(x.data)))
  {
    hide Perform, Dfu.BlockAddress, WrittenAt, Padded, Splice, PageIndex, NextHead;
    PerformEffect(m, x);
    AlignedBlock(m.driver.prog.addr, x.block);
    BlockAtPage(m.flash, Dfu.BlockAddress(m.driver.prog.addr, x.block), x.data);
  }

  // The image

  /** The blocks of an image, numbered from `block`. */
  function ImageBlocks(image: seq<byte>, block: int): (xs: seq<Payload>)
    decreases |image|
  {
    if image == [] then []
    else if |image| <= PAGE then [Payload(block, image)]
    else [Payload(block, image[..PAGE])] + ImageBlocks(image[PAGE..], block + 1)
  }

  /** The image as it ends up in the flash: without an odd last byte, its last page erased
      behind it. */
  function PaddedImage(image: seq<byte>): (p: seq<byte>)
    ensures |p| == (|image| + PAGE - 1) / PAGE * PAGE
    decreases |image|
  {
    if image == [] then []
    else if |image| <= PAGE then Padded(image)
    else Padded(image[..PAGE]) + PaddedImage(image[PAGE..])
  }

  /** The padded image is the image, erased bytes behind it, and a missing odd last byte. */
  lemma {:induction false} PaddedImageBytes(image: seq<byte>)
    ensures |EvenPart(image)| <= |PaddedImage(image)|
    ensures PaddedImage(image)[..|EvenPart(image)|] == EvenPart(image)
    ensures forall i :: |EvenPart(image)| <= i < |PaddedImage(image)| ==> PaddedImage(image)[i] == ERASED
    decreases |image|
  {
    if |image| > PAGE {
      PaddedImageBytes(image[PAGE..]);
      var p := PaddedImage(image[PAGE..]);
      assert EvenPart(image[..PAGE]) == image[..PAGE];
      assert Padded(image[..PAGE]) == image[..PAGE];
      assert EvenPart(image) == image[..PAGE] + EvenPart(image[PAGE..]);
    }
  }

  lemma {:induction false} ImageBlocksValid(image: seq<byte>, block: int)
    requires 0 < block && block + |image| / PAGE < U16 - 1
    ensures AllValid(ImageBlocks(image, block))
    decreases |image|
  {
    if |image| > PAGE {
      ImageBlocksValid(image[PAGE..], block + 1);
    }
  }

  /** Downloading the blocks of an image, from block 2 + k on, with the address pointer at the
      application, splices the padded image into the flash behind the first k pages. */
  lemma {:induction false} ImageEffect(m: Machine, image: seq<byte>, k: nat)
    requires m.Valid() && m.driver.prog.addr == APP && k * PAGE + |image| <= PAYLOAD
    ensures AllValid(ImageBlocks(image, k + 2))
    ensures BOOT_SIZE + k * PAGE + |PaddedImage(image)| <= FLASH_SIZE
    ensures PerformAll(m, ImageBlocks(image, k + 2)).flash
         == m.flash.(mem := Splice(m.flash.mem, BOOT_SIZE + k * PAGE, PaddedImage(image)))
    decreases |image|
  {
    hide Perform, Padded, Splice;
    ImageBlocksValid(image, k + 2);
    if image == [] {
      EmptySplice(m.flash.mem, BOOT_SIZE + k * PAGE);
    } else {
      var chunk := if |image| <= PAGE then image else image[..PAGE];
      var x := Payload(k + 2, chunk);
      ImageBlock(m, x, k);
      var n := Perform(m, x);
      if |image| <= PAGE {
        assert [x][1..] == [];
      } else {
        var rest := image[PAGE..];
        ImageEffect(n, rest, k + 1);
        assert ImageBlocks(image, k + 2)[1..] == ImageBlocks(rest, k + 3);
        SpliceAppend(m.flash.mem, BOOT_SIZE + k * PAGE, Padded(chunk), PaddedImage(rest));
      }
    }
  }

  lemma EmptySplice(s: seq<byte>, off: nat)
    requires off <= |s|
    ensures Splice(s, off, []) == s
  {
  }

  lemma ImageBlock(m: Machine, x: Payload, k: nat)
    requires m.Valid() && x.Valid() && m.driver.prog.addr == APP && x.block == k + 2 && (k + 1) * PAGE <= PAYLOAD
    ensures var n := Perform(m, x);
      n.driver.prog.addr == APP && n.flash == m.flash.(mem := Splice(m.flash.mem, BOOT_SIZE + k * PAGE, Padded(x.data)))
  {
    hide Perform, Splice, Padded;
    assert APP % PAGE == 0;
    assert Dfu.BlockAddress(APP, x.block) == APP + k * PAGE;
    PageEffect(m, x);
    PageAddress(APP + k * PAGE);
  }
}
