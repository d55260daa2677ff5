/** The on-chip flash as the bootloader uses it (Core/Src/flash.c, Core/Inc/flash_config.h):
    pages of 1 KB that are erased as a whole, and halfwords that can only be programmed when
    they are erased. */
module FlashMemory {
  import opened Bytes

  const FLASH_BASE := 0x0800_0000
  const FLASH_SIZE := 128 * 1024
  const FLASH_END := FLASH_BASE + FLASH_SIZE
  const BOOT_SIZE := 8 * 1024
  const PAYLOAD := 120 * 1024
  const APP := FLASH_BASE + BOOT_SIZE
  const PAGE := 1024
  const ERASED: byte := 0xFF

  /** `locked` is the LOCK bit of FLASH_CR. Every byte outside the flash reads as `outside`. */
  datatype Flash = Flash(mem: seq<byte>, locked: bool, outside: byte) {
    predicate Valid() {
      |mem| == FLASH_SIZE
    }
  }

  predicate InFlash(a: int) {
    FLASH_BASE <= a < FLASH_END
  }

  function Read(f: Flash, a: int): byte
    requires f.Valid()
  {
    if InFlash(a) then f.mem[a - FLASH_BASE] else f.outside
  }

  /** The byte i places above a. Addresses are 32-bit and wrap. */
  function ReadAt(f: Flash, a: int, i: nat): byte
    requires f.Valid()
  {
    Read(f, (a + i) % U32)
  }

  /** The check reads 1024 bytes from a on, whether or not a starts a page. */
  predicate PageIsErased(f: Flash, a: int)
    requires f.Valid()
  {
    forall i :: 0 <= i < PAGE ==> ReadAt(f, a, i) == ERASED
  }

  /** The offset of the page that contains address a. */
  function PageStart(a: int): (p: int)
    requires InFlash(a)
    ensures 0 <= p <= a - FLASH_BASE < p + PAGE <= FLASH_SIZE
    ensures p % PAGE == 0
  {
    (a - FLASH_BASE) / PAGE * PAGE
  }

  /** Erases the page containing a. Nothing happens while the flash is locked. */
  function ErasePage(f: Flash, a: int): (r: Flash)
    requires f.Valid()
    ensures r.Valid()
  {
    if f.locked || !InFlash(a) then f else f.(mem := Splice(f.mem, PageStart(a), Fill(PAGE, ERASED)))
  }

  /** The flash takes a halfword only at an even address, and only over an erased halfword
      or when the halfword is zero. */
  predicate Accepts(f: Flash, a: int, lo: byte, hi: byte)
    requires f.Valid()
  {
    && !f.locked && InFlash(a) && a % 2 == 0
    && ((f.mem[a - FLASH_BASE] == ERASED && f.mem[a + 1 - FLASH_BASE] == ERASED) || (lo == 0 && hi == 0))
  }

  function ProgramHalf(f: Flash, a: int, lo: byte, hi: byte): (r: Flash)
    requires f.Valid()
    ensures r.Valid()
  {
    if Accepts(f, a, lo, hi) then f.(mem := Splice(f.mem, a - FLASH_BASE, [lo, hi])) else f
  }

  /** Programs the first n halfwords of data from address a on, in order. */
  function ProgramHalves(f: Flash, a: int, data: seq<byte>, n: nat): (r: Flash)
    requires f.Valid() && 2 * n <= |data|
    ensures r.Valid() && r.locked == f.locked && r.outside == f.outside
  {
    if n == 0 then f
    else ProgramHalf(ProgramHalves(f, a, data, n - 1), (a + 2 * (n - 1)) % U32, data[2 * (n - 1)], data[2 * (n - 1) + 1])
  }

  /** An odd last byte is not programmed. */
  function ProgramBuffer(f: Flash, a: int, data: seq<byte>): (r: Flash)
    requires f.Valid()
    ensures r.Valid()
  {
    ProgramHalves(f, a, data, |data| / 2)
  }

  function EraseIfNeeded(f: Flash, a: int): (r: Flash)
    requires f.Valid()
    ensures r.Valid() && r.locked == f.locked && r.outside == f.outside
  {
    if PageIsErased(f, a) then f else ErasePage(f, a)
  }

  /** What a data block does to the flash: erase the page of a, then program. */
  function WriteBlock(f: Flash, a: int, data: seq<byte>): (r: Flash)
    requires f.Valid()
    ensures r.Valid() && r.locked == f.locked && r.outside == f.outside
  {
    ProgramBuffer(EraseIfNeeded(f, a), a, data)
  }

  /** Page k of the flash. */
  function Page(mem: seq<byte>, k: nat): (p: seq<byte>)
    requires |mem| == FLASH_SIZE && (k + 1) * PAGE <= FLASH_SIZE
    ensures |p| == PAGE
  {
    mem[k * PAGE..(k + 1) * PAGE]
  }

  /** The part of a block that is programmed: all of it but an odd last byte. */
  function EvenPart(data: seq<byte>): (d: seq<byte>)
    ensures |d| == |data| / 2 * 2
  {
    data[..|data| / 2 * 2]
  }

  /** A page holding a block, erased behind it. */
  function Padded(data: seq<byte>): (p: seq<byte>)
    requires |data| <= PAGE
    ensures |p| == PAGE
  {
    EvenPart(data) + Fill(PAGE - |EvenPart(data)|, ERASED)
  }

  lemma ProgramHalfOverErased(g: Flash, at: int, lo: byte, hi: byte)
    requires g.Valid() && !g.locked && InFlash(at) && at % 2 == 0
    requires g.mem[at - FLASH_BASE] == ERASED && g.mem[at + 1 - FLASH_BASE] == ERASED
    ensures ProgramHalf(g, at, lo, hi) == g.(mem := Splice(g.mem, at - FLASH_BASE, [lo, hi]))
  {
  }

  lemma NextAddress(a: int, n: nat)
    requires a % 2 == 0 && n % 2 == 0 && FLASH_BASE <= a && a + n + 2 <= FLASH_END
    ensures (a + n) % U32 == a + n && (a + n) % 2 == 0
  {
  }

  /** One more halfword over erased flash, behind the part already programmed. */
  lemma ProgramNext(f: Flash, a: int, done: seq<byte>, lo: byte, hi: byte)
    requires f.Valid() && !f.locked
    requires a % 2 == 0 && |done| % 2 == 0 && FLASH_BASE <= a && a + |done| + 2 <= FLASH_END
    requires f.mem[a - FLASH_BASE + |done|] == ERASED && f.mem[a - FLASH_BASE + |done| + 1] == ERASED
    ensures ProgramHalf(f.(mem := Splice(f.mem, a - FLASH_BASE, done)), (a + |done|) % U32, lo, hi)
         == f.(mem := Splice(f.mem, a - FLASH_BASE, done + [lo, hi]))
  {
    NextAddress(a, |done|);
    ProgramHalfOverErased(f.(mem := Splice(f.mem, a - FLASH_BASE, done)), a + |done|, lo, hi);
    SpliceAppend(f.mem, a - FLASH_BASE, done, [lo, hi]);
  }

  lemma ProgramOneMore(f: Flash, a: int, data: seq<byte>, n: nat)
    requires f.Valid() && !f.locked && 2 * n + 2 <= |data|
    requires a % 2 == 0 && FLASH_BASE <= a && a + 2 * n + 2 <= FLASH_END
    requires f.mem[a - FLASH_BASE + 2 * n] == ERASED && f.mem[a - FLASH_BASE + 2 * n + 1] == ERASED
    requires ProgramHalves(f, a, data, n) == f.(mem := Splice(f.mem, a - FLASH_BASE, data[..2 * n]))
    ensures ProgramHalves(f, a, data, n + 1) == f.(mem := Splice(f.mem, a - FLASH_BASE, data[..2 * n + 2]))
  {
    var done := data[..2 * n];
    ProgramNext(f, a, done, data[2 * n], data[2 * n + 1]);
    assert done + [data[2 * n], data[2 * n + 1]] == data[..2 * n + 2];
  }

  lemma {:induction false} ProgramErasedHalves(f: Flash, a: int, data: seq<byte>, n: nat)
    requires f.Valid() && !f.locked && 2 * n <= |data|
    requires a % 2 == 0 && FLASH_BASE <= a && a + 2 * n <= FLASH_END
    requires forall i :: a - FLASH_BASE <= i < a - FLASH_BASE + 2 * n ==> f.mem[i] == ERASED
    ensures ProgramHalves(f, a, data, n) == f.(mem := Splice(f.mem, a - FLASH_BASE, data[..2 * n]))
  {
    if n == 0 {
      assert Splice(f.mem, a - FLASH_BASE, data[..0]) == f.mem;
    } else {
      ProgramErasedHalves(f, a, data, n - 1);
      ProgramOneMore(f, a, data, n - 1);
    }
  }

  /** A block written at the start of a page leaves that page holding exactly the block,
      erased behind it, whatever the flash held before, and no other page changes. */
  lemma WriteBlockAtPage(f: Flash, k: nat, data: seq<byte>)
    requires f.Valid() && !f.locked && (k + 1) * PAGE <= FLASH_SIZE && |data| <= PAGE
    ensures WriteBlock(f, FLASH_BASE + k * PAGE, data) == f.(mem := Splice(f.mem, k * PAGE, Padded(data)))
  {
    var a, o := FLASH_BASE + k * PAGE, k * PAGE;
    EraseAtPage(f, k);
    var g := EraseIfNeeded(f, a);
    var n := |data| / 2;
    ProgramErasedHalves(g, a, data, n);
    assert Splice(g.mem, o, data[..2 * n]) == Splice(f.mem, o, Padded(data));
  }

  lemma EraseAtPage(f: Flash, k: nat)
    requires f.Valid() && !f.locked && (k + 1) * PAGE <= FLASH_SIZE
    ensures EraseIfNeeded(f, FLASH_BASE + k * PAGE) == f.(mem := Splice(f.mem, k * PAGE, Fill(PAGE, ERASED)))
  {
    var a, o := FLASH_BASE + k * PAGE, k * PAGE;
    assert PageStart(a) == o;
    if PageIsErased(f, a) {
      forall i | o <= i < o + PAGE
        ensures f.mem[i] == ERASED
      {
        assert ReadAt(f, a, i - o) == ERASED;
      }
      assert Splice(f.mem, o, Fill(PAGE, ERASED)) == f.mem;
    }
  }

  // Any address

  /** The 1024 bytes from offset at on are erased, bytes behind the flash being `outside`. */
  predicate WindowErased(mem: seq<byte>, outside: byte, at: nat)
    requires |mem| == FLASH_SIZE
  {
    forall i :: at <= i < at + PAGE ==> ByteAt(mem, outside, i) == ERASED
  }

  function ByteAt(mem: seq<byte>, outside: byte, i: nat): byte
    requires |mem| == FLASH_SIZE
  {
    if i < FLASH_SIZE then mem[i] else outside
  }

  /** The start of the page that contains offset at. */
  function PageOf(at: nat): (p: nat)
    requires at < FLASH_SIZE
    ensures p <= at < p + PAGE <= FLASH_SIZE
  {
    at / PAGE * PAGE
  }

  /** What an erase at any offset does: the window of the check begins at the offset, the page that
      is erased contains it. */
  function ErasedAt(mem: seq<byte>, outside: byte, at: nat): (r: seq<byte>)
    requires |mem| == FLASH_SIZE && at < FLASH_SIZE
    ensures |r| == FLASH_SIZE
  {
    if WindowErased(mem, outside, at) then mem else Splice(mem, PageOf(at), Fill(PAGE, ERASED))
  }

  lemma ReadIsByte(f: Flash, at: nat, i: nat)
    requires f.Valid() && at < FLASH_SIZE && i < PAGE
    ensures ReadAt(f, FLASH_BASE + at, i) == ByteAt(f.mem, f.outside, at + i)
  {
  }

  lemma WindowIsCheck(f: Flash, at: nat)
    requires f.Valid() && at < FLASH_SIZE
    ensures PageIsErased(f, FLASH_BASE + at) <==> WindowErased(f.mem, f.outside, at)
  {
    hide ReadAt, ByteAt;
    var a := FLASH_BASE + at;
    if PageIsErased(f, a) {
      forall i | at <= i < at + PAGE
        ensures ByteAt(f.mem, f.outside, i) == ERASED
      {
        ReadIsByte(f, at, i - at);
      }
    }
    if WindowErased(f.mem, f.outside, at) {
      forall i | 0 <= i < PAGE
        ensures ReadAt(f, a, i) == ERASED
      {
        ReadIsByte(f, at, i);
      }
    }
  }

  lemma EraseAnywhere(f: Flash, at: nat)
    requires f.Valid() && !f.locked && at < FLASH_SIZE
    ensures EraseIfNeeded(f, FLASH_BASE + at) == f.(mem := ErasedAt(f.mem, f.outside, at))
  {
    hide PageIsErased, WindowErased;
    WindowIsCheck(f, at);
  }

  /** An erase leaves the page of its address blank if and only if the check has found a byte that
      is not erased, or the bytes of the page in front of the address, which it does not look at,
      were erased before. */
  lemma ErasedPageIsBlank(mem: seq<byte>, outside: byte, at: nat)
    requires |mem| == FLASH_SIZE && at + PAGE <= FLASH_SIZE
    ensures var p := PageOf(at);
      (forall i :: p <= i < p + PAGE ==> ErasedAt(mem, outside, at)[i] == ERASED) <==>
      (exists i :: at <= i < at + PAGE && mem[i] != ERASED) || (forall i :: p <= i < at ==> mem[i] == ERASED)
  {
    var p, r := PageOf(at), ErasedAt(mem, outside, at);
    if WindowErased(mem, outside, at) {
      forall i | at <= i < at + PAGE
        ensures mem[i] == ERASED
      {
        assert ByteAt(mem, outside, i) == ERASED;
      }
    } else {
      var i :| at <= i < at + PAGE && ByteAt(mem, outside, i) != ERASED;
      assert mem[i] != ERASED;
    }
  }

  /** So an erase can do nothing to a page that needs it. */
  lemma EraseMissesFront(f: Flash)
    requires f.Valid() && f.mem[BOOT_SIZE] == 0
    requires forall i :: BOOT_SIZE < i < FLASH_SIZE ==> f.mem[i] == ERASED
    ensures EraseIfNeeded(f, APP + 4) == f && PageStart(APP + 4) == BOOT_SIZE
  {
    WindowIsCheck(f, BOOT_SIZE + 4);
  }

  /** The halfword at offset i takes the bytes lo and hi. */
  predicate Takes(mem: seq<byte>, i: nat, lo: byte, hi: byte)
    requires i + 2 <= |mem|
  {
    (mem[i] == ERASED && mem[i + 1] == ERASED) || (lo == 0 && hi == 0)
  }

  /** The memory after n halfwords of data were programmed from offset at on: each halfword has
      the data if it takes it, and is as it was if not. */
  function Overlaid(mem: seq<byte>, at: nat, data: seq<byte>, n: nat): (r: seq<byte>)
    requires 2 * n <= |data| && at + 2 * n <= |mem|
    ensures |r| == |mem|
  {
    seq(|mem|, i requires 0 <= i < |mem| =>
      if at <= i < at + 2 * n then
        var j := (i - at) / 2;
        if Takes(mem, at + 2 * j, data[2 * j], data[2 * j + 1]) then data[i - at] else mem[i]
      else mem[i])
  }

  lemma OverlayNext(mem: seq<byte>, at: nat, data: seq<byte>, n: nat)
    requires 2 * n + 2 <= |data| && at + 2 * n + 2 <= |mem|
    ensures var o, i := Overlaid(mem, at, data, n), at + 2 * n;
      Overlaid(mem, at, data, n + 1) ==
      if Takes(o, i, data[2 * n], data[2 * n + 1]) then Splice(o, i, [data[2 * n], data[2 * n + 1]]) else o
  {
    var o, i := Overlaid(mem, at, data, n), at + 2 * n;
    assert o[i] == mem[i] && o[i + 1] == mem[i + 1];
    var next := Overlaid(mem, at, data, n + 1);
    var takes := Takes(mem, i, data[2 * n], data[2 * n + 1]);
    forall k | 0 <= k < |mem|
      ensures next[k] == if i <= k < i + 2 && takes then data[k - at] else o[k]
    {
      if i <= k < i + 2 {
        assert (k - at) / 2 == n;
      }
    }
    if takes {
      assert next == Splice(o, i, [data[2 * n], data[2 * n + 1]]);
    } else {
      assert next == o;
    }
  }

  lemma NothingOverlaid(mem: seq<byte>, at: nat, data: seq<byte>)
    requires at <= |mem|
    ensures Overlaid(mem, at, data, 0) == mem
  {
  }

  /** Programming at any even address of the flash, whatever it holds. */
  lemma {:induction false} ProgramAnywhere(f: Flash, at: nat, data: seq<byte>, n: nat)
    requires f.Valid() && !f.locked && at % 2 == 0 && 2 * n <= |data| && at + 2 * n <= FLASH_SIZE
    ensures ProgramHalves(f, FLASH_BASE + at, data, n) == f.(mem := Overlaid(f.mem, at, data, n))
  {
    hide Overlaid, Takes, Splice, ProgramHalf;
    if n == 0 {
      NothingOverlaid(f.mem, at, data);
    } else {
      ProgramAnywhere(f, at, data, n - 1);
      OverlayStep(f, at, data, n - 1);
    }
  }

  lemma OverlayStep(f: Flash, at: nat, data: seq<byte>, n: nat)
    requires f.Valid() && !f.locked && at % 2 == 0 && 2 * n + 2 <= |data| && at + 2 * n + 2 <= FLASH_SIZE
    ensures var g, a := f.(mem := Overlaid(f.mem, at, data, n)), (FLASH_BASE + at + 2 * n) % U32;
      ProgramHalf(g, a, data[2 * n], data[2 * n + 1]) == f.(mem := Overlaid(f.mem, at, data, n + 1))
  {
    hide Overlaid, Takes, Splice, ProgramHalf;
    OverlayNext(f.mem, at, data, n);
    ProgramTakes(f.(mem := Overlaid(f.mem, at, data, n)), at, n, data[2 * n], data[2 * n + 1]);
  }

  lemma ProgramTakes(f: Flash, at: nat, n: nat, lo: byte, hi: byte)
    requires f.Valid() && !f.locked && at % 2 == 0 && at + 2 * n + 2 <= FLASH_SIZE
    ensures ProgramHalf(f, (FLASH_BASE + at + 2 * n) % U32, lo, hi) ==
      f.(mem := if Takes(f.mem, at + 2 * n, lo, hi) then Splice(f.mem, at + 2 * n, [lo, hi]) else f.mem)
  {
    NextAddress(FLASH_BASE + at, 2 * n);
  }

  /** At an odd address nothing is programmed. */
  lemma {:induction false} ProgramOdd(f: Flash, a: int, data: seq<byte>, n: nat)
    requires f.Valid() && a % 2 == 1 && 2 * n <= |data|
    ensures ProgramHalves(f, a, data, n) == f
  {
    if n > 0 {
      ProgramOdd(f, a, data, n - 1);
      OddStaysOdd(a, n - 1);
    }
  }

  lemma OddStaysOdd(a: int, n: nat)
    requires a % 2 == 1
    ensures (a + 2 * n) % U32 % 2 == 1
  {
    var q := (a + 2 * n) / U32;
    assert (a + 2 * n) % U32 == a + 2 * n - U32 * q;
  }

  /** What a data block does at any offset. */
  function WrittenAt(mem: seq<byte>, outside: byte, at: nat, data: seq<byte>): (r: seq<byte>)
    requires |mem| == FLASH_SIZE && at < FLASH_SIZE && at + |data| <= FLASH_SIZE
    ensures |r| == FLASH_SIZE
  {
    var e := ErasedAt(mem, outside, at);
    if at % 2 == 0 then Overlaid(e, at, data, |data| / 2) else e
  }

  lemma WriteBlockAnywhere(f: Flash, at: nat, data: seq<byte>)
    requires f.Valid() && !f.locked && at < FLASH_SIZE && at + |data| <= FLASH_SIZE
    ensures WriteBlock(f, FLASH_BASE + at, data) == f.(mem := WrittenAt(f.mem, f.outside, at, data))
  {
    hide ErasedAt, Overlaid, ProgramHalves, EraseIfNeeded;
    EraseAnywhere(f, at);
    var g := EraseIfNeeded(f, FLASH_BASE + at);
    if at % 2 == 0 {
      ProgramAnywhere(g, at, data, |data| / 2);
    } else {
      ProgramOdd(g, FLASH_BASE + at, data, |data| / 2);
    }
  }

  /** Splicing a whole page changes that page and no other. */
  lemma SplicePage(mem: seq<byte>, k: nat, p: seq<byte>, j: nat)
    requires |mem| == FLASH_SIZE && |p| == PAGE
    requires (k + 1) * PAGE <= FLASH_SIZE && (j + 1) * PAGE <= FLASH_SIZE
    ensures Page(Splice(mem, k * PAGE, p), j) == if j == k then p else Page(mem, j)
  {
    var r := Splice(mem, k * PAGE, p);
    if j < k {
      assert (j + 1) * PAGE <= k * PAGE;
    } else if j > k {
      assert (k + 1) * PAGE <= j * PAGE;
    }
    assert Page(r, j) == if j == k then p else Page(mem, j);
  }

  /** The bootloader, the first 8 KB, is the same in both. */
  predicate SameBootloader(f: Flash, g: Flash)
    requires f.Valid() && g.Valid()
  {
    f.mem[..BOOT_SIZE] == g.mem[..BOOT_SIZE]
  }

  lemma EraseKeepsBootloader(f: Flash, a: int)
    requires f.Valid() && a >= APP
    ensures SameBootloader(ErasePage(f, a), f)
    ensures SameBootloader(EraseIfNeeded(f, a), f)
  {
  }

  /** Programming at or above the application address never reaches the bootloader, even
      when the addresses wrap past 2^32. */
  lemma {:induction false} ProgramKeepsBootloader(f: Flash, a: int, data: seq<byte>, n: nat)
    requires f.Valid() && APP <= a < U32 && 2 * n <= |data| <= PAGE
    ensures SameBootloader(ProgramHalves(f, a, data, n), f)
  {
    if n > 0 {
      ProgramKeepsBootloader(f, a, data, n - 1);
      var at := (a + 2 * (n - 1)) % U32;
      assert at >= APP || at < PAGE;
    }
  }

  lemma WriteBlockKeepsBootloader(f: Flash, a: int, data: seq<byte>)
    requires f.Valid() && APP <= a < U32 && |data| <= PAGE
    ensures SameBootloader(WriteBlock(f, a, data), f)
  {
    EraseKeepsBootloader(f, a);
    ProgramKeepsBootloader(EraseIfNeeded(f, a), a, data, |data| / 2);
  }

  /** A locked flash never changes. */
  lemma {:induction false} LockedNeverChanges(f: Flash, a: int, data: seq<byte>, n: nat)
    requires f.Valid() && f.locked && 2 * n <= |data|
    ensures ErasePage(f, a) == f && ProgramHalves(f, a, data, n) == f
  {
    if n > 0 {
      LockedNeverChanges(f, a, data, n - 1);
    }
  }
}
