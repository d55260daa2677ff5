/** The start of main (Core/Src/main.c, lines 287 to 384) as the firmware runs it, on the flash
    driver, the external SRAM and the reboot flag. It is proved against the script and the
    decision of module Boot: a reset can stop it between any two of the storage contents in
    `passed`, and these are the cuts of the script, in order. */
module BootMain {
  import opened Bytes
  import opened FlashMemory
  import opened SramImage
  import opened Boot
  import Checksum
  import FlashDriver
  import Memory

  /** The word at the bottom of the stack that asks for DFU mode. */
  const REBOOT_DFU := 0xCC00_FFEE

  /** The storage contents after the first 0, 1, ..., k actions of the script. */
  ghost predicate Cuts(passed: seq<Storage>, u: Storage, script: seq<Action>, k: nat)
    requires u.Valid()
  {
    k <= |script| && |passed| == k + 1 && forall j :: 0 <= j <= k ==> passed[j] == Exec(u, script[..j])
  }

  lemma NextCut(passed: seq<Storage>, u: Storage, script: seq<Action>, k: nat, now: Storage)
    requires u.Valid() && Cuts(passed, u, script, k) && k < |script|
    requires passed[k].Valid() && now == Act(passed[k], script[k])
    ensures Cuts(passed + [now], u, script, k + 1)
  {
    hide Act, Exec;
    assert script[..k + 1] == script[..k] + [script[k]];
    ExecAppend(u, script[..k], [script[k]]);
    ExecOne(passed[k], script[k]);
  }

  /** The storage with each of the flash contents in turn. */
  function Behind(fs: seq<Flash>, sram: seq<byte>, n: nat): (ss: seq<Storage>)
    requires n < |fs|
    ensures |ss| == n
  {
    seq(n, j requires 0 <= j < n => Storage(fs[j + 1], sram))
  }

  /** The actions of the script from position k on program the first n halfwords of data. */
  ghost predicate Programs(script: seq<Action>, k: nat, a: int, data: seq<byte>, n: nat)
    requires 2 * n <= |data|
  {
    && k + n <= |script|
    && forall j :: 0 <= j < n ==> script[k + j] == Program((a + 2 * j) % U32, data[2 * j], data[2 * j + 1])
  }

  /** Programming a buffer goes through the cuts of as many actions. */
  lemma {:induction false} ProgramCuts(passed: seq<Storage>, u: Storage, script: seq<Action>, k: nat,
                                       fs: seq<Flash>, a: int, data: seq<byte>, n: nat)
    requires u.Valid() && Cuts(passed, u, script, k) && passed[k].Valid()
    requires 2 * n <= |data| && n < |fs| && Programs(script, k, a, data, n)
    requires forall j :: 0 <= j <= n ==> fs[j] == ProgramHalves(passed[k].flash, a, data, j)
    ensures Cuts(passed + Behind(fs, passed[k].sram, n), u, script, k + n)
  {
    hide Cuts, ProgramHalves, Act;
    CutsLength(passed, u, script, k);
    var s := passed[k];
    if n == 0 {
      assert passed + Behind(fs, s.sram, 0) == passed;
    } else {
      ProgramCuts(passed, u, script, k, fs, a, data, n - 1);
      var before := passed + Behind(fs, s.sram, n - 1);
      NothingProgrammed(s.flash, a, data);
      LastCut(passed, fs, k, n - 1);
      ProgramAct(s, a, data, n, script[k + (n - 1)]);
      NextCut(before, u, script, k + n - 1, Storage(fs[n], s.sram));
      assert before + [Storage(fs[n], s.sram)] == passed + Behind(fs, s.sram, n);
    }
  }

  lemma CutsLength(passed: seq<Storage>, u: Storage, script: seq<Action>, k: nat)
    requires u.Valid() && Cuts(passed, u, script, k)
    ensures |passed| == k + 1 && k <= |script|
  {
  }

  lemma NothingProgrammed(f: Flash, a: int, data: seq<byte>)
    requires f.Valid()
    ensures ProgramHalves(f, a, data, 0) == f
  {
  }

  lemma ProgramAct(s: Storage, a: int, data: seq<byte>, n: nat, act: Action)
    requires s.Valid() && 0 < n && 2 * n <= |data|
    requires act == Program((a + 2 * (n - 1)) % U32, data[2 * (n - 1)], data[2 * (n - 1) + 1])
    ensures var before := s.(flash := ProgramHalves(s.flash, a, data, n - 1));
      s.(flash := ProgramHalves(s.flash, a, data, n)) == Act(before, act)
  {
    hide ProgramHalf;
  }

  lemma LastCut(passed: seq<Storage>, fs: seq<Flash>, k: nat, n: nat)
    requires |passed| == k + 1 && n < |fs| && fs[0] == passed[k].flash
    ensures (passed + Behind(fs, passed[k].sram, n))[k + n] == Storage(fs[n], passed[k].sram)
  {
  }

  /** The storage is at the k-th cut. */
  ghost predicate AtCut(now: Storage, passed: seq<Storage>, u: Storage, script: seq<Action>, k: nat)
    requires u.Valid()
  {
    Cuts(passed, u, script, k) && passed[k] == now
  }

  lemma FirstAt(u: Storage, script: seq<Action>)
    requires u.Valid()
    ensures AtCut(u, [u], u, script, 0)
  {
    assert script[..0] == [];
  }

  lemma NextAt(now: Storage, next: Storage, passed: seq<Storage>, u: Storage, script: seq<Action>, k: nat)
    requires u.Valid() && now.Valid() && AtCut(now, passed, u, script, k) && k < |script|
    requires next == Act(now, script[k])
    ensures AtCut(next, passed + [next], u, script, k + 1)
  {
    hide Act, Exec;
    NextCut(passed, u, script, k, next);
  }

  lemma PageGuard(size: nat, k: nat)
    ensures k * PAGE < size <==> k < PagesFor(size)
  {
  }

  /** The actions of the script from position n on copy the image found at src. */
  ghost predicate Copies(script: seq<Action>, n: nat, src: seq<byte>) {
    && |script| - n >= |src| / 2
    && forall j :: 0 <= j < |src| / 2 ==> script[n + j] == Program(APP + 2 * j, src[2 * j], src[2 * j + 1])
  }

  predicate IsWords(n: int) {
    n % 4 == 0
  }

  lemma WordsAreHalves(n: nat)
    requires n % 4 == 0
    ensures IsWords(n) && n == 2 * (n / 2)
  {
    HalfOfWords(n, n / 4);
  }

  lemma HalfOfWords(n: nat, q: nat)
    requires n == 4 * q
    ensures n % 2 == 0 && n / 2 == 2 * q
  {
    HalfOfDouble(2 * q);
    DoubleIsEven(2 * q);
  }

  lemma HalfOfDouble(m: nat)
    ensures 2 * m / 2 == m
  {
  }

  lemma DoubleIsEven(m: nat)
    ensures 2 * m % 2 == 0
  {
  }

  /** A chunk is even, and so is what is left behind it. */
  lemma WordsAreEven(n: nat)
    requires IsWords(n)
    ensures n % 2 == 0 && n == 2 * (n / 2) && IsWords(n - n) && IsWords(n - CHUNK)
  {
    var q := n / 4;
    HalfOfWords(n, q);
    assert n - CHUNK == 4 * (q - 64);
  }

  lemma SliceOfSlice(s: seq<byte>, a: nat, n: nat, i: nat, m: nat)
    requires a + n <= |s| && i + m <= n
    ensures s[a..a + n][i..i + m] == s[a + i..a + i + m]
  {
    var x, y := s[a..a + n][i..i + m], s[a + i..a + i + m];
    forall k | 0 <= k < m
      ensures x[k] == y[k]
    {
    }
  }

  /** The part of the copy that one chunk makes. */
  lemma ChunkPrograms(script: seq<Action>, n: nat, src: seq<byte>, h: nat, m: nat)
    requires |src| % 2 == 0 && |src| <= PAYLOAD && Copies(script, n, src) && 2 * (h + m) <= |src|
    ensures Programs(script, n + h, APP + 2 * h, src[2 * h..2 * (h + m)], m)
  {
    var data := src[2 * h..2 * (h + m)];
    forall j | 0 <= j < m
      ensures script[n + h + j] == Program((APP + 2 * h + 2 * j) % U32, data[2 * j], data[2 * j + 1])
    {
      assert script[n + (h + j)] == Program(APP + 2 * (h + j), src[2 * (h + j)], src[2 * (h + j) + 1]);
      assert data[2 * j] == src[2 * h + 2 * j] && data[2 * j + 1] == src[2 * h + (2 * j + 1)];
    }
  }

  /** A chunk takes the storage from one cut to the one m actions later. */
  lemma ChunkAt(now: Storage, next: Storage, passed: seq<Storage>, u: Storage, script: seq<Action>, k: nat,
                fs: seq<Flash>, a: int, data: seq<byte>, m: nat)
    requires u.Valid() && now.Valid() && next.Valid() && AtCut(now, passed, u, script, k)
    requires 2 * m <= |data| && FlashDriver.Passed(fs, now.flash, a, data, m) && Programs(script, k, a, data, m)
    requires next == now.(flash := ProgramHalves(now.flash, a, data, m))
    ensures m < |fs| && AtCut(next, passed + Behind(fs, now.sram, m), u, script, k + m)
  {
    hide ProgramHalves, Programs, Exec;
    NothingProgrammed(now.flash, a, data);
    ProgramCuts(passed, u, script, k, fs, a, data, m);
    LastCut(passed, fs, k, m);
  }

  /** The actions of an update, one by one. */
  lemma ScriptParts(sram: seq<byte>)
    requires IsSram(sram) && HeaderAccepted(sram)
    ensures var script, n := UpdateScript(sram), PagesFor(ImageSize(sram));
      && |script| == n + HEADER + ImageSize(sram) / 2
      && (forall k :: 0 <= k < n ==> script[k] == Erase(APP + k * PAGE))
      && (forall i :: 0 <= i < HEADER ==> script[n + i] == ClearByte(i))
      && Copies(script, n + HEADER, Image(sram))
  {
    hide HeaderAccepted, PagesFor, Image;
    EvenSize(|Image(sram)|);
    var script, n := UpdateScript(sram), PagesFor(ImageSize(sram));
    var image := Image(sram);
    forall j | 0 <= j < |image| / 2
      ensures script[n + HEADER + j] == Program(APP + 2 * j, image[2 * j], image[2 * j + 1])
    {
      assert script[n + HEADER + j] == ProgramScript(image, |image| / 2)[j];
    }
  }

  lemma EvenSize(n: nat)
    requires n % 4 == 0
    ensures n % 2 == 0 && 2 * (n / 2) == n
  {
    assert n == 2 * (2 * (n / 4));
  }

  /** The storage contents that a reset can find during an update: exactly those that module Boot
      assigns to a boot interrupted after 0, 1, ... actions, the last one being a complete update. */
  ghost predicate Interruptions(passed: seq<Storage>, s: Storage)
    requires s.Valid() && HasValidImage(s.sram)
  {
    && |passed| == |UpdateScript(s.sram)| + 1
    && (forall k :: 0 <= k < |passed| ==> passed[k].Valid() && Relocked(passed[k]) == InterruptedBoot(s, k))
    && Relocked(passed[|passed| - 1]) == CompleteBoot(s)
  }

  lemma CutsAreInterruptions(passed: seq<Storage>, s: Storage)
    requires s.Valid() && HasValidImage(s.sram)
    requires Cuts(passed, Unlocked(s), UpdateScript(s.sram), |UpdateScript(s.sram)|)
    ensures Interruptions(passed, s)
  {
    hide HasValidImage, HeaderAccepted, UpdateScript, Exec;
    ValidHeader(s.sram);
    var script := UpdateScript(s.sram);
    assert script[..|script|] == script;
  }

  class Machine {
    const chip: FlashDriver.Chip
    const sram: array<byte>
    /** sram_buf. */
    const buf: array<byte>
    /** The word at the bottom of the stack. */
    var flag: nat

    constructor (chip: FlashDriver.Chip, sram: array<byte>, buf: array<byte>, flag: nat)
      requires chip.Valid() && REGION <= sram.Length < U32 && buf.Length == CHUNK
      requires sram != buf && sram != chip.mem && buf != chip.mem
      ensures Valid() && this.chip == chip && this.sram == sram && this.buf == buf && this.flag == flag
    {
      this.chip, this.sram, this.buf, this.flag := chip, sram, buf, flag;
    }

    ghost predicate Valid()
      reads this, chip
    {
      && chip.Valid() && REGION <= sram.Length < U32 && buf.Length == CHUNK
      && sram != buf && sram != chip.mem && buf != chip.mem
    }

    ghost function Now(): (s: Storage)
      requires Valid()
      reads this, chip, chip.mem, sram
      ensures s.Valid()
    {
      Storage(chip.Model(), sram[..])
    }

    /** if (!_flash_page_is_erased(a)) _flash_erase_page(a). */
    method EraseIfNeeded(a: int)
      requires Valid()
      modifies chip`per, chip`ar, chip.mem
      ensures Valid() && Now() == Act(old(Now()), Erase(a))
    {
      hide FlashMemory.ErasePage, FlashMemory.PageIsErased;
      var erased := chip.PageIsErased(a);
      if !erased {
        chip.ErasePage(a);
      }
    }

    /** The erase loop. */
    method ErasePages(size: nat, ghost u: Storage, ghost script: seq<Action>) returns (ghost passed: seq<Storage>)
      requires Valid() && Now() == u && PagesFor(size) <= |script|
      requires forall k :: 0 <= k < PagesFor(size) ==> script[k] == Erase(APP + k * PAGE)
      modifies chip`per, chip`ar, chip.mem
      ensures Valid() && AtCut(Now(), passed, u, script, PagesFor(size))
    {
      hide PagesFor, Act, AtCut, Cuts;
      FirstAt(u, script);
      passed := [u];
      var a := APP;
      ghost var k: nat := 0;
      PageGuard(size, 0);
      while a < APP + size
        invariant a == APP + k * PAGE && k <= PagesFor(size)
        invariant Valid() && AtCut(Now(), passed, u, script, k)
        decreases APP + size - a
      {
        PageGuard(size, k);
        ghost var now := Now();
        EraseIfNeeded(a);
        NextAt(now, Now(), passed, u, script, k);
        passed := passed + [Now()];
        a := a + 1024;
        k := k + 1;
      }
      PageGuard(size, k);
    }

    /** spi_sram_write of a header of zeros, byte by byte. */
    method ClearHeader(ghost passed: seq<Storage>, ghost u: Storage, ghost script: seq<Action>, ghost n: nat)
      returns (ghost after: seq<Storage>)
      requires Valid() && u.Valid() && AtCut(Now(), passed, u, script, n) && n + HEADER <= |script|
      requires forall i :: 0 <= i < HEADER ==> script[n + i] == ClearByte(i)
      modifies sram
      ensures Valid() && AtCut(Now(), after, u, script, n + HEADER)
      ensures forall i :: HEADER <= i < sram.Length ==> sram[i] == old(sram[i])
    {
      hide AtCut, Cuts;
      after := passed;
      var i := 0;
      while i < HEADER
        invariant 0 <= i <= HEADER
        invariant Valid() && AtCut(Now(), after, u, script, n + i)
        invariant forall j :: HEADER <= j < sram.Length ==> sram[j] == old(sram[j])
      {
        ghost var now := Now();
        sram[i] := 0;
        assert sram[..] == now.sram[i := 0];
        assert script[n + i] == ClearByte(i);
        NextAt(now, Now(), after, u, script, n + i);
        after := after + [Now()];
        i := i + 1;
      }
    }

    /** The copy loop. */
    method CopyImage(offset: nat, size: nat,
                     ghost passed: seq<Storage>, ghost u: Storage, ghost script: seq<Action>, ghost n: nat)
      returns (ghost after: seq<Storage>)
      requires Valid() && u.Valid() && AtCut(Now(), passed, u, script, n)
      requires size % 4 == 0 && size <= PAYLOAD && offset + size <= sram.Length
      requires Copies(script, n, sram[offset..offset + size])
      modifies chip, chip.mem, buf
      ensures Valid() && AtCut(Now(), after, u, script, n + size / 2)
    {
      hide AtCut, Copies, IsWords, Splice;
      WordsAreHalves(size);
      after := passed;
      var written := 0;
      ghost var h: nat := 0;
      while written < size
        invariant 0 <= written == 2 * h <= size && IsWords(size - written)
        invariant Valid() && AtCut(Now(), after, u, script, n + h)
      {
        var toread := size - written;
        WordsAreEven(toread);
        if toread > CHUNK {
          toread := CHUNK;
        }
        after := CopyChunk(offset, size, written, toread, after, u, script, n, h);
        written := written + toread;
        h := h + toread / 2;
      }
    }

    /** One chunk is read from the SRAM and programmed. */
    method CopyChunk(offset: nat, size: nat, written: nat, toread: nat,
                     ghost passed: seq<Storage>, ghost u: Storage, ghost script: seq<Action>, ghost n: nat, ghost h: nat)
      returns (ghost after: seq<Storage>)
      requires Valid() && u.Valid() && written == 2 * h && AtCut(Now(), passed, u, script, n + h)
      requires size % 2 == 0 && size <= PAYLOAD && offset + size <= sram.Length
      requires toread <= CHUNK && toread % 2 == 0 && written + toread <= size
      requires Copies(script, n, sram[offset..offset + size])
      modifies chip, chip.mem, buf
      ensures Valid() && AtCut(Now(), after, u, script, n + h + toread / 2)
    {
      hide AtCut, Copies, Programs, ProgramHalves, FlashDriver.Passed, Splice;
      ghost var now, m := Now(), toread / 2;
      ReadSram(offset + written, toread);
      ghost var data := buf[..toread];
      assert toread == 2 * m;
      SliceOfSlice(sram[..], offset, size, 2 * h, 2 * m);
      ghost var fs := chip.ProgramBuffer(APP + written, buf, toread);
      ChunkPrograms(script, n, sram[offset..offset + size], h, m);
      ChunkAt(now, Now(), passed, u, script, n + h, fs, APP + written, data, m);
      after := passed + Behind(fs, now.sram, m);
    }

    /** spi_sram_read into sram_buf. */
    method ReadSram(addr: nat, len: nat)
      requires Valid() && len <= CHUNK && addr + len <= sram.Length
      modifies buf
      ensures buf[..len] == sram[addr..addr + len]
    {
      Memory.Memcpy(buf, 0, sram, addr, len);
    }

    /** The update: unlock, erase, clear the header, copy, clear the reboot flags. */
    method UpdateFromSram() returns (ghost passed: seq<Storage>)
      requires Valid() && HasValidImage(sram[..])
      modifies chip, chip.mem, sram, buf, this`flag
      ensures Valid() && flag == 0
      ensures Interruptions(passed, old(Now())) && passed[|passed| - 1] == Now()
    {
      hide HasValidImage, HeaderAccepted, PagesFor, AtCut, Copies, Image, UpdateScript, ImageSize, ImageOffset, Act;
      ghost var s := Now();
      ImageFacts(s.sram);
      ScriptParts(s.sram);
      ghost var script, n := UpdateScript(s.sram), PagesFor(ImageSize(s.sram));
      var offset, size := ReadHeader();
      chip.Unlock();
      passed := ErasePages(size, Unlocked(s), script);
      passed := ClearHeader(passed, Unlocked(s), script, n);
      assert sram[offset..offset + size] == s.sram[offset..offset + size];
      passed := CopyImage(offset, size, passed, Unlocked(s), script, n + HEADER);
      flag := 0;
      LastIsNow(Now(), passed, s);
    }

    /** The header word at position i. */
    method HeaderWord(i: nat) returns (w: nat)
      requires Valid() && i + 4 <= HEADER
      ensures w == Le32(sram[..], i)
    {
      w := Le16(sram[i], sram[i + 1]) + U16 * Le16(sram[i + 2], sram[i + 3]);
      Le32Bytes(sram[..], i);
    }

    /** The fields of the header that the update uses. */
    method ReadHeader() returns (offset: nat, size: nat)
      requires Valid()
      ensures offset == ImageOffset(sram[..]) && size == ImageSize(sram[..])
    {
      offset := HeaderWord(4);
      size := HeaderWord(8);
    }

    /** sram_has_valid_image. */
    method CheckImage() returns (ok: bool)
      requires Valid()
      ensures ok == HasValidImage(sram[..])
    {
      hide Le32, Checksum.Plan, Checksum.StreamFrom, SramRead;
      var magic := HeaderWord(0);
      if magic != MAGIC {
        return false;
      }
      var offset, size := ReadHeader();
      if size == 0 || size % 4 != 0 {
        return false;
      }
      if offset < HEADER || size > PAYLOAD || offset > HEADER + PAYLOAD {
        return false;
      }
      if offset > U32 - 1 - size || (offset + size) % U32 > HEADER + PAYLOAD {
        return false;
      }
      ghost var calls;
      ok, calls := Checksum.ValidateChecksumStream(Checksum.Reads(SramRead(sram[..])), offset, size, CHUNK);
    }

    /** main up to the jump to the application or the DFU mode. */
    method Start() returns (decision: Decision, ghost passed: seq<Storage>)
      requires Valid()
      modifies chip, chip.mem, sram, buf, this`flag
      ensures Valid() && decision == Decide(old(Now()), old(flag) == 0xCC00_FFEE)
      ensures if decision == Update then
          Interruptions(passed, old(Now())) && passed[|passed| - 1] == Now() && flag == 0
        else
          Now() == old(Now()) && flag == if decision == Jump then 0 else old(flag)
    {
      hide HasValidImage, Le32, Interruptions, StackPointerOk, Checksum.Validates;
      passed := [];
      var imagesize := LoadWord(0x20);
      var ok := CheckImage();
      if ok {
        passed := UpdateFromSram();
        return Update, passed;
      }
      var goDfu := flag == REBOOT_DFU || imagesize > PAYLOAD / 4;
      var sp := LoadWord(0);
      if !goDfu && StackPointerOk(sp) {
        var valid := Checksum.ValidateChecksum(chip.mem, BOOT_SIZE, imagesize);
        if valid {
          flag := 0;
          return Jump, passed;
        }
      }
      return DfuMode, passed;
    }

    /** The word at offset i of the application. */
    method LoadWord(i: nat) returns (w: nat)
      requires Valid() && i + 4 <= PAYLOAD
      ensures w == AppWord(Now().flash, i)
    {
      var at := BOOT_SIZE + i;
      w := Le16(chip.mem[at], chip.mem[at + 1]) + U16 * Le16(chip.mem[at + 2], chip.mem[at + 3]);
      Le32Bytes(chip.mem[..], at);
    }
  }

  lemma ImageFacts(sram: seq<byte>)
    requires IsSram(sram) && HasValidImage(sram)
    ensures HeaderAccepted(sram)
    ensures var o, n := ImageOffset(sram), ImageSize(sram);
      && HEADER <= o && o + n <= REGION && n % 4 == 0 && n <= PAYLOAD && Image(sram) == sram[o..o + n]
  {
    hide Le32, Checksum.Plan, Checksum.StreamFrom;
    HeaderBounds(sram);
  }

  lemma LastIsNow(now: Storage, passed: seq<Storage>, s: Storage)
    requires s.Valid() && HasValidImage(s.sram) && HeaderAccepted(s.sram)
    requires AtCut(now, passed, Unlocked(s), UpdateScript(s.sram), |UpdateScript(s.sram)|)
    ensures Interruptions(passed, s) && passed[|passed| - 1] == now
  {
    hide HasValidImage, HeaderAccepted, UpdateScript, Exec, Interruptions;
    CutsAreInterruptions(passed, s);
  }
}
