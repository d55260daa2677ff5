/** The flash driver (Core/Src/flash.c) on the registers of the flash controller: the lock with
    its key sequence, the PER and PG bits, the address register and the memory itself. */
module FlashDriver {
  import opened Bytes
  import opened FlashMemory

  const KEY1 := 0x4567_0123
  const KEY2 := 0xCDEF_89AB

  /** A word is all ones exactly if each of its bytes is erased. */
  lemma AllOnes(b0: byte, b1: byte, b2: byte, b3: byte)
    ensures Le16(b0, b1) + U16 * Le16(b2, b3) == 0xFFFF_FFFF <==>
            b0 == ERASED && b1 == ERASED && b2 == ERASED && b3 == ERASED
  {
  }

  /** The first n bytes from address a on are erased. */
  ghost predicate ErasedUpTo(f: Flash, a: int, n: nat)
    requires f.Valid()
  {
    forall i :: 0 <= i < n ==> ReadAt(f, a, i) == ERASED
  }

  /** The word at the address i places above a. */
  function WordAt(f: Flash, a: int, i: nat): (w: int)
    requires f.Valid()
    ensures 0 <= w < U32
  {
    Le16(ReadAt(f, a, i), ReadAt(f, a, i + 1)) + U16 * Le16(ReadAt(f, a, i + 2), ReadAt(f, a, i + 3))
  }

  lemma ErasedWord(f: Flash, a: int, n: nat)
    requires f.Valid() && ErasedUpTo(f, a, n)
    ensures WordAt(f, a, n) == 0xFFFF_FFFF <==> ErasedUpTo(f, a, n + 4)
  {
    hide ReadAt, Le16;
    AllOnes(ReadAt(f, a, n), ReadAt(f, a, n + 1), ReadAt(f, a, n + 2), ReadAt(f, a, n + 3));
  }

  class Chip {
    const mem: array<byte>
    /** What a read outside the flash returns. */
    const outside: byte
    /** The bits of FLASH_CR. */
    var lock: bool
    var per: bool
    var pg: bool
    /** FLASH_AR, and whether FLASH_KEYR has taken the first key. */
    var ar: int
    var keyed: bool

    /** No operation is under way. */
    ghost predicate Valid()
      reads this
    {
      mem.Length == FLASH_SIZE && !per && !pg && !keyed
    }

    ghost function Model(): (f: Flash)
      requires mem.Length == FLASH_SIZE
      reads this, mem
      ensures f.Valid()
    {
      Flash(mem[..], lock, outside)
    }

    constructor (mem: array<byte>, outside: byte)
      requires mem.Length == FLASH_SIZE
      ensures Valid() && this.mem == mem && Model() == Flash(mem[..], true, outside)
    {
      this.mem, this.outside := mem, outside;
      lock, per, pg, ar, keyed := true, false, false, 0, false;
    }

    // The hardware

    /** A store to FLASH_KEYR: the two keys in a row open the lock. */
    method WriteKey(key: int)
      modifies this`lock, this`keyed
      ensures lock == (old(lock) && !(old(keyed) && key == 0xCDEF_89AB))
      ensures keyed == (old(lock) && !old(keyed) && key == 0x4567_0123)
    {
      if lock {
        if keyed && key == 0xCDEF_89AB {
          lock := false;
        }
        keyed := !keyed && key == 0x4567_0123;
      } else {
        keyed := false;
      }
    }

    /** STRT with PER set erases the page that FLASH_AR points into. */
    method Start()
      requires mem.Length == FLASH_SIZE
      modifies mem
      ensures Model() == if per then FlashMemory.ErasePage(old(Model()), ar) else old(Model())
    {
      if per && !lock && InFlash(ar) {
        var p := PageStart(ar);
        forall i | p <= i < p + PAGE {
          mem[i] := ERASED;
        }
        assert mem[..] == Splice(old(mem[..]), p, Fill(PAGE, ERASED));
      }
    }

    /** A 16-bit store into the flash, with PG set. */
    method StoreHalf(a: int, lo: byte, hi: byte)
      requires mem.Length == FLASH_SIZE
      modifies mem
      ensures Model() == if pg then ProgramHalf(old(Model()), a, lo, hi) else old(Model())
    {
      if pg && !lock && InFlash(a) && a % 2 == 0 {
        var o := a - FLASH_BASE;
        assert o + 1 < FLASH_SIZE;
        if (mem[o] == ERASED && mem[o + 1] == ERASED) || (lo == 0 && hi == 0) {
          mem[o], mem[o + 1] := lo, hi;
          assert mem[..] == Splice(old(mem[..]), o, [lo, hi]);
        }
      }
    }

    method Load(a: int) returns (b: byte)
      requires mem.Length == FLASH_SIZE
      ensures b == Read(Model(), a)
    {
      b := if InFlash(a) then mem[a - FLASH_BASE] else outside;
    }

    // The driver

    /** _flash_lock. */
    method Lock()
      requires Valid()
      modifies this`lock
      ensures Valid() && Model() == old(Model()).(locked := true)
    {
      lock := true;
    }

    /** _flash_unlock. */
    method Unlock()
      requires Valid()
      modifies this`lock, this`keyed
      ensures Valid() && Model() == old(Model()).(locked := false)
    {
      if lock {
        WriteKey(KEY1);
        WriteKey(KEY2);
      }
    }

    /** _flash_erase_page. FLASH_CR ignores writes while it is locked. */
    method ErasePage(a: int)
      requires Valid()
      modifies this`per, this`ar, mem
      ensures Valid() && Model() == FlashMemory.ErasePage(old(Model()), a)
    {
      hide FlashMemory.ErasePage;
      if !lock {
        per := true;
      }
      ar := a;
      Start();
      LockedErase(old(Model()), a);
      per := false;
    }

    /** _flash_page_is_erased, which reads words and stops at the first one that is not. */
    method PageIsErased(a: int) returns (erased: bool)
      requires Valid()
      ensures erased == FlashMemory.PageIsErased(Model(), a)
    {
      hide ReadAt, WordAt;
      ghost var f := Model();
      var i := 0;
      while i < PAGE / 4
        invariant 0 <= i <= PAGE / 4
        invariant ErasedUpTo(f, a, 4 * i)
      {
        var w := LoadWord(a, 4 * i);
        ErasedWord(f, a, 4 * i);
        if w != 0xFFFF_FFFF {
          return false;
        }
        i := i + 1;
      }
      return true;
    }

    method LoadWord(a: int, i: nat) returns (w: int)
      requires mem.Length == FLASH_SIZE
      ensures w == WordAt(Model(), a, i)
    {
      var b0 := Load((a + i) % U32);
      var b1 := Load((a + (i + 1)) % U32);
      var b2 := Load((a + (i + 2)) % U32);
      var b3 := Load((a + (i + 3)) % U32);
      w := Le16(b0, b1) + U16 * Le16(b2, b3);
    }

    /** _flash_program_buffer. `passed` are the contents the flash goes through, one halfword at
        a time. */
    method ProgramBuffer(a: int, data: array<byte>, len: nat) returns (ghost passed: seq<Flash>)
      requires Valid() && data != mem && len <= data.Length
      modifies this`pg, mem
      ensures Valid() && Model() == FlashMemory.ProgramBuffer(old(Model()), a, data[..len])
      ensures Passed(passed, old(Model()), a, data[..len], len / 2)
    {
      hide ProgramHalves, ProgramHalf, Passed;
      ghost var f, buf := Model(), data[..len];
      StartPassed(f, a, buf);
      passed := [f];
      if !lock {
        pg := true;
      }
      var i := 0;
      while i < len / 2
        invariant 0 <= i <= len / 2
        invariant mem.Length == FLASH_SIZE && !per && !keyed && lock == f.locked && pg == !lock
        invariant data[..len] == buf
        invariant Passed(passed, f, a, buf, i) && Model() == ProgramHalves(f, a, buf, i)
      {
        ghost var g := Model();
        StoreAt(a, i, data[2 * i], data[2 * i + 1]);
        assert buf[2 * i] == data[2 * i] && buf[2 * i + 1] == data[2 * i + 1];
        NextPassed(passed, f, a, buf, i);
        i := i + 1;
        passed := passed + [Model()];
      }
      pg := false;
    }

    /** addr_ptr[i] = the halfword. */
    method StoreAt(a: int, i: nat, lo: byte, hi: byte)
      requires mem.Length == FLASH_SIZE && pg == !lock
      modifies mem
      ensures Model() == ProgramHalf(old(Model()), (a + 2 * i) % U32, lo, hi)
    {
      LockedStore(Model(), (a + 2 * i) % U32, lo, hi);
      hide ProgramHalf;
      StoreHalf((a + 2 * i) % U32, lo, hi);
    }
  }

  /** The contents the flash goes through while the first n halfwords are programmed. */
  ghost predicate Passed(passed: seq<Flash>, f: Flash, a: int, data: seq<byte>, n: nat)
    requires f.Valid() && 2 * n <= |data|
  {
    |passed| == n + 1 && forall k :: 0 <= k <= n ==> passed[k] == ProgramHalves(f, a, data, k)
  }

  lemma StartPassed(f: Flash, a: int, data: seq<byte>)
    requires f.Valid()
    ensures Passed([f], f, a, data, 0) && ProgramHalves(f, a, data, 0) == f
  {
  }

  lemma NextPassed(passed: seq<Flash>, f: Flash, a: int, data: seq<byte>, n: nat)
    requires f.Valid() && 2 * n + 2 <= |data| && Passed(passed, f, a, data, n)
    ensures var g := ProgramHalf(ProgramHalves(f, a, data, n), (a + 2 * n) % U32, data[2 * n], data[2 * n + 1]);
      g == ProgramHalves(f, a, data, n + 1) && Passed(passed + [g], f, a, data, n + 1)
  {
    hide ProgramHalf;
  }

  lemma LockedErase(f: Flash, a: int)
    requires f.Valid()
    ensures f.locked ==> ErasePage(f, a) == f
  {
  }

  lemma LockedStore(f: Flash, a: int, lo: byte, hi: byte)
    requires f.Valid()
    ensures f.locked ==> ProgramHalf(f, a, lo, hi) == f
  {
  }
}
