/** The registers of the peripheral that _ep_stall_set reaches with endpoint numbers from 16 on.
    They have no bits that toggle: a word written by a macro is what they hold afterwards. The
    module carries the macros over to the numbers of module Usb. */
module PlainRegister {
  import opened EndpointRegister
  import opened Usb

  function Digit(on: bool): (n: nat)
    ensures n <= 1
  {
    if on then 1 else 0
  }

  /** The low byte of a register as a number. */
  function LowByte(r: bv16): (n: nat)
    ensures n < 0x100
  {
    Digit(r & 1 != 0) + 2 * Digit(r & 2 != 0) + 4 * Digit(r & 4 != 0) + 8 * Digit(r & 8 != 0)
    + 0x10 * Digit(r & 0x10 != 0) + 0x20 * Digit(r & 0x20 != 0)
    + 0x40 * Digit(r & 0x40 != 0) + 0x80 * Digit(r & 0x80 != 0)
  }

  /** The macros of _ep_stall_set for an endpoint number other than 0, in its order. */
  function HaltMacros(addr: int, stall: bool): (ms: seq<Macro>) {
    if addr >= 0x80 then
      if stall then [SetTxStat(0x0010)] else [SetTxStat(0x0020), ClrTxDtog]
    else
      if stall then [SetRxStat(0x1000)] else [ClrRxDtog, SetRxStat(0x3000)]
  }

  /** A register without toggle bits behind a sequence of macros. */
  function PlainAfter(r: bv16, ms: seq<Macro>): bv16
    decreases |ms|
  {
    if ms == [] then r else PlainAfter(Word(ms[0], r), ms[1..])
  }

  lemma LowByteIsMasked(r: bv16, q: bv16)
    requires r & 0x00FF == q & 0x00FF
    ensures LowByte(r) == LowByte(q)
  {
    assert r & 1 == q & 1 && r & 2 == q & 2 && r & 4 == q & 4 && r & 8 == q & 8;
    assert r & 0x10 == q & 0x10 && r & 0x20 == q & 0x20 && r & 0x40 == q & 0x40 && r & 0x80 == q & 0x80;
  }

  /** The low byte that the macros leave. */
  function HaltedByte(r: bv16, addr: int, stall: bool): bv16 {
    if addr >= 0x80 && stall then ((r & 0x003F) ^ 0x0010) | 0x0080 else (r & 0x000F) | 0x0080
  }

  lemma HaltLeaves(r: bv16, addr: int, stall: bool)
    ensures PlainAfter(r, HaltMacros(addr, stall)) & 0x00FF == HaltedByte(r, addr, stall)
  {
    var ms := HaltMacros(addr, stall);
    HaltOnPlainRegister(r);
    hide Word;
    if |ms| == 1 {
      assert PlainAfter(r, ms) == PlainAfter(Word(ms[0], r), []);
    } else {
      assert ms[1..] == [ms[1]];
      assert PlainAfter(r, ms) == PlainAfter(Word(ms[0], r), [ms[1]]);
      assert PlainAfter(Word(ms[0], r), [ms[1]]) == PlainAfter(Word(ms[1], Word(ms[0], r)), []);
    }
  }

  /** The arithmetic on the bits. */
  lemma HaltedSum(low: nat, b4: nat, b5: nat, b6: nat, b7: nat, addr: int, stall: bool)
    requires low < 0x10 && b4 <= 1 && b5 <= 1 && b6 <= 1 && b7 <= 1
    ensures HaltedRegister(low + 0x10 * b4 + 0x20 * b5 + 0x40 * b6 + 0x80 * b7, addr, stall) ==
      if addr >= 0x80 && stall then low + 0x10 * (1 - b4) + 0x20 * b5 + 0x80 else low + 0x80
  {
    var a := low + 0x10 * b4 + 0x20 * b5 + 0x40 * b6;
    assert (a + 0x80 * b7) % 0x80 == a;
    assert a % 0x40 == low + 0x10 * b4 + 0x20 * b5;
    assert a % 0x10 == low;
    assert a / 0x10 == b4 + 2 * b5 + 4 * b6;
    assert a / 0x10 % 2 == b4;
  }

  /** GET_STATUS for the number of this register compares its bits 5 and 4, as if they were STAT_TX,
      with the code of STALL. */
  lemma StatusBitsOf(r: bv16)
    ensures LowByte(r) / 0x10 % 4 == 1 <==> r & 0x0030 == 0x0010
  {
    var a, b := r & 0x10 != 0, r & 0x20 != 0;
    SumOfDigits(r);
    BitsOfSum(Digit(r & 1 != 0) + 2 * Digit(r & 2 != 0) + 4 * Digit(r & 4 != 0) + 8 * Digit(r & 8 != 0),
              Digit(a), Digit(b), Digit(r & 0x40 != 0), Digit(r & 0x80 != 0));
    assert r & 0x0030 == 0x0010 <==> r & 0x10 != 0 && r & 0x20 == 0;
  }

  lemma BitsOfSum(low: nat, b4: nat, b5: nat, b6: nat, b7: nat)
    requires low < 0x10 && b4 <= 1 && b5 <= 1 && b6 <= 1 && b7 <= 1
    ensures (low + 0x10 * b4 + 0x20 * b5 + 0x40 * b6 + 0x80 * b7) / 0x10 % 4 == b4 + 2 * b5
  {
    var n := low + 0x10 * b4 + 0x20 * b5 + 0x40 * b6 + 0x80 * b7;
    assert n / 0x10 == b4 + 2 * b5 + 4 * (b6 + 2 * b7);
  }

  // Back from the number

  function BitAt(on: bool, mask: bv16): bv16 {
    if on then mask else 0
  }

  function FromBits(a: bool, b: bool, c: bool, d: bool, e: bool, f: bool, g: bool, h: bool): bv16 {
    BitAt(a, 1) | BitAt(b, 2) | BitAt(c, 4) | BitAt(d, 8)
    | BitAt(e, 0x10) | BitAt(f, 0x20) | BitAt(g, 0x40) | BitAt(h, 0x80)
  }

  /** n without its k lowest bits. */
  function Half(n: nat, k: nat): nat {
    if k == 0 then n else Half(n, k - 1) / 2
  }

  /** Bit k of n. */
  predicate IsSet(n: nat, k: nat) {
    Half(n, k) % 2 == 1
  }

  /** A register whose low byte is n. */
  function FromByte(n: nat): bv16 {
    FromBits(IsSet(n, 0), IsSet(n, 1), IsSet(n, 2), IsSet(n, 3), IsSet(n, 4), IsSet(n, 5), IsSet(n, 6), IsSet(n, 7))
  }

  /** The bits of r are those given. */
  predicate HasBits(r: bv16, a: bool, b: bool, c: bool, d: bool, e: bool, f: bool, g: bool, h: bool) {
    && (r & 1 != 0 <==> a) && (r & 2 != 0 <==> b) && (r & 4 != 0 <==> c) && (r & 8 != 0 <==> d)
    && (r & 0x10 != 0 <==> e) && (r & 0x20 != 0 <==> f) && (r & 0x40 != 0 <==> g) && (r & 0x80 != 0 <==> h)
  }

  lemma MaskedBits(a: bool, b: bool, c: bool, d: bool, e: bool, f: bool, g: bool, h: bool)
    ensures HasBits(FromBits(a, b, c, d, e, f, g, h), a, b, c, d, e, f, g, h)
  {
  }

  lemma SumOfMasked(r: bv16, a: bool, b: bool, c: bool, d: bool, e: bool, f: bool, g: bool, h: bool)
    requires HasBits(r, a, b, c, d, e, f, g, h)
    ensures LowByte(r) == Digit(a) + 2 * Digit(b) + 4 * Digit(c) + 8 * Digit(d)
                          + 0x10 * Digit(e) + 0x20 * Digit(f) + 0x40 * Digit(g) + 0x80 * Digit(h)
  {
    hide Digit, LowByte;
    assert Digit(r & 1 != 0) == Digit(a) && Digit(r & 2 != 0) == Digit(b);
    assert Digit(r & 4 != 0) == Digit(c) && Digit(r & 8 != 0) == Digit(d);
    assert Digit(r & 0x10 != 0) == Digit(e) && Digit(r & 0x20 != 0) == Digit(f);
    assert Digit(r & 0x40 != 0) == Digit(g) && Digit(r & 0x80 != 0) == Digit(h);
    SumOfDigits(r);
  }

  lemma SumOfDigits(r: bv16)
    ensures LowByte(r) == Digit(r & 1 != 0) + 2 * Digit(r & 2 != 0) + 4 * Digit(r & 4 != 0) + 8 * Digit(r & 8 != 0)
      + 0x10 * Digit(r & 0x10 != 0) + 0x20 * Digit(r & 0x20 != 0)
      + 0x40 * Digit(r & 0x40 != 0) + 0x80 * Digit(r & 0x80 != 0)
  {
  }

  lemma LowBits(r: bv16)
    ensures HasBits((r & 0x000F) | 0x0080, r & 1 != 0, r & 2 != 0, r & 4 != 0, r & 8 != 0, false, false, false, true)
  {
  }

  lemma FlippedBits(r: bv16)
    ensures HasBits(((r & 0x003F) ^ 0x0010) | 0x0080, r & 1 != 0, r & 2 != 0, r & 4 != 0, r & 8 != 0,
                    !(r & 0x10 != 0), r & 0x20 != 0, false, true)
  {
  }

  lemma Digits(on: bool)
    ensures Digit(true) == 1 && Digit(false) == 0 && Digit(!on) == 1 - Digit(on)
  {
  }

  /** The register r before and q after the macros, bit by bit. */
  lemma HaltedBits(r: bv16, q: bv16, a: bool, b: bool, c: bool, d: bool, e: bool, f: bool, g: bool, h: bool,
                   addr: int, stall: bool)
    requires HasBits(r, a, b, c, d, e, f, g, h)
    requires var kept := addr >= 0x80 && stall;
      HasBits(q, a, b, c, d, kept && !e, kept && f, false, true)
    ensures LowByte(q) == HaltedRegister(LowByte(r), addr, stall)
  {
    hide HasBits, Digit, LowByte, HaltedRegister;
    var kept := addr >= 0x80 && stall;
    SumOfMasked(r, a, b, c, d, e, f, g, h);
    SumOfMasked(q, a, b, c, d, kept && !e, kept && f, false, true);
    HaltedSum(Digit(a) + 2 * Digit(b) + 4 * Digit(c) + 8 * Digit(d), Digit(e), Digit(f), Digit(g), Digit(h),
              addr, stall);
    Digits(e);
  }

  lemma HaltedByteSum(r: bv16, addr: int, stall: bool)
    ensures LowByte(HaltedByte(r, addr, stall)) == HaltedRegister(LowByte(r), addr, stall)
  {
    LowBits(r);
    FlippedBits(r);
    hide LowByte, HaltedRegister;
    HaltedBits(r, HaltedByte(r, addr, stall), r & 1 != 0, r & 2 != 0, r & 4 != 0, r & 8 != 0,
               r & 0x10 != 0, r & 0x20 != 0, r & 0x40 != 0, r & 0x80 != 0, addr, stall);
  }

  /** For every value of the register, what Usb says of the address register behind a halt request
      is what the macros leave in its low byte. */
  lemma HaltedRegisterIsMacros(r: bv16, addr: int, stall: bool)
    ensures LowByte(PlainAfter(r, HaltMacros(addr, stall))) == HaltedRegister(LowByte(r), addr, stall)
  {
    hide PlainAfter, HaltMacros, HaltedRegister, LowByte, HaltedByte;
    HaltLeaves(r, addr, stall);
    HaltedByteFits(r, addr, stall);
    LowByteIsMasked(PlainAfter(r, HaltMacros(addr, stall)), HaltedByte(r, addr, stall));
    HaltedByteSum(r, addr, stall);
  }

  lemma HaltedByteFits(r: bv16, addr: int, stall: bool)
    ensures HaltedByte(r, addr, stall) & 0x00FF == HaltedByte(r, addr, stall)
  {
  }

  lemma LowestBit(n: nat, k: nat)
    ensures Half(n, k) == Digit(IsSet(n, k)) + 2 * Half(n, k + 1)
  {
  }

  lemma NothingLeft(n: nat)
    requires n < 0x100
    ensures Half(n, 8) == 0
  {
    assert Half(n, 1) < 0x80;
    assert Half(n, 2) < 0x40;
    assert Half(n, 3) < 0x20;
    assert Half(n, 4) < 0x10;
    assert Half(n, 5) < 8;
    assert Half(n, 6) < 4;
    assert Half(n, 7) < 2;
  }

  lemma SumOfBits(n: nat)
    requires n < 0x100
    ensures n == Digit(IsSet(n, 0)) + 2 * Digit(IsSet(n, 1)) + 4 * Digit(IsSet(n, 2)) + 8 * Digit(IsSet(n, 3))
              + 0x10 * Digit(IsSet(n, 4)) + 0x20 * Digit(IsSet(n, 5))
              + 0x40 * Digit(IsSet(n, 6)) + 0x80 * Digit(IsSet(n, 7))
  {
    assert Half(n, 0) == n;
    hide Half, IsSet, Digit;
    LowBitsOf(n);
    LowestBit(n, 4);
    LowestBit(n, 5);
    LowestBit(n, 6);
    LowestBit(n, 7);
    NothingLeft(n);
  }

  lemma LowBitsOf(n: nat)
    ensures n == Digit(IsSet(n, 0)) + 2 * Digit(IsSet(n, 1)) + 4 * Digit(IsSet(n, 2)) + 8 * Digit(IsSet(n, 3))
                 + 0x10 * Half(n, 4)
  {
    assert Half(n, 0) == n;
    hide Half, IsSet, Digit;
    LowestBit(n, 0);
    LowestBit(n, 1);
    LowestBit(n, 2);
    LowestBit(n, 3);
  }

  /** Bit k of the register is bit k of the number. */
  lemma FromByteBits(n: nat)
    ensures HasBits(FromByte(n), IsSet(n, 0), IsSet(n, 1), IsSet(n, 2), IsSet(n, 3),
                    IsSet(n, 4), IsSet(n, 5), IsSet(n, 6), IsSet(n, 7))
  {
    hide IsSet, FromBits, HasBits;
    MaskedBits(IsSet(n, 0), IsSet(n, 1), IsSet(n, 2), IsSet(n, 3), IsSet(n, 4), IsSet(n, 5), IsSet(n, 6), IsSet(n, 7));
  }

  lemma ByteRoundTrip(n: nat)
    requires n < 0x100
    ensures LowByte(FromByte(n)) == n
  {
    hide FromByte, IsSet, Digit, LowByte, HasBits;
    SumOfBits(n);
    FromByteBits(n);
    SumOfMasked(FromByte(n), IsSet(n, 0), IsSet(n, 1), IsSet(n, 2), IsSet(n, 3),
                IsSet(n, 4), IsSet(n, 5), IsSet(n, 6), IsSet(n, 7));
  }

  /** A register of 8 bits behind a halt request, as the macros compute it. */
  function MacroByte(n: nat, addr: int, stall: bool): (m: nat)
    requires n < 0x100
    ensures m == HaltedRegister(n, addr, stall)
  {
    ByteRoundTrip(n);
    HaltedRegisterIsMacros(FromByte(n), addr, stall);
    LowByte(PlainAfter(FromByte(n), HaltMacros(addr, stall)))
  }
}
