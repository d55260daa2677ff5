/** The test main.c puts the first word of the application to: word & 0x2FFE0000 == 0x20000000.
    Module Boot states it with divisions; here it is the mask, bit by bit. */
module StackPointer {
  import opened Bytes
  import opened Boot

  /** Bitwise and of unsigned numbers. */
  function And(a: nat, b: nat): (r: nat)
    decreases a + b, 1
  {
    if a == 0 || b == 0 then 0 else AndDigits(a, b)
  }

  /** The lowest bit, and the bits above it. */
  function AndDigits(a: nat, b: nat): (r: nat)
    requires a != 0 && b != 0
    decreases a + b, 0
  {
    a % 2 * (b % 2) + 2 * And(a / 2, b / 2)
  }

  /** n without its k lowest bits, and n with k more zeros or ones behind it. */
  function Upper(n: nat, k: nat): nat {
    if k == 0 then n else Upper(n / 2, k - 1)
  }

  function WithZeros(n: nat, k: nat): nat {
    if k == 0 then n else 2 * WithZeros(n, k - 1)
  }

  function WithOnes(n: nat, k: nat): nat {
    if k == 0 then n else 1 + 2 * WithOnes(n, k - 1)
  }

  /** The k lowest bits are clear. */
  predicate LowClear(n: nat, k: nat) {
    k == 0 || (n % 2 == 0 && LowClear(n / 2, k - 1))
  }

  lemma AndStep(a: nat, m: nat)
    ensures And(a, 2 * m) == 2 * And(a / 2, m)
    ensures And(a, 1 + 2 * m) == a % 2 + 2 * And(a / 2, m)
  {
    assert 2 * m / 2 == m && (1 + 2 * m) / 2 == m;
    if a != 0 {
      assert AndDigits(a, 1 + 2 * m) == a % 2 + 2 * And(a / 2, m);
      if m != 0 {
        assert AndDigits(a, 2 * m) == 2 * And(a / 2, m);
      }
    }
  }

  /** A mask that ends in zeros looks at the bits above them. */
  lemma {:induction false} MaskOfZeros(w: nat, m: nat, y: nat, k: nat)
    ensures And(w, WithZeros(m, k)) == WithZeros(y, k) <==> And(Upper(w, k), m) == y
    decreases k
  {
    hide And;
    if k > 0 {
      AndStep(w, WithZeros(m, k - 1));
      MaskOfZeros(w / 2, m, y, k - 1);
    }
  }

  /** A mask that ends in ones, compared with zeros there, wants these bits clear. */
  lemma {:induction false} MaskOfOnes(w: nat, m: nat, y: nat, k: nat)
    ensures And(w, WithOnes(m, k)) == WithZeros(y, k) <==> LowClear(w, k) && And(Upper(w, k), m) == y
    decreases k
  {
    hide And;
    if k > 0 {
      AndStep(w, WithOnes(m, k - 1));
      MaskOfOnes(w / 2, m, y, k - 1);
    }
  }

  lemma UpperIsQuotient(w: nat)
    ensures Upper(w, 17) == w / 0x2_0000 && Upper(w, 11) == w / 0x800
    ensures LowClear(w, 11) <==> w % 0x800 == 0
  {
    EightBits(w);
    EightBits(w / 0x100);
    assert w / 0x100 / 0x100 == w / 0x1_0000;
    UpperTwice(w, 8, 9);
    UpperTwice(w / 0x100, 8, 1);
    UpperTwice(w, 8, 3);
    ClearTwice(w, 8, 3);
    assert Upper(w / 0x1_0000, 1) == w / 0x1_0000 / 2;
    ThreeBits(w / 0x100);
  }

  lemma ThreeBits(v: nat)
    ensures Upper(v, 3) == v / 8
    ensures LowClear(v, 3) <==> v % 8 == 0
  {
    var a, b := v / 2, v / 4;
    assert b == a / 2 && v / 8 == b / 2;
    assert Upper(b, 1) == b / 2 && Upper(a, 2) == b / 2;
    assert LowClear(b, 1) <==> b % 2 == 0;
    assert LowClear(a, 2) <==> a % 4 == 0;
  }

  lemma {:induction false} UpperTwice(w: nat, j: nat, k: nat)
    ensures Upper(w, j + k) == Upper(Upper(w, j), k)
    decreases j
  {
    if j > 0 {
      UpperTwice(w / 2, j - 1, k);
    }
  }

  lemma {:induction false} ClearTwice(w: nat, j: nat, k: nat)
    ensures LowClear(w, j + k) <==> LowClear(w, j) && LowClear(Upper(w, j), k)
    decreases j
  {
    if j > 0 {
      ClearTwice(w / 2, j - 1, k);
    }
  }

  lemma TwoBits(w: nat)
    ensures Upper(w, 2) == w / 4
    ensures LowClear(w, 2) <==> w % 4 == 0
  {
    assert Upper(w / 2, 1) == w / 2 / 2;
    assert LowClear(w / 2, 1) <==> w / 2 % 2 == 0;
  }

  lemma FourBits(w: nat)
    ensures Upper(w, 4) == w / 0x10
    ensures LowClear(w, 4) <==> w % 0x10 == 0
  {
    TwoBits(w);
    TwoBits(w / 4);
    UpperTwice(w, 2, 2);
    ClearTwice(w, 2, 2);
    hide Upper, LowClear;
    assert w / 4 / 4 == w / 0x10;
  }

  lemma EightBits(w: nat)
    ensures Upper(w, 8) == w / 0x100
    ensures LowClear(w, 8) <==> w % 0x100 == 0
  {
    FourBits(w);
    FourBits(w / 0x10);
    UpperTwice(w, 4, 4);
    ClearTwice(w, 4, 4);
  }

  /** The test in module Boot is the one of the source. */
  lemma StackPointerIsMasked(w: nat)
    ensures StackPointerOk(w) <==> And(w, 0x2FFE_0000) == 0x2000_0000
  {
    MaskConstants();
    var v := w / 0x2_0000;
    UpperIsQuotient(w);
    UpperIsQuotient(v);
    MaskOfZeros(w, 0x17FF, 0x1000, 17);
    MaskOfOnes(v, 2, 2, 11);
    hide Upper, LowClear, WithZeros, WithOnes;
    SecondBit(v / 0x800);
    assert v / 0x800 == w / 0x1000_0000 && w / 0x2000_0000 == w / 0x1000_0000 / 2;
  }

  lemma SecondBit(u: nat)
    ensures And(u, 2) == 2 <==> u / 2 % 2 == 1
  {
    AndStep(u, 1);
    AndStep(u / 2, 0);
  }

  lemma MaskConstants()
    ensures WithZeros(0x17FF, 17) == 0x2FFE_0000 && WithZeros(0x1000, 17) == 0x2000_0000
    ensures WithOnes(2, 11) == 0x17FF && WithZeros(2, 11) == 0x1000
  {
    assert WithZeros(0x17FF, 4) == 0x1_7FF0 && WithZeros(0x1000, 4) == 0x1_0000;
    assert WithZeros(0x17FF, 8) == 0x17_FF00 && WithZeros(0x1000, 8) == 0x10_0000;
    assert WithZeros(0x17FF, 12) == 0x17F_F000 && WithZeros(0x1000, 12) == 0x100_0000;
    assert WithZeros(0x17FF, 16) == 0x17FF_0000 && WithZeros(0x1000, 16) == 0x1000_0000;
    assert WithOnes(2, 4) == 0x2F && WithZeros(2, 4) == 0x20;
    assert WithOnes(2, 8) == 0x2FF && WithZeros(2, 8) == 0x200;
  }

  /** The top of the 20 KB of RAM passes, the end of 128 KB behind the start of the RAM does not,
      and an erased word does not. */
  lemma StackPointerExamples()
    ensures StackPointerOk(0x2000_5000) && !StackPointerOk(0x2002_0000) && !StackPointerOk(0xFFFF_FFFF)
  {
  }
}
