/** Exclusive or of unsigned numbers, bit by bit, and the laws the checksum rests on. */
module ExclusiveOr {

  function Xor(a: nat, b: nat): (r: nat)
    decreases a + b, 1
  {
    if a == 0 && b == 0 then 0 else XorDigits(a, b)
  }

  /** The lowest bit, and the bits above it. */
  function XorDigits(a: nat, b: nat): (r: nat)
    requires a != 0 || b != 0
    decreases a + b, 0
  {
    (a % 2 + b % 2) % 2 + 2 * Xor(a / 2, b / 2)
  }

  function Pow2(n: nat): (p: nat)
    ensures p > 0
  {
    if n == 0 then 1 else 2 * Pow2(n - 1)
  }

  /** The result has no more bits than the operands. */
  lemma {:induction false} XorBits(a: nat, b: nat, n: nat)
    requires a < Pow2(n) && b < Pow2(n)
    ensures Xor(a, b) < Pow2(n)
    decreases n
  {
    if n > 0 {
      XorBits(a / 2, b / 2, n - 1);
    }
  }

  lemma {:induction false} XorCommutes(a: nat, b: nat)
    ensures Xor(a, b) == Xor(b, a)
    decreases a + b
  {
    if a != 0 || b != 0 {
      XorCommutes(a / 2, b / 2);
    }
  }

  lemma XorParts(a: nat, b: nat)
    ensures Xor(a, b) % 2 == (a % 2 + b % 2) % 2 && Xor(a, b) / 2 == Xor(a / 2, b / 2)
  {
  }

  lemma BitSum(x: nat, y: nat, z: nat)
    requires x < 2 && y < 2 && z < 2
    ensures ((x + y) % 2 + z) % 2 == (x + (y + z) % 2) % 2
  {
  }

  lemma HalvesDecide(l: nat, r: nat)
    requires l / 2 == r / 2 && l % 2 == r % 2
    ensures l == r
  {
  }

  lemma AssociateLowBits(a: nat, b: nat, c: nat)
    ensures Xor(Xor(a, b), c) % 2 == Xor(a, Xor(b, c)) % 2
  {
    hide Xor;
    XorParts(a, b);
    XorParts(Xor(a, b), c);
    XorParts(b, c);
    XorParts(a, Xor(b, c));
    BitSum(a % 2, b % 2, c % 2);
  }

  lemma AssociateHalves(a: nat, b: nat, c: nat)
    requires Xor(Xor(a / 2, b / 2), c / 2) == Xor(a / 2, Xor(b / 2, c / 2))
    ensures Xor(Xor(a, b), c) / 2 == Xor(a, Xor(b, c)) / 2
  {
    hide Xor;
    XorParts(a, b);
    XorParts(Xor(a, b), c);
    XorParts(b, c);
    XorParts(a, Xor(b, c));
  }

  lemma {:induction false} XorAssociates(a: nat, b: nat, c: nat)
    ensures Xor(Xor(a, b), c) == Xor(a, Xor(b, c))
    decreases a + b + c
  {
    if a != 0 || b != 0 || c != 0 {
      hide Xor;
      XorAssociates(a / 2, b / 2, c / 2);
      AssociateHalves(a, b, c);
      AssociateLowBits(a, b, c);
      HalvesDecide(Xor(Xor(a, b), c), Xor(a, Xor(b, c)));
    }
  }

  lemma XorOfZeros()
    ensures Xor(0, 0) == 0
  {
  }

  lemma {:induction false} XorZero(a: nat)
    ensures Xor(a, 0) == a
  {
    hide Xor;
    if a == 0 {
      XorOfZeros();
    } else {
      XorZero(a / 2);
      XorParts(a, 0);
      HalvesDecide(Xor(a, 0), a);
    }
  }

  lemma {:induction false} XorSelf(a: nat)
    ensures Xor(a, a) == 0
  {
    if a != 0 {
      XorSelf(a / 2);
    }
  }

  /** Zero means equal. */
  lemma XorIsZero(a: nat, b: nat)
    ensures Xor(a, b) == 0 <==> a == b
  {
    XorSelf(b);
    if Xor(a, b) == 0 {
      XorAssociates(a, b, b);
      XorZero(a);
      XorZero(b);
      XorCommutes(0, b);
    }
  }

  /** A term can be moved to the end. */
  lemma XorSwap(a: nat, b: nat, c: nat)
    ensures Xor(Xor(a, b), c) == Xor(Xor(a, c), b)
  {
    XorAssociates(a, b, c);
    XorCommutes(b, c);
    XorAssociates(a, c, b);
  }

  /** A term that occurs twice cancels. */
  lemma XorCancel(a: nat, b: nat)
    ensures Xor(Xor(a, b), b) == a
  {
    XorAssociates(a, b, b);
    XorSelf(b);
    XorZero(a);
  }

  lemma Pow2Of32()
    ensures Pow2(32) == 0x1_0000_0000
  {
    assert Pow2(8) == 0x100;
    assert Pow2(16) == 0x1_0000;
    assert Pow2(24) == 0x100_0000;
  }

  lemma XorWord(a: nat, b: nat)
    requires a < 0x1_0000_0000 && b < 0x1_0000_0000
    ensures Xor(a, b) < 0x1_0000_0000
  {
    Pow2Of32();
    XorBits(a, b, 32);
  }
}
