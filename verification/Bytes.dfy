/** Bytes, little-endian integers and small sequence helpers shared by every module. */
module Bytes {

  type byte = x: int | 0 <= x < 256

  const U16 := 0x1_0000
  const U32 := 0x1_0000_0000

  function Min(a: int, b: int): (m: int)
    ensures m == a || m == b
    ensures m <= a && m <= b
  {
    if a < b then a else b
  }

  /** A little-endian 16-bit value. */
  function Le16(lo: byte, hi: byte): (w: int)
    ensures 0 <= w < U16
  {
    lo + 256 * hi
  }

  /** A little-endian value of any number of bytes. */
  function Le(s: seq<byte>): (w: nat)
  {
    if s == [] then 0 else s[0] + 256 * Le(s[1..])
  }

  lemma LeOfFour(s: seq<byte>)
    requires |s| == 4
    ensures Le(s) == Le16(s[0], s[1]) + U16 * Le16(s[2], s[3])
  {
    assert Le(s[1..]) == s[1] + 256 * Le(s[2..]);
    assert Le(s[2..]) == s[2] + 256 * Le(s[3..]);
    assert Le(s[3..]) == s[3];
  }

  /** The little-endian 32-bit value at s[i..i+4]. */
  function Le32(s: seq<byte>, i: nat): (w: int)
    requires i + 4 <= |s|
    ensures 0 <= w < U32
  {
    LeOfFour(s[i..i + 4]);
    Le(s[i..i + 4])
  }

  /** The 32-bit value from its halfwords. */
  lemma Le32Bytes(s: seq<byte>, i: nat)
    requires i + 4 <= |s|
    ensures Le32(s, i) == Le16(s[i], s[i + 1]) + U16 * Le16(s[i + 2], s[i + 3])
  {
    LeOfFour(s[i..i + 4]);
  }

  /** The number that four bytes make, least significant first. */
  function Number(a: int, b: int, c: int, d: int): int {
    a + 0x100 * b + 0x1_0000 * c + 0x100_0000 * d
  }

  /** The n lowest bytes of a value, least significant first. */
  function Pack(w: nat, n: nat): (s: seq<byte>)
    ensures |s| == n
    decreases w + n, 1
  {
    if n == 0 then [] else PackMore(w, n)
  }

  function PackMore(w: nat, n: nat): (s: seq<byte>)
    requires n > 0
    ensures |s| == n
    decreases w + n, 0
  {
    [w % 0x100] + Pack(w / 0x100, n - 1)
  }

  /** One more than the greatest value of n bytes. */
  function Limit(n: nat): (l: nat)
  {
    if n == 0 then 1 else 0x100 * Limit(n - 1)
  }

  lemma {:induction false} LeOfPack(w: nat, n: nat)
    requires w < Limit(n)
    ensures Le(Pack(w, n)) == w
    decreases n
  {
    if n > 0 {
      LeOfPack(w / 0x100, n - 1);
      assert Pack(w, n)[1..] == Pack(w / 0x100, n - 1);
    }
  }

  /** The four bytes of a 32-bit value. */
  function Pack32(w: int): (s: seq<byte>)
    requires 0 <= w < U32
    ensures |s| == 4
  {
    Pack(w, 4)
  }

  lemma PackUnpack(w: int)
    requires 0 <= w < U32
    ensures Le32(Pack32(w), 0) == w
  {
    assert Limit(2) == U16;
    LeOfPack(w, 4);
    assert Pack32(w)[0..4] == Pack32(w);
  }

  /** The two bytes of a 16-bit value. */
  function Pack16(w: int): (s: seq<byte>)
    requires 0 <= w < U16
    ensures |s| == 2
  {
    Pack(w, 2)
  }

  lemma PackUnpack16(w: int)
    requires 0 <= w < U16
    ensures Le16(Pack16(w)[0], Pack16(w)[1]) == w
  {
    assert PackMore(w, 2) == [w % 0x100] + Pack(w / 0x100, 1);
    assert PackMore(w / 0x100, 1)[0] == w / 0x100 % 0x100;
  }

  /** Equal bytes have equal words. */
  lemma Le32Slice(s: seq<byte>, i: nat, t: seq<byte>, j: nat)
    requires i + 4 <= |s| && j + 4 <= |t|
    requires s[i..i + 4] == t[j..j + 4]
    ensures Le32(s, i) == Le32(t, j)
  {
  }

  /** n copies of v. */
  function Fill(n: nat, v: byte): (s: seq<byte>)
    ensures |s| == n
    ensures forall i :: 0 <= i < n ==> s[i] == v
  {
    seq(n, _ => v)
  }

  /** s with data written over it from position off. */
  function Splice(s: seq<byte>, off: nat, data: seq<byte>): (r: seq<byte>)
    requires off + |data| <= |s|
    ensures |r| == |s|
    ensures forall i :: 0 <= i < |s| ==>
      r[i] == if off <= i < off + |data| then data[i - off] else s[i]
  {
    seq(|s|, i requires 0 <= i < |s| => if off <= i < off + |data| then data[i - off] else s[i])
  }

  /** Writing d and then e behind it is writing d + e. */
  lemma SpliceAppend(s: seq<byte>, off: nat, d: seq<byte>, e: seq<byte>)
    requires off + |d| + |e| <= |s|
    ensures Splice(Splice(s, off, d), off + |d|, e) == Splice(s, off, d + e)
  {
  }

  /** The last writer wins. */
  lemma SpliceOver(s: seq<byte>, off: nat, d: seq<byte>, e: seq<byte>)
    requires off + |d| <= |s| && |e| >= |d| && off + |e| <= |s|
    ensures Splice(Splice(s, off, d), off, e) == Splice(s, off, e)
  {
  }
}
