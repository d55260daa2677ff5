/** The packet memory of the USB peripheral and the two unrolled copies that move packets in
    and out of it (st_usbfs_copy_to_pm and st_usbfs_copy_from_pm in Core/Src/usb.c).

    The CPU sees the memory as 16-bit slots of which only every second one exists, so the
    logical word i of a buffer that starts at slot `base` is slot base + 2 * i. */
module PacketMemory {
  import opened Bytes

  type word16 = x: int | 0 <= x < 0x1_0000

  /** The number of logical words a packet of n bytes occupies. */
  function WordsFor(n: nat): nat {
    (n + 1) / 2
  }

  /** The buffer of n bytes at slot base lies inside the memory. */
  predicate Fits(slots: nat, base: nat, n: nat) {
    base + 2 * WordsFor(n) <= slots
  }

  /** Logical word i of a packet: two bytes, or the odd last byte with a zero high half. */
  function PacketWord(data: seq<byte>, i: nat): (w: word16)
    requires 2 * i < |data|
  {
    if 2 * i + 1 < |data| then Le16(data[2 * i], data[2 * i + 1]) else data[2 * i]
  }

  /** Slot k belongs to one of the first n logical words of the buffer at base. */
  predicate InWords(k: int, base: nat, n: nat) {
    base <= k < base + 2 * n && (k - base) % 2 == 0
  }

  /** The memory after a packet has been stored: its words in their slots, all else as it was. */
  function Stored(pma: seq<word16>, base: nat, data: seq<byte>): (r: seq<word16>)
    requires Fits(|pma|, base, |data|)
    ensures |r| == |pma|
  {
    seq(|pma|, k requires 0 <= k < |pma| =>
      if InWords(k, base, WordsFor(|data|)) then PacketWord(data, (k - base) / 2) else pma[k])
  }

  /** Byte j of the packet stored at base. */
  function PacketByte(pma: seq<word16>, base: nat, j: nat): (b: byte)
    requires base + 2 * (j / 2) < |pma|
  {
    var w := pma[base + 2 * (j / 2)];
    if j % 2 == 0 then w % 256 else w / 256
  }

  /** The first n bytes of the packet stored at base. */
  function Loaded(pma: seq<word16>, base: nat, n: nat): (data: seq<byte>)
    requires Fits(|pma|, base, n)
    ensures |data| == n
  {
    seq(n, j requires 0 <= j < n => PacketByte(pma, base, j))
  }

  /** Storing a packet and loading it back is the identity, odd lengths included. */
  lemma StoreLoad(pma: seq<word16>, base: nat, data: seq<byte>)
    requires Fits(|pma|, base, |data|)
    ensures Loaded(Stored(pma, base, data), base, |data|) == data
  {
    var r := Stored(pma, base, data);
    forall j | 0 <= j < |data|
      ensures PacketByte(r, base, j) == data[j]
    {
      var i := j / 2;
      var k := base + 2 * i;
      assert (k - base) / 2 == i && (k - base) % 2 == 0;
      assert r[k] == PacketWord(data, i);
    }
  }

  /** What the peripheral finds: the words are four bytes of the processor's address space apart,
      and the earlier byte of a word is its low one. The slots between are not touched. */
  lemma StoredLayout(pma: seq<word16>, base: nat, data: seq<byte>, i: nat)
    requires Fits(|pma|, base, |data|) && 2 * i < |data|
    ensures base + 2 * i + 1 < |pma|
    ensures Stored(pma, base, data)[base + 2 * i] % 0x100 == data[2 * i]
    ensures Stored(pma, base, data)[base + 2 * i] / 0x100 == if 2 * i + 1 < |data| then data[2 * i + 1] else 0
    ensures Stored(pma, base, data)[base + 2 * i + 1] == pma[base + 2 * i + 1]
  {
    var k := base + 2 * i;
    assert (k - base) / 2 == i && (k - base) % 2 == 0 && (k + 1 - base) % 2 == 1;
  }

  /** A packet elsewhere in the memory is not disturbed. */
  lemma StoreKeepsOthers(pma: seq<word16>, base: nat, data: seq<byte>, other: nat, n: nat)
    requires Fits(|pma|, base, |data|) && Fits(|pma|, other, n)
    requires other + 2 * WordsFor(n) <= base || base + 2 * WordsFor(|data|) <= other
    ensures Loaded(Stored(pma, base, data), other, n) == Loaded(pma, other, n)
  {
    var r := Stored(pma, base, data);
    forall j | 0 <= j < n
      ensures PacketByte(r, other, j) == PacketByte(pma, other, j)
    {
      var k := other + 2 * (j / 2);
      assert r[k] == pma[k];
    }
  }

  /** The first n logical words of the packet are in place and every other slot is as before. */
  ghost predicate StoredSoFar(pma: seq<word16>, was: seq<word16>, base: nat, data: seq<byte>, n: nat)
    requires 2 * n <= |data| + 1
  {
    && |pma| == |was|
    && forall k :: 0 <= k < |pma| ==>
      pma[k] == if InWords(k, base, n) then PacketWord(data, (k - base) / 2) else was[k]
  }

  lemma StoreWord(pma: seq<word16>, was: seq<word16>, base: nat, data: seq<byte>, n: nat, w: word16)
    requires Fits(|was|, base, |data|) && 2 * n < |data|
    requires StoredSoFar(pma, was, base, data, n)
    requires w == PacketWord(data, n)
    ensures StoredSoFar(pma[base + 2 * n := w], was, base, data, n + 1)
  {
    var r := pma[base + 2 * n := w];
    forall k | 0 <= k < |r|
      ensures r[k] == if InWords(k, base, n + 1) then PacketWord(data, (k - base) / 2) else was[k]
    {
      if k == base + 2 * n {
        assert (k - base) / 2 == n;
      } else {
        assert InWords(k, base, n + 1) <==> InWords(k, base, n);
      }
    }
  }

  /** Copies logical word idx of the packet that starts at buf[off]. */
  method PutWord(pma: array<word16>, base: nat, buf: array<byte>, off: nat, idx: nat,
                 ghost was: seq<word16>, ghost data: seq<byte>)
    requires 2 * idx + 2 <= |data| && off + |data| <= buf.Length && data == buf[off..off + |data|]
    requires |was| == pma.Length && Fits(pma.Length, base, |data|)
    requires StoredSoFar(pma[..], was, base, data, idx)
    modifies pma
    ensures StoredSoFar(pma[..], was, base, data, idx + 1)
  {
    var w := Le16(buf[off + 2 * idx], buf[off + 2 * idx + 1]);
    assert data[2 * idx] == buf[off + 2 * idx] && data[2 * idx + 1] == buf[off + 2 * idx + 1];
    StoreWord(pma[..], was, base, data, idx, w);
    pma[base + 2 * idx] := w;
    assert pma[..] == old(pma[..])[base + 2 * idx := w];
  }

  /** Stores the odd last byte as a word whose high half is zero. */
  method PutLastByte(pma: array<word16>, base: nat, buf: array<byte>, off: nat, idx: nat,
                     ghost was: seq<word16>, ghost data: seq<byte>)
    requires 2 * idx + 1 == |data| && off + |data| <= buf.Length && data == buf[off..off + |data|]
    requires |was| == pma.Length && Fits(pma.Length, base, |data|)
    requires StoredSoFar(pma[..], was, base, data, idx)
    modifies pma
    ensures StoredSoFar(pma[..], was, base, data, idx + 1)
  {
    var w := buf[off + 2 * idx];
    assert data[2 * idx] == w;
    StoreWord(pma[..], was, base, data, idx, w);
    pma[base + 2 * idx] := w;
    assert pma[..] == old(pma[..])[base + 2 * idx := w];
  }

  method CopyToPm(pma: array<word16>, base: nat, buf: array<byte>, off: nat, len: nat)
    requires off + len <= buf.Length && Fits(pma.Length, base, len)
    modifies pma
    ensures pma[..] == Stored(old(pma[..]), base, buf[off..off + len])
  {
    ghost var was, data := pma[..], buf[off..off + len];
    ghost var full := len / 2;
    if len == 0 {
      assert pma[..] == Stored(was, base, data);
      return;
    }
    var words, idx := len / 2, 0;
    while words >= 2
      invariant 0 <= words && 0 <= idx && idx + words == full
      invariant data == buf[off..off + len]
      invariant StoredSoFar(pma[..], was, base, data, idx)
    {
      PutWord(pma, base, buf, off, idx, was, data);
      PutWord(pma, base, buf, off, idx + 1, was, data);
      idx, words := idx + 2, words - 2;
    }
    if words != 0 {
      PutWord(pma, base, buf, off, idx, was, data);
      idx := idx + 1;
    }
    if len % 2 == 1 {
      PutLastByte(pma, base, buf, off, idx, was, data);
      idx := idx + 1;
    }
    assert idx == WordsFor(len);
  }

  /** The first n bytes of the packet are in the buffer and every other byte is as before. */
  ghost predicate LoadedSoFar(buf: seq<byte>, was: seq<byte>, off: nat, pma: seq<word16>, base: nat, n: nat)
    requires Fits(|pma|, base, n) && off + n <= |was|
  {
    buf == Splice(was, off, Loaded(pma, base, n))
  }

  lemma LoadWord(buf: seq<byte>, was: seq<byte>, off: nat, pma: seq<word16>, base: nat, idx: nat)
    requires Fits(|pma|, base, 2 * idx + 2) && off + 2 * idx + 2 <= |was|
    requires LoadedSoFar(buf, was, off, pma, base, 2 * idx)
    ensures var w := pma[base + 2 * idx];
      LoadedSoFar(Splice(buf, off + 2 * idx, [w % 256, w / 256]), was, off, pma, base, 2 * idx + 2)
  {
    var w := pma[base + 2 * idx];
    assert PacketByte(pma, base, 2 * idx) == w % 256;
    assert PacketByte(pma, base, 2 * idx + 1) == w / 256 by {
      assert (2 * idx + 1) / 2 == idx;
    }
  }

  /** Copies logical word idx of the packet to buf[off + 2 * idx]. */
  method GetWord(buf: array<byte>, off: nat, pma: array<word16>, base: nat, idx: nat, ghost was: seq<byte>)
    requires off + 2 * idx + 2 <= buf.Length == |was| && Fits(pma.Length, base, 2 * idx + 2)
    requires LoadedSoFar(buf[..], was, off, pma[..], base, 2 * idx)
    modifies buf
    ensures pma[..] == old(pma[..])
    ensures LoadedSoFar(buf[..], was, off, pma[..], base, 2 * idx + 2)
  {
    var w := pma[base + 2 * idx];
    LoadWord(buf[..], was, off, pma[..], base, idx);
    buf[off + 2 * idx], buf[off + 2 * idx + 1] := w % 256, w / 256;
    assert buf[..] == Splice(old(buf[..]), off + 2 * idx, [w % 256, w / 256]);
  }

  /** Copies the odd last byte, the low half of logical word idx. */
  method GetLastByte(buf: array<byte>, off: nat, pma: array<word16>, base: nat, idx: nat, ghost was: seq<byte>)
    requires off + 2 * idx + 1 <= buf.Length == |was| && Fits(pma.Length, base, 2 * idx + 1)
    requires LoadedSoFar(buf[..], was, off, pma[..], base, 2 * idx)
    modifies buf
    ensures pma[..] == old(pma[..])
    ensures LoadedSoFar(buf[..], was, off, pma[..], base, 2 * idx + 1)
  {
    assert PacketByte(pma[..], base, 2 * idx) == pma[base + 2 * idx] % 256;
    buf[off + 2 * idx] := pma[base + 2 * idx] % 256;
    assert buf[..] == Splice(was, off, Loaded(pma[..], base, 2 * idx + 1));
  }

  method CopyFromPm(buf: array<byte>, off: nat, pma: array<word16>, base: nat, len: nat)
    requires off + len <= buf.Length && Fits(pma.Length, base, len)
    modifies buf
    ensures pma[..] == old(pma[..])
    ensures buf[..] == Splice(old(buf[..]), off, Loaded(pma[..], base, len))
  {
    ghost var was, mem := buf[..], pma[..];
    ghost var full := len / 2;
    var words, idx := len / 2, 0;
    assert LoadedSoFar(buf[..], was, off, mem, base, 0);
    while words >= 2
      invariant 0 <= words && 0 <= idx && idx + words == full
      invariant pma[..] == mem
      invariant LoadedSoFar(buf[..], was, off, mem, base, 2 * idx)
    {
      GetWord(buf, off, pma, base, idx, was);
      GetWord(buf, off, pma, base, idx + 1, was);
      idx, words := idx + 2, words - 2;
    }
    if words != 0 {
      GetWord(buf, off, pma, base, idx, was);
      idx := idx + 1;
    }
    if len % 2 == 1 {
      GetLastByte(buf, off, pma, base, idx, was);
    }
  }
}
