/** The XOR checksum over a firmware image, in memory and streamed (Core/Src/checksum.c). */
module Checksum {
  import opened Bytes
  import opened ExclusiveOr

  const XOR_START := 0xB4DC_0FEE

  /** The i-th little-endian word. */
  function Word(s: seq<byte>, i: nat): (w: nat)
    requires 4 * i + 4 <= |s|
    ensures w < U32
  {
    Le32(s, 4 * i)
  }

  /** x combined with the first n words. */
  function XorFrom(x: nat, s: seq<byte>, n: nat): nat
    requires 4 * n <= |s|
  {
    if n == 0 then x else Xor(XorFrom(x, s, n - 1), Word(s, n - 1))
  }

  /** The first n words of the image carry a right checksum. */
  predicate Validates(s: seq<byte>, n: nat)
    requires 4 * n <= |s|
  {
    XorFrom(XOR_START, s, n) == 0
  }

  /** The start value, as four bytes: alone they cancel it. */
  lemma StartValue(s: seq<byte>)
    requires |s| == 4
    ensures Validates(s, 1) <==> s == [0xEE, 0x0F, 0xDC, 0xB4]
  {
    hide Xor;
    Le32Bytes(s, 0);
    assert s[0..4] == s;
    assert XorFrom(XOR_START, s, 1) == Xor(XorFrom(XOR_START, s, 0), Word(s, 0));
    XorIsZero(XOR_START, Word(s, 0));
    assert s == [s[0], s[1], s[2], s[3]];
  }

  /** Words are read at their own place. */
  lemma WordOf(s: seq<byte>, i: nat, t: seq<byte>, j: nat)
    requires 4 * i + 4 <= |s| && 4 * j + 4 <= |t|
    requires s[4 * i..4 * i + 4] == t[4 * j..4 * j + 4]
    ensures Word(s, i) == Word(t, j)
  {
    Le32Slice(s, 4 * i, t, 4 * j);
  }

  /** Only the words that are covered matter. */
  lemma {:induction false} XorPrefix(x: nat, s: seq<byte>, t: seq<byte>, n: nat)
    requires 4 * n <= |s| && 4 * n <= |t| && s[..4 * n] == t[..4 * n]
    ensures XorFrom(x, s, n) == XorFrom(x, t, n)
  {
    hide Xor, Word;
    if n > 0 {
      var m := 4 * (n - 1);
      assert s[..m] == s[..4 * n][..m] && t[..m] == t[..4 * n][..m];
      assert s[m..m + 4] == s[..4 * n][m..] && t[m..m + 4] == t[..4 * n][m..];
      XorPrefix(x, s, t, n - 1);
      WordOf(s, n - 1, t, n - 1);
    }
  }

  /** The checksum of a concatenation continues that of its first part. */
  lemma {:induction false} XorConcat(x: nat, a: seq<byte>, b: seq<byte>, k: nat, n: nat)
    requires |a| == 4 * k && 4 * n <= |b|
    ensures XorFrom(x, a + b, k + n) == XorFrom(XorFrom(x, a, k), b, n)
  {
    hide Xor, Word;
    if n == 0 {
      assert (a + b)[..4 * k] == a[..4 * k];
      XorPrefix(x, a + b, a, k);
    } else {
      XorConcat(x, a, b, k, n - 1);
      assert (a + b)[4 * (k + n - 1)..4 * (k + n - 1) + 4] == b[4 * (n - 1)..4 * (n - 1) + 4];
      WordOf(a + b, k + n - 1, b, n - 1);
    }
  }

  /** s and t differ in word k at most. */
  ghost predicate SameButWord(s: seq<byte>, t: seq<byte>, n: nat, k: nat)
    requires 4 * n <= |s| && 4 * n <= |t|
  {
    forall i :: 0 <= i < n && i != k ==> Word(s, i) == Word(t, i)
  }

  /** Changing one word changes the checksum by the difference of the words. */
  lemma {:induction false} XorReplace(x: nat, s: seq<byte>, t: seq<byte>, n: nat, k: nat)
    requires k < n && 4 * n <= |s| && 4 * n <= |t| && SameButWord(s, t, n, k)
    ensures XorFrom(x, t, n) == Xor(Xor(XorFrom(x, s, n), Word(s, k)), Word(t, k))
  {
    hide Xor, Word;
    var y := XorFrom(x, s, n - 1);
    if k == n - 1 {
      XorSame(x, s, t, n - 1);
      XorCancel(y, Word(s, k));
    } else {
      XorReplace(x, s, t, n - 1, k);
      var w := Word(s, n - 1);
      XorSwap(Xor(y, Word(s, k)), Word(t, k), w);
      XorSwap(y, Word(s, k), w);
    }
  }

  lemma {:induction false} XorSame(x: nat, s: seq<byte>, t: seq<byte>, n: nat)
    requires 4 * n <= |s| && 4 * n <= |t|
    requires forall i :: 0 <= i < n ==> Word(s, i) == Word(t, i)
    ensures XorFrom(x, s, n) == XorFrom(x, t, n)
  {
    hide Xor, Word;
    if n > 0 {
      XorSame(x, s, t, n - 1);
    }
  }

  lemma {:induction false} XorFromIsWord(x: nat, s: seq<byte>, n: nat)
    requires x < U32 && 4 * n <= |s|
    ensures XorFrom(x, s, n) < U32
  {
    hide Xor, Word;
    if n > 0 {
      XorFromIsWord(x, s, n - 1);
      XorWord(XorFrom(x, s, n - 1), Word(s, n - 1));
    }
  }

  /** The start value is just one more term. */
  lemma {:induction false} XorShift(x: nat, s: seq<byte>, n: nat)
    requires 4 * n <= |s|
    ensures XorFrom(x, s, n) == Xor(x, XorFrom(0, s, n))
  {
    hide Xor, Word;
    if n == 0 {
      XorZero(x);
    } else {
      XorShift(x, s, n - 1);
      XorAssociates(x, XorFrom(0, s, n - 1), Word(s, n - 1));
    }
  }

  /** The exclusive or of the words from word m to word n. */
  function TailXor(s: seq<byte>, m: nat, n: nat): nat
    requires m <= n && 4 * n <= |s|
  {
    XorFrom(0, s[4 * m..4 * n], n - m)
  }

  /** Two images that agree up to word m have the same checksum exactly if their tails do. */
  lemma TailDecides(s: seq<byte>, t: seq<byte>, m: nat, n: nat)
    requires m <= n && 4 * n <= |s| && 4 * n <= |t| && s[..4 * m] == t[..4 * m] && Validates(s, n)
    ensures Validates(t, n) <==> TailXor(s, m, n) == TailXor(t, m, n)
  {
    hide Xor, Word;
    var x := XorFrom(XOR_START, s[..4 * m], m);
    SplitXor(s, m, n);
    SplitXor(t, m, n);
    XorIsZero(x, TailXor(s, m, n));
    XorIsZero(x, TailXor(t, m, n));
  }

  lemma SplitXor(s: seq<byte>, m: nat, n: nat)
    requires m <= n && 4 * n <= |s|
    ensures XorFrom(XOR_START, s, n) == Xor(XorFrom(XOR_START, s[..4 * m], m), TailXor(s, m, n))
  {
    hide Xor, Word;
    var a, b := s[..4 * m], s[4 * m..4 * n];
    assert (a + b)[..4 * n] == s[..4 * n];
    XorPrefix(XOR_START, s, a + b, n);
    XorConcat(XOR_START, a, b, m, n - m);
    XorShift(XorFrom(XOR_START, a, m), b, n - m);
  }

  /** A change of a single covered word is always noticed. */
  lemma SingleChangeIsNoticed(s: seq<byte>, t: seq<byte>, n: nat, k: nat)
    requires k < n && 4 * n <= |s| && 4 * n <= |t| && SameButWord(s, t, n, k) && Validates(s, n)
    ensures Validates(t, n) <==> Word(t, k) == Word(s, k)
  {
    hide Xor, Word, XorFrom;
    XorReplace(XOR_START, s, t, n, k);
    XorCommutes(0, Word(s, k));
    XorZero(Word(s, k));
    XorIsZero(Word(s, k), Word(t, k));
  }

  /** validate_checksum, over the words from position off of a memory. */
  method ValidateChecksum(mem: array<byte>, off: nat, size: nat) returns (ok: bool)
    requires off + 4 * size <= mem.Length
    ensures ok == Validates(mem[off..off + 4 * size], size)
  {
    hide Xor, Le32;
    ghost var image := mem[off..off + 4 * size];
    var xorv := XOR_START;
    var i := 0;
    while i < size
      invariant 0 <= i <= size
      invariant xorv == XorFrom(XOR_START, image, i)
    {
      var at := off + 4 * i;
      assert mem[at..at + 4] == image[4 * i..4 * i + 4];
      assert mem[at..at + 4][0..4] == mem[at..at + 4];
      Le32Slice(mem[at..at + 4], 0, image, 4 * i);
      xorv := Xor(xorv, Le32(mem[at..at + 4], 0));
      i := i + 1;
    }
    return xorv == 0;
  }

  // Streaming

  /** What a read callback returns: an error code, or the bytes. */
  datatype Chunk = ReadError | Delivered(data: seq<byte>)

  type Reader = (nat, nat) -> Chunk

  /** The callback argument, which may be a null pointer. */
  datatype Callback = Null | Reads(read: Reader)

  /** A successful read delivers what was asked for. */
  ghost predicate Honest(read: Reader) {
    forall addr: nat, len: nat :: read(addr, len).Delivered? ==> |read(addr, len).data| == len
  }

  /** One call of the read callback. */
  datatype Span = Span(addr: nat, len: nat)

  function NextAddress(addr: nat, k: nat): nat {
    (addr + k) % U32
  }

  /** The calls that stream n bytes from addr on, chunk by chunk. */
  function Plan(addr: nat, n: nat, chunk: nat): (ps: seq<Span>)
    requires chunk > 0
    decreases n
  {
    if n == 0 then []
    else
      var k := Min(n, chunk);
      [Span(addr, k)] + Plan(NextAddress(addr, k), n - k, chunk)
  }

  /** The running checksum of a stream, or the failure of a read. */
  datatype Streamed = Failed | Sum(x: nat)

  function StreamFrom(x: nat, read: Reader, ps: seq<Span>): Streamed
    decreases |ps|, 1
  {
    if ps == [] then Sum(x) else StreamNext(x, read, ps)
  }

  /** One read of the callback, and the stream behind it. */
  function StreamNext(x: nat, read: Reader, ps: seq<Span>): Streamed
    requires ps != []
    decreases |ps|, 0
  {
    var c := read(ps[0].addr, ps[0].len);
    if c.ReadError? || |c.data| != ps[0].len then Failed
    else StreamFrom(XorFrom(x, c.data, |c.data| / 4), read, ps[1..])
  }

  /** One round of the loop: the first call of the plan, then the rest of it. */
  lemma StreamRound(x: nat, read: Reader, addr: nat, n: nat, chunk: nat)
    requires Honest(read) && n > 0 && chunk > 0
    ensures var k := Min(n, chunk);
      var c := read(addr, k);
      && Plan(addr, n, chunk) == [Span(addr, k)] + Plan(NextAddress(addr, k), n - k, chunk)
      && StreamFrom(x, read, Plan(addr, n, chunk)) ==
         if c.ReadError? then Failed
         else StreamFrom(XorFrom(x, c.data, k / 4), read, Plan(NextAddress(addr, k), n - k, chunk))
  {
    hide XorFrom;
    var k := Min(n, chunk);
    assert Plan(addr, n, chunk)[1..] == Plan(NextAddress(addr, k), n - k, chunk);
  }

  /** validate_checksum_stream. The chunk size is a multiple of 4. */
  method ValidateChecksumStream(cb: Callback, start: nat, size: nat, chunk: nat)
    returns (ok: bool, ghost calls: seq<Span>)
    requires cb.Reads? ==> Honest(cb.read)
    requires chunk > 0 && chunk % 4 == 0
    ensures ok <==> cb.Reads? && size % 4 == 0 && StreamFrom(XOR_START, cb.read, Plan(start, size, chunk)) == Sum(0)
    ensures calls <= Plan(start, size, chunk)
    ensures ok ==> calls == Plan(start, size, chunk)
  {
    hide XorFrom, Plan, StreamFrom;
    calls := [];
    if cb.Null? || size % 4 != 0 {
      return false, [];
    }
    var r;
    r, calls := StreamLoop(cb.read, start, size, chunk);
    return r == Sum(0), calls;
  }

  /** The loop over the chunks. */
  method StreamLoop(read: Reader, start: nat, size: nat, chunk: nat) returns (r: Streamed, ghost calls: seq<Span>)
    requires Honest(read) && chunk > 0
    ensures r == StreamFrom(XOR_START, read, Plan(start, size, chunk))
    ensures calls <= Plan(start, size, chunk)
    ensures r.Sum? ==> calls == Plan(start, size, chunk)
  {
    hide XorFrom, Plan, StreamFrom, NextAddress, Honest;
    calls := [];
    var xorv: nat := XOR_START;
    var remaining: nat, addr: nat := size, start;
    ghost var plan := Plan(start, size, chunk);
    ghost var rest := plan;
    while remaining != 0
      invariant rest == Plan(addr, remaining, chunk) && plan == calls + rest
      invariant StreamFrom(XOR_START, read, plan) == StreamFrom(xorv, read, rest)
      decreases remaining
    {
      var toread := if remaining > chunk then chunk else remaining;
      StreamRound(xorv, read, addr, remaining, chunk);
      var r := read(addr, toread);
      ghost var next := Plan(NextAddress(addr, toread), remaining - toread, chunk);
      NextCall(plan, calls, Span(addr, toread), next);
      calls, rest := calls + [Span(addr, toread)], next;
      if r.ReadError? {
        return Failed, calls;
      }
      HonestLength(read, addr, toread);
      xorv := XorChunk(xorv, r.data, toread / 4);
      addr, remaining := NextAddress(addr, toread), remaining - toread;
    }
    StreamEnd(xorv, read, addr, chunk);
    return Sum(xorv), calls;
  }

  lemma NextCall(plan: seq<Span>, calls: seq<Span>, s: Span, next: seq<Span>)
    requires plan == calls + ([s] + next)
    ensures plan == (calls + [s]) + next && calls + [s] <= plan
  {
  }

  lemma HonestLength(read: Reader, addr: nat, len: nat)
    requires Honest(read)
    ensures read(addr, len).Delivered? ==> |read(addr, len).data| == len
  {
  }

  lemma StreamEnd(x: nat, read: Reader, addr: nat, chunk: nat)
    requires chunk > 0
    ensures Plan(addr, 0, chunk) == [] && StreamFrom(x, read, []) == Sum(x)
  {
  }

  /** The inner loop of the streaming check. */
  method XorChunk(x: nat, buf: seq<byte>, words: nat) returns (y: nat)
    requires 4 * words <= |buf|
    ensures y == XorFrom(x, buf, words)
  {
    hide Xor;
    y := x;
    var i := 0;
    while i < words
      invariant 0 <= i <= words && y == XorFrom(x, buf, i)
    {
      y := Xor(y, Word(buf, i));
      i := i + 1;
    }
  }

  // The stream refines the simple check

  /** The plan visits each byte of the range once, in order and in chunks that are not too big. */
  predicate Covers(ps: seq<Span>, addr: nat, n: nat, chunk: nat)
    decreases |ps|
  {
    if ps == [] then n == 0
    else
      && ps[0].addr == addr && 0 < ps[0].len <= chunk && ps[0].len <= n
      && Covers(ps[1..], addr + ps[0].len, n - ps[0].len, chunk)
  }

  lemma {:induction false} PlanCovers(addr: nat, n: nat, chunk: nat)
    requires chunk > 0 && addr + n < U32
    ensures Covers(Plan(addr, n, chunk), addr, n, chunk)
    decreases n
  {
    if n > 0 {
      var k := Min(n, chunk);
      PlanCovers(addr + k, n - k, chunk);
      assert Plan(addr, n, chunk)[1..] == Plan(addr + k, n - k, chunk);
    }
  }

  /** The callback reads the memory s and does not fail inside it. */
  ghost predicate ReadsMemory(read: Reader, s: seq<byte>) {
    forall addr: nat, len: nat :: 0 < len && addr + len <= |s| ==> read(addr, len) == Delivered(s[addr..addr + len])
  }

  lemma {:induction false} StreamIsXor(x: nat, read: Reader, s: seq<byte>, addr: nat, k: nat, c: nat)
    requires ReadsMemory(read, s) && c > 0 && addr + 4 * k <= |s| && addr + 4 * k < U32
    ensures StreamFrom(x, read, Plan(addr, 4 * k, 4 * c)) == Sum(XorFrom(x, s[addr..addr + 4 * k], k))
    decreases k
  {
    hide XorFrom, Plan, StreamFrom, ReadsMemory;
    if k == 0 {
      StreamEnd(x, read, addr, 4 * c);
      NoWords(x, s[addr..addr]);
    } else {
      var m := Min(k, c);
      var a, b := s[addr..addr + 4 * m], s[addr + 4 * m..addr + 4 * k];
      MemoryRound(x, read, s, addr, k, c);
      StreamIsXor(XorFrom(x, a, m), read, s, addr + 4 * m, k - m, c);
      XorConcat(x, a, b, m, k - m);
      assert a + b == s[addr..addr + 4 * k];
    }
  }

  lemma NoWords(x: nat, s: seq<byte>)
    ensures XorFrom(x, s, 0) == x
  {
  }

  /** One round over a memory that can be read. */
  lemma MemoryRound(x: nat, read: Reader, s: seq<byte>, addr: nat, k: nat, c: nat)
    requires ReadsMemory(read, s) && c > 0 && k > 0 && addr + 4 * k <= |s| && addr + 4 * k < U32
    ensures var m := Min(k, c);
      StreamFrom(x, read, Plan(addr, 4 * k, 4 * c)) ==
      StreamFrom(XorFrom(x, s[addr..addr + 4 * m], m), read, Plan(addr + 4 * m, 4 * (k - m), 4 * c))
  {
    hide XorFrom;
    var m := Min(k, c);
    var n := 4 * m;
    assert Min(4 * k, 4 * c) == n && n / 4 == m;
    assert read(addr, n) == Delivered(s[addr..addr + n]);
    assert NextAddress(addr, n) == addr + n;
    assert Plan(addr, 4 * k, 4 * c)[1..] == Plan(addr + n, 4 * (k - m), 4 * c);
  }

  /** For every size that is a multiple of 4 and every chunk size, streaming over a memory that
      can be read gives the verdict of the simple check on the words in that memory. */
  lemma StreamRefinesCheck(read: Reader, s: seq<byte>, start: nat, size: nat, chunk: nat)
    requires ReadsMemory(read, s) && chunk > 0 && chunk % 4 == 0
    requires size % 4 == 0 && start + size <= |s| && start + size < U32
    ensures StreamFrom(XOR_START, read, Plan(start, size, chunk)) == Sum(0) <==>
            Validates(s[start..start + size], size / 4)
  {
    hide XorFrom, Plan, StreamFrom, ReadsMemory;
    StreamIsXor(XOR_START, read, s, start, size / 4, chunk / 4);
  }

  /** A stream fails exactly if one of its reads does. */
  lemma {:induction false} StreamFailsWithRead(x: nat, read: Reader, ps: seq<Span>)
    requires Honest(read)
    ensures StreamFrom(x, read, ps) == Failed <==>
            exists i :: 0 <= i < |ps| && read(ps[i].addr, ps[i].len).ReadError?
    decreases |ps|
  {
    hide XorFrom;
    if ps != [] {
      var c := read(ps[0].addr, ps[0].len);
      if c.Delivered? {
        StreamFailsWithRead(XorFrom(x, c.data, |c.data| / 4), read, ps[1..]);
        assert forall i :: 0 < i < |ps| ==> ps[i] == ps[1..][i - 1];
        if i :| 0 <= i < |ps| && read(ps[i].addr, ps[i].len).ReadError? {
          assert ps[1..][i - 1] == ps[i];
        }
      }
    }
  }
}
