/** memcpy, as Core/Src/main.c implements it. */
module Memory {
  import opened Bytes

  /** n bytes from one object to another. */
  method Memcpy(dst: array<byte>, off: nat, src: array<byte>, from: nat, n: nat)
    requires dst != src && off + n <= dst.Length && from + n <= src.Length
    modifies dst
    ensures dst[..] == Splice(old(dst[..]), off, src[from..from + n])
  {
    ghost var was, data := dst[..], src[from..from + n];
    var count := n;
    var i := 0;
    while count > 0
      invariant 0 <= i <= n && count == n - i
      invariant src[from..from + n] == data
      invariant dst[..] == Splice(was, off, data[..i])
    {
      CopyByte(dst, off, i, src[from + i], was, data);
      i, count := i + 1, count - 1;
    }
    assert data[..n] == data;
  }

  /** The same from a constant. */
  method CopyConstant(dst: array<byte>, off: nat, data: seq<byte>)
    requires off + |data| <= dst.Length
    modifies dst
    ensures dst[..] == Splice(old(dst[..]), off, data)
  {
    ghost var was := dst[..];
    var i := 0;
    while i < |data|
      invariant 0 <= i <= |data|
      invariant dst[..] == Splice(was, off, data[..i])
    {
      CopyByte(dst, off, i, data[i], was, data);
      i := i + 1;
    }
    assert data[..i] == data;
  }

  method CopyByte(dst: array<byte>, off: nat, i: nat, b: byte, ghost was: seq<byte>, ghost data: seq<byte>)
    requires i < |data| && off + |data| <= |was| && b == data[i]
    requires dst[..] == Splice(was, off, data[..i])
    modifies dst
    ensures dst[..] == Splice(was, off, data[..i + 1])
  {
    assert dst.Length == |was|;
    dst[off + i] := b;
    assert dst[..] == Splice(was, off, data[..i + 1]);
  }
}
