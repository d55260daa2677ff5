/** The tool that stamps size and checksum into a firmware file (Releas-PRG/checksum.py), and
    its agreement with the check in the bootloader. */
module Patcher {
  import opened Bytes
  import opened ExclusiveOr
  import opened Checksum

  const SUM_AT := 0x1C
  const SIZE_AT := 0x20

  /** The optional length argument of the command line. */
  datatype LengthArg = Default | Given(fwlen: int)

  /** The tool writes the file back or stops with an exception. */
  datatype Patched = Exception | File(bytes: seq<byte>)

  /** Python slices s[:n] and s[n:], which never fail. */
  function Take(s: seq<byte>, n: nat): (r: seq<byte>)
    ensures |r| == Min(n, |s|)
  {
    s[..Min(n, |s|)]
  }

  function Drop(s: seq<byte>, n: nat): (r: seq<byte>)
    ensures |r| == |s| - Min(n, |s|)
  {
    s[Min(n, |s|)..]
  }

  /** The file filled up with zeros to a whole number of words. */
  function Pad(fw: seq<byte>): (f: seq<byte>)
    ensures |f| % 4 == 0 && |fw| <= |f| < |fw| + 4
  {
    if |fw| % 4 == 0 then fw else fw + Fill(4 - |fw| % 4, 0)
  }

  /** The file with the size in words stamped in and the checksum field zero. */
  function Stamped(f: seq<byte>, fwlen: nat): (r: seq<byte>)
    requires fwlen / 4 < U32
  {
    Take(f, SUM_AT) + [0, 0, 0, 0] + Pack32(fwlen / 4) + Drop(f, SIZE_AT + 4)
  }

  /** The file with checksum x stamped in. */
  function Signed(f: seq<byte>, x: nat): (r: seq<byte>)
    requires x < U32
  {
    Take(f, SUM_AT) + Pack32(x) + Drop(f, SUM_AT + 4)
  }

  function LengthOf(f: seq<byte>, arg: LengthArg): int {
    if arg.Given? then arg.fwlen else |f|
  }

  /** What the tool makes of a file. It fails on a length that is no whole number of words, or
      negative, or too big for the size field, or longer than the file. */
  function Patch(fw: seq<byte>, arg: LengthArg): Patched {
    var f := Pad(fw);
    var fwlen := LengthOf(f, arg);
    if fwlen % 4 != 0 || fwlen < 0 || fwlen / 4 >= U32 then Exception
    else
      var g := Stamped(f, fwlen);
      if fwlen > |g| then Exception
      else
        XorFromIsWord(XOR_START, g, fwlen / 4);
        File(Signed(g, XorFrom(XOR_START, g, fwlen / 4)))
  }

  /** The tool itself. */
  method PatchFile(fw: seq<byte>, arg: LengthArg) returns (r: Patched)
    ensures r == Patch(fw, arg)
  {
    hide Xor, Stamped, Signed, Pad;
    var fwbin := PadFile(fw);
    var fwlen := if arg.Given? then arg.fwlen else |fwbin|;
    if fwlen % 4 != 0 || fwlen < 0 || fwlen / 4 >= U32 {
      return Exception;
    }
    fwbin := Stamped(fwbin, fwlen);
    if fwlen > |fwbin| {
      return Exception;
    }
    var xorv: nat := XOR_START;
    var i: nat := 0;
    while i < fwlen
      invariant i <= fwlen && i % 4 == 0
      invariant xorv == XorFrom(XOR_START, fwbin, i / 4)
    {
      xorv := Xor(xorv, Le32(fwbin, i));
      i := i + 4;
    }
    XorFromIsWord(XOR_START, fwbin, fwlen / 4);
    return File(Signed(fwbin, xorv));
  }

  method PadFile(fw: seq<byte>) returns (f: seq<byte>)
    ensures f == Pad(fw)
  {
    f := fw;
    while |f| % 4 != 0
      invariant fw <= f && |f| <= |Pad(fw)| && f == Pad(fw)[..|f|]
      decreases |Pad(fw)| - |f|
    {
      f := f + [0];
    }
  }

  /** The fields of a stamped file. */
  lemma StampedFields(f: seq<byte>, fwlen: nat)
    requires |f| >= SIZE_AT && |f| % 4 == 0 && fwlen / 4 < U32
    ensures var g := Stamped(f, fwlen);
      |g| >= SIZE_AT + 4 && |g| % 4 == 0 && Word(g, 7) == 0 && Word(g, 8) == fwlen / 4
  {
    var g := Stamped(f, fwlen);
    assert g[0x1C..0x20] == [0, 0, 0, 0];
    assert g[0x20..0x24] == Pack32(fwlen / 4) == Pack32(fwlen / 4)[0..4];
    Le32Slice(g, 0x20, Pack32(fwlen / 4), 0);
    PackUnpack(fwlen / 4);
    Le32Bytes(g, 0x1C);
  }

  /** Signing changes the checksum word and no other. */
  lemma SignedWords(g: seq<byte>, x: nat, n: nat)
    requires x < U32 && |g| >= SIZE_AT + 4 && 4 * n <= |g|
    ensures |Signed(g, x)| == |g| && Word(Signed(g, x), 7) == x && Word(Signed(g, x), 8) == Word(g, 8)
    ensures SameButWord(g, Signed(g, x), n, 7)
  {
    var s := Signed(g, x);
    assert s[0x1C..0x20] == Pack32(x) == Pack32(x)[0..4];
    Le32Slice(s, 0x1C, Pack32(x), 0);
    PackUnpack(x);
    forall i | 0 <= i && 4 * i + 4 <= |g| && i != 7
      ensures Word(g, i) == Word(s, i)
    {
      SignedKeeps(g, x, i);
    }
  }

  lemma SignedKeeps(g: seq<byte>, x: nat, i: nat)
    requires x < U32 && |g| >= SIZE_AT + 4 && 4 * i + 4 <= |g| && i != 7
    ensures |Signed(g, x)| == |g| && Word(Signed(g, x), i) == Word(g, i)
  {
    var s := Signed(g, x);
    assert s[4 * i..4 * i + 4] == g[4 * i..4 * i + 4] by {
      if i < 7 {
        assert 4 * i + 4 <= SUM_AT;
      }
    }
    WordOf(s, i, g, i);
  }

  /** A file of at least 0x20 bytes that the tool accepts holds its size in words at 0x20, and the
      bootloader's check over that many words passes if and only if the length reaches past the
      checksum field, or the words before it happen to cancel. */
  lemma PatchedValidates(fw: seq<byte>, arg: LengthArg)
    requires |Pad(fw)| >= SIZE_AT && Patch(fw, arg).File?
    ensures var g, fwlen := Patch(fw, arg).bytes, LengthOf(Pad(fw), arg);
      && SIZE_AT + 4 <= |g| && |g| % 4 == 0 && 0 <= fwlen <= |g| && fwlen % 4 == 0
      && Word(g, 8) == fwlen / 4
      && (Validates(g, Word(g, 8)) <==> fwlen >= SIZE_AT || XorFrom(XOR_START, Stamped(Pad(fw), fwlen), fwlen / 4) == 0)
  {
    hide Xor, Word, XorFrom, Stamped, Signed, Pad;
    var f := Pad(fw);
    var fwlen := LengthOf(f, arg);
    StampedFields(f, fwlen);
    var g, n := Stamped(f, fwlen), fwlen / 4;
    XorFromIsWord(XOR_START, g, n);
    var x := XorFrom(XOR_START, g, n);
    var s := Signed(g, x);
    SignedWords(g, x, n);
    if fwlen >= SIZE_AT {
      XorReplace(XOR_START, g, s, n, 7);
      XorZero(x);
      XorSelf(x);
    } else {
      XorSame(XOR_START, g, s, n);
    }
  }

  /** The file g holds the firmware fw as it was, but for the eight bytes of the two fields, and
      zeros behind it up to a whole number of words. */
  predicate Carries(g: seq<byte>, fw: seq<byte>) {
    && |g| % 4 == 0 && |fw| <= |g| && (|fw| >= SIZE_AT + 4 ==> |g| < |fw| + 4)
    && (forall i :: 0 <= i < |fw| && !(0x1C <= i < 0x24) ==> g[i] == fw[i])
    && (forall i :: |fw| <= i < |g| && !(0x1C <= i < 0x24) ==> g[i] == 0)
  }

  /** The tool changes nothing of the firmware but the two fields. A file that ends inside them is
      filled up to their end. */
  lemma PatchKeepsFirmware(fw: seq<byte>, arg: LengthArg)
    requires |Pad(fw)| >= SUM_AT && Patch(fw, arg).File?
    ensures Carries(Patch(fw, arg).bytes, fw)
    ensures |Patch(fw, arg).bytes| == if |Pad(fw)| >= SIZE_AT + 4 then |Pad(fw)| else SIZE_AT + 4
  {
    hide XorFrom, Pack32;
    PadIsZero(fw);
  }

  lemma PadIsZero(fw: seq<byte>)
    ensures forall i :: 0 <= i < |Pad(fw)| ==> Pad(fw)[i] == if i < |fw| then fw[i] else 0
  {
  }

  /** The tool accepts a length exactly if it is a whole number of words, not negative, not beyond
      the size field, and not beyond the stamped file. */
  lemma PatchAccepts(fw: seq<byte>, arg: LengthArg)
    requires |Pad(fw)| >= SUM_AT
    ensures var n := if arg.Given? then arg.fwlen else |Pad(fw)|;
      Patch(fw, arg).File? <==>
      n % 4 == 0 && 0 <= n < 0x4_0000_0000 && (n <= |Pad(fw)| || n <= 0x24)
  {
    hide XorFrom, Pack32, Pad;
  }

  /** Patching a patched file again with the default length changes nothing. */
  lemma PatchIsIdempotent(fw: seq<byte>)
    requires |Pad(fw)| >= SIZE_AT + 4 && Patch(fw, Default).File?
    ensures Patch(Patch(fw, Default).bytes, Default) == Patch(fw, Default)
  {
    hide XorFrom;
    var f := Pad(fw);
    var g := Stamped(f, |f|);
    var s := Patch(fw, Default).bytes;
    assert |s| == |f| == |g|;
    assert Pad(s) == s;
    assert Stamped(s, |s|) == g;
  }

  /** The length 0 makes a file that fails: nothing is covered, not even the checksum. */
  lemma ZeroLengthFails(fw: seq<byte>)
    requires |Pad(fw)| >= SIZE_AT
    ensures Patch(fw, Given(0)).File? && SIZE_AT + 4 <= |Patch(fw, Given(0)).bytes|
    ensures Word(Patch(fw, Given(0)).bytes, 8) == 0 && !Validates(Patch(fw, Given(0)).bytes, 0)
  {
    hide Xor, Word, Pad, Signed;
    PatchedValidates(fw, Given(0));
  }

  /** A patched file in which one covered word other than the size is altered fails the check of
      the bootloader; only the original word passes. */
  lemma PatchedTamperIsNoticed(fw: seq<byte>, arg: LengthArg, t: seq<byte>, k: nat)
    requires |Pad(fw)| >= SIZE_AT && Patch(fw, arg).File? && LengthOf(Pad(fw), arg) >= SIZE_AT
    requires |t| == |Patch(fw, arg).bytes| && 4 * k < LengthOf(Pad(fw), arg) && k != 8
    requires forall i :: 0 <= i && 4 * i + 4 <= |t| && i != k ==> Word(t, i) == Word(Patch(fw, arg).bytes, i)
    ensures SIZE_AT + 4 <= |t| && 4 * k + 4 <= |t| && Word(t, 8) <= |t| / 4
    ensures Validates(t, Word(t, 8)) <==> Word(t, k) == Word(Patch(fw, arg).bytes, k)
  {
    hide Xor, Word, XorFrom, Patch, Pad;
    PatchedValidates(fw, arg);
    var g := Patch(fw, arg).bytes;
    SingleChangeIsNoticed(g, t, Word(g, 8), k);
  }
}
