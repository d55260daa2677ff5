/** The whole way of a firmware file: stamped by the patch tool, brought to the device over USB
    or through the SRAM, and started by the bootloader. */
module Release {
  import opened Bytes
  import opened FlashMemory
  import opened ExclusiveOr
  import opened Checksum
  import opened Patcher
  import opened SramImage
  import opened Boot
  import opened Usb
  import opened UsbRun
  import opened ControlWrite
  import opened Transfers
  import opened Download

  /** A firmware file that the tool has stamped with the default length: it starts with a
      plausible stack pointer and fits into the flash. */
  predicate IsRelease(fw: seq<byte>, g: seq<byte>) {
    |Pad(fw)| >= SIZE_AT + 4 && Patch(fw, Default) == File(g) && |g| <= PAYLOAD && StackPointerOk(Word(g, 0))
  }

  /** A stamped file states its own size in words, carries the right checksum, and is the firmware
      but for these two fields. */
  lemma ReleaseIsConsistent(fw: seq<byte>, g: seq<byte>)
    requires |Pad(fw)| >= SIZE_AT + 4 && Patch(fw, Default) == File(g)
    ensures |g| >= SIZE_AT + 4 && |g| % 4 == 0 && Word(g, 8) == |g| / 4 && Validates(g, |g| / 4)
    ensures Carries(g, fw)
  {
    hide XorFrom, Word, Pad, Carries;
    PatchedValidates(fw, Default);
    PatchKeepsFirmware(fw, Default);
    SameLength(fw, g);
  }

  lemma SameLength(fw: seq<byte>, g: seq<byte>)
    requires |Pad(fw)| >= SIZE_AT + 4 && Patch(fw, Default) == File(g)
    ensures |g| == |Pad(fw)|
  {
    hide XorFrom, Pad;
  }

  /** The application area holds a released file: the bootloader starts it. */
  lemma ReleaseJumps(s: Storage, fw: seq<byte>, g: seq<byte>)
    requires s.Valid() && !HasValidImage(s.sram) && IsRelease(fw, g)
    requires s.flash.mem[BOOT_SIZE..BOOT_SIZE + |g|] == g
    ensures Decide(s, false) == Jump
  {
    ReleaseIsConsistent(fw, g);
    hide Decide, Validates, HasValidImage, Word, StackPointerOk, Patch, Pad;
    assert Partial(g, Halfwords(g)) == g;
    DecideOnPartial(s, g, |g| / 4, Halfwords(g), false);
  }

  /** A download and the request to leave DFU mode: the device resets with the file in its flash. */
  lemma DownloadAndLeave(d: Device, g: seq<byte>)
    requires Ready(d) && |g| <= PAYLOAD && SurvivesRounding(g)
    ensures var r := Run(d, DownloadTokens(g) + (LeaveTokens(0) + GetStatusTokens()));
      r.reset && Holds(r.flash, g)
  {
    hide Step, Rom.Valid, DownloadTokens, LeaveTokens, GetStatusTokens, Holds, SurvivesRounding;
    DownloadWritesImage(d, g);
    DownloadIsExact(d, g);
    LeaveResets(Run(d, DownloadTokens(g)), 0);
    RunAppend(d, DownloadTokens(g), LeaveTokens(0) + GetStatusTokens());
  }

  /** The application area holds the firmware. */
  predicate HoldsFirmware(f: Flash, fw: seq<byte>, n: nat)
    requires f.Valid()
  {
    n <= PAYLOAD && Carries(f.mem[BOOT_SIZE..BOOT_SIZE + n], fw)
  }

  /** From the patch tool over USB to the start of the application: for every firmware file, every
      device that can take a SETUP and every flash contents, the packets of a download followed
      by the request to leave DFU mode reset the device with the firmware in its flash, and the
      bootloader then starts it, provided no image waits in the SRAM. */
  lemma UsbReleaseBoots(d: Device, fw: seq<byte>, g: seq<byte>, sram: seq<byte>)
    requires Ready(d) && IsRelease(fw, g) && IsSram(sram) && !HasValidImage(sram)
    ensures var r := Run(d, DownloadTokens(g) + (LeaveTokens(0) + GetStatusTokens()));
      r.reset && HoldsFirmware(r.flash, fw, |g|) && Decide(Storage(r.flash, sram), false) == Jump
  {
    ReleaseIsConsistent(fw, g);
    EvenSurvives(g);
    ReleaseFits(fw, g);
    hide Step, Run, DownloadTokens, LeaveTokens, GetStatusTokens, Decide, IsRelease, HasValidImage, Validates, Word;
    hide Patch, Pad, SurvivesRounding, Inv, Carries;
    DownloadAndLeave(d, g);
    ReleaseJumps(Storage(Run(d, DownloadTokens(g) + (LeaveTokens(0) + GetStatusTokens())).flash, sram), fw, g);
  }

  lemma EvenSurvives(g: seq<byte>)
    requires |g| % 4 == 0
    ensures SurvivesRounding(g)
  {
  }

  lemma ReleaseFits(fw: seq<byte>, g: seq<byte>)
    requires IsRelease(fw, g)
    ensures |g| <= PAYLOAD
  {
  }

  /** An SRAM that holds the image g at offset o, with its header. */
  predicate Staged(sram: seq<byte>, g: seq<byte>, o: nat) {
    && IsSram(sram) && HEADER <= o && o + |g| <= REGION
    && Le32(sram, 0) == MAGIC && Le32(sram, 4) == o && Le32(sram, 8) == |g| && sram[o..o + |g|] == g
  }

  lemma StagedIsAccepted(sram: seq<byte>, g: seq<byte>, o: nat)
    requires Staged(sram, g, o) && 0 < |g| <= PAYLOAD && |g| % 4 == 0
    ensures HeaderAccepted(sram) && Image(sram) == g
  {
    hide Le32;
  }

  lemma StagedIsValid(sram: seq<byte>, fw: seq<byte>, g: seq<byte>, o: nat)
    requires IsRelease(fw, g) && Staged(sram, g, o)
    ensures HasValidImage(sram) && Image(sram) == g
  {
    ReleaseIsConsistent(fw, g);
    ReleaseFits(fw, g);
    StagedIsAccepted(sram, g, o);
    hide Le32, Validates, Patch, Pad, Word, HasValidImage, HeaderAccepted, Staged, IsRelease;
    ValidImageIsSound(sram);
  }

  /** From the patch tool through the SRAM to the start of the application: a released file that
      an application has put into the SRAM is taken at the next boot, whatever the flash holds and
      whether or not DFU mode was asked for. It is programmed and then started. */
  lemma SramReleaseBoots(s: Storage, fw: seq<byte>, g: seq<byte>, o: nat, forced: bool)
    requires s.Valid() && IsRelease(fw, g) && Staged(s.sram, g, o)
    ensures HasValidImage(s.sram) && Decide(s, forced) == Update
    ensures HoldsFirmware(CompleteBoot(s).flash, fw, |g|) && Decide(CompleteBoot(s), false) == Jump
  {
    StagedIsValid(s.sram, fw, g, o);
    ReleaseIsConsistent(fw, g);
    hide Le32, Validates, Patch, Pad, Word, HasValidImage, CompleteBoot, StackPointerOk, Carries;
    assert Decide(s, forced) == Update;
    hide Decide;
    UpdateBoots(s, false);
    UpdateWritesImage(s);
  }

  // An update that is not finished can be started

  /** If the last two words of an image are equal, a reset right before them goes unnoticed. */
  lemma TwinTailJumps(s: Storage, n: nat)
    requires s.Valid() && HasValidImage(s.sram) && ImageSize(s.sram) == 4 * n && n >= 11
    requires Word(Image(s.sram), 8) == n && StackPointerOk(Word(Image(s.sram), 0))
    requires Word(Image(s.sram), n - 1) == Word(Image(s.sram), n - 2)
    ensures Decide(InterruptedBoot(s, PagesFor(4 * n) + HEADER + 2 * (n - 2)), false) == Jump
  {
    hide HasValidImage, HeaderAccepted, Image, Decide, InterruptedBoot;
    hide PagesFor, StackPointerOk, Word, TailXor, Partial;
    hide ImageSize, UpdateScript, Le32, XorFrom;
    ValidHeader(s.sram);
    TwinTails(Image(s.sram), n);
    CutBetweenWords(s, n - 2, n);
  }

  /** PartialImageJumps for a reset between two words. */
  lemma CutBetweenWords(s: Storage, m: nat, n: nat)
    requires s.Valid() && HasValidImage(s.sram) && ImageSize(s.sram) == 4 * n && 9 <= m <= n
    requires Word(Image(s.sram), 8) == n && StackPointerOk(Word(Image(s.sram), 0))
    requires TailXor(Image(s.sram), m, n) == TailXor(Partial(Image(s.sram), 2 * m), m, n)
    ensures Decide(InterruptedBoot(s, PagesFor(4 * n) + HEADER + 2 * m), false) == Jump
  {
    hide HasValidImage, Image, Decide, InterruptedBoot, PagesFor, StackPointerOk, Word, TailXor, Partial, ImageSize;
    assert 2 * m / 2 == m && 4 * n / 4 == n;
    PartialImageJumps(s, 2 * m, false);
  }

  /** Neither the last two words nor the erased bytes in their place show in the checksum. */
  lemma TwinTails(image: seq<byte>, n: nat)
    requires n >= 2 && |image| == 4 * n && Word(image, n - 1) == Word(image, n - 2)
    ensures TailXor(image, n - 2, n) == 0 && TailXor(Partial(image, 2 * (n - 2)), n - 2, n) == 0
  {
    hide Word, TailXor;
    var p := Partial(image, 2 * (n - 2));
    TwinTailXor(image, n);
    BlankWord(p, n - 1);
    BlankWord(p, n - 2);
    TwinTailXor(p, n);
  }

  lemma BlankWord(p: seq<byte>, i: nat)
    requires 4 * i + 4 <= |p| && forall k :: 4 * i <= k < 4 * i + 4 ==> p[k] == ERASED
    ensures Word(p, i) == 0xFFFF_FFFF
  {
    Le32Bytes(p, 4 * i);
  }

  lemma TwinTailXor(s: seq<byte>, n: nat)
    requires n >= 2 && |s| == 4 * n && Word(s, n - 1) == Word(s, n - 2)
    ensures TailXor(s, n - 2, n) == 0
  {
    hide Xor, Le32;
    var t := s[4 * (n - 2)..4 * n];
    assert t[0..4] == s[4 * (n - 2)..4 * (n - 2) + 4];
    assert t[4..8] == s[4 * (n - 1)..4 * (n - 1) + 4];
    Le32Slice(t, 0, s, 4 * (n - 2));
    Le32Slice(t, 4, s, 4 * (n - 1));
    var w := Word(s, n - 1);
    assert XorFrom(0, t, 1) == Xor(XorFrom(0, t, 0), w);
    assert XorFrom(0, t, 2) == Xor(XorFrom(0, t, 1), w);
    XorCancel(0, w);
  }

  /** A file of eleven words: a stack pointer and zeros. */
  function ExampleFile(): (fw: seq<byte>)
    ensures |fw| == 44
  {
    [0x00, 0x10, 0x00, 0x20] + Fill(40, 0)
  }

  /** The SRAM that holds it behind its header. */
  function ExampleSram(g: seq<byte>): (sram: seq<byte>)
    requires |g| == 44
    ensures |sram| == REGION
  {
    Pack32(MAGIC) + Pack32(HEADER) + Pack32(44) + g + Fill(REGION - HEADER - 44, 0)
  }

  lemma ExampleIsStaged(g: seq<byte>)
    requires |g| == 44
    ensures Staged(ExampleSram(g), g, HEADER)
  {
    hide Le32, Pack32;
    var s := ExampleSram(g);
    assert s[0..4] == Pack32(MAGIC)[0..4] && s[4..8] == Pack32(HEADER)[0..4] && s[8..12] == Pack32(44)[0..4];
    Le32Slice(s, 0, Pack32(MAGIC), 0);
    Le32Slice(s, 4, Pack32(HEADER), 0);
    Le32Slice(s, 8, Pack32(44), 0);
    PackUnpack(MAGIC);
    PackUnpack(HEADER);
    PackUnpack(44);
    assert s[HEADER..HEADER + 44] == g;
  }

  lemma StampedExample() returns (f: seq<byte>)
    ensures f == Stamped(ExampleFile(), 44) && |f| == 44
    ensures f[0] == 0 && f[1] == 0x10 && f[2] == 0 && f[3] == 0x20 && forall i :: 36 <= i < 44 ==> f[i] == 0
  {
    f := Stamped(ExampleFile(), 44);
  }

  lemma ExampleIsPatched() returns (f: seq<byte>, x: nat)
    ensures |f| == 44 && x < U32 && Pad(ExampleFile()) == ExampleFile()
    ensures Patch(ExampleFile(), Default) == File(Signed(f, x))
    ensures f[0] == 0 && f[1] == 0x10 && f[2] == 0 && f[3] == 0x20 && forall i :: 36 <= i < 44 ==> f[i] == 0
  {
    hide XorFrom, Stamped, Signed, ExampleFile;
    var fw := ExampleFile();
    assert Pad(fw) == fw;
    f := StampedExample();
    XorFromIsWord(XOR_START, f, 11);
    x := XorFrom(XOR_START, f, 11);
  }

  lemma ExampleIsRelease() returns (g: seq<byte>)
    ensures |g| == 44 && IsRelease(ExampleFile(), g) && Word(g, 9) == 0 && Word(g, 10) == 0
  {
    hide Signed, Patch, Pad, ExampleFile, Word, StackPointerOk;
    var f, x := ExampleIsPatched();
    g := Signed(f, x);
    SignedKeeps(f, x, 0);
    SignedKeeps(f, x, 9);
    SignedKeeps(f, x, 10);
    ExampleWords(f);
  }

  lemma ExampleWords(f: seq<byte>)
    requires |f| == 44
    requires f[0] == 0 && f[1] == 0x10 && f[2] == 0 && f[3] == 0x20 && forall i :: 36 <= i < 44 ==> f[i] == 0
    ensures StackPointerOk(Word(f, 0)) && Word(f, 9) == 0 && Word(f, 10) == 0
  {
    Le32Bytes(f, 0);
    Le32Bytes(f, 36);
    Le32Bytes(f, 40);
  }

  /** The reset after k actions leaves an application area that is not the image, and is started. */
  ghost predicate JumpsIncomplete(s: Storage, k: nat) {
    && s.Valid() && HasValidImage(s.sram) && Decide(InterruptedBoot(s, k), false) == Jump
    && InterruptedBoot(s, k).flash.mem[BOOT_SIZE..BOOT_SIZE + ImageSize(s.sram)] != Image(s.sram)
  }

  /** An interrupted update is not always noticed: here is an SRAM whose image is accepted, and a
      reset in the middle of its update after which the bootloader starts an application area
      that does not hold the image. */
  lemma IncompleteImageCanBoot()
    ensures exists s, k :: JumpsIncomplete(s, k)
  {
    var g := ExampleIsRelease();
    var s := Storage(Flash(Fill(FLASH_SIZE, ERASED), true, ERASED), ExampleSram(g));
    ExampleIsStaged(g);
    StagedIsValid(s.sram, ExampleFile(), g, HEADER);
    ReleaseIsConsistent(ExampleFile(), g);
    ExampleJumps(s, g);
  }

  lemma ExampleJumps(s: Storage, g: seq<byte>)
    requires s.Valid() && HasValidImage(s.sram) && ImageSize(s.sram) == 44 && Image(s.sram) == g && |g| == 44
    requires Word(g, 8) == 11 && StackPointerOk(Word(g, 0)) && Word(g, 9) == 0 && Word(g, 10) == 0
    ensures JumpsIncomplete(s, PagesFor(44) + HEADER + 18)
  {
    hide HasValidImage, Image, Decide, InterruptedBoot, StackPointerOk, Word, PagesFor, ImageSize, Partial, Copied;
    hide HeaderAccepted;
    TwinTailJumps(s, 11);
    CopyPhase(s, 18);
    PagesFit(44);
    CopiedIsPartial(s.flash, g, 18);
    LastByteDiffers(g);
  }

  lemma LastByteDiffers(g: seq<byte>)
    requires |g| == 44 && Word(g, 10) == 0
    ensures Partial(g, 18) != g
  {
    assert g[40] == 0;
    assert Partial(g, 18)[40] == ERASED;
  }
}
