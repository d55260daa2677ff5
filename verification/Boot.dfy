/** The update from SRAM and the boot decision (Core/Src/main.c, lines 287 to 384) as a script
    of atomic hardware actions, any of which may be the last one before the power fails. */
module Boot {
  import opened Bytes
  import opened FlashMemory
  import opened Checksum
  import opened SramImage

  /** What survives a reset: the flash and the external SRAM. */
  datatype Storage = Storage(flash: Flash, sram: seq<byte>) {
    predicate Valid() {
      flash.Valid() && IsSram(sram)
    }
  }

  /** The atomic steps: a page erase if the page is not erased yet, a byte of the SRAM header set
      to zero, a halfword programmed. */
  datatype Action =
    | Erase(addr: int)
    | ClearByte(at: nat)
    | Program(addr: int, lo: byte, hi: byte)

  function Act(s: Storage, a: Action): (r: Storage)
    requires s.Valid()
    ensures r.Valid() && r.flash.locked == s.flash.locked && r.flash.outside == s.flash.outside && |r.sram| == |s.sram|
  {
    match a
    case Erase(addr) => s.(flash := EraseIfNeeded(s.flash, addr))
    case ClearByte(at) => if at < |s.sram| then s.(sram := s.sram[at := 0]) else s
    case Program(addr, lo, hi) => s.(flash := ProgramHalf(s.flash, addr, lo, hi))
  }

  function Exec(s: Storage, script: seq<Action>): (r: Storage)
    requires s.Valid()
    ensures r.Valid() && r.flash.locked == s.flash.locked && r.flash.outside == s.flash.outside && |r.sram| == |s.sram|
    decreases |script|
  {
    if script == [] then s else Exec(Act(s, script[0]), script[1..])
  }

  /** The pages an image of n bytes needs. */
  function PagesFor(n: nat): nat {
    (n + PAGE - 1) / PAGE
  }

  function EraseScript(k: nat): (acts: seq<Action>)
    ensures |acts| == k
  {
    seq(k, i requires 0 <= i < k => Erase(APP + i * PAGE))
  }

  function ClearScript(k: nat): (acts: seq<Action>)
    ensures |acts| == k
  {
    seq(k, i requires 0 <= i < k => ClearByte(i))
  }

  function ProgramScript(image: seq<byte>, k: nat): (acts: seq<Action>)
    requires 2 * k <= |image|
    ensures |acts| == k
  {
    seq(k, i requires 0 <= i < k => Program(APP + 2 * i, image[2 * i], image[2 * i + 1]))
  }

  /** The whole update: erase the pages, clear the header, copy the image. */
  function UpdateScript(sram: seq<byte>): (acts: seq<Action>)
    requires IsSram(sram) && HeaderAccepted(sram)
  {
    EraseScript(PagesFor(ImageSize(sram))) + ClearScript(HEADER) + ProgramScript(Image(sram), ImageSize(sram) / 2)
  }

  // The boot decision

  /** The word at offset i of the application. */
  function AppWord(f: Flash, i: nat): (w: nat)
    requires f.Valid() && i + 4 <= PAYLOAD
    ensures w < U32
  {
    Le32(f.mem, BOOT_SIZE + i)
  }

  /** word & 0x2FFE0000 == 0x20000000: bit 29 is set and bits 27 to 17 are clear. */
  predicate StackPointerOk(w: nat) {
    w / 0x2000_0000 % 2 == 1 && w / 0x2_0000 % 0x800 == 0
  }

  datatype Decision = Update | Jump | DfuMode

  /** What the bootloader does after a reset. `forced` says that the application asked for DFU
      mode before the reset. */
  function Decide(s: Storage, forced: bool): Decision
    requires s.Valid()
  {
    var imagesize := AppWord(s.flash, 0x20);
    if HasValidImage(s.sram) then Update
    else if forced || imagesize > PAYLOAD / 4 then DfuMode
    else if !StackPointerOk(AppWord(s.flash, 0)) then DfuMode
    else if Validates(s.flash.mem[BOOT_SIZE..BOOT_SIZE + 4 * imagesize], imagesize) then Jump
    else DfuMode
  }

  /** A boot that starts an update and loses power after k of its actions. The reset locks the
      flash again. A boot that starts no update leaves the storage to the application or to
      the DFU host. */
  function InterruptedBoot(s: Storage, k: nat): (r: Storage)
    requires s.Valid()
    ensures r.Valid()
  {
    if !HasValidImage(s.sram) then s
    else
      var script := UpdateScript(s.sram);
      Relocked(Exec(Unlocked(s), script[..Min(k, |script|)]))
  }

  function Unlocked(s: Storage): (r: Storage)
    requires s.Valid()
    ensures r.Valid()
  {
    s.(flash := s.flash.(locked := false))
  }

  function Relocked(s: Storage): (r: Storage)
    requires s.Valid()
    ensures r.Valid()
  {
    s.(flash := s.flash.(locked := true))
  }

  /** Any number of interrupted boots. */
  function InterruptedBoots(s: Storage, cuts: seq<nat>): (r: Storage)
    requires s.Valid()
    ensures r.Valid()
    decreases |cuts|
  {
    if cuts == [] then s else InterruptedBoots(InterruptedBoot(s, cuts[0]), cuts[1..])
  }

  /** A boot whose update runs to its end. */
  function CompleteBoot(s: Storage): (r: Storage)
    requires s.Valid() && HasValidImage(s.sram)
    ensures r.Valid()
  {
    Relocked(Exec(Unlocked(s), UpdateScript(s.sram)))
  }

  // Execution

  lemma {:induction false} ExecAppend(s: Storage, a: seq<Action>, b: seq<Action>)
    requires s.Valid()
    ensures Exec(s, a + b) == Exec(Exec(s, a), b)
    decreases |a|
  {
    hide Act;
    if a == [] {
      assert a + b == b;
    } else {
      ExecAppend(Act(s, a[0]), a[1..], b);
      assert (a + b)[1..] == a[1..] + b;
    }
  }

  lemma ExecOne(s: Storage, a: Action)
    requires s.Valid()
    ensures Exec(s, [a]) == Act(s, a)
  {
    hide Act;
    assert [a][1..] == [];
    assert Exec(Act(s, a), []) == Act(s, a);
  }

  /** The flash with the first k application pages erased. */
  function WithErased(f: Flash, k: nat): (r: Flash)
    requires f.Valid() && k * PAGE <= PAYLOAD
    ensures r.Valid()
  {
    f.(mem := Splice(f.mem, BOOT_SIZE, Fill(k * PAGE, ERASED)))
  }

  lemma EraseNext(f: Flash, k: nat)
    requires f.Valid() && !f.locked && (k + 1) * PAGE <= PAYLOAD
    ensures EraseIfNeeded(WithErased(f, k), APP + k * PAGE) == WithErased(f, k + 1)
  {
    hide EraseIfNeeded;
    var g := WithErased(f, k);
    assert APP + k * PAGE == FLASH_BASE + (k + 8) * PAGE;
    EraseAtPage(g, k + 8);
    SpliceAppend(f.mem, BOOT_SIZE, Fill(k * PAGE, ERASED), Fill(PAGE, ERASED));
    assert Fill(k * PAGE, ERASED) + Fill(PAGE, ERASED) == Fill((k + 1) * PAGE, ERASED);
  }

  lemma {:induction false} ExecErase(s: Storage, k: nat)
    requires s.Valid() && !s.flash.locked && k * PAGE <= PAYLOAD
    ensures Exec(s, EraseScript(k)) == s.(flash := WithErased(s.flash, k))
  {
    hide EraseIfNeeded, Splice;
    if k == 0 {
      NothingErased(s.flash);
    } else {
      ExecErase(s, k - 1);
      EraseNext(s.flash, k - 1);
      var e := s.(flash := WithErased(s.flash, k - 1));
      var a := Erase(APP + (k - 1) * PAGE);
      assert EraseScript(k) == EraseScript(k - 1) + [a];
      ExecAppend(s, EraseScript(k - 1), [a]);
      ExecOne(e, a);
    }
  }

  lemma NothingErased(f: Flash)
    requires f.Valid()
    ensures WithErased(f, 0) == f
  {
    assert Splice(f.mem, BOOT_SIZE, Fill(0, ERASED)) == f.mem;
  }

  /** The SRAM with the first k header bytes cleared. */
  function WithCleared(sram: seq<byte>, k: nat): (r: seq<byte>)
    requires k <= |sram|
    ensures |r| == |sram|
  {
    Fill(k, 0) + sram[k..]
  }

  lemma {:induction false} ExecClear(s: Storage, k: nat)
    requires s.Valid() && k <= HEADER
    ensures Exec(s, ClearScript(k)) == s.(sram := WithCleared(s.sram, k))
  {
    if k == 0 {
      assert WithCleared(s.sram, 0) == s.sram;
    } else {
      ExecClear(s, k - 1);
      var e := s.(sram := WithCleared(s.sram, k - 1));
      assert ClearScript(k) == ClearScript(k - 1) + [ClearByte(k - 1)];
      ExecAppend(s, ClearScript(k - 1), [ClearByte(k - 1)]);
      ExecOne(e, ClearByte(k - 1));
      assert WithCleared(s.sram, k - 1)[k - 1 := 0] == WithCleared(s.sram, k);
    }
  }

  /** Programming the first k halfwords as a script is programming them in a row. */
  lemma {:induction false} ExecProgram(s: Storage, image: seq<byte>, k: nat)
    requires s.Valid() && 2 * k <= |image| <= PAYLOAD
    ensures Exec(s, ProgramScript(image, k)) == s.(flash := ProgramHalves(s.flash, APP, image, k))
  {
    hide ProgramHalf;
    if k > 0 {
      ExecProgram(s, image, k - 1);
      var e := s.(flash := ProgramHalves(s.flash, APP, image, k - 1));
      var a := Program(APP + 2 * (k - 1), image[2 * (k - 1)], image[2 * (k - 1) + 1]);
      assert ProgramScript(image, k) == ProgramScript(image, k - 1) + [a];
      ExecAppend(s, ProgramScript(image, k - 1), [a]);
      ExecOne(e, a);
      assert (APP + 2 * (k - 1)) % U32 == APP + 2 * (k - 1);
    }
  }

  /** The flash in the copy phase: the pages erased, the first k halfwords of the image in place. */
  function Copied(f: Flash, image: seq<byte>, k: nat): (r: Flash)
    requires f.Valid() && 2 * k <= |image| <= PAYLOAD && PagesFor(|image|) * PAGE <= PAYLOAD
    ensures r.Valid()
  {
    var e := WithErased(f, PagesFor(|image|));
    e.(mem := Splice(e.mem, BOOT_SIZE, image[..2 * k]))
  }

  lemma ExecCopy(s: Storage, f: Flash, image: seq<byte>, k: nat)
    requires s.Valid() && f.Valid() && !f.locked && 2 * k <= |image| <= PAYLOAD
    requires PagesFor(|image|) * PAGE <= PAYLOAD && s.flash == WithErased(f, PagesFor(|image|))
    ensures Exec(s, ProgramScript(image, k)) == s.(flash := Copied(f, image, k))
  {
    hide Exec, ProgramHalves;
    ExecProgram(s, image, k);
    PagesFit(|image|);
    ErasedAhead(f, PagesFor(|image|), 2 * k);
    hide WithErased, PagesFor;
    ProgramErasedHalves(s.flash, APP, image, k);
  }

  lemma ErasedAhead(f: Flash, k: nat, n: nat)
    requires f.Valid() && n <= k * PAGE <= PAYLOAD
    ensures forall i :: BOOT_SIZE <= i < BOOT_SIZE + n ==> WithErased(f, k).mem[i] == ERASED
  {
  }

  lemma PagesFit(n: nat)
    requires n <= PAYLOAD
    ensures n <= PagesFor(n) * PAGE <= PAYLOAD
  {
  }

  // The three phases of an update

  /** The storage after k page erases. */
  lemma ErasePhase(s: Storage, k: nat)
    requires s.Valid() && HasValidImage(s.sram) && k <= PagesFor(ImageSize(s.sram))
    ensures PagesFor(ImageSize(s.sram)) * PAGE <= PAYLOAD
    ensures InterruptedBoot(s, k) == s.(flash := WithErased(s.flash, k).(locked := true))
  {
    hide Exec, WithErased, Plan, StreamFrom;
    PagesFit(ImageSize(s.sram));
    var n := PagesFor(ImageSize(s.sram));
    var script := UpdateScript(s.sram);
    assert script[..k] == EraseScript(k);
    PagesMonotone(k, n);
    ExecErase(Unlocked(s), k);
    UnlockErased(s, k);
  }

  lemma PagesMonotone(k: nat, n: nat)
    requires k <= n && n * PAGE <= PAYLOAD
    ensures k * PAGE <= PAYLOAD
  {
  }

  lemma UnlockErased(s: Storage, k: nat)
    requires s.Valid() && k * PAGE <= PAYLOAD
    ensures WithErased(Unlocked(s).flash, k) == WithErased(s.flash, k).(locked := false)
  {
  }

  /** The storage after the erases and k cleared header bytes. */
  lemma ClearPhase(s: Storage, k: nat)
    requires s.Valid() && HasValidImage(s.sram) && k <= HEADER
    ensures var n := PagesFor(ImageSize(s.sram));
      && n * PAGE <= PAYLOAD
      && InterruptedBoot(s, n + k) == Storage(WithErased(s.flash, n).(locked := true), WithCleared(s.sram, k))
  {
    hide Exec, WithErased, Plan, StreamFrom, WithCleared, Image;
    PagesFit(ImageSize(s.sram));
    var n := PagesFor(ImageSize(s.sram));
    var script := UpdateScript(s.sram);
    assert script[..n + k] == EraseScript(n) + ClearScript(k) by {
      assert ClearScript(HEADER)[..k] == ClearScript(k);
    }
    ExecAppend(Unlocked(s), EraseScript(n), ClearScript(k));
    ExecErase(Unlocked(s), n);
    ExecClear(Unlocked(s).(flash := WithErased(Unlocked(s).flash, n)), k);
    UnlockErased(s, n);
  }

  /** The storage after the erases, the cleared header and k halfwords. */
  lemma CopyPhase(s: Storage, k: nat)
    requires s.Valid() && HasValidImage(s.sram) && 2 * k <= ImageSize(s.sram)
    ensures var n := PagesFor(ImageSize(s.sram));
      && n * PAGE <= PAYLOAD
      && InterruptedBoot(s, n + HEADER + k) ==
         Storage(Copied(s.flash, Image(s.sram), k).(locked := true), WithCleared(s.sram, HEADER))
  {
    hide Exec, WithErased, Plan, StreamFrom, WithCleared, Copied;
    PagesFit(ImageSize(s.sram));
    var n := PagesFor(ImageSize(s.sram));
    var script := UpdateScript(s.sram);
    var image := Image(s.sram);
    var start := EraseScript(n) + ClearScript(HEADER);
    assert script[..n + HEADER + k] == start + ProgramScript(image, k) by {
      assert ProgramScript(image, |image| / 2)[..k] == ProgramScript(image, k);
    }
    hide Image;
    var u := Unlocked(s);
    ExecAppend(u, start, ProgramScript(image, k));
    ExecAppend(u, EraseScript(n), ClearScript(HEADER));
    ExecErase(u, n);
    var e := u.(flash := WithErased(u.flash, n));
    ExecClear(e, HEADER);
    ExecCopy(e.(sram := WithCleared(e.sram, HEADER)), u.flash, image, k);
    UnlockCopied(s, image, k);
  }

  lemma UnlockCopied(s: Storage, image: seq<byte>, k: nat)
    requires s.Valid() && 2 * k <= |image| <= PAYLOAD && PagesFor(|image|) * PAGE <= PAYLOAD
    ensures Copied(Unlocked(s).flash, image, k) == Copied(s.flash, image, k).(locked := false)
  {
  }

  /** A complete update is one that is cut behind its last action. */
  lemma CompleteIsLastCut(s: Storage)
    requires s.Valid() && HasValidImage(s.sram)
    ensures var n := PagesFor(ImageSize(s.sram)) + HEADER + ImageSize(s.sram) / 2;
      CompleteBoot(s) == InterruptedBoot(s, n)
  {
    var script := UpdateScript(s.sram);
    assert script[..|script|] == script;
  }

  function Halfwords(image: seq<byte>): (h: nat)
    ensures 2 * h <= |image| && (|image| % 4 == 0 ==> 2 * h == |image|)
  {
    |image| / 2
  }

  /** `after` holds the image, erased bytes behind it up to the end of its last page, and all
      else as `before`. */
  ghost predicate Programmed(before: Flash, after: Flash, image: seq<byte>)
    requires before.Valid() && after.Valid()
  {
    var n, k := |image|, PagesFor(|image|) * PAGE;
    && n <= k <= PAYLOAD
    && after.mem[BOOT_SIZE..BOOT_SIZE + n] == image
    && (forall i :: BOOT_SIZE + n <= i < BOOT_SIZE + k ==> after.mem[i] == ERASED)
    && (forall i :: 0 <= i < FLASH_SIZE && !(BOOT_SIZE <= i < BOOT_SIZE + k) ==> after.mem[i] == before.mem[i])
  }

  /** A complete update programs the image and clears the header. */
  lemma UpdateWritesImage(s: Storage)
    requires s.Valid() && HasValidImage(s.sram)
    ensures Programmed(s.flash, CompleteBoot(s).flash, Image(s.sram))
    ensures CompleteBoot(s).sram == WithCleared(s.sram, HEADER)
  {
    hide CompleteBoot, InterruptedBoot, WithCleared, Programmed, Copied, HasValidImage, Image, PagesFor, Halfwords;
    CompleteIsCopied(s);
    var image := Image(s.sram);
    PagesFit(|image|);
    CopiedBytes(s.flash, image);
    RelockedProgrammed(s.flash, Copied(s.flash, image, Halfwords(image)), image);
  }

  /** The storage after a complete update. */
  lemma CompleteIsCopied(s: Storage)
    requires s.Valid() && HasValidImage(s.sram)
    ensures HeaderAccepted(s.sram) && PagesFor(|Image(s.sram)|) * PAGE <= PAYLOAD
    ensures CompleteBoot(s) ==
            Storage(Copied(s.flash, Image(s.sram), Halfwords(Image(s.sram))).(locked := true), WithCleared(s.sram, HEADER))
  {
    ValidHeader(s.sram);
    hide CompleteBoot, InterruptedBoot, WithCleared, Copied, HasValidImage, PagesFor, HeaderAccepted;
    CompleteIsLastCut(s);
    CopyPhase(s, ImageSize(s.sram) / 2);
  }

  lemma ValidHeader(sram: seq<byte>)
    requires IsSram(sram) && HasValidImage(sram)
    ensures HeaderAccepted(sram)
  {
  }

  lemma RelockedProgrammed(f: Flash, g: Flash, image: seq<byte>)
    requires f.Valid() && g.Valid() && Programmed(f, g, image)
    ensures Programmed(f, g.(locked := true), image)
  {
  }

  lemma CopiedBytes(f: Flash, image: seq<byte>)
    requires f.Valid() && |image| == 2 * Halfwords(image) && |image| <= PAYLOAD
    requires |image| <= PagesFor(|image|) * PAGE <= PAYLOAD
    ensures Programmed(f, Copied(f, image, Halfwords(image)), image)
  {
    hide PagesFor, Halfwords;
    assert image[..2 * Halfwords(image)] == image;
  }

  // Crash safety

  /** A reset before the first header byte is cleared is harmless: whatever the number of such
      resets, the image is still accepted and a complete update then ends with the same flash
      as one that was never interrupted. */
  lemma {:induction false} EarlyResetsAreHarmless(s: Storage, cuts: seq<nat>)
    requires s.Valid() && HasValidImage(s.sram)
    requires forall i :: 0 <= i < |cuts| ==> cuts[i] <= PagesFor(ImageSize(s.sram))
    ensures var r := InterruptedBoots(s, cuts);
      r.sram == s.sram && HasValidImage(r.sram) && CompleteBoot(r) == CompleteBoot(s)
    decreases |cuts|
  {
    hide HasValidImage, CompleteBoot, InterruptedBoot, PagesFor, WithErased;
    if cuts != [] {
      ErasePhase(s, cuts[0]);
      var r := InterruptedBoot(s, cuts[0]);
      EraseThenComplete(s, r, cuts[0]);
      EarlyResetsAreHarmless(r, cuts[1..]);
    }
  }

  lemma EraseThenComplete(s: Storage, r: Storage, k: nat)
    requires s.Valid() && HasValidImage(s.sram) && k * PAGE <= PAYLOAD && k <= PagesFor(ImageSize(s.sram))
    requires r == s.(flash := WithErased(s.flash, k).(locked := true))
    ensures CompleteBoot(r) == CompleteBoot(s)
  {
    hide HasValidImage, CompleteBoot, WithErased, Copied, WithCleared, PagesFor, Halfwords, Image;
    CompleteIsCopied(s);
    CompleteIsCopied(r);
    EraseAgain(s.flash, Image(s.sram), k);
  }

  /** Pages that were erased by an interrupted update are erased again to the same effect. */
  lemma EraseAgain(f: Flash, image: seq<byte>, k: nat)
    requires f.Valid() && |image| <= PAYLOAD
    requires k <= PagesFor(|image|) && PagesFor(|image|) * PAGE <= PAYLOAD
    ensures k * PAGE <= PAYLOAD
    ensures Copied(WithErased(f, k).(locked := true), image, Halfwords(image)).(locked := true)
         == Copied(f, image, Halfwords(image)).(locked := true)
  {
    hide PagesFor, Halfwords;
    var n := PagesFor(|image|);
    SpliceOver(f.mem, BOOT_SIZE, Fill(k * PAGE, ERASED), Fill(n * PAGE, ERASED));
  }

  /** From the moment the first header byte is cleared, no boot programs from that header again:
      the storage stays as it is, however often the machine restarts. */
  lemma {:induction false} HeaderIsUsedOnce(s: Storage, k: nat, cuts: seq<nat>)
    requires s.Valid() && HasValidImage(s.sram) && k > PagesFor(ImageSize(s.sram))
    ensures var r := InterruptedBoot(s, k);
      !HasValidImage(r.sram) && InterruptedBoots(r, cuts) == r
  {
    hide HasValidImage, InterruptedBoot, InterruptedBoots;
    LateReset(s, k);
    var r := InterruptedBoot(s, k);
    ClearedHeaderIsInvalid(r.sram);
    NoImageNoChange(r, cuts);
  }

  lemma {:induction false} NoImageNoChange(r: Storage, cuts: seq<nat>)
    requires r.Valid() && !HasValidImage(r.sram)
    ensures InterruptedBoots(r, cuts) == r
    decreases |cuts|
  {
    hide HasValidImage;
    if cuts != [] {
      NoImageNoChange(r, cuts[1..]);
    }
  }

  lemma LateReset(s: Storage, k: nat)
    requires s.Valid() && HasValidImage(s.sram) && k > PagesFor(ImageSize(s.sram))
    ensures InterruptedBoot(s, k).sram[0] == 0
  {
    hide HasValidImage, InterruptedBoot, PagesFor;
    var n, h := PagesFor(ImageSize(s.sram)), ImageSize(s.sram) / 2;
    if k <= n + HEADER {
      ClearPhase(s, k - n);
    } else if k <= n + HEADER + h {
      CopyPhase(s, k - n - HEADER);
    } else {
      CutBehindEnd(s, k);
      CopyPhase(s, h);
    }
  }

  lemma CutBehindEnd(s: Storage, k: nat)
    requires s.Valid() && HasValidImage(s.sram)
    requires k > PagesFor(ImageSize(s.sram)) + HEADER + ImageSize(s.sram) / 2
    ensures InterruptedBoot(s, k) == InterruptedBoot(s, PagesFor(ImageSize(s.sram)) + HEADER + ImageSize(s.sram) / 2)
  {
    hide HasValidImage;
  }

  // The boot decision after an update

  /** The image as far as its first h halfwords, erased behind them. */
  function Partial(image: seq<byte>, h: nat): (p: seq<byte>)
    requires 2 * h <= |image|
    ensures |p| == |image|
  {
    image[..2 * h] + Fill(|image| - 2 * h, ERASED)
  }

  lemma CopiedIsPartial(f: Flash, image: seq<byte>, h: nat)
    requires f.Valid() && 2 * h <= |image| <= PAYLOAD && |image| <= PagesFor(|image|) * PAGE <= PAYLOAD
    ensures Copied(f, image, h).mem[BOOT_SIZE..BOOT_SIZE + |image|] == Partial(image, h)
    ensures forall i :: BOOT_SIZE + 2 * h <= i < BOOT_SIZE + PagesFor(|image|) * PAGE ==>
      Copied(f, image, h).mem[i] == ERASED
  {
    hide PagesFor;
  }

  /** Word 8 is not complete: it reads as a size no image can have. */
  lemma BlankSizeMeansDfu(s: Storage, forced: bool)
    requires s.Valid() && !HasValidImage(s.sram)
    requires s.flash.mem[BOOT_SIZE + 0x22] == ERASED && s.flash.mem[BOOT_SIZE + 0x23] == ERASED
    ensures Decide(s, forced) == DfuMode
  {
    hide HasValidImage, Validates, StackPointerOk;
    Le32Bytes(s.flash.mem, BOOT_SIZE + 0x20);
    assert AppWord(s.flash, 0x20) >= 0xFFFF_0000;
  }

  /** Up to the point where word 8 of the image is complete, an interrupted update leads to DFU
      mode and never to a jump. */
  lemma UnfinishedUpdateMeansDfu(s: Storage, k: nat, forced: bool)
    requires s.Valid() && HasValidImage(s.sram)
    requires PagesFor(ImageSize(s.sram)) < k < PagesFor(ImageSize(s.sram)) + HEADER + 18
    ensures Decide(InterruptedBoot(s, k), forced) == DfuMode
  {
    LateReset(s, k);
    BlankWhileUnfinished(s, k);
    ClearedHeaderIsInvalid(InterruptedBoot(s, k).sram);
    hide HasValidImage, InterruptedBoot, Decide, PagesFor;
    BlankSizeMeansDfu(InterruptedBoot(s, k), forced);
  }

  lemma BlankWhileUnfinished(s: Storage, k: nat)
    requires s.Valid() && HasValidImage(s.sram)
    requires PagesFor(ImageSize(s.sram)) < k < PagesFor(ImageSize(s.sram)) + HEADER + 18
    ensures var m := InterruptedBoot(s, k).flash.mem;
      m[BOOT_SIZE + 0x22] == ERASED && m[BOOT_SIZE + 0x23] == ERASED
  {
    HalfOfSize(s.sram);
    hide HasValidImage, InterruptedBoot, PagesFor, ImageSize, Le32;
    var n, h := PagesFor(ImageSize(s.sram)), ImageSize(s.sram) / 2;
    if k <= n + HEADER {
      BlankWhileClearing(s, k - n);
    } else if k <= n + HEADER + h {
      BlankWhileCopying(s, k - n - HEADER);
    } else {
      CutBehindEnd(s, k);
      BlankWhileCopying(s, h);
    }
  }

  lemma HalfOfSize(sram: seq<byte>)
    requires IsSram(sram)
    ensures 2 * (ImageSize(sram) / 2) <= ImageSize(sram)
  {
  }

  lemma BlankWhileClearing(s: Storage, k: nat)
    requires s.Valid() && HasValidImage(s.sram) && k <= HEADER
    ensures var m := InterruptedBoot(s, PagesFor(ImageSize(s.sram)) + k).flash.mem;
      m[BOOT_SIZE + 0x22] == ERASED && m[BOOT_SIZE + 0x23] == ERASED
  {
    ValidHeader(s.sram);
    hide HasValidImage, InterruptedBoot, WithErased, PagesFor, Image;
    PagesFit(ImageSize(s.sram));
    PagesPositive(ImageSize(s.sram));
    ClearPhase(s, k);
    ErasedAhead(s.flash, PagesFor(ImageSize(s.sram)), PAGE);
  }

  lemma BlankWhileCopying(s: Storage, h: nat)
    requires s.Valid() && HasValidImage(s.sram) && 2 * h <= ImageSize(s.sram) && h < 18
    ensures var m := InterruptedBoot(s, PagesFor(ImageSize(s.sram)) + HEADER + h).flash.mem;
      m[BOOT_SIZE + 0x22] == ERASED && m[BOOT_SIZE + 0x23] == ERASED
  {
    ValidHeader(s.sram);
    hide HasValidImage, InterruptedBoot, Copied, PagesFor, Image;
    PagesFit(ImageSize(s.sram));
    PagesPositive(ImageSize(s.sram));
    CopyPhase(s, h);
    CopiedIsPartial(s.flash, Image(s.sram), h);
  }

  lemma PagesPositive(n: nat)
    requires n > 0
    ensures PagesFor(n) * PAGE >= PAGE
  {
  }

  /** The words the decision looks at are those of the image. */
  lemma PartialWords(s: Storage, image: seq<byte>, h: nat)
    requires s.Valid() && 18 <= h && 2 * h <= |image| <= PAYLOAD
    requires s.flash.mem[BOOT_SIZE..BOOT_SIZE + |image|] == Partial(image, h)
    ensures AppWord(s.flash, 0x20) == Word(image, 8) && AppWord(s.flash, 0) == Word(image, 0)
  {
    hide Le32;
    var mem := s.flash.mem;
    var area := mem[BOOT_SIZE..BOOT_SIZE + |image|];
    forall i | 0 <= i < 36
      ensures mem[BOOT_SIZE + i] == image[i]
    {
      assert mem[BOOT_SIZE + i] == area[i] == Partial(image, h)[i];
    }
    SameWord(mem, BOOT_SIZE + 0x20, image, 0x20);
    SameWord(mem, BOOT_SIZE, image, 0);
  }

  lemma SameWord(a: seq<byte>, i: nat, b: seq<byte>, j: nat)
    requires i + 4 <= |a| && j + 4 <= |b|
    requires a[i] == b[j] && a[i + 1] == b[j + 1] && a[i + 2] == b[j + 2] && a[i + 3] == b[j + 3]
    ensures Le32(a, i) == Le32(b, j)
  {
    assert a[i..i + 4] == b[j..j + 4];
  }

  /** The verdict on an application area that holds an image of n words as far as h halfwords. */
  lemma DecideOnPartial(s: Storage, image: seq<byte>, n: nat, h: nat, forced: bool)
    requires s.Valid() && !HasValidImage(s.sram) && 18 <= h && 2 * h <= |image| <= PAYLOAD && |image| == 4 * n
    requires s.flash.mem[BOOT_SIZE..BOOT_SIZE + |image|] == Partial(image, h)
    requires Word(image, 8) == n
    ensures Decide(s, forced) == Jump <==>
            !forced && StackPointerOk(Word(image, 0)) && Validates(Partial(image, h), n)
  {
    hide HasValidImage, Validates, StackPointerOk, AppWord, Word, Partial;
    PartialWords(s, image, h);
  }

  /** A complete update of an image that states its own size boots, unless DFU mode is forced,
      exactly if its stack pointer passes the test. */
  lemma UpdateBoots(s: Storage, forced: bool)
    requires s.Valid() && HasValidImage(s.sram) && ImageSize(s.sram) >= 0x24
    requires Word(Image(s.sram), 8) == ImageSize(s.sram) / 4
    ensures Decide(CompleteBoot(s), forced) == Jump <==> !forced && StackPointerOk(Word(Image(s.sram), 0))
  {
    ValidImageIsSound(s.sram);
    hide Decide, Validates, StackPointerOk, CompleteBoot, HasValidImage, WithCleared, Word;
    var image := Image(s.sram);
    UpdateWritesImage(s);
    CompleteIsCleared(s);
    assert Partial(image, Halfwords(image)) == image;
    ClearedHeaderIsInvalid(CompleteBoot(s).sram);
    DecideOnPartial(CompleteBoot(s), image, |image| / 4, Halfwords(image), forced);
  }

  lemma CompleteIsCleared(s: Storage)
    requires s.Valid() && HasValidImage(s.sram)
    ensures CompleteBoot(s).sram[0] == 0
  {
    hide CompleteBoot, HasValidImage;
    UpdateWritesImage(s);
  }

  /** The application area after a reset behind h halfwords: the image so far, the rest of its pages
      erased, and behind them what was there before. */
  function AreaAfter(f: Flash, image: seq<byte>, h: nat): (area: seq<byte>)
    requires f.Valid() && 2 * h <= |image| <= PagesFor(|image|) * PAGE <= PAYLOAD
    ensures |area| == PAYLOAD
  {
    image[..2 * h] + Fill(PagesFor(|image|) * PAGE - 2 * h, ERASED)
    + f.mem[BOOT_SIZE + PagesFor(|image|) * PAGE..BOOT_SIZE + PAYLOAD]
  }

  lemma CopiedIsArea(f: Flash, image: seq<byte>, h: nat)
    requires f.Valid() && 2 * h <= |image| <= PagesFor(|image|) * PAGE <= PAYLOAD
    ensures Copied(f, image, h).mem[BOOT_SIZE..BOOT_SIZE + PAYLOAD] == AreaAfter(f, image, h)
  {
    hide PagesFor;
  }

  lemma AreaWords(f: Flash, image: seq<byte>, h: nat)
    requires f.Valid() && 18 <= h && 2 * h <= |image| <= PagesFor(|image|) * PAGE <= PAYLOAD
    ensures Word(AreaAfter(f, image, h), 8) == Word(image, 8) && Word(AreaAfter(f, image, h), 0) == Word(image, 0)
    ensures AreaAfter(f, image, h)[..|image|] == Partial(image, h)
  {
    hide PagesFor, Le32;
    var area := AreaAfter(f, image, h);
    SameWord(area, 0x20, image, 0x20);
    SameWord(area, 0, image, 0);
  }

  /** A waiting image comes first, whatever the flash holds and whatever was asked for. */
  lemma ImageComesFirst(s: Storage, forced: bool)
    requires s.Valid()
    ensures Decide(s, forced) == Update <==>
            HeaderAccepted(s.sram) && Validates(Image(s.sram), ImageSize(s.sram) / 4)
  {
    hide Validates, StackPointerOk, HasValidImage, HeaderAccepted, Image, AppWord;
    ValidImageIsSound(s.sram);
  }

  /** The verdict on any application area. */
  lemma DecideOnArea(s: Storage, area: seq<byte>, forced: bool)
    requires s.Valid() && !HasValidImage(s.sram) && |area| == PAYLOAD
    requires s.flash.mem[BOOT_SIZE..BOOT_SIZE + PAYLOAD] == area
    ensures Decide(s, forced) == Jump <==>
            !forced && StackPointerOk(Word(area, 0)) && Word(area, 8) <= PAYLOAD / 4 && Validates(area, Word(area, 8))
  {
    hide HasValidImage, Validates, StackPointerOk, Word, AppWord;
    AppWordOfArea(s.flash, area, 0);
    AppWordOfArea(s.flash, area, 8);
    var n := Word(area, 8);
    if n <= PAYLOAD / 4 {
      assert s.flash.mem[BOOT_SIZE..BOOT_SIZE + 4 * n] == area[..4 * n];
      SameVerdict(area, n);
    }
  }

  lemma AppWordOfArea(f: Flash, area: seq<byte>, i: nat)
    requires f.Valid() && |area| == PAYLOAD && f.mem[BOOT_SIZE..BOOT_SIZE + PAYLOAD] == area && i <= 8
    ensures AppWord(f, 4 * i) == Word(area, i)
  {
    hide Le32;
    var at := BOOT_SIZE + 4 * i;
    assert f.mem[at..at + 4] == area[4 * i..4 * i + 4];
    Le32Slice(f.mem, at, area, 4 * i);
  }

  lemma SameVerdict(area: seq<byte>, n: nat)
    requires 4 * n <= |area|
    ensures Validates(area[..4 * n], n) <==> Validates(area, n)
  {
    hide XorFrom;
    assert area[..4 * n][..4 * n] == area[..4 * n];
    XorPrefix(XOR_START, area[..4 * n], area, n);
  }

  /** Behind word 8 the protocol no longer protects. A reset after h halfwords makes the next boot
      jump into the incomplete image exactly if the stack pointer passes its test, word 8 is a
      possible size, and the area of that size happens to have the right checksum. If word 8 is
      the size of the image that means that the words that are missing have the same exclusive or
      as what the flash holds in their place. */
  lemma PartialImageJumps(s: Storage, h: nat, forced: bool)
    requires s.Valid() && HasValidImage(s.sram) && 18 <= h && 2 * h <= ImageSize(s.sram)
    ensures ImageSize(s.sram) <= PagesFor(ImageSize(s.sram)) * PAGE <= PAYLOAD
    ensures var image := Image(s.sram);
      var jumps := Decide(InterruptedBoot(s, PagesFor(ImageSize(s.sram)) + HEADER + h), forced) == Jump;
      && (jumps <==>
        && !forced && StackPointerOk(Word(image, 0)) && Word(image, 8) <= PAYLOAD / 4
        && Validates(AreaAfter(s.flash, image, h), Word(image, 8)))
      && (Word(image, 8) == ImageSize(s.sram) / 4 ==>
        (jumps <==>
          && !forced && StackPointerOk(Word(image, 0))
          && TailXor(image, h / 2, ImageSize(s.sram) / 4) == TailXor(Partial(image, h), h / 2, ImageSize(s.sram) / 4)))
  {
    hide Decide, Validates, StackPointerOk, InterruptedBoot, HasValidImage;
    hide Word, Copied, TailXor, AreaAfter, PagesFor, Image;
    ValidHeader(s.sram);
    ValidImageIsSound(s.sram);
    var image := Image(s.sram);
    var r := InterruptedBoot(s, PagesFor(ImageSize(s.sram)) + HEADER + h);
    CopyPhase(s, h);
    PagesFit(|image|);
    CopiedIsArea(s.flash, image, h);
    AreaWords(s.flash, image, h);
    ClearedIsZero(s.sram, r.sram);
    ClearedHeaderIsInvalid(r.sram);
    DecideOnArea(r, AreaAfter(s.flash, image, h), forced);
    if Word(image, 8) == |image| / 4 {
      PartialTail(image, AreaAfter(s.flash, image, h), h);
    }
  }

  lemma ClearedIsZero(sram: seq<byte>, r: seq<byte>)
    requires IsSram(sram) && r == WithCleared(sram, HEADER)
    ensures IsSram(r) && r[0] == 0
  {
  }

  lemma PartialTail(image: seq<byte>, area: seq<byte>, h: nat)
    requires |image| % 4 == 0 && 2 * h <= |image| <= |area| && Validates(image, |image| / 4)
    requires area[..|image|] == Partial(image, h)
    ensures Validates(area, |image| / 4) <==>
            TailXor(image, h / 2, |image| / 4) == TailXor(Partial(image, h), h / 2, |image| / 4)
  {
    hide Validates, TailXor, XorFrom;
    var p := Partial(image, h);
    assert 4 * (|image| / 4) == |image|;
    SameVerdict(area, |image| / 4);
    assert image[..4 * (h / 2)] == p[..4 * (h / 2)];
    TailDecides(image, p, h / 2, |image| / 4);
  }

  /** No update, however often it is interrupted, changes the bootloader. */
  lemma {:induction false} UpdatesKeepBootloader(s: Storage, cuts: seq<nat>)
    requires s.Valid()
    ensures SameBootloader(InterruptedBoots(s, cuts).flash, s.flash)
    decreases |cuts|
  {
    hide InterruptedBoot, SameBootloader;
    if cuts == [] {
      assert SameBootloader(s.flash, s.flash) by { SelfSame(s.flash); }
    } else {
      var r := InterruptedBoot(s, cuts[0]);
      UpdateKeepsBootloader(s, cuts[0]);
      UpdatesKeepBootloader(r, cuts[1..]);
      SameIsTransitive(s.flash, r.flash, InterruptedBoots(r, cuts[1..]).flash);
    }
  }

  lemma SelfSame(f: Flash)
    requires f.Valid()
    ensures SameBootloader(f, f)
  {
  }

  lemma SameIsTransitive(f: Flash, g: Flash, h: Flash)
    requires f.Valid() && g.Valid() && h.Valid() && SameBootloader(g, f) && SameBootloader(h, g)
    ensures SameBootloader(h, f)
  {
  }

  lemma UpdateKeepsBootloader(s: Storage, k: nat)
    requires s.Valid()
    ensures SameBootloader(InterruptedBoot(s, k).flash, s.flash)
  {
    if HasValidImage(s.sram) {
      ValidHeader(s.sram);
      hide HasValidImage, InterruptedBoot, PagesFor, HeaderAccepted, Image;
      var n, h := PagesFor(ImageSize(s.sram)), Halfwords(Image(s.sram));
      PagesFit(ImageSize(s.sram));
      if k <= n {
        ErasePhase(s, k);
      } else if k <= n + HEADER {
        ClearPhase(s, k - n);
      } else if k <= n + HEADER + h {
        CopyPhase(s, k - n - HEADER);
      } else {
        CutBehindEnd(s, k);
        CopyPhase(s, h);
      }
    }
  }
}
