/** What the pages of the flash hold after a run, read off the Committed events of its log. */
module PageHistory {
  import opened Bytes
  import opened FlashMemory
  import opened Usb
  import opened UsbRun
  import opened Causality
  import opened Programming
  import Dfu

  /** The payload of a commit, and the pointer it was acted on with. */
  function PayloadOf(p: Dfu.Prog): (x: Payload)
    requires p.Valid()
  {
    Payload(p.block, p.Data())
  }

  function PointerAt(p: Dfu.Prog): (q: Pointer)
    requires p.Valid()
    ensures q.Valid()
  {
    Pointer(p.addr, p.buf[..5])
  }

  /** A payload that a download with data has put into the program buffer. */
  predicate Loaded(p: Dfu.Prog) {
    p.Valid() && p.len > 0
  }

  /** Acting on a program buffer is acting on its payload. */
  lemma CommitIsRecorded(p: Dfu.Prog, f: Flash)
    requires Loaded(p) && f.Valid()
    ensures Dfu.Commit(p, f.(locked := false)).flash.(locked := true) ==
            Recorded(PointerAt(p), f, PayloadOf(p)).(locked := true)
  {
    hide EraseIfNeeded, WriteBlock, ErasedAt, WrittenAt, Dfu.InApplication, Dfu.BlockAddress, NextHead;
    var g := f.(locked := false);
    CommandOf(p);
    EraseEffect(g, Argument(PointerAt(p), PayloadOf(p)));
    BlockEffect(g, Dfu.BlockAddress(p.addr, p.block), p.Data());
  }

  lemma CommandOf(p: Dfu.Prog)
    requires Loaded(p)
    ensures Argument(PointerAt(p), PayloadOf(p)) == Dfu.CommandAddress(p) && PayloadOf(p).data[0] == p.buf[0]
  {
    var h := NextHead(PointerAt(p).head, PayloadOf(p));
    assert h == p.buf[..5];
    Le32Slice(h, 1, p.buf, 1);
  }

  /** What page k holds, according to the log. */
  function PageOfLog(f: Flash, log: seq<Event>, k: nat): (r: seq<byte>)
    requires f.Valid() && (k + 1) * PAGE <= FLASH_SIZE
    decreases |log|
  {
    if log == [] then Page(f.mem, k)
    else
      var before := log[..|log| - 1];
      match log[|log| - 1]
      case Committed(p) =>
        if Loaded(p) then PageAfter(PointerAt(p), Replay(f, before), PayloadOf(p), k, PageOfLog(f, before, k))
        else PageOfLog(f, before, k)
      case _ => PageOfLog(f, before, k)
  }

  /** Every commit of a run carries data. */
  lemma CommitsAreLoaded(log: seq<Event>, i: nat)
    requires Lawful(log) && i < |log| && log[i].Committed?
    ensures Loaded(log[i].prog) && log[i].prog.Valid()
  {
    hide PhaseOf, OpenRequest, IsGetStatus;
    assert LawfulAt(log, i);
  }

  lemma {:induction false} ReplayPages(f: Flash, log: seq<Event>, n: nat, k: nat)
    requires f.Valid() && f.locked && Lawful(log) && n <= |log| && (k + 1) * PAGE <= FLASH_SIZE
    ensures Replay(f, log[..n]).locked && Page(Replay(f, log[..n]).mem, k) == PageOfLog(f, log[..n], k)
  {
    hide Lawful, Page, PageAfter, Dfu.Commit, Recorded, Loaded, PayloadOf, PointerAt;
    if n == 0 {
      assert log[..0] == [];
    } else {
      ReplayPages(f, log, n - 1, k);
      var before, e := log[..n - 1], log[n - 1];
      assert log[..n] == before + [e] && log[..n][..n - 1] == before;
      Extend(before, e, f);
      if e.Committed? {
        CommitsAreLoaded(log, n - 1);
        CommitPage(e.prog, Replay(f, before), k);
      }
    }
  }

  lemma CommitPage(p: Dfu.Prog, f: Flash, k: nat)
    requires Loaded(p) && f.Valid() && (k + 1) * PAGE <= FLASH_SIZE
    ensures Page(Dfu.Commit(p, f.(locked := false)).flash.(locked := true).mem, k) ==
            PageAfter(PointerAt(p), f, PayloadOf(p), k, Page(f.mem, k))
  {
    hide Page, PageAfter, Dfu.Commit, Recorded, Argument;
    CommitIsRecorded(p, f);
    RecordedPage(PointerAt(p), f, PayloadOf(p), k);
  }

  /** In every run from power-on each page of the flash holds what the last commit that struck it
      says, whatever else was downloaded, before it or since, and wherever the address pointer
      stood. */
  lemma PagesAreLastCommitted(d: Device, ts: seq<Token>, k: nat)
    requires Initial(d) && (k + 1) * PAGE <= FLASH_SIZE
    ensures Page(FromPowerOn(d, ts).flash.mem, k) == PageOfLog(d.flash, FromPowerOn(d, ts).log, k)
  {
    hide Step, Rom.Valid, Lawful, Page, PageOfLog, PhaseLink, OpenRequest, AddressNow, LinkOf;
    RunFromPowerOn(d, ts);
    var log := FromPowerOn(d, ts).log;
    assert log[..|log|] == log;
    ReplayPages(d.flash, log, |log|, k);
  }

  /** The commit at position i leaves page k as it was. */
  ghost predicate Misses(f: Flash, log: seq<Event>, i: nat, k: nat)
    requires f.Valid() && i < |log|
  {
    log[i].Committed? && Loaded(log[i].prog) ==>
      var p, x := PointerAt(log[i].prog), PayloadOf(log[i].prog);
      !Strikes(p, Replay(f, log[..i]), x, k) && !Smears(p, x, k)
  }

  lemma {:induction false} LaterCommitsMiss(f: Flash, log: seq<Event>, n: nat, m: nat, k: nat)
    requires f.Valid() && (k + 1) * PAGE <= FLASH_SIZE && n <= m <= |log|
    requires forall j :: n <= j < m ==> Misses(f, log, j, k)
    ensures PageOfLog(f, log[..m], k) == PageOfLog(f, log[..n], k)
    decreases m
  {
    hide Page, Strikes, Smears, Content, Loaded, Replay, Recorded;
    if n < m {
      LaterCommitsMiss(f, log, n, m - 1, k);
      assert log[..m][..m - 1] == log[..m - 1];
      assert Misses(f, log, m - 1, k);
    }
  }

  /** The same by position: a commit that strikes page k decides what the page holds, if no later
      commit reaches the page. */
  lemma LastCommitDecides(d: Device, ts: seq<Token>, i: nat, k: nat)
    requires Initial(d) && (k + 1) * PAGE <= FLASH_SIZE
    requires i < |FromPowerOn(d, ts).log| && FromPowerOn(d, ts).log[i].Committed?
    requires Loaded(FromPowerOn(d, ts).log[i].prog)
    requires var log := FromPowerOn(d, ts).log;
      && Strikes(PointerAt(log[i].prog), Replay(d.flash, log[..i]), PayloadOf(log[i].prog), k)
      && forall j :: i < j < |log| ==> Misses(d.flash, log, j, k)
    ensures Page(FromPowerOn(d, ts).flash.mem, k) == Content(PayloadOf(FromPowerOn(d, ts).log[i].prog))
  {
    hide Step, Rom.Valid, Page, Strikes, Smears, Content, Loaded, Replay, Recorded, Misses;
    PagesAreLastCommitted(d, ts, k);
    var log := FromPowerOn(d, ts).log;
    assert log[..|log|] == log;
    LaterCommitsMiss(d.flash, log, i + 1, |log|, k);
    assert log[..i + 1][..i] == log[..i];
  }

  /** A page that no commit reaches is as it was at power-on. */
  lemma UntouchedPageIsKept(d: Device, ts: seq<Token>, k: nat)
    requires Initial(d) && (k + 1) * PAGE <= FLASH_SIZE
    requires forall j :: 0 <= j < |FromPowerOn(d, ts).log| ==> Misses(d.flash, FromPowerOn(d, ts).log, j, k)
    ensures Page(FromPowerOn(d, ts).flash.mem, k) == Page(d.flash.mem, k)
  {
    hide Step, Rom.Valid, Page, Misses;
    PagesAreLastCommitted(d, ts, k);
    var log := FromPowerOn(d, ts).log;
    assert log[..|log|] == log && log[..0] == [];
    LaterCommitsMiss(d.flash, log, 0, |log|, k);
  }
}
