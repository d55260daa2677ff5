/** The DFU class driver with ST block numbering (Core/Src/usbdfu.c): the request handler, the
    GETSTATUS transition and the completion callback that does the flash operation. */
module Dfu {
  import opened Bytes
  import opened FlashMemory

  const TRANSFER := 1024
  const CMD_SETADDR: byte := 0x21
  const CMD_ERASE: byte := 0x41

  const DETACH: byte := 0
  const DNLOAD: byte := 1
  const UPLOAD: byte := 2
  const GETSTATUS: byte := 3
  const CLRSTATUS: byte := 4
  const GETSTATE: byte := 5
  const ABORT: byte := 6

  datatype State =
    | AppIdle | AppDetach | DfuIdle | DnloadSync | DnBusy | DnloadIdle
    | ManifestSync | Manifest | ManifestWaitReset | UploadIdle | Error

  /** The number the state is reported as. */
  function Code(s: State): byte {
    match s
    case AppIdle => 0
    case AppDetach => 1
    case DfuIdle => 2
    case DnloadSync => 3
    case DnBusy => 4
    case DnloadIdle => 5
    case ManifestSync => 6
    case Manifest => 7
    case ManifestWaitReset => 8
    case UploadIdle => 9
    case Error => 10
  }

  /** The program buffer: the last downloaded payload, its block number and the address pointer. */
  datatype Prog = Prog(buf: seq<byte>, len: nat, addr: int, block: int) {
    predicate Valid() {
      |buf| == TRANSFER && len <= TRANSFER && 0 <= addr < U32 && 0 <= block < U16
    }

    function Data(): (d: seq<byte>)
      requires Valid()
      ensures |d| == len
    {
      buf[..len]
    }
  }

  datatype Driver = Driver(state: State, prog: Prog) {
    predicate Valid() {
      prog.Valid()
    }
  }

  /** Blocks are numbered from 2 at the address pointer; block 1 lies below it. The address is
      an unsigned 32-bit number. */
  function BlockAddress(addr: int, block: int): (a: int)
    ensures 0 <= a < U32
  {
    (addr + (block - 2) * TRANSFER) % U32
  }

  /** The range check of the driver, whose sum wraps. */
  predicate InApplication(a: int, len: nat) {
    a >= APP && (a + len) % U32 <= FLASH_END
  }

  /** The address argument of a command, behind its code byte. */
  function CommandAddress(prog: Prog): (a: int)
    requires prog.Valid()
    ensures 0 <= a < U32
  {
    Le32(prog.buf, 1)
  }

  /** usbdfu_getstatus: the state a GETSTATUS request moves to. */
  function AfterGetStatus(s: State): State {
    match s
    case DnloadSync => DnBusy
    case ManifestSync => Manifest
    case _ => s
  }

  /** The six bytes a GETSTATUS request answers: status, poll timeout, state, string index. In
      the error state the status byte is the number of the state. */
  function StatusBytes(s: State): (b: seq<byte>)
    ensures |b| == 6
  {
    [if s == Error then Code(Error) else 0, if s == DnloadSync then 100 else 0, 0, 0, Code(AfterGetStatus(s)), 0]
  }

  /** What the handler leaves behind: `callback` says that it has registered the completion
      callback, `handled` that it does not pass the request on. */
  datatype Reply = Reply(driver: Driver, ram: seq<byte>, len: nat, callback: bool, handled: bool)

  /** usbdfu_control_request. The control buffer is the first 1024 bytes of ram; len is the
      length of the data, on entry the length in the request. */
  function Request(d: Driver, ram: seq<byte>, f: Flash, code: byte, value: int, len: nat): (r: Reply)
    requires d.Valid() && f.Valid() && |ram| >= TRANSFER && 0 <= value < U16 && len < U16
    ensures r.driver.Valid() && |r.ram| == |ram|
    ensures r.len < U16
  {
    if code == DNLOAD then
      if len == 0 then
        Reply(d.(state := ManifestSync), ram, len, true, true)
      else
        var n := Min(len, TRANSFER);
        var prog := Prog(Splice(d.prog.buf, 0, ram[..n]), n, d.prog.addr, value);
        Reply(Driver(DnloadSync, prog), ram, len, false, true)
    else if code == CLRSTATUS then
      Reply(if d.state == Error then d.(state := DfuIdle) else d, ram, len, false, true)
    else if code == ABORT then
      Reply(d.(state := DfuIdle), ram, len, false, true)
    else if code == DETACH then
      Reply(d.(state := ManifestSync), ram, len, true, true)
    else if code == UPLOAD then
      if value == 0 then
        Reply(d.(state := UploadIdle), Splice(ram, 0, [0x00, CMD_SETADDR, CMD_ERASE]), 3, false, true)
      else
        var a := BlockAddress(d.prog.addr, value);
        if InApplication(a, TRANSFER) then
          Reply(d.(state := UploadIdle), Splice(ram, 0, FlashBytes(f, a, TRANSFER)), TRANSFER, false, true)
        else
          Reply(d.(state := Error), ram, 0, false, true)
    else if code == GETSTATUS then
      Reply(d.(state := AfterGetStatus(d.state)), Splice(ram, 0, StatusBytes(d.state)), 6, true, true)
    else if code == GETSTATE then
      Reply(d, Splice(ram, 0, [Code(d.state)]), 1, false, true)
    else
      Reply(d, ram, len, false, false)
  }

  /** n bytes read from address a on. */
  function FlashBytes(f: Flash, a: int, n: nat): (s: seq<byte>)
    requires f.Valid()
    ensures |s| == n
  {
    seq(n, i requires 0 <= i < n => ReadAt(f, a, i))
  }

  /** The effect of the completion callback. `commits` says that the buffered payload was acted
      on, `resets` that the whole system is reset. */
  datatype Completion = Completion(driver: Driver, flash: Flash, commits: bool, resets: bool)

  datatype Effect = Effect(prog: Prog, flash: Flash)

  /** The flash operation and the address pointer after acting on the buffered payload. */
  function Commit(prog: Prog, f: Flash): (r: Effect)
    requires prog.Valid() && f.Valid()
    ensures r.prog.Valid() && r.flash.Valid()
    ensures r.prog == prog.(addr := r.prog.addr) && r.flash.locked == f.locked && r.flash.outside == f.outside
  {
    if prog.block == 0 then
      var a := CommandAddress(prog);
      if prog.buf[0] == CMD_ERASE then
        Effect(prog, if InApplication(a, TRANSFER) then EraseIfNeeded(f, a) else f)
      else if prog.buf[0] == CMD_SETADDR then
        Effect(prog.(addr := a), f)
      else
        Effect(prog, f)
    else
      var a := BlockAddress(prog.addr, prog.block);
      Effect(prog, if InApplication(a, prog.len) then WriteBlock(f, a, prog.Data()) else f)
  }

  /** usbdfu_getstatus_complete. */
  function Complete(d: Driver, f: Flash): (r: Completion)
    requires d.Valid() && f.Valid()
    ensures r.driver.Valid() && r.flash.Valid()
  {
    if d.state == DnBusy then
      var Effect(prog, g) := Commit(d.prog, f.(locked := false));
      Completion(Driver(DnloadIdle, prog), g.(locked := true), true, false)
    else
      Completion(d, f, false, d.state == Manifest)
  }

  /** Whatever the payload says, acting on it leaves the bootloader alone. */
  lemma CommitKeepsBootloader(prog: Prog, f: Flash)
    requires prog.Valid() && f.Valid()
    ensures SameBootloader(Commit(prog, f).flash, f)
  {
    if prog.block == 0 {
      var a := CommandAddress(prog);
      if InApplication(a, TRANSFER) {
        EraseKeepsBootloader(f, a);
      }
    } else {
      var a := BlockAddress(prog.addr, prog.block);
      if InApplication(a, prog.len) {
        WriteBlockKeepsBootloader(f, a, prog.Data());
      }
    }
  }

  /** The range check means what it looks like exactly when the sum does not wrap. */
  lemma RangeCheck(a: int, len: nat)
    requires 0 <= a < U32 && len <= TRANSFER
    ensures InApplication(a, len) <==> (a >= APP && a + len <= FLASH_END) || a + len >= U32
  {
  }
}
