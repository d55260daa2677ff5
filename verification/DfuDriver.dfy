/** The DFU driver as the firmware runs it (Core/Src/usbdfu.c): one object with the state, the
    program buffer and the control buffer, over the flash driver. Each method is proved
    against the transition functions of module Dfu. */
module DfuDriver {
  import opened Bytes
  import opened FlashMemory
  import FlashDriver
  import Memory
  import Dfu

  class Driver {
    var state: Dfu.State
    /** The struct prog. */
    const buf: array<byte>
    var len: nat
    var addr: int
    var block: int
    /** usbd_control_buffer and the RAM behind it. */
    const ram: array<byte>
    const chip: FlashDriver.Chip

    ghost predicate Valid()
      reads this, chip
    {
      && chip.Valid() && buf.Length == Dfu.TRANSFER && ram.Length >= Dfu.TRANSFER
      && buf != ram && buf != chip.mem && ram != chip.mem
      && len <= Dfu.TRANSFER && 0 <= addr < U32 && 0 <= block < U16
    }

    ghost function Model(): (d: Dfu.Driver)
      requires Valid()
      reads this, buf, chip
      ensures d.Valid()
    {
      Dfu.Driver(state, Dfu.Prog(buf[..], len, addr, block))
    }

    /** The driver in its initial state; the program buffer starts as it is given. */
    constructor (buf: array<byte>, ram: array<byte>, chip: FlashDriver.Chip)
      requires chip.Valid() && buf.Length == Dfu.TRANSFER && ram.Length >= Dfu.TRANSFER
      requires buf != ram && buf != chip.mem && ram != chip.mem
      ensures Valid() && this.buf == buf && this.ram == ram && this.chip == chip
      ensures Model() == Dfu.Driver(Dfu.DfuIdle, Dfu.Prog(buf[..], 0, 0, 0))
    {
      this.buf, this.ram, this.chip := buf, ram, chip;
      state, len, addr, block := Dfu.DfuIdle, 0, 0, 0;
    }

    /** usbdfu_getstatus: the status to report and the poll timeout. */
    method GetStatus() returns (status: byte, timeout: nat)
      requires Valid()
      modifies this`state
      ensures Valid() && Model() == old(Model()).(state := Dfu.AfterGetStatus(old(state)))
      ensures timeout < 256 && [status, timeout, 0, 0, Dfu.Code(state), 0] == Dfu.StatusBytes(old(state))
    {
      status, timeout := 0, 0;
      match state {
        case DnloadSync =>
          state := Dfu.DnBusy;
          timeout := 100;
        case ManifestSync =>
          state := Dfu.Manifest;
        case Error =>
          status := Dfu.Code(Dfu.Error);
        case _ =>
      }
    }

    /** The flash operation on the buffered payload. */
    method Commit()
      requires Valid()
      modifies this`addr, chip, chip.mem
      ensures Valid() && chip.Model() == Dfu.Commit(old(Model()).prog, old(chip.Model())).flash
      ensures Model() == old(Model()).(prog := Dfu.Commit(old(Model()).prog, old(chip.Model())).prog)
    {
      hide FlashMemory.ErasePage, FlashMemory.PageIsErased, FlashMemory.ProgramBuffer, Dfu.InApplication;
      ghost var p := Model().prog;
      if block == 0 {
        var a := LoadArgument();
        if buf[0] == Dfu.CMD_ERASE {
          if Dfu.InApplication(a, Dfu.TRANSFER) {
            EraseIfNeeded(a);
          }
        } else if buf[0] == Dfu.CMD_SETADDR {
          addr := a;
        }
      } else {
        var base := Dfu.BlockAddress(addr, block);
        if Dfu.InApplication(base, len) {
          EraseIfNeeded(base);
          ghost var passed := chip.ProgramBuffer(base, buf, len);
          assert p.Data() == buf[..len];
        }
      }
    }

    method LoadArgument() returns (a: int)
      requires Valid()
      ensures a == Dfu.CommandAddress(Model().prog)
    {
      a := Le16(buf[1], buf[2]) + U16 * Le16(buf[3], buf[4]);
      Le32Bytes(buf[..], 1);
    }

    method EraseIfNeeded(a: int)
      requires chip.Valid()
      modifies chip`per, chip`ar, chip.mem
      ensures chip.Valid() && chip.Model() == FlashMemory.EraseIfNeeded(old(chip.Model()), a)
    {
      hide FlashMemory.ErasePage, FlashMemory.PageIsErased;
      var erased := chip.PageIsErased(a);
      if !erased {
        chip.ErasePage(a);
      }
    }

    /** usbdfu_getstatus_complete: says whether the system is reset. */
    method GetStatusComplete() returns (resets: bool)
      requires Valid()
      modifies this`state, this`addr, chip, chip.mem
      ensures Valid()
      ensures var c := Dfu.Complete(old(Model()), old(chip.Model()));
        Model() == c.driver && chip.Model() == c.flash && resets == c.resets
    {
      hide Dfu.Commit;
      resets := false;
      match state {
        case DnBusy =>
          chip.Unlock();
          Commit();
          chip.Lock();
          state := Dfu.DnloadIdle;
        case Manifest =>
          resets := true;
        case _ =>
      }
    }

    /** usbdfu_control_request. `count` is the value of *len, on entry and afterwards; `callback`
        says that *complete was set. */
    method ControlRequest(code: byte, value: int, count: nat) returns (size: nat, callback: bool, handled: bool)
      requires Valid() && 0 <= value < U16 && count < U16
      modifies this, buf, ram
      ensures Valid() && chip.Model() == old(chip.Model())
      ensures Dfu.Reply(Model(), ram[..], size, callback, handled) ==
              Dfu.Request(old(Model()), old(ram[..]), old(chip.Model()), code, value, count)
    {
      size, callback, handled := count, false, true;
      if code == Dfu.DNLOAD {
        if count == 0 {
          state := Dfu.ManifestSync;
          callback := true;
        } else {
          Download(value, count);
        }
      } else if code == Dfu.CLRSTATUS {
        if state == Dfu.Error {
          state := Dfu.DfuIdle;
        }
      } else if code == Dfu.ABORT {
        state := Dfu.DfuIdle;
      } else if code == Dfu.DETACH {
        state := Dfu.ManifestSync;
        callback := true;
      } else if code == Dfu.UPLOAD {
        size := Upload(value);
      } else if code == Dfu.GETSTATUS {
        ReportStatus();
        size, callback := 6, true;
      } else if code == Dfu.GETSTATE {
        ram[0] := Dfu.Code(state);
        size := 1;
        assert ram[..] == Splice(old(ram[..]), 0, [Dfu.Code(state)]);
      } else {
        handled := false;
      }
    }

    /** The payload in the control buffer goes to the program buffer, nothing else happens. */
    method Download(value: int, count: nat)
      requires Valid() && 0 <= value < U16 && 0 < count < U16
      modifies this, buf
      ensures Valid()
      ensures var n := Min(count, Dfu.TRANSFER);
        Model() == Dfu.Driver(Dfu.DnloadSync, Dfu.Prog(Splice(old(buf[..]), 0, ram[..n]), n, old(addr), value))
    {
      block, len := value, count;
      if len > buf.Length {
        len := buf.Length;
      }
      Memory.Memcpy(buf, 0, ram, 0, len);
      state := Dfu.DnloadSync;
    }

    /** A block of the flash, or the list of commands, goes to the control buffer. */
    method Upload(value: int) returns (size: nat)
      requires Valid() && 0 <= value < U16
      modifies this`state, ram
      ensures Valid()
      ensures Dfu.Reply(Model(), ram[..], size, false, true) ==
              Dfu.Request(old(Model()), old(ram[..]), chip.Model(), Dfu.UPLOAD, value, 0)
    {
      hide Dfu.InApplication;
      state := Dfu.UploadIdle;
      if value == 0 {
        ram[0], ram[1], ram[2] := 0x00, Dfu.CMD_SETADDR, Dfu.CMD_ERASE;
        size := 3;
        assert ram[..] == Splice(old(ram[..]), 0, [0x00, Dfu.CMD_SETADDR, Dfu.CMD_ERASE]);
      } else {
        var base := Dfu.BlockAddress(addr, value);
        if Dfu.InApplication(base, Dfu.TRANSFER) {
          CopyFlash(base, Dfu.TRANSFER);
          size := Dfu.TRANSFER;
        } else {
          state := Dfu.Error;
          size := 0;
        }
      }
    }

    /** memcpy from the flash. */
    method CopyFlash(a: int, n: nat)
      requires Valid() && n <= ram.Length
      modifies ram
      ensures ram[..] == Splice(old(ram[..]), 0, Dfu.FlashBytes(chip.Model(), a, n))
    {
      hide Read;
      ghost var was, data := ram[..], Dfu.FlashBytes(chip.Model(), a, n);
      var i := 0;
      while i < n
        invariant 0 <= i <= n
        invariant data == Dfu.FlashBytes(chip.Model(), a, n)
        invariant ram[..] == Splice(was, 0, data[..i])
      {
        var b := chip.Load((a + i) % U32);
        Memory.CopyByte(ram, 0, i, b, was, data);
        i := i + 1;
      }
      assert data[..n] == data;
    }

    /** The six bytes of the status. */
    method ReportStatus()
      requires Valid()
      modifies this`state, ram
      ensures Valid() && Model() == old(Model()).(state := Dfu.AfterGetStatus(old(state)))
      ensures ram[..] == Splice(old(ram[..]), 0, Dfu.StatusBytes(old(state)))
    {
      hide Dfu.StatusBytes, Dfu.AfterGetStatus;
      var status, timeout := GetStatus();
      ram[0], ram[1] := status, timeout % 256;
      ram[2], ram[3] := timeout / 256 % 256, timeout / 65536 % 256;
      ram[4], ram[5] := Dfu.Code(state), 0;
      assert ram[..] == Splice(old(ram[..]), 0, [status, timeout, 0, 0, Dfu.Code(state), 0]);
    }
  }
}
