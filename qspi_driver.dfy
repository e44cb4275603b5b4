/**
 * The QSPI flash driver as the C file runs it: two pieces of module state
 * (the initialised flag and the configuration's XIP offset) and a bus that
 * answers each command from the oracle. Every public operation is proved to
 * return what the matching function of module QspiFlash returns and to issue
 * exactly the commands that function lists.
 */
module QspiDriver {
  import opened QspiFlash

  class Driver {
    /** g_qspi_initialized */
    var initialized: bool
    /** g_qspi_config.xip_offset */
    var xipOffset: U32
    /** What the nrfx driver and the device answer, command by command. */
    const answers: Oracle
    /** How many commands have been issued so far. */
    var issued: nat
    /** The commands issued so far, in order. */
    ghost var trace: seq<Cmd>

    ghost predicate Valid()
      reads this
    {
      issued == |trace|
    }

    /** The zero-initialised statics at reset. */
    constructor (answers: Oracle)
      ensures Valid() && trace == []
      ensures !initialized && xipOffset == 0 && this.answers == answers
    {
      initialized := false;
      xipOffset := 0;
      this.answers := answers;
      issued := 0;
      trace := [];
    }

    /** One call into the nrfx driver. */
    method Issue(c: Cmd) returns (a: Answer)
      requires Valid()
      modifies this
      ensures Valid() && a == answers(old(issued)) && trace == old(trace) + [c]
      ensures initialized == old(initialized) && xipOffset == old(xipOffset)
    {
      a := answers(issued);
      issued := issued + 1;
      trace := trace + [c];
    }

    /** qspi_wait_ready: poll nrfx_qspi_mem_busy_check until it reports not
        busy or 1000 polls have been made; the outcome is not returned. */
    method MemWaitReady()
      requires Valid()
      modifies this
      ensures Valid() && trace == old(trace) + MemChecks(MemPollCount(answers, old(issued), MemBusyBudget))
      ensures initialized == old(initialized) && xipOffset == old(xipOffset)
    {
      ghost var p0 := issued;
      ghost var total := MemPollCount(answers, p0, MemBusyBudget);
      var timeout: int := MemBusyBudget;
      MemPollStep(answers, issued, timeout);
      MemChecksGrow(old(trace), 0);
      var a := Issue(MemBusyCheck);
      var busy := !a.ok;
      timeout := timeout - 1;
      while busy && timeout != 0
        invariant Valid() && initialized == old(initialized) && xipOffset == old(xipOffset)
        invariant 0 <= timeout < MemBusyBudget && issued == p0 + (MemBusyBudget - timeout)
        invariant busy && timeout != 0 ==> total == (issued - p0) + MemPollCount(answers, issued, timeout)
        invariant !(busy && timeout != 0) ==> total == issued - p0
        invariant trace == old(trace) + MemChecks(issued - p0)
        decreases timeout
      {
        MemPollStep(answers, issued, timeout);
        MemChecksGrow(old(trace), issued - p0);
        a := Issue(MemBusyCheck);
        busy := !a.ok;
        timeout := timeout - 1;
      }
    }

    /** qspi_flash_get_status: the receive byte starts at 0 and is only
        filled by a transfer that succeeds. */
    method GetStatus() returns (status: bv8)
      requires Valid()
      modifies this
      ensures Valid() && status == StatusByte(answers(old(issued))) && trace == old(trace) + [ReadStatus1]
      ensures initialized == old(initialized) && xipOffset == old(xipOffset)
    {
      var rx: bv8 := 0;
      var a := Issue(ReadStatus1);
      if a.ok {
        rx := a.data;
      }
      status := rx;
    }

    /** qspi_flash_is_busy */
    method IsBusy() returns (busy: bool)
      requires Valid()
      modifies this
      ensures Valid() && busy == ReportsBusy(answers(old(issued))) && trace == old(trace) + [ReadStatus1]
      ensures initialized == old(initialized) && xipOffset == old(xipOffset)
    {
      var status := GetStatus();
      busy := status & StatusBusy != 0;
    }

    /** qspi_flash_wait_ready: the busy-wait delay between polls is not
        modelled; the budget counts polls. */
    method WaitReady(timeout: U32) returns (r: Status)
      requires Valid() && timeout > 0
      modifies this
      ensures Valid() && initialized == old(initialized) && xipOffset == old(xipOffset)
      ensures var o := WaitReadySpec(answers, old(issued), timeout);
        r == o.status && trace == old(trace) + o.cmds
    {
      var t := timeout;
      ghost var last := trace;
      var busy := IsBusy();
      while busy
        invariant Valid() && initialized == old(initialized) && xipOffset == old(xipOffset)
        invariant 0 < t <= timeout && issued > 0 && trace == last + [ReadStatus1]
        invariant busy == ReportsBusy(answers(issued - 1))
        invariant var spec := WaitReadySpec(answers, old(issued), timeout);
          var rest := WaitReadySpec(answers, issued - 1, t);
          spec.status == rest.status && old(trace) + spec.cmds == last + rest.cmds
        decreases t
      {
        t := t - 1;
        if t == 0 {
          return Timeout;
        }
        WaitReadyContinues(answers, issued - 1, t + 1, last, trace);
        last := trace;
        busy := IsBusy();
      }
      r := Success;
    }

    /** qspi_flash_write_enable */
    method WriteEnable() returns (r: Status)
      requires Valid()
      modifies this
      ensures Valid() && initialized == old(initialized) && xipOffset == old(xipOffset)
      ensures r == (if answers(old(issued)).ok then Success else Error)
      ensures trace == old(trace) + [SetWriteEnable]
    {
      var a := Issue(SetWriteEnable);
      if !a.ok {
        return Error;
      }
      r := Success;
    }

    /** The sequence that program, sector erase, each block-erase round and
        chip erase share: wait (1000), write enable, `op`, wait
        (`postBudget`), returning at the first step that fails. */
    method Sequenced(op: Cmd, postBudget: U32) returns (r: Status)
      requires Valid() && postBudget > 0
      modifies this
      ensures Valid() && initialized == old(initialized) && xipOffset == old(xipOffset)
      ensures var o := SequencedSpec(answers, old(issued), op, postBudget);
        r == o.status && trace == old(trace) + o.cmds
    {
      ghost var pre := WaitReadySpec(answers, issued, PreWaitBudget);
      r := WaitReady(PreWaitBudget);
      if r != Success {
        return;
      }
      r := WriteEnable();
      AppendAssoc(old(trace), pre.cmds, [SetWriteEnable]);
      if r != Success {
        return;
      }
      ghost var p := issued;
      ghost var two := [SetWriteEnable, op];
      var a := Issue(op);
      AppendAssoc(old(trace), pre.cmds + [SetWriteEnable], [op]);
      AppendAssoc(pre.cmds, [SetWriteEnable], [op]);
      assert [SetWriteEnable] + [op] == two;
      if !a.ok {
        return Error;
      }
      ghost var post := WaitReadySpec(answers, p + 1, postBudget);
      r := WaitReady(postBudget);
      AppendAssoc(old(trace), pre.cmds + two, post.cmds);
    }

    /** qspi_flash_configure_quad_mode */
    method ConfigureQuadMode() returns (r: Status)
      requires Valid()
      modifies this
      ensures Valid() && initialized == old(initialized) && xipOffset == old(xipOffset)
      ensures var o := QuadModeSpec(answers, old(issued), StatusWriteLength);
        r == o.status && trace == old(trace) + o.cmds
    {
      ghost var p0 := issued;
      var a1 := Issue(ReadStatus1);
      if !a1.ok {
        return Error;
      }
      var status1 := a1.data;
      var a2 := Issue(ReadStatus2);
      assert trace == old(trace) + [ReadStatus1, ReadStatus2];
      if !a2.ok {
        return Error;
      }
      var status2 := a2.data;
      if status2 & QuadEnable != 0 {
        return Success;
      }
      status2 := SetQuadEnable(status2);
      var a3 := Issue(SetWriteEnable);
      assert trace == old(trace) + [ReadStatus1, ReadStatus2, SetWriteEnable];
      if !a3.ok {
        return Error;
      }
      var txData := [status1, status2];
      var a4 := Issue(WriteStatus(txData[..StatusWriteLength - 1]));
      ghost var head := [ReadStatus1, ReadStatus2, SetWriteEnable, WriteStatus(txData[..StatusWriteLength - 1])];
      assert trace == old(trace) + head;
      if !a4.ok {
        return Error;
      }
      ghost var wait := WaitReadySpec(answers, p0 + 4, QuadWaitBudget);
      r := WaitReady(QuadWaitBudget);
      AppendAssoc(old(trace), head, wait.cmds);
      if r != Success {
        return;
      }
      r := Success;
    }

    /** qspi_flash_init: the configuration (here its XIP offset) is filled in
        before the nrfx driver is started, so a failed start leaves it set but
        the driver uninitialised; a failed quad-mode handshake is ignored. */
    method Init() returns (r: Status)
      requires Valid()
      modifies this
      ensures Valid()
      ensures var o := InitSpec(answers, old(issued), old(initialized));
        r == o.status && trace == old(trace) + o.cmds
      ensures initialized == (old(initialized) || r == Success)
      ensures xipOffset == if old(initialized) then old(xipOffset) else XipOffset
    {
      if initialized {
        AppendEmpty(trace);
        return Success;
      }
      xipOffset := XipOffset;
      var a := Issue(DriverInit);
      if !a.ok {
        return Error;
      }
      var _ := Issue(XipOffsetSet(xipOffset));
      ghost var head := [DriverInit, XipOffsetSet(XipOffset)];
      assert trace == old(trace) + head;
      ghost var polls := MemPollCount(answers, issued, MemBusyBudget);
      MemWaitReady();
      AppendAssoc(old(trace), head, MemChecks(polls));
      assert issued == old(issued) + 2 + polls;
      ghost var quad := QuadModeSpec(answers, issued, StatusWriteLength);
      assert InitSpec(answers, old(issued), false) == Outcome(Success, head + MemChecks(polls) + quad.cmds);
      var quadStatus := ConfigureQuadMode();
      AppendAssoc(old(trace), head + MemChecks(polls), quad.cmds);
      initialized := true;
      r := Success;
    }

    /** qspi_flash_deinit */
    method Deinit()
      requires Valid()
      modifies this
      ensures Valid() && !initialized && xipOffset == old(xipOffset)
      ensures trace == old(trace) + if old(initialized) then [DriverUninit] else []
    {
      if initialized {
        var _ := Issue(DriverUninit);
        initialized := false;
      }
    }

    /** qspi_flash_set_xip_offset: ignored unless initialised. */
    method SetXipOffset(offset: U32)
      requires Valid()
      modifies this
      ensures Valid() && initialized == old(initialized)
      ensures xipOffset == if old(initialized) then offset else old(xipOffset)
      ensures trace == old(trace) + if old(initialized) then [XipOffsetSet(offset)] else []
    {
      if initialized {
        var _ := Issue(XipOffsetSet(offset));
        xipOffset := offset;
      }
    }

    /** qspi_flash_read; the bytes the device delivers into `data` are not
        modelled. The clamp is the corrected one (see QspiFlash.Clamp). */
    method Read(address: U32, data: array?<bv8>, length: U32) returns (r: Status)
      requires Valid()
      modifies this
      ensures Valid() && initialized == old(initialized) && xipOffset == old(xipOffset)
      ensures var o := ReadSpec(answers, old(issued), old(initialized), address, data != null, length);
        r == o.status && trace == old(trace) + o.cmds
    {
      if !initialized || data == null || length == 0 {
        return Error;
      }
      if address >= FlashSize {
        return Error;
      }
      var n := length;
      if address + n > FlashSize {
        n := FlashSize - address;
      }
      var a := Issue(ReadData(address, n));
      if !a.ok {
        return Error;
      }
      r := Success;
    }

    /** qspi_flash_write */
    method Write(address: U32, data: Buffer, length: U32) returns (r: Status)
      requires Valid() && (data.Bytes? ==> length <= |data.bytes|)
      modifies this
      ensures Valid() && initialized == old(initialized) && xipOffset == old(xipOffset)
      ensures var o := WriteSpec(answers, old(issued), old(initialized), address, data, length);
        r == o.status && trace == old(trace) + o.cmds
    {
      if !initialized || data.Null? || length == 0 {
        return Error;
      }
      if address >= FlashSize {
        return Error;
      }
      var n := length;
      if address + n > FlashSize {
        n := FlashSize - address;
      }
      r := Sequenced(ProgramData(address, data.bytes[..n]), ProgramBudget);
    }

    /** qspi_flash_erase_sector */
    method EraseSector(address: U32) returns (r: Status)
      requires Valid()
      modifies this
      ensures Valid() && initialized == old(initialized) && xipOffset == old(xipOffset)
      ensures var o := EraseSectorSpec(answers, old(issued), old(initialized), address);
        r == o.status && trace == old(trace) + o.cmds
    {
      if !initialized {
        return Error;
      }
      var aligned: U32 := (address / SectorSize) * SectorSize;
      if aligned >= FlashSize {
        return Error;
      }
      r := Sequenced(Erase(Len4KB, aligned), SectorEraseBudget);
    }

    /** qspi_flash_erase_block: 64 KB erases until `size` is used up; the
        address advances by each round's size in 32-bit arithmetic. */
    method EraseBlock(address: U32, size: U32) returns (r: Status)
      requires Valid()
      modifies this
      ensures Valid() && initialized == old(initialized) && xipOffset == old(xipOffset)
      ensures var o := EraseBlockSpec(answers, old(issued), old(initialized), address, size);
        r == o.status && trace == old(trace) + o.cmds
    {
      if !initialized {
        AppendEmpty(trace);
        return Error;
      }
      if address >= FlashSize {
        AppendEmpty(trace);
        return Error;
      }
      ghost var full := EraseBlockLoop(answers, issued, address, size);
      r := Success;
      var addr: U32 := address;
      var remaining: nat := size;
      while remaining > 0
        invariant Valid() && initialized == old(initialized) && xipOffset == old(xipOffset)
        invariant var rest := EraseBlockLoop(answers, issued, addr, remaining);
          full.status == rest.status && old(trace) + full.cmds == trace + rest.cmds
        decreases remaining
      {
        r, addr, remaining := EraseOneBlock(addr, remaining);
        if r != Success {
          return;
        }
      }
      AppendEmpty(trace);
      r := Success;
    }

    /** One round of the loop in qspi_flash_erase_block: a sequenced 64 KB
        erase at `addr`, then the address and the remaining size advance. */
    method EraseOneBlock(addr: U32, remaining: nat) returns (r: Status, addr': U32, remaining': nat)
      requires Valid() && remaining > 0
      modifies this
      ensures Valid() && initialized == old(initialized) && xipOffset == old(xipOffset)
      ensures remaining' < remaining
      ensures r != Success ==>
        && r == EraseBlockLoop(answers, old(issued), addr, remaining).status
        && trace == old(trace) + EraseBlockLoop(answers, old(issued), addr, remaining).cmds
      ensures r == Success ==>
        && EraseBlockLoop(answers, old(issued), addr, remaining).status == EraseBlockLoop(answers, issued, addr', remaining').status
        && old(trace) + EraseBlockLoop(answers, old(issued), addr, remaining).cmds == trace + EraseBlockLoop(answers, issued, addr', remaining').cmds
    {
      var blockSize := if remaining >= BlockSize64K then BlockSize64K else remaining;
      r := Sequenced(Erase(Len64KB, addr), BlockEraseBudget);
      addr' := (addr + blockSize) % 0x1_0000_0000;
      remaining' := remaining - blockSize;
      if r != Success {
        EraseBlockStops(answers, old(issued), addr, remaining);
      } else {
        EraseBlockAdvances(answers, old(issued), addr, remaining, issued, addr', remaining', old(trace), trace);
      }
    }

    /** qspi_flash_chip_erase */
    method ChipErase() returns (r: Status)
      requires Valid()
      modifies this
      ensures Valid() && initialized == old(initialized) && xipOffset == old(xipOffset)
      ensures var o := ChipEraseSpec(answers, old(issued), old(initialized));
        r == o.status && trace == old(trace) + o.cmds
    {
      if !initialized {
        return Error;
      }
      r := Sequenced(Erase(LenAll, 0), ChipEraseBudget);
    }
  }
}
