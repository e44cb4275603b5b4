/**
 * Specification of the QSPI flash driver: a W25Q16 serial NOR flash behind
 * the nRF52840 QSPI peripheral.
 *
 * The device and the nrfx driver are an oracle: the k-th command issued on
 * the bus receives the answer `ans(k)`. Every function below takes the oracle
 * and the position of its first command and returns what the C function
 * returns together with the commands it issues, in order. The class in
 * module QspiDriver runs the same operations step by step and is proved to
 * agree with these functions.
 */
module QspiFlash {

  /** uint32_t, and size_t on the 32-bit Cortex-M4. */
  type U32 = x: int | 0 <= x < 0x1_0000_0000

  const SectorSize := 4096            // W25Q16_SECTOR_SIZE
  const BlockSize64K := 65536         // W25Q16_BLOCK_SIZE_64KB
  const FlashSize := 2097152          // QSPI_FLASH_SIZE of the board
  const XipOffset: U32 := 0x100000    // QSPI_XIP_OFFSET of the board
  const StatusBusy: bv8 := 0x01       // W25Q16_STATUS_BUSY, bit 0 of status register 1
  const QuadEnable: bv8 := 0x02       // QE, bit 1 of status register 2

  // Poll budgets, counted in status polls.
  const PreWaitBudget := 1000
  const ProgramBudget := 5000
  const SectorEraseBudget := 5000
  const BlockEraseBudget := 10000
  const ChipEraseBudget := 60000
  const QuadWaitBudget := 1000
  const MemBusyBudget := 1000

  /** qspi_flash_status_t */
  datatype Status = Success | Busy | Error | Timeout

  /** What the bus returns for one command: whether the nrfx call reported
      NRFX_SUCCESS, and the byte it received (status reads only). */
  datatype Answer = Answer(ok: bool, data: bv8)

  type Oracle = nat -> Answer

  datatype EraseLen = Len4KB | Len64KB | LenAll

  /** One call into the nrfx QSPI driver. */
  datatype Cmd =
    | MemBusyCheck                               // nrfx_qspi_mem_busy_check
    | ReadStatus1                                // read status register 1
    | ReadStatus2                                // read status register 2
    | SetWriteEnable                             // write enable
    | WriteStatus(data: seq<bv8>)                // write status: the data bytes sent after the opcode
    | ReadData(address: int, length: int)        // nrfx_qspi_read
    | ProgramData(address: int, bytes: seq<bv8>) // nrfx_qspi_write
    | Erase(len: EraseLen, address: int)         // nrfx_qspi_erase
    | DriverInit                                 // nrfx_qspi_init
    | DriverUninit                               // nrfx_qspi_uninit
    | XipOffsetSet(offset: int)                  // nrf_qspi_xip_offset_set

  /** A `const uint8_t *` argument: NULL, or the bytes it points to. */
  datatype Buffer = Null | Bytes(bytes: seq<bv8>)

  /** The returned status and the commands issued, in order. */
  datatype Outcome = Outcome(status: Status, cmds: seq<Cmd>)

  predicate AllPolls(cmds: seq<Cmd>) {
    forall c | c in cmds :: c == ReadStatus1
  }

  predicate NoErase(cmds: seq<Cmd>) {
    forall c | c in cmds :: !c.Erase?
  }

  predicate NoProgram(cmds: seq<Cmd>) {
    forall c | c in cmds :: !c.ProgramData?
  }

  function MemChecks(n: nat): (s: seq<Cmd>)
    ensures |s| == n && forall c | c in s :: c == MemBusyCheck
  {
    if n == 0 then [] else MemChecks(n - 1) + [MemBusyCheck]
  }

  // ---------------------------------------------------------------------------
  // Status polling

  /** The byte qspi_flash_get_status returns: its receive byte starts at 0 and
      a failed transfer leaves it so. */
  function StatusByte(a: Answer): bv8 {
    if a.ok then a.data else 0
  }

  /** qspi_flash_is_busy applied to one status read. */
  predicate ReportsBusy(a: Answer) {
    StatusByte(a) & StatusBusy != 0
  }

  /** qspi_flash_wait_ready(timeout): poll status register 1 until it reports
      not busy (SUCCESS) or `timeout` busy polls have been seen (TIMEOUT). */
  function WaitReadySpec(ans: Oracle, pos: nat, timeout: nat): (o: Outcome)
    requires timeout > 0
    decreases timeout, pos
  {
    if !ReportsBusy(ans(pos)) then Outcome(Success, [ReadStatus1])
    else if timeout == 1 then Outcome(Timeout, [ReadStatus1])
    else
      var rest := WaitReadySpec(ans, pos + 1, timeout - 1);
      Outcome(rest.status, [ReadStatus1] + rest.cmds)
  }

  /** The wait polls at least once and at most `timeout` times, returns
      SUCCESS or TIMEOUT, and times out only after exactly `timeout` polls. */
  lemma {:induction false} WaitReadyBounds(ans: Oracle, pos: nat, timeout: nat)
    requires timeout > 0
    ensures var o := WaitReadySpec(ans, pos, timeout);
      && 1 <= |o.cmds| <= timeout
      && (o.status == Success || o.status == Timeout)
      && (o.status == Timeout ==> |o.cmds| == timeout)
    decreases timeout
  {
    if ReportsBusy(ans(pos)) && timeout > 1 {
      WaitReadyBounds(ans, pos + 1, timeout - 1);
    }
  }

  /** The wait issues nothing but status reads. */
  lemma {:induction false} WaitReadyOnlyPolls(ans: Oracle, pos: nat, timeout: nat)
    requires timeout > 0
    ensures AllPolls(WaitReadySpec(ans, pos, timeout).cmds)
    decreases timeout
  {
    if ReportsBusy(ans(pos)) && timeout > 1 {
      WaitReadyOnlyPolls(ans, pos + 1, timeout - 1);
    }
  }

  /** Every poll before the last reported busy, and the wait returns SUCCESS
      exactly when the last one did not. */
  lemma {:induction false} WaitReadyPolls(ans: Oracle, pos: nat, timeout: nat)
    requires timeout > 0
    ensures var o := WaitReadySpec(ans, pos, timeout);
      && (forall j | pos <= j < pos + |o.cmds| - 1 :: ReportsBusy(ans(j)))
      && (o.status == Success <==> !ReportsBusy(ans(pos + |o.cmds| - 1)))
    decreases timeout
  {
    if ReportsBusy(ans(pos)) && timeout > 1 {
      WaitReadyPolls(ans, pos + 1, timeout - 1);
    }
  }

  /** The first not-busy poll within the budget ends the wait with SUCCESS. */
  lemma {:induction false} WaitReadyFirstReady(ans: Oracle, pos: nat, timeout: nat, k: nat)
    requires k < timeout
    requires forall j | pos <= j < pos + k :: ReportsBusy(ans(j))
    requires !ReportsBusy(ans(pos + k))
    ensures WaitReadySpec(ans, pos, timeout).status == Success
    ensures |WaitReadySpec(ans, pos, timeout).cmds| == k + 1
    decreases k
  {
    if k > 0 {
      WaitReadyFirstReady(ans, pos + 1, timeout - 1, k - 1);
    }
  }

  /** One busy poll with polls left: the wait goes on from the next answer;
      `before` and `after` are the trace before and after that poll. */
  lemma WaitReadyContinues(ans: Oracle, pos: nat, timeout: nat, before: seq<Cmd>, after: seq<Cmd>)
    requires timeout > 1 && ReportsBusy(ans(pos)) && after == before + [ReadStatus1]
    ensures WaitReadySpec(ans, pos, timeout).status == WaitReadySpec(ans, pos + 1, timeout - 1).status
    ensures before + WaitReadySpec(ans, pos, timeout).cmds == after + WaitReadySpec(ans, pos + 1, timeout - 1).cmds
  {
    AppendAssoc(before, [ReadStatus1], WaitReadySpec(ans, pos + 1, timeout - 1).cmds);
  }

  /** Number of nrfx_qspi_mem_busy_check calls qspi_wait_ready makes: the
      do-while loop stops at the first not-busy answer or when its countdown
      reaches zero; the result is discarded. */
  function MemPollCount(ans: Oracle, pos: nat, budget: nat): nat
    requires budget > 0
    decreases budget, pos
  {
    if ans(pos).ok || budget == 1 then 1 else 1 + MemPollCount(ans, pos + 1, budget - 1)
  }

  /** Between one and `budget` polls; every poll but the last reported busy,
      and the loop stops early only at a poll that reported ready. */
  lemma {:induction false} MemPollsStopAtReady(ans: Oracle, pos: nat, budget: nat)
    requires budget > 0
    ensures var n := MemPollCount(ans, pos, budget);
      && 1 <= n <= budget
      && (forall j | pos <= j < pos + n - 1 :: !ans(j).ok)
      && (n < budget ==> ans(pos + n - 1).ok)
    decreases budget
  {
    if !ans(pos).ok && budget > 1 {
      MemPollsStopAtReady(ans, pos + 1, budget - 1);
    }
  }

  /** One check of the loop in qspi_wait_ready, unfolded. */
  lemma MemPollStep(ans: Oracle, pos: nat, budget: nat)
    requires budget > 0
    ensures MemPollCount(ans, pos, budget)
      == if ans(pos).ok || budget == 1 then 1 else 1 + MemPollCount(ans, pos + 1, budget - 1)
  {
  }

  /** One more busy check extends the trace of busy checks by one. */
  lemma MemChecksGrow(before: seq<Cmd>, n: nat)
    ensures (before + MemChecks(n)) + [MemBusyCheck] == before + MemChecks(n + 1)
  {
    AppendAssoc(before, MemChecks(n), [MemBusyCheck]);
  }

  // ---------------------------------------------------------------------------
  // The program / erase sequence

  /** What qspi_flash_write, qspi_flash_erase_sector, each round of
      qspi_flash_erase_block and qspi_flash_chip_erase do once their
      arguments are checked: wait (budget 1000), write enable, the operation
      `op`, wait (`postBudget`); the first step that fails ends it. */
  function SequencedSpec(ans: Oracle, pos: nat, op: Cmd, postBudget: nat): (o: Outcome)
    requires postBudget > 0
  {
    var pre := WaitReadySpec(ans, pos, PreWaitBudget);
    if pre.status != Success then pre
    else
      var p := pos + |pre.cmds|;
      if !ans(p).ok then Outcome(Error, pre.cmds + [SetWriteEnable])
      else if !ans(p + 1).ok then Outcome(Error, pre.cmds + [SetWriteEnable, op])
      else
        var post := WaitReadySpec(ans, p + 2, postBudget);
        Outcome(post.status, pre.cmds + [SetWriteEnable, op] + post.cmds)
  }

  // Sequence facts that keep command traces in one syntactic shape.

  lemma AppendAssoc(a: seq<Cmd>, b: seq<Cmd>, c: seq<Cmd>)
    ensures (a + b) + c == a + (b + c)
  {
  }

  lemma AppendEmpty(a: seq<Cmd>)
    ensures a + [] == a
  {
  }

  lemma InConcat(a: seq<Cmd>, b: seq<Cmd>, c: Cmd)
    requires c in a + b
    ensures c in a || c in b
  {
  }

  lemma QuietAppend(a: seq<Cmd>, b: seq<Cmd>)
    requires NoErase(a) && NoProgram(a) && NoErase(b) && NoProgram(b)
    ensures NoErase(a + b) && NoProgram(a + b)
  {
    forall c | c in a + b
      ensures !c.Erase? && !c.ProgramData?
    {
      InConcat(a, b, c);
    }
  }

  /** `cmds` holds nothing but status reads, write enables and `op`. */
  predicate OnlyOp(cmds: seq<Cmd>, op: Cmd) {
    forall c | c in cmds :: c == op || c == ReadStatus1 || c == SetWriteEnable
  }

  lemma OnlyOpAppend(a: seq<Cmd>, b: seq<Cmd>, op: Cmd)
    requires OnlyOp(a, op) && OnlyOp(b, op)
    ensures OnlyOp(a + b, op)
  {
    forall c | c in a + b
      ensures c == op || c == ReadStatus1 || c == SetWriteEnable
    {
      if c in a {
      } else {
        assert c in b;
      }
    }
  }

  /** A sequenced operation issues only status reads, write enable and `op`,
      and it issues `op` whenever it returns SUCCESS. */
  lemma SequencedIssues(ans: Oracle, pos: nat, op: Cmd, postBudget: nat)
    requires postBudget > 0
    ensures var o := SequencedSpec(ans, pos, op, postBudget);
      && OnlyOp(o.cmds, op)
      && (o.status == Success ==> op in o.cmds)
  {
    var o := SequencedSpec(ans, pos, op, postBudget);
    var pre := WaitReadySpec(ans, pos, PreWaitBudget);
    WaitReadyOnlyPolls(ans, pos, PreWaitBudget);
    assert OnlyOp(pre.cmds, op);
    var p := pos + |pre.cmds|;
    if pre.status != Success {
      assert o.cmds == pre.cmds;
    } else if !ans(p).ok {
      assert o.cmds == pre.cmds + [SetWriteEnable];
      OnlyOpAppend(pre.cmds, [SetWriteEnable], op);
    } else {
      var two := [SetWriteEnable, op];
      assert OnlyOp(two, op);
      OnlyOpAppend(pre.cmds, two, op);
      if !ans(p + 1).ok {
        assert o.cmds == pre.cmds + two;
      } else {
        var post := WaitReadySpec(ans, p + 2, postBudget);
        WaitReadyOnlyPolls(ans, p + 2, postBudget);
        assert OnlyOp(post.cmds, op);
        OnlyOpAppend(pre.cmds + two, post.cmds, op);
        assert o.cmds == pre.cmds + two + post.cmds;
        assert op == (pre.cmds + two)[|pre.cmds| + 1];
      }
    }
  }

  /** The shape of every sequenced operation: `k` status polls, then one of
      (a) nothing (the first wait timed out after its whole budget),
      (b) a write enable the bus refused (ERROR),
      (c) write enable and the operation, which the bus refused (ERROR),
      (d) write enable, the accepted operation and at most `postBudget`
          polls (SUCCESS or TIMEOUT).
      The operation is never issued before a write enable, and nothing is
      issued after a failing step. */
  lemma SequencedProtocol(ans: Oracle, pos: nat, op: Cmd, postBudget: nat) returns (k: nat)
    requires postBudget > 0
    ensures var o := SequencedSpec(ans, pos, op, postBudget);
      && 1 <= k <= PreWaitBudget && k <= |o.cmds| && AllPolls(o.cmds[..k])
      && ( (o.cmds[k..] == [] && o.status == Timeout && k == PreWaitBudget)
        || (o.cmds[k..] == [SetWriteEnable] && o.status == Error && !ans(pos + k).ok)
        || (o.cmds[k..] == [SetWriteEnable, op] && o.status == Error
            && ans(pos + k).ok && !ans(pos + k + 1).ok)
        || (k + 2 < |o.cmds| <= k + 2 + postBudget
            && o.cmds[k..k + 2] == [SetWriteEnable, op] && AllPolls(o.cmds[k + 2..])
            && ans(pos + k).ok && ans(pos + k + 1).ok
            && (o.status == Success || o.status == Timeout)))
  {
    var pre := WaitReadySpec(ans, pos, PreWaitBudget);
    WaitReadyOnlyPolls(ans, pos, PreWaitBudget);
    WaitReadyBounds(ans, pos, PreWaitBudget);
    k := |pre.cmds|;
    var o := SequencedSpec(ans, pos, op, postBudget);
    if pre.status != Success {
      assert o.cmds == pre.cmds;
      assert o.cmds[..k] == pre.cmds && o.cmds[k..] == [];
    } else if !ans(pos + k).ok {
      assert o.cmds == pre.cmds + [SetWriteEnable];
      assert o.cmds[..k] == pre.cmds && o.cmds[k..] == [SetWriteEnable];
    } else if !ans(pos + k + 1).ok {
      assert o.cmds == pre.cmds + [SetWriteEnable, op];
      assert o.cmds[..k] == pre.cmds && o.cmds[k..] == [SetWriteEnable, op];
    } else {
      var post := WaitReadySpec(ans, pos + k + 2, postBudget);
      WaitReadyOnlyPolls(ans, pos + k + 2, postBudget);
      WaitReadyBounds(ans, pos + k + 2, postBudget);
      assert o.cmds == pre.cmds + [SetWriteEnable, op] + post.cmds;
      assert o.cmds[..k] == pre.cmds;
      assert o.cmds[k..k + 2] == [SetWriteEnable, op];
      assert o.cmds[k + 2..] == post.cmds;
    }
  }

  // ---------------------------------------------------------------------------
  // Argument handling

  /** Clamps a transfer to the end of the device, so the bus never sees a
      range past QSPI_FLASH_SIZE (the bounds of the clamped length). */
  function Clamp(address: U32, length: U32): (n: U32)
    requires address < FlashSize
    ensures n <= length && address + n <= FlashSize
    ensures n == length || address + n == FlashSize
  {
    if address + length > FlashSize then FlashSize - address else length
  }

  /** The clamp as the C code computes it: `address + length` is a 32-bit sum
      that wraps, so a length close to 2^32 escapes the clamp. */
  function ClampAsWritten(address: U32, length: U32): (n: U32)
    requires address < FlashSize
    ensures n <= length
  {
    if (address + length) % 0x1_0000_0000 > FlashSize then FlashSize - address else length
  }

  /** Without wrap-around the two clamps agree. */
  lemma ClampAsWrittenAgrees(address: U32, length: U32)
    requires address < FlashSize && address + length < 0x1_0000_0000
    ensures ClampAsWritten(address, length) == Clamp(address, length)
  {
  }

  /** Address 0x100 with length 0xFFFFFF00: the sum wraps to 0, nothing is
      clamped, and the transfer runs far past the end of the device. */
  lemma ClampAsWrittenOverflows()
    ensures ClampAsWritten(0x100, 0xFFFF_FF00) == 0xFFFF_FF00
    ensures 0x100 + ClampAsWritten(0x100, 0xFFFF_FF00) > FlashSize
  {
  }

  /** `(address / W25Q16_SECTOR_SIZE) * W25Q16_SECTOR_SIZE`: the start of the
      4 KB sector holding `address`. */
  function SectorBase(address: U32): (s: U32)
    ensures s % SectorSize == 0 && s <= address < s + SectorSize
  {
    address / SectorSize * SectorSize
  }

  // ---------------------------------------------------------------------------
  // Public operations

  /** qspi_flash_read: rejects an uninitialised driver, a NULL buffer, a zero
      length or an address past the device without touching the bus;
      otherwise one clamped read. */
  function ReadSpec(ans: Oracle, pos: nat, initialized: bool, address: U32, hasData: bool, length: U32): (o: Outcome)
    ensures !initialized || !hasData || length == 0 || address >= FlashSize ==> o == Outcome(Error, [])
    ensures forall c | c in o.cmds ::
      && c.ReadData? && c.address == address && address < FlashSize
      && c.length == Clamp(address, length) && 0 < c.length <= length && address + c.length <= FlashSize
    ensures o.status == Success || o.status == Error
    ensures o.status == Success <==> |o.cmds| == 1 && ans(pos).ok
  {
    if !initialized || !hasData || length == 0 then Outcome(Error, [])
    else if address >= FlashSize then Outcome(Error, [])
    else
      var n := Clamp(address, length);
      Outcome(if ans(pos).ok then Success else Error, [ReadData(address, n)])
  }

  /** qspi_flash_write: the same checks as read, then one sequenced program
      of the clamped prefix of `data` at `address`. */
  function WriteSpec(ans: Oracle, pos: nat, initialized: bool, address: U32, data: Buffer, length: U32): (o: Outcome)
    requires data.Bytes? ==> length <= |data.bytes|
    ensures !initialized || data.Null? || length == 0 || address >= FlashSize ==> o == Outcome(Error, [])
  {
    if !initialized || data.Null? || length == 0 then Outcome(Error, [])
    else if address >= FlashSize then Outcome(Error, [])
    else
      var n := Clamp(address, length);
      SequencedSpec(ans, pos, ProgramData(address, data.bytes[..n]), ProgramBudget)
  }

  /** A write programs, at `address`, the whole of `data` that fits in the
      device (the clamped length, never empty), erases nothing, and programs
      when it succeeds. */
  lemma WriteIssues(ans: Oracle, pos: nat, initialized: bool, address: U32, data: Buffer, length: U32)
    requires data.Bytes? ==> length <= |data.bytes|
    ensures var o := WriteSpec(ans, pos, initialized, address, data, length);
      && (forall c | c in o.cmds :: (c == ReadStatus1 || c == SetWriteEnable ||
           (c.ProgramData? && data.Bytes? && c.address == address && address < FlashSize
            && c.bytes == data.bytes[..Clamp(address, length)]
            && 0 < |c.bytes| <= length && address + |c.bytes| <= FlashSize)))
      && NoErase(o.cmds)
      && (o.status == Success ==> exists c | c in o.cmds :: c.ProgramData?)
  {
    if initialized && data.Bytes? && length > 0 && address < FlashSize {
      var n := Clamp(address, length);
      SequencedIssues(ans, pos, ProgramData(address, data.bytes[..n]), ProgramBudget);
    }
  }

  /** qspi_flash_erase_sector: aligns the address down to its sector, checks
      the aligned address against the device size, then one sequenced 4 KB
      erase of that sector. */
  function EraseSectorSpec(ans: Oracle, pos: nat, initialized: bool, address: U32): (o: Outcome)
    ensures !initialized || SectorBase(address) >= FlashSize ==> o == Outcome(Error, [])
  {
    if !initialized then Outcome(Error, [])
    else
      var aligned := SectorBase(address);
      if aligned >= FlashSize then Outcome(Error, [])
      else SequencedSpec(ans, pos, Erase(Len4KB, aligned), SectorEraseBudget)
  }

  /** A sector erase erases only the sector holding `address`, programs
      nothing, and erases that sector when it succeeds. */
  lemma EraseSectorIssues(ans: Oracle, pos: nat, initialized: bool, address: U32)
    ensures var o := EraseSectorSpec(ans, pos, initialized, address);
      && (forall c | c in o.cmds ::
           c == Erase(Len4KB, SectorBase(address)) || c == ReadStatus1 || c == SetWriteEnable)
      && NoProgram(o.cmds)
      && (o.status == Success ==> Erase(Len4KB, SectorBase(address)) in o.cmds)
  {
    if initialized && SectorBase(address) < FlashSize {
      SequencedIssues(ans, pos, Erase(Len4KB, SectorBase(address)), SectorEraseBudget);
    }
  }

  /** The loop of qspi_flash_erase_block: one sequenced 64 KB erase per
      round, advancing the 32-bit address by the round's size. */
  function EraseBlockLoop(ans: Oracle, pos: nat, address: U32, size: nat): (o: Outcome)
    decreases size
  {
    if size == 0 then Outcome(Success, [])
    else
      var blockSize := if size >= BlockSize64K then BlockSize64K else size;
      var step := SequencedSpec(ans, pos, Erase(Len64KB, address), BlockEraseBudget);
      if step.status != Success then step
      else
        var rest := EraseBlockLoop(ans, pos + |step.cmds|, (address + blockSize) % 0x1_0000_0000, size - blockSize);
        Outcome(rest.status, step.cmds + rest.cmds)
  }

  /** One round of the block-erase loop, unfolded. */
  lemma EraseBlockLoopUnfold(ans: Oracle, pos: nat, address: U32, size: nat, blockSize: nat)
    requires size > 0 && blockSize == if size >= BlockSize64K then BlockSize64K else size
    ensures var step := SequencedSpec(ans, pos, Erase(Len64KB, address), BlockEraseBudget);
      var next := EraseBlockLoop(ans, pos + |step.cmds|, (address + blockSize) % 0x1_0000_0000, size - blockSize);
      EraseBlockLoop(ans, pos, address, size)
        == if step.status != Success then step else Outcome(next.status, step.cmds + next.cmds)
  {
  }

  /** A round whose sequenced erase fails ends the loop with that outcome. */
  lemma EraseBlockStops(ans: Oracle, pos: nat, address: U32, size: nat)
    requires size > 0
    requires SequencedSpec(ans, pos, Erase(Len64KB, address), BlockEraseBudget).status != Success
    ensures EraseBlockLoop(ans, pos, address, size) == SequencedSpec(ans, pos, Erase(Len64KB, address), BlockEraseBudget)
  {
  }

  /** A round whose sequenced erase succeeds leaves the loop's status to the
      rounds after it and its commands ahead of theirs on the bus: `before`
      and `after` are the trace before and after the round. */
  lemma EraseBlockAdvances(ans: Oracle, pos: nat, address: U32, size: nat, pos': nat, address': U32, size': nat, before: seq<Cmd>, after: seq<Cmd>)
    requires size > 0
    requires size' == size - (if size >= BlockSize64K then BlockSize64K else size)
    requires address' == (address + (if size >= BlockSize64K then BlockSize64K else size)) % 0x1_0000_0000
    requires SequencedSpec(ans, pos, Erase(Len64KB, address), BlockEraseBudget).status == Success
    requires after == before + SequencedSpec(ans, pos, Erase(Len64KB, address), BlockEraseBudget).cmds
    requires pos' == pos + |SequencedSpec(ans, pos, Erase(Len64KB, address), BlockEraseBudget).cmds|
    ensures EraseBlockLoop(ans, pos, address, size).status == EraseBlockLoop(ans, pos', address', size').status
    ensures before + EraseBlockLoop(ans, pos, address, size).cmds == after + EraseBlockLoop(ans, pos', address', size').cmds
  {
    var step := SequencedSpec(ans, pos, Erase(Len64KB, address), BlockEraseBudget);
    var next := EraseBlockLoop(ans, pos', address', size');
    EraseBlockLoopUnfold(ans, pos, address, size, if size >= BlockSize64K then BlockSize64K else size);
    AppendAssoc(before, step.cmds, next.cmds);
  }

  /** qspi_flash_erase_block */
  function EraseBlockSpec(ans: Oracle, pos: nat, initialized: bool, address: U32, size: U32): (o: Outcome)
    ensures !initialized || address >= FlashSize ==> o == Outcome(Error, [])
    ensures initialized && address < FlashSize && size == 0 ==> o == Outcome(Success, [])
  {
    if !initialized then Outcome(Error, [])
    else if address >= FlashSize then Outcome(Error, [])
    else EraseBlockLoop(ans, pos, address, size)
  }

  /** qspi_flash_chip_erase */
  function ChipEraseSpec(ans: Oracle, pos: nat, initialized: bool): (o: Outcome)
    ensures !initialized ==> o == Outcome(Error, [])
  {
    if !initialized then Outcome(Error, [])
    else SequencedSpec(ans, pos, Erase(LenAll, 0), ChipEraseBudget)
  }

  /** A chip erase issues one whole-chip erase at most and nothing else but
      status reads and write enable; it has issued it when it succeeds. */
  lemma ChipEraseIssues(ans: Oracle, pos: nat, initialized: bool)
    ensures var o := ChipEraseSpec(ans, pos, initialized);
      && (forall c | c in o.cmds :: c == Erase(LenAll, 0) || c == ReadStatus1 || c == SetWriteEnable)
      && (o.status == Success ==> Erase(LenAll, 0) in o.cmds)
  {
    if initialized {
      SequencedIssues(ans, pos, Erase(LenAll, 0), ChipEraseBudget);
    }
  }

  // ---------------------------------------------------------------------------
  // Block erase decomposition

  /** The 64 KB erase commands a block erase issues, in order. */
  function Erases(cmds: seq<Cmd>): seq<Cmd>
  {
    if cmds == [] then []
    else (if cmds[0].Erase? then [cmds[0]] else []) + Erases(cmds[1..])
  }

  lemma {:induction false} ErasesAppend(a: seq<Cmd>, b: seq<Cmd>)
    ensures Erases(a + b) == Erases(a) + Erases(b)
    decreases |a|
  {
    if a == [] {
      assert a + b == b;
    } else {
      assert (a + b)[0] == a[0];
      assert (a + b)[1..] == a[1..] + b;
      ErasesAppend(a[1..], b);
    }
  }

  lemma {:induction false} ErasesNone(a: seq<Cmd>)
    requires NoErase(a)
    ensures Erases(a) == []
    decreases |a|
  {
    if a != [] {
      assert a[0] in a;
      ErasesNone(a[1..]);
    }
  }

  /** The number of 64 KB rounds for `size` bytes: ceil(size / 64K). */
  function BlockCount(size: nat): nat {
    (size + BlockSize64K - 1) / BlockSize64K
  }

  /** The 64 KB erases of a block erase that starts at `address` and runs
      `m` rounds: each round advances the 32-bit address by 64 KB. */
  function BlockErases(address: U32, m: nat): (s: seq<Cmd>)
    ensures |s| == m
    decreases m
  {
    if m == 0 then []
    else [Erase(Len64KB, address)] + BlockErases((address + BlockSize64K) % 0x1_0000_0000, m - 1)
  }

  /** The i-th of them erases at `(address + i * 64K) mod 2^32`. */
  lemma {:induction false} BlockErasesAt(address: U32, m: nat, i: nat)
    requires i < m
    ensures BlockErases(address, m)[i] == Erase(Len64KB, (address + i * BlockSize64K) % 0x1_0000_0000)
    decreases m
  {
    if i > 0 {
      var next: U32 := (address + BlockSize64K) % 0x1_0000_0000;
      BlockErasesAt(next, m - 1, i - 1);
      var q := (address + BlockSize64K) / 0x1_0000_0000;
      assert next + (i - 1) * BlockSize64K == address + i * BlockSize64K - q * 0x1_0000_0000;
      ModShift(address + i * BlockSize64K, q);
    }
  }

  lemma ErasesOfOne(c: Cmd)
    ensures Erases([c]) == if c.Erase? then [c] else []
  {
    assert [c][1..] == [];
  }

  /** A sequenced operation issues its erase command at most once, and
      exactly once when it succeeds. */
  lemma ErasesOfSequenced(ans: Oracle, pos: nat, op: Cmd, postBudget: nat)
    requires postBudget > 0 && op.Erase?
    ensures var o := SequencedSpec(ans, pos, op, postBudget);
      && (Erases(o.cmds) == [] || Erases(o.cmds) == [op])
      && (o.status == Success ==> Erases(o.cmds) == [op])
  {
    var o := SequencedSpec(ans, pos, op, postBudget);
    var pre := WaitReadySpec(ans, pos, PreWaitBudget);
    WaitReadyOnlyPolls(ans, pos, PreWaitBudget);
    ErasesNone(pre.cmds);
    if pre.status == Success {
      var p := pos + |pre.cmds|;
      if !ans(p).ok {
        assert o.cmds == pre.cmds + [SetWriteEnable];
        ErasesOfOne(SetWriteEnable);
        ErasesAppend(pre.cmds, [SetWriteEnable]);
      } else {
        var two := [SetWriteEnable, op];
        assert Erases(two) == [op] by {
          ErasesOfOne(SetWriteEnable);
          ErasesOfOne(op);
          assert [SetWriteEnable] + [op] == two;
          ErasesAppend([SetWriteEnable], [op]);
        }
        ErasesAppend(pre.cmds, two);
        assert Erases(pre.cmds + two) == [op];
        if !ans(p + 1).ok {
          assert o.cmds == pre.cmds + two;
        } else {
          var post := WaitReadySpec(ans, p + 2, postBudget);
          WaitReadyOnlyPolls(ans, p + 2, postBudget);
          assert o.cmds == pre.cmds + two + post.cmds;
          ErasesNone(post.cmds);
          ErasesAppend(pre.cmds + two, post.cmds);
        }
      }
    } else {
      assert o.cmds == pre.cmds;
    }
  }

  lemma ModShift(x: int, q: int)
    ensures (x - q * 0x1_0000_0000) % 0x1_0000_0000 == x % 0x1_0000_0000
  {
  }

  lemma BlockCountStep(size: nat)
    requires size > 0
    ensures size >= BlockSize64K ==> BlockCount(size) == 1 + BlockCount(size - BlockSize64K)
    ensures size < BlockSize64K ==> BlockCount(size) == 1
  {
  }

  lemma BlockErasesCons(address: U32, blockSize: nat, m: nat)
    requires 0 < blockSize <= BlockSize64K
    requires blockSize < BlockSize64K ==> m == 0
    ensures [Erase(Len64KB, address)] + BlockErases((address + blockSize) % 0x1_0000_0000, m)
      == BlockErases(address, m + 1)
  {
  }

  /** A block erase issues 64 KB erases at `address`, `address + 64K`, ...
      in order (BlockErasesAt gives each address), `m` of them, never more
      than ceil(size / 64K), and all of them when it returns SUCCESS; so a
      last piece shorter than 64 KB still gets a full 64 KB erase. */
  lemma {:induction false} EraseBlockProgress(ans: Oracle, pos: nat, address: U32, size: nat) returns (m: nat)
    ensures var o := EraseBlockLoop(ans, pos, address, size);
      && m <= BlockCount(size)
      && Erases(o.cmds) == BlockErases(address, m)
      && (o.status == Success ==> m == BlockCount(size))
    decreases size
  {
    var o := EraseBlockLoop(ans, pos, address, size);
    if size == 0 {
      m := 0;
    } else {
      BlockCountStep(size);
      var op := Erase(Len64KB, address);
      var step := SequencedSpec(ans, pos, op, BlockEraseBudget);
      ErasesOfSequenced(ans, pos, op, BlockEraseBudget);
      if step.status != Success {
        assert o == step;
        m := |Erases(step.cmds)|;
        assert Erases(step.cmds) == BlockErases(address, m);
      } else {
        var blockSize := if size >= BlockSize64K then BlockSize64K else size;
        var next: U32 := (address + blockSize) % 0x1_0000_0000;
        var pos': nat := pos + |step.cmds|;
        var size': nat := size - blockSize;
        var rest := EraseBlockLoop(ans, pos', next, size');
        assert o == Outcome(rest.status, step.cmds + rest.cmds);
        var m' := EraseBlockProgress(ans, pos', next, size');
        ErasesAppend(step.cmds, rest.cmds);
        m := m' + 1;
        BlockErasesCons(address, blockSize, m');
      }
    }
  }

  // ---------------------------------------------------------------------------
  // Bring-up

  /** `status2 | 0x02`: sets the quad-enable bit and keeps every other bit. */
  function SetQuadEnable(status2: bv8): bv8 {
    status2 | QuadEnable
  }

  /** Setting QE sets bit 1 and keeps the other seven bits. */
  lemma SetQuadEnableBits(status2: bv8)
    ensures SetQuadEnable(status2) & QuadEnable == QuadEnable
    ensures SetQuadEnable(status2) & !QuadEnable == status2 & !QuadEnable
  {
  }

  /** The length of the write-status instruction, NRF_QSPI_CINSTR_LEN_2B:
      the opcode and one data byte. */
  const StatusWriteLength := 2

  /** The bytes a write-status instruction of `writeLen` bytes (opcode
      included) takes from the buffer `[status1, status2]`. */
  function StatusBytes(status1: bv8, status2: bv8, writeLen: nat): (d: seq<bv8>)
    requires 2 <= writeLen <= 3
    ensures |d| == writeLen - 1 && d[0] == status1
    ensures writeLen == 3 ==> d[1] == status2
  {
    [status1, status2][..writeLen - 1]
  }

  /** qspi_flash_configure_quad_mode, with a write-status instruction of
      `writeLen` bytes: read status registers 1 and 2; if QE is already set,
      SUCCESS with no write; otherwise write enable, send the first
      `writeLen - 1` bytes of `[status1, status2 | QE]`, and wait (budget
      1000). The source's instruction is StatusWriteLength bytes long. */
  function QuadModeSpec(ans: Oracle, pos: nat, writeLen: nat): (o: Outcome)
    requires 2 <= writeLen <= 3
    ensures !ans(pos).ok || !ans(pos + 1).ok ==> o.status == Error && |o.cmds| <= 2
    ensures ans(pos).ok && ans(pos + 1).ok && ans(pos + 1).data & QuadEnable != 0 ==>
      o == Outcome(Success, [ReadStatus1, ReadStatus2])
  {
    var a1 := ans(pos);
    if !a1.ok then Outcome(Error, [ReadStatus1])
    else
      var a2 := ans(pos + 1);
      if !a2.ok then Outcome(Error, [ReadStatus1, ReadStatus2])
      else if a2.data & QuadEnable != 0 then Outcome(Success, [ReadStatus1, ReadStatus2])
      else
        var write := WriteStatus(StatusBytes(a1.data, SetQuadEnable(a2.data), writeLen));
        if !ans(pos + 2).ok then Outcome(Error, [ReadStatus1, ReadStatus2, SetWriteEnable])
        else if !ans(pos + 3).ok then Outcome(Error, [ReadStatus1, ReadStatus2, SetWriteEnable, write])
        else
          var wait := WaitReadySpec(ans, pos + 4, QuadWaitBudget);
          Outcome(wait.status, [ReadStatus1, ReadStatus2, SetWriteEnable, write] + wait.cmds)
  }

  /** The handshake writes status at most once, only when QE was clear, only
      after a write enable the bus accepted, and then sends status register 1
      as read followed, if the instruction has room, by status register 2 as
      read plus QE; it never programs or erases. */
  lemma QuadModeHandshake(ans: Oracle, pos: nat, writeLen: nat)
    requires 2 <= writeLen <= 3
    ensures var o := QuadModeSpec(ans, pos, writeLen);
      && (forall c | c in o.cmds && c.WriteStatus? ::
           && c == WriteStatus(StatusBytes(ans(pos).data, SetQuadEnable(ans(pos + 1).data), writeLen))
           && ans(pos).ok && ans(pos + 1).ok && ans(pos + 1).data & QuadEnable == 0
           && |o.cmds| >= 4 && o.cmds[..4] == [ReadStatus1, ReadStatus2, SetWriteEnable, c]
           && ans(pos + 2).ok)
      && NoErase(o.cmds) && NoProgram(o.cmds)
  {
    var o := QuadModeSpec(ans, pos, writeLen);
    if ans(pos).ok && ans(pos + 1).ok && ans(pos + 1).data & QuadEnable == 0 && ans(pos + 2).ok {
      var write := WriteStatus(StatusBytes(ans(pos).data, SetQuadEnable(ans(pos + 1).data), writeLen));
      var head := [ReadStatus1, ReadStatus2, SetWriteEnable, write];
      if ans(pos + 3).ok {
        var wait := WaitReadySpec(ans, pos + 4, QuadWaitBudget);
        WaitReadyOnlyPolls(ans, pos + 4, QuadWaitBudget);
        assert o.cmds == head + wait.cmds;
        assert o.cmds[..4] == head;
        forall c | c in o.cmds
          ensures !c.Erase? && !c.ProgramData? && (c.WriteStatus? ==> c == write)
        {
          InConcat(head, wait.cmds, c);
        }
      } else {
        assert o.cmds == head;
      }
    } else {
      assert forall c | c in o.cmds :: c == ReadStatus1 || c == ReadStatus2 || c == SetWriteEnable;
    }
  }

  /** As written: the 2-byte write-status instruction sends only status
      register 1, so the byte carrying QE never reaches the device. Whatever
      the device answers, no command of the handshake carries status
      register 2. */
  lemma QuadModeNeverSendsQe(ans: Oracle, pos: nat)
    ensures forall c | c in QuadModeSpec(ans, pos, StatusWriteLength).cmds && c.WriteStatus? ::
      c.data == [ans(pos).data]
  {
    QuadModeHandshake(ans, pos, StatusWriteLength);
  }

  /** As intended, with the 3-byte instruction (opcode, status 1, status 2):
      a handshake that got past write enable sends status register 1 as read
      and status register 2 with QE set and its other bits as read. */
  lemma QuadModeIntendedSetsQe(ans: Oracle, pos: nat)
    requires ans(pos).ok && ans(pos + 1).ok && ans(pos + 1).data & QuadEnable == 0 && ans(pos + 2).ok
    ensures var o := QuadModeSpec(ans, pos, 3);
      && |o.cmds| >= 4 && o.cmds[3].WriteStatus?
      && o.cmds[3].data == [ans(pos).data, SetQuadEnable(ans(pos + 1).data)]
      && o.cmds[3].data[1] & QuadEnable == QuadEnable
      && o.cmds[3].data[1] & !QuadEnable == ans(pos + 1).data & !QuadEnable
  {
    var o := QuadModeSpec(ans, pos, 3);
    QuadModeHandshake(ans, pos, 3);
    SetQuadEnableBits(ans(pos + 1).data);
    var d := StatusBytes(ans(pos).data, SetQuadEnable(ans(pos + 1).data), 3);
    assert d == [ans(pos).data, SetQuadEnable(ans(pos + 1).data)];
  }

  /** qspi_flash_init (the commands; the flag and the stored XIP offset are
      in the contract of QspiDriver.Driver.Init): nothing if already
      initialised; otherwise driver init, and on success the XIP offset, the
      memory busy wait and the quad-mode handshake, whose result is ignored. */
  function InitSpec(ans: Oracle, pos: nat, initialized: bool): (o: Outcome)
    ensures initialized ==> o == Outcome(Success, [])
    ensures !initialized ==> 1 <= |o.cmds| && o.cmds[0] == DriverInit
    ensures !initialized ==> (o.status == Success <==> ans(pos).ok)
    ensures o.status == Success || o.status == Error
  {
    if initialized then Outcome(Success, [])
    else if !ans(pos).ok then Outcome(Error, [DriverInit])
    else
      var polls := MemPollCount(ans, pos + 2, MemBusyBudget);
      var quad := QuadModeSpec(ans, pos + 2 + polls, StatusWriteLength);
      Outcome(Success, [DriverInit, XipOffsetSet(XipOffset)] + MemChecks(polls) + quad.cmds)
  }

  /** Bring-up never programs or erases the flash. */
  lemma InitIssues(ans: Oracle, pos: nat, initialized: bool)
    ensures var o := InitSpec(ans, pos, initialized);
      NoErase(o.cmds) && NoProgram(o.cmds)
  {
    var o := InitSpec(ans, pos, initialized);
    if !initialized && ans(pos).ok {
      var polls := MemPollCount(ans, pos + 2, MemBusyBudget);
      var quad := QuadModeSpec(ans, pos + 2 + polls, StatusWriteLength);
      QuadModeHandshake(ans, pos + 2 + polls, StatusWriteLength);
      var head := [DriverInit, XipOffsetSet(XipOffset)] + MemChecks(polls);
      assert NoErase(head) && NoProgram(head);
      assert o.cmds == head + quad.cmds;
      QuietAppend(head, quad.cmds);
    }
  }

  /** Init leaves the driver initialised exactly when it reports SUCCESS,
      whatever the quad-mode handshake answered. */
  lemma InitQuadFailureIgnored(ans: Oracle, pos: nat)
    requires ans(pos).ok
    ensures InitSpec(ans, pos, false).status == Success
    ensures var polls := MemPollCount(ans, pos + 2, MemBusyBudget);
      QuadModeSpec(ans, pos + 2 + polls, StatusWriteLength).cmds <= InitSpec(ans, pos, false).cmds[2 + polls..]
  {
  }
}
