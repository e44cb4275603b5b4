# Flash-write path of the nRF52 UF2 bootloader, modelled in Dafny

The bootloader hands each payload it receives to
`flash_nrf5x_write(dst, src, len, need_erase)`. That function routes the write
by its destination address:

* an address inside the XIP window of the external W25Q16 QSPI flash
  (`0x100000` up to `0x100000 + 2 MiB`) brings the QSPI driver up on first
  use. It then translates the address to a device offset. When the caller
  asks for an erase (`need_erase`), it erases the 4 KiB sector under that
  offset, unless a one-entry memo says that sector was the last one erased.
  Finally it programs the bytes;
* every other address goes through a single 4096-byte page cache in front of
  the internal flash (NVMC). The cache is filled from the page, patched in RAM
  and written back by `flash_nrf5x_flush`, but only when its contents differ
  from the page. The page is erased first when asked.

The QSPI driver (`qspi_flash.c`) wraps each program and erase in the same
protocol:

1. wait for the device to be idle;
2. send Write Enable;
3. issue the operation;
4. poll the busy bit of status register 1 within a budget.

Bring-up initialises the nrfx driver, sets the XIP offset and waits for the
memory. It then reads status registers 1 and 2. When the Quad Enable (QE) bit
of register 2 is clear, it computes register 2 with QE set and issues Write
Status. That instruction is configured as two bytes, the opcode and one data
byte, so only register 1 is sent and QE is never written (see Findings).

The model has three modules:

* `QspiFlash` (`qspi_flash.dfy`) holds a specification function per driver
  operation. The device and the nrfx driver are an *oracle*: the k-th command
  issued on the bus receives answer `ans(k)`. Each function returns the
  status the C function returns, together with the exact sequence of bus
  commands it issues. Lemmas state what those sequences contain: the
  sequencing protocol, the poll bounds, the address range touched, the blocks
  erased, and the quad-enable handshake.
* `QspiDriver` (`qspi_driver.dfy`) is the driver as the C file runs it. It is
  a class with the two pieces of module state it keeps, `g_qspi_initialized`
  and the `xip_offset` field of `g_qspi_config`, plus a ghost trace of the
  commands issued. Each method follows the branches and loops of its C
  function, with the read and write clamp computed as intended (see
  Findings). Its `ensures` ties the returned status and the new trace to the
  matching `QspiFlash` function.
* `FlashNrf5x` (`flash_nrf5x.dfy`) holds the file statics as a class:
  * `_fl_addr`;
  * `_fl_buf`, as an `array`;
  * `_qspi_erased_sector`;
  * the function-static `qspi_initialized`.

  The class also holds the NVMC, as a map from page address to page
  contents plus a ghost list of the NVMC calls, and the QSPI driver. Lemmas
  cover redundant-write elimination, read-back after flush, the
  erase-before-program rule and the erase memo.

Integers of the source are `U32` (`0 <= x < 2^32`). The block-erase address
step wraps modulo 2^32, as the C `uint32_t` does. The read and write clamp can
also wrap in C. The operations use the intended, non-wrapping clamp `Clamp`;
the wrapping one is `ClampAsWritten`, kept beside it for the Findings row.

## Model

| member | source | states |
|---|---|---|
| QspiFlash.MemPollsStopAtReady | src/qspi_flash.c:101-109 | the memory-ready wait makes between 1 and 1000 busy checks; every check before the last reported busy, and it stops early only at a check that reported ready |
| QspiFlash.WaitReadyBounds | src/qspi_flash.c:240-257 | the busy-bit poll issues at least one and at most `timeout` status reads and returns only Success or Timeout; Timeout means the whole budget was spent |
| QspiFlash.WaitReadyOnlyPolls | src/qspi_flash.c:240-257 | waiting for the device issues nothing but status-register-1 reads |
| QspiFlash.WaitReadyPolls | src/qspi_flash.c:240-257 | every poll before the last saw the busy bit set; the result is Success exactly when the last poll saw it clear |
| QspiFlash.WaitReadyFirstReady | src/qspi_flash.c:240-257 | if the first poll to see the device idle is poll k within the budget, the wait succeeds after exactly k+1 polls |
| QspiFlash.SequencedIssues | src/qspi_flash.c:371-389 | a sequenced operation issues only status reads, Write Enable and the operation itself, and it issued the operation whenever it reports Success |
| QspiFlash.SequencedProtocol | src/qspi_flash.c:371-389 | the command sequence is: idle polls; then stop on Timeout, or Write Enable (Error if it fails), or the operation (Error if it fails), or completion polls within the budget ending in Success or Timeout |
| QspiFlash.Clamp | src/qspi_flash.c:362-366 | the clamped length never exceeds the request and never runs past the end of the 2 MiB device, and it is shortened only to end exactly at the device end |
| QspiFlash.ClampAsWritten | src/qspi_flash.c:363-366 | the clamp with the 32-bit `address + length` sum of the source never lengthens the request |
| QspiFlash.ClampAsWrittenAgrees | src/qspi_flash.c:336-338 | when `address + length` does not wrap, the as-written clamp equals the intended one |
| QspiFlash.ClampAsWrittenOverflows | src/qspi_flash.c:363-366 | address 0x100 with length 0xFFFFFF00 wraps the sum to 0, so the as-written clamp keeps the full length and the range runs past the device end |
| QspiFlash.SectorBase | src/qspi_flash.c:400 | the sector-aligned base is 4096-aligned and the address lies inside the sector it starts |
| QspiFlash.ReadSpec | src/qspi_flash.c:324-346 | not initialised, null buffer, zero length or an address past the device is Error with no bus traffic; otherwise one read at the address of exactly `Clamp(address, length)` bytes, the whole request cut at the device end, and Success exactly when that read succeeds |
| QspiFlash.WriteSpec | src/qspi_flash.c:349-360 | not initialised, null data, zero length or an address past the device is Error with no bus traffic |
| QspiFlash.WriteIssues | src/qspi_flash.c:349-390 | a write issues only status reads, Write Enable and programs at the given address of exactly the first `Clamp(address, length)` bytes of the data, the whole payload cut at the device end; it never erases, and Success means the program was issued |
| QspiFlash.EraseSectorSpec | src/qspi_flash.c:393-405 | not initialised, or a sector base past the device, is Error with no bus traffic |
| QspiFlash.EraseSectorIssues | src/qspi_flash.c:393-427 | a sector erase issues only the 4 KiB erase of the aligned sector, status reads and Write Enable; it never programs, and Success means the erase was issued |
| QspiFlash.EraseBlockSpec | src/qspi_flash.c:430-476 | not initialised or an address past the device is Error with no traffic; a zero size succeeds with no traffic |
| QspiFlash.EraseBlockProgress | src/qspi_flash.c:444-475 | the erases issued are exactly the first m consecutive 64 KiB blocks from the start address, m is at most the number of blocks needed to cover the size, and Success means all of them were erased |
| QspiFlash.BlockErasesAt | src/qspi_flash.c:471 | the i-th block erase is at `address + i * 64 KiB` modulo 2^32 |
| QspiFlash.ErasesOfSequenced | src/qspi_flash.c:459-469 | one sequenced erase contributes no erase or exactly its own, and exactly its own when it succeeds |
| QspiFlash.ChipEraseSpec | src/qspi_flash.c:479-484 | a chip erase without initialisation is Error with no bus traffic |
| QspiFlash.ChipEraseIssues | src/qspi_flash.c:479-505 | a chip erase issues only the whole-chip erase, status reads and Write Enable, and Success means the erase was issued |
| QspiFlash.SetQuadEnableBits | src/qspi_flash.c:297 | OR-ing the QE mask sets bit 1 of status register 2 and leaves every other bit as read |
| QspiFlash.StatusBytes | src/qspi_flash.c:304-308 | a Write Status instruction of `n` bytes sends `n - 1` data bytes: register 1 first, and register 2 only when the instruction is three bytes long |
| QspiFlash.QuadModeSpec | src/qspi_flash.c:271-293 | a failed read of either status register is Error after at most two commands; if QE is already set, the handshake is exactly the two reads and Success |
| QspiFlash.QuadModeHandshake | src/qspi_flash.c:271-321 | a status-register write happens only after both reads succeeded with QE clear and Write Enable succeeded; it sends register 1 as read, followed by register 2 with QE set only when the instruction has room for it; the handshake never erases or programs |
| QspiFlash.QuadModeNeverSendsQe | src/qspi_flash.c:83-90 | with the two-byte Write Status of the source, every status write of the handshake carries exactly one byte, register 1 as read, so QE is never sent |
| QspiFlash.QuadModeIntendedSetsQe | src/qspi_flash.c:297-308 | with a three-byte Write Status, a device reporting QE clear receives register 1 as read and register 2 with QE set and every other bit kept |
| QspiFlash.InitSpec | src/qspi_flash.c:113-210 | initialising twice is Success with no traffic; otherwise the first command is the nrfx driver init, and Success holds exactly when that init succeeds |
| QspiFlash.InitIssues | src/qspi_flash.c:113-210 | bring-up never erases or programs |
| QspiFlash.InitQuadFailureIgnored | src/qspi_flash.c:199-209 | once the driver init succeeds, bring-up succeeds even if the quad-enable handshake, which it does run after the memory-ready wait, fails |
| QspiFlash.ErasesAppend | src/qspi_flash.c:444-473 | the erases of a concatenated trace are the erases of each part, in order |
| QspiDriver.Driver.constructor | src/qspi_flash.c:35-36 | power-on state: not initialised, XIP offset 0, nothing issued |
| QspiDriver.Driver.MemWaitReady | src/qspi_flash.c:101-109 | issues exactly the busy checks counted by the memory-ready specification and changes no driver state |
| QspiDriver.Driver.GetStatus | src/qspi_flash.c:229-236 | one status-register-1 read; returns the byte read, or 0 when the read fails |
| QspiDriver.Driver.IsBusy | src/qspi_flash.c:222-226 | one status read; busy exactly when the busy bit of the byte read is set |
| QspiDriver.Driver.WaitReady | src/qspi_flash.c:240-257 | returns the status and issues the polls of the wait specification |
| QspiDriver.Driver.WriteEnable | src/qspi_flash.c:260-268 | one Write Enable command; Success exactly when it is accepted |
| QspiDriver.Driver.Sequenced | src/qspi_flash.c:371-389 | returns the status and issues the commands of the sequencing specification |
| QspiDriver.Driver.ConfigureQuadMode | src/qspi_flash.c:271-321 | returns the status and issues the commands of the quad-enable handshake specification with the source's two-byte Write Status: the status write carries register 1 only |
| QspiDriver.Driver.Init | src/qspi_flash.c:113-210 | follows the bring-up specification; the flag is set exactly when it was already set or bring-up succeeds; a first bring-up sets the XIP offset, before the nrfx init and so even when that init fails |
| QspiDriver.Driver.Deinit | src/qspi_flash.c:213-219 | clears the flag; uninitialises the nrfx driver only when initialised |
| QspiDriver.Driver.SetXipOffset | src/qspi_flash.c:508-514 | changes the offset, and tells the peripheral, only when initialised |
| QspiDriver.Driver.Read | src/qspi_flash.c:324-346 | returns the status and issues the commands of the read specification |
| QspiDriver.Driver.Write | src/qspi_flash.c:349-390 | returns the status and issues the commands of the write specification |
| QspiDriver.Driver.EraseSector | src/qspi_flash.c:393-427 | returns the status and issues the commands of the sector-erase specification |
| QspiDriver.Driver.EraseBlock | src/qspi_flash.c:430-476 | returns the status and issues the commands of the block-erase specification |
| QspiDriver.Driver.EraseOneBlock | src/qspi_flash.c:445-472 | one iteration of the block-erase loop: the remaining size strictly decreases, and a failure is returned at once |
| QspiDriver.Driver.ChipErase | src/qspi_flash.c:479-505 | returns the status and issues the commands of the chip-erase specification |
| FlashNrf5x.PageBase | src/flash_nrf5x.c:81 | the page address is 4096-aligned and the destination lies in that page |
| FlashNrf5x.FlushSkips | src/flash_nrf5x.c:46-69 | flushing an empty cache, or a cache equal to its page, calls the NVMC not at all and leaves the flash unchanged |
| FlashNrf5x.FlushWrites | src/flash_nrf5x.c:51-65 | flushing a changed page programs exactly once, as the last call, for the whole page at the cached address; it erases that page first exactly when erasing was requested; it touches no other page |
| FlashNrf5x.FlushTwice | src/flash_nrf5x.c:46-69 | a second flush right after a flush does nothing, so two flushes program at most once |
| FlashNrf5x.FlushCountsPrograms | src/flash_nrf5x.c:46-69 | appended to any log of NVMC calls, a flush adds exactly one page program when the cache differs from its page, and none otherwise |
| FlashNrf5x.FlushKeepsOtherPages | src/flash_nrf5x.c:58-65 | a flush changes no page other than the cached one |
| FlashNrf5x.FlushErasedReadsBack | src/flash_nrf5x.c:58-65 | after an erasing flush the page reads back as the cache |
| FlashNrf5x.FlushUnerasedReadsBack | src/flash_nrf5x.c:64-65 | after a flush without erase, the page reads back as the cache exactly when the cache only clears bits of the page |
| FlashNrf5x.SpliceBytes | src/flash_nrf5x.c:146 | patching the cache at an offset puts the data at that offset and keeps every other byte |
| FlashNrf5x.WriteThenFlushReadsBack | src/flash_nrf5x.c:140-146 | data written into a freshly loaded page and flushed with erase reads back from the flash together with the rest of the page |
| FlashNrf5x.PageNeverSentinel | src/flash_nrf5x.c:36-38 | no page address equals the empty-cache sentinel 0xFFFFFFFF |
| FlashNrf5x.QspiEraseWrite | src/flash_nrf5x.c:103-136 | past bring-up, the QSPI branch always leaves the local flag set |
| FlashNrf5x.EraseWriteTargets | src/flash_nrf5x.c:103-136 | the erase-and-write step erases only the 4 KiB sector under the destination and programs only the whole clamped payload `src[..Clamp(offset, len)]` at the destination offset |
| FlashNrf5x.EraseWriteSkips | src/flash_nrf5x.c:103-128 | without an erase request, or when the memo already holds the sector, no erase is issued and the memo is unchanged |
| FlashNrf5x.EraseWriteErases | src/flash_nrf5x.c:104-123 | when the sector is not the memo, the sector erase is issued first; the memo becomes the sector exactly when the erase succeeds; after a failed erase nothing is programmed and the memo is kept |
| FlashNrf5x.EraseWriteMemo | src/flash_nrf5x.c:104-128 | the memo changes only to the sector under the destination, and only after an erase of that sector was issued |
| FlashNrf5x.QspiInitFailureWritesNothing | src/flash_nrf5x.c:87-101 | a failed bring-up leaves the flag clear and the memo unchanged, and neither erases nor programs |
| FlashNrf5x.QspiWriteTargets | src/flash_nrf5x.c:85-137 | the QSPI branch erases only the sector under the destination and programs only the whole clamped payload at the translated offset `dst - 0x100000`; the flag is set once bring-up is done |
| FlashNrf5x.QspiWriteMemo | src/flash_nrf5x.c:103-128 | over the whole QSPI branch, the memo changes only to the destination's sector, and only after that sector's erase was issued |
| FlashNrf5x.ResetForcesErase | src/flash_nrf5x.c:73-76 | the reset value of the memo is never a sector base, so the next erase request after a reset always erases |
| FlashNrf5x.StaleFlagDropsWrite | src/flash_nrf5x.c:85-137 | with the local flag set but the driver deinitialised, the QSPI branch issues no command and keeps the memo: the payload is lost |
| FlashNrf5x.EraseWriteReachesBus | src/flash_nrf5x.c:103-136 | on a driver that is up, the erase or the write of a non-empty payload always issues at least one command |
| FlashNrf5x.RecheckedReachesBus | src/flash_nrf5x.c:85-137 | in the corrected branch, a deinitialised driver is brought up again (its first command is the driver init), and after a successful bring-up a non-empty payload reaches the bus |
| FlashNrf5x.RecheckedAgrees | src/flash_nrf5x.c:85-137 | whenever the local flag implies the driver is up, the branch as written and the corrected branch give the same commands, flag and memo |
| FlashNrf5x.Nvmc.ErasePage | src/flash_nrf5x.c:61 | the page becomes erased, and one page erase is recorded |
| FlashNrf5x.Nvmc.WritePage | src/flash_nrf5x.c:65 | the page becomes the bitwise AND of its old contents and the data, and one whole-page word write is recorded |
| FlashNrf5x.FlashWriter.constructor | src/flash_nrf5x.c:38-43 | the statics at reset: empty cache, memo at the reset value, QSPI not brought up |
| FlashNrf5x.FlashWriter.Flush | src/flash_nrf5x.c:46-69 | the NVMC calls and the new flash are those of the flush specification; the cache is empty afterwards; the memo and the flag are unchanged |
| FlashNrf5x.FlashWriter.ResetQspiEraseCache | src/flash_nrf5x.c:73-76 | the memo returns to its reset value and nothing else changes |
| FlashNrf5x.FlashWriter.Write | src/flash_nrf5x.c:79-147 | inside the window: the QSPI commands, flag and memo are those of the QSPI-branch specification; the driver's flag and XIP offset change only by a bring-up; the cache and the NVMC are untouched. Elsewhere: the QSPI side is untouched and the cache holds the destination page. A write to the cached page patches the cache only; a write to another page first flushes the old page per the flush specification, then loads the new page and patches it |
| FlashNrf5x.FlashWriter.WriteQspi | src/flash_nrf5x.c:85-137 | the QSPI commands, flag and memo are those of the QSPI-branch specification; bring-up runs only while the local flag is clear, so only then can the driver's flag and XIP offset change; the page cache is untouched |
| FlashNrf5x.FlashWriter.WriteQspiFirst | src/flash_nrf5x.c:87-101 | the first QSPI write brings the driver up; on failure it returns with flag and memo unchanged, otherwise it goes on as the QSPI-branch specification says; the driver's flag ends set exactly when it was set or the local flag now is, and a first bring-up sets the XIP offset |
| FlashNrf5x.FlashWriter.EraseThenWrite | src/flash_nrf5x.c:103-136 | the erase-if-needed then program step issues the commands and sets the memo as its specification says, and leaves the driver's flag and XIP offset as they were |

## Left out

- The nrfx QSPI driver, the W25Q16 device and the NVMC registers are not modelled. Their answers are an oracle, indexed by the position of each command on the bus. The model records the commands issued, not the bus timing.
- The contents returned by a QSPI read are not modelled; only the status and the command issued are.
- Pin, clock and mode configuration (`qspi_flash_init`, lines 120-183), `DPMDUR`, the spin delay between polls and `qspi_flash_get_config` are left out. They only copy constants into the nrfx configuration or wait.
- Logging (`PRINTF`) is left out.
- The wall-clock meaning of the poll budgets is left out; each budget is counted in polls.
- `QspiDriver.Driver.WaitReady` requires `timeout > 0`. With a zero budget the source's loop never counts down and never times out: it polls without bound until the device reports idle, which a finite command trace cannot describe. Every caller passes a positive constant.
- `FlashNrf5x.FlashWriter.Write` requires a non-null `src` and `0 <= len`. It also requires, for non-QSPI addresses, that the patch stays inside the page (`(dst & 4095) + len <= 4096`). The source checks none of these. No caller is part of this model; the model assumes that every caller keeps each patch inside one page.
- `FlashNrf5x.FlashWriter.Write` treats every address outside the XIP window as an internal page, including addresses above the window. This is the source's behaviour: its only range test is the window test.
- `FlashNrf5x.QspiWriteTargets` takes as a hypothesis that bring-up neither erases nor programs. `QspiFlash.InitIssues` discharges that hypothesis for the real bring-up.
- `FlashNrf5x.QspiEraseWrite`: its own contract only says the flag ends set. Its commands and memo are described by `EraseWriteTargets`, `EraseWriteSkips`, `EraseWriteErases` and `EraseWriteMemo`.
- `FlashNrf5x.FlashWriter.WriteQspiFirst` and `FlashNrf5x.FlashWriter.EraseThenWrite` are the two halves of the QSPI branch. They are split out only to keep each proof small, and the source has them inline.
- `QspiFlash.ReadSpec` and `QspiFlash.WriteSpec` use the corrected `Clamp`, not the 32-bit sum of the source; the wrap-around is recorded under Findings and modelled by `ClampAsWritten`.
- `QspiDriver.Driver.Read` and `QspiDriver.Driver.Write` compute the same corrected `Clamp` with an unbounded sum, so they do not reproduce the 32-bit wrap-around either.
- `uf2cfg.h` is not part of this model. `CFG_UF2_QSPI_XIP_OFFSET` and `CFG_UF2_QSPI_FLASH_SIZE` are taken from the board's `QSPI_XIP_OFFSET` and `QSPI_FLASH_SIZE`.
- The write path follows the code where a general description of the driver would differ:
  - `qspi_flash_write` returns Error for a zero-length write; it is not a successful no-op.
  - `flash_nrf5x_write` discards the status of the QSPI write, and returns nothing for a failed bring-up or erase.
  - The erase memo erases only the sector under `dst`, even when `dst + len` crosses into the next sector.

- `QspiDriver.Driver.ConfigureQuadMode` follows the code as written: its Write Status is two bytes long (`StatusWriteLength`), so register 2 with QE set is computed but not sent. The three-byte handshake (`QuadModeIntendedSetsQe`) is a specification only.
- `FlashNrf5x.FlashWriter.Write` follows the code as written after `qspi_flash_deinit`: with the local flag set, it skips bring-up and the write is lost (`StaleFlagDropsWrite`). The corrected branch `QspiWritePathRechecked` is a specification only. `RecheckedAgrees` shows it agrees with the class in every state reached without a deinit.

## Findings

| source | as written | input that shows it | evidently intended | confidence | as-written member | corrected member |
|---|---|---|---|---|---|---|
| src/qspi_flash.c:363-366 | the bound check `address + length > QSPI_FLASH_SIZE` is computed in 32 bits, so a huge length wraps the sum and escapes the clamp (same pattern at lines 336-338 for reads) | address 0x100, length 0xFFFFFF00: the sum wraps to 0, so the length is kept and the range runs 4 GiB past the 2 MiB device | clamp the length to `QSPI_FLASH_SIZE - address` whenever `length > QSPI_FLASH_SIZE - address` | not executed; follows from 32-bit arithmetic | QspiFlash.ClampAsWrittenOverflows | QspiFlash.Clamp |
| src/flash_nrf5x.c:87-101 | the function-static `qspi_initialized` is set once and never cleared, but `qspi_flash_deinit` (src/qspi_flash.c:213-219) clears the driver's own flag | `qspi_flash_deinit()` after a first window write, then a write to 0x100000 with `need_erase`: bring-up is skipped, the erase and the write are rejected before the bus, and no error is reported | call `qspi_flash_init()` before every window write; it returns success at once when the driver is up | plausible, not executed; needs a caller of `qspi_flash_deinit`, which no file of this model contains | FlashNrf5x.StaleFlagDropsWrite | FlashNrf5x.RecheckedReachesBus |
| src/qspi_flash.c:304-308 | `cmd_write_status` (lines 83-90) is a two-byte instruction, the opcode and one data byte, so of `tx_data` only `status1` is sent and `tx_data[1] = status2 \| 0x02` never reaches the device | any W25Q16 whose status register 2 reads with QE (bit 1) clear: the handshake writes register 1 only and can return Success while QE stays clear | a three-byte Write Status (`NRF_QSPI_CINSTR_LEN_3B`) sending register 1 and then register 2 with QE set | plausible, not executed; rests on the instruction length sending exactly `length - 1` data bytes | QspiFlash.QuadModeNeverSendsQe | QspiFlash.QuadModeIntendedSetsQe |
