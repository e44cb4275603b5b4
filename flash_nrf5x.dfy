/**
 * The flash-write path of the bootloader (flash_nrf5x.c).
 *
 * flash_nrf5x_write routes each write by its destination address. An address
 * inside the XIP window of the external QSPI flash goes, translated to a
 * device offset, to the QSPI driver, with a one-entry memo of the sector it
 * erased last. Every other address goes to a single 4096-byte page buffer in
 * front of the internal flash (the NVMC): the buffer is filled from the page,
 * patched in RAM, and written back by flash_nrf5x_flush when the write moves
 * to another page.
 *
 * The internal flash is a map from page address to its 4096 bytes; a page
 * that was never written reads as erased (all 0xFF). Programming NOR flash can
 * only clear bits, so a page program stores the bitwise AND of the page and
 * the data.
 */
module FlashNrf5x {
  import opened QspiFlash
  import QspiDriver

  const PageSize := 4096                   // FLASH_PAGE_SIZE
  const CacheInvalid: U32 := 0xFFFF_FFFF   // FLASH_CACHE_INVALID_ADDR
  const NoSector: U32 := 0xFFFF_FFFF       // _qspi_erased_sector at reset
  const WindowBase: U32 := XipOffset       // CFG_UF2_QSPI_XIP_OFFSET
  const WindowSize := FlashSize            // CFG_UF2_QSPI_FLASH_SIZE

  /** A call into the nrfx NVMC driver. */
  datatype NvmcOp =
    | PageErase(address: U32)              // nrfx_nvmc_page_erase
    | WordsWrite(address: U32, words: nat) // nrfx_nvmc_words_write

  /** Contents of the internal flash pages that have been written. */
  type Pages = m: map<U32, seq<bv8>> | forall a | a in m :: |m[a]| == PageSize
    witness map[]

  /** An erased page. */
  function Erased(): (s: seq<bv8>)
    ensures |s| == PageSize && forall i | 0 <= i < PageSize :: s[i] == 0xFF
  {
    seq(PageSize, _ => 0xFF)
  }

  /** What the page at `address` reads as. */
  function PageOf(pages: Pages, address: U32): (s: seq<bv8>)
    ensures |s| == PageSize
  {
    if address in pages then pages[address] else Erased()
  }

  /** Programming `data` over `cur`: each bit can only go from 1 to 0. */
  function Program(cur: seq<bv8>, data: seq<bv8>): (s: seq<bv8>)
    requires |data| == |cur|
    ensures |s| == |cur|
  {
    seq(|cur|, i requires 0 <= i < |cur| => cur[i] & data[i])
  }

  /** `newAddr = dst & ~(FLASH_PAGE_SIZE - 1)`: the page holding `dst`. */
  function PageBase(dst: U32): (p: U32)
    ensures p % PageSize == 0 && p <= dst < p + PageSize
  {
    dst / PageSize * PageSize
  }

  /** The range check at the top of flash_nrf5x_write. Addresses above the
      window are not rejected: they take the internal-flash path. */
  predicate InQspiWindow(dst: U32) {
    WindowBase <= dst < WindowBase + WindowSize
  }

  // ---------------------------------------------------------------------------
  // flash_nrf5x_flush

  /** The NVMC calls flash_nrf5x_flush makes for a cache on page `addr`
      holding `buf`. */
  function FlushOps(addr: U32, buf: seq<bv8>, pages: Pages, needErase: bool): seq<NvmcOp>
  {
    if addr == CacheInvalid || buf == PageOf(pages, addr) then []
    else (if needErase then [PageErase(addr)] else []) + [WordsWrite(addr, PageSize / 4)]
  }

  /** The internal flash after flash_nrf5x_flush. */
  function FlushPages(addr: U32, buf: seq<bv8>, pages: Pages, needErase: bool): Pages
    requires |buf| == PageSize
  {
    if addr == CacheInvalid || buf == PageOf(pages, addr) then pages
    else pages[addr := Program(if needErase then Erased() else PageOf(pages, addr), buf)]
  }

  /** Number of page programs in `ops`. */
  function Programs(ops: seq<NvmcOp>): nat {
    if ops == [] then 0 else (if ops[0].WordsWrite? then 1 else 0) + Programs(ops[1..])
  }

  lemma {:induction false} ProgramsAppend(a: seq<NvmcOp>, b: seq<NvmcOp>)
    ensures Programs(a + b) == Programs(a) + Programs(b)
    decreases |a|
  {
    if a == [] {
      assert a + b == b;
    } else {
      assert (a + b)[0] == a[0];
      assert (a + b)[1..] == a[1..] + b;
      ProgramsAppend(a[1..], b);
    }
  }

  /** An empty cache, or a buffer equal to its page, makes flush issue
      nothing and leave the flash as it was. */
  lemma FlushSkips(addr: U32, buf: seq<bv8>, pages: Pages, needErase: bool)
    requires |buf| == PageSize
    requires addr == CacheInvalid || buf == PageOf(pages, addr)
    ensures FlushOps(addr, buf, pages, needErase) == []
    ensures FlushPages(addr, buf, pages, needErase) == pages
  {
  }

  /** A buffer that differs from its page is written with exactly one
      whole-page program (4096 / 4 words) at the cached address, preceded by
      one page erase exactly when `needErase`. */
  lemma FlushWrites(addr: U32, buf: seq<bv8>, pages: Pages, needErase: bool)
    requires addr != CacheInvalid && buf != PageOf(pages, addr)
    ensures var ops := FlushOps(addr, buf, pages, needErase);
      && Programs(ops) == 1
      && ops[|ops| - 1] == WordsWrite(addr, 1024)
      && (PageErase(addr) in ops <==> needErase)
      && (forall op | op in ops :: op.address == addr)
      && (needErase ==> ops == [PageErase(addr), WordsWrite(addr, 1024)])
  {
    var ops := FlushOps(addr, buf, pages, needErase);
    if needErase {
      assert ops == [PageErase(addr), WordsWrite(addr, 1024)];
      assert Programs(ops) == Programs([WordsWrite(addr, 1024)]);
    } else {
      assert ops == [WordsWrite(addr, 1024)];
    }
  }

  /** Two flushes in a row with no write between them: the second issues
      nothing, so together they program at most once. */
  lemma FlushTwice(addr: U32, buf: seq<bv8>, pages: Pages, e1: bool, e2: bool)
    requires |buf| == PageSize
    ensures var after := FlushPages(addr, buf, pages, e1);
      && FlushOps(CacheInvalid, buf, after, e2) == []
      && FlushPages(CacheInvalid, buf, after, e2) == after
      && Programs(FlushOps(addr, buf, pages, e1) + FlushOps(CacheInvalid, buf, after, e2)) <= 1
  {
    var ops := FlushOps(addr, buf, pages, e1);
    var after := FlushPages(addr, buf, pages, e1);
    ProgramsAppend(ops, FlushOps(CacheInvalid, buf, after, e2));
    if addr != CacheInvalid && buf != PageOf(pages, addr) {
      FlushWrites(addr, buf, pages, e1);
    }
  }

  /** Appended to any log of NVMC calls, a flush adds exactly one page
      program when the cache holds a page that differs from the flash, and
      none otherwise. */
  lemma FlushCountsPrograms(log: seq<NvmcOp>, addr: U32, buf: seq<bv8>, pages: Pages, needErase: bool)
    requires |buf| == PageSize
    ensures Programs(log + FlushOps(addr, buf, pages, needErase))
      == Programs(log) + if addr == CacheInvalid || buf == PageOf(pages, addr) then 0 else 1
  {
    var ops := FlushOps(addr, buf, pages, needErase);
    ProgramsAppend(log, ops);
    if addr == CacheInvalid || buf == PageOf(pages, addr) {
      FlushSkips(addr, buf, pages, needErase);
    } else {
      FlushWrites(addr, buf, pages, needErase);
    }
  }

  /** Flush changes no page but the cached one. */
  lemma FlushKeepsOtherPages(addr: U32, buf: seq<bv8>, pages: Pages, needErase: bool, other: U32)
    requires |buf| == PageSize && other != addr
    ensures PageOf(FlushPages(addr, buf, pages, needErase), other) == PageOf(pages, other)
  {
  }

  /** With an erase first, the flushed page reads back as the buffer. */
  lemma FlushErasedReadsBack(addr: U32, buf: seq<bv8>, pages: Pages)
    requires |buf| == PageSize && addr != CacheInvalid
    ensures PageOf(FlushPages(addr, buf, pages, true), addr) == buf
  {
    if buf != PageOf(pages, addr) {
      var written := Program(Erased(), buf);
      forall i | 0 <= i < PageSize
        ensures written[i] == buf[i]
      {
        assert Erased()[i] == 0xFF;
      }
      assert written == buf;
    }
  }

  /** Without an erase, the flushed page reads back as the buffer exactly
      when the buffer only clears bits that are set in the page. */
  lemma FlushUnerasedReadsBack(addr: U32, buf: seq<bv8>, pages: Pages)
    requires |buf| == PageSize && addr != CacheInvalid
    ensures PageOf(FlushPages(addr, buf, pages, false), addr) == buf
      <==> forall i | 0 <= i < PageSize :: PageOf(pages, addr)[i] & buf[i] == buf[i]
  {
    var page := PageOf(pages, addr);
    if buf == page {
      forall i | 0 <= i < PageSize
        ensures page[i] & buf[i] == buf[i]
      {
        assert page[i] == buf[i];
      }
    } else {
      var written := Program(page, buf);
      assert PageOf(FlushPages(addr, buf, pages, false), addr) == written;
      if forall i | 0 <= i < PageSize :: page[i] & buf[i] == buf[i] {
        assert written == buf;
      } else {
        var i :| 0 <= i < PageSize && page[i] & buf[i] != buf[i];
        assert written[i] != buf[i];
      }
    }
  }

  // ---------------------------------------------------------------------------
  // The page cache

  /** The page buffer after `memcpy(_fl_buf + off, src, len)`. */
  function Splice(page: seq<bv8>, off: nat, data: seq<bv8>): seq<bv8>
    requires off + |data| <= |page|
  {
    page[..off] + data + page[off + |data|..]
  }

  /** The patch replaces bytes [off, off + |data|) by `data` and keeps every
      other byte and the length. */
  lemma SpliceBytes(page: seq<bv8>, off: nat, data: seq<bv8>)
    requires off + |data| <= |page|
    ensures var s := Splice(page, off, data);
      && |s| == |page|
      && (forall i | off <= i < off + |data| :: s[i] == data[i - off])
      && (forall i | 0 <= i < |page| && !(off <= i < off + |data|) :: s[i] == page[i])
  {
  }

  /** Any sequence that agrees with the patch byte by byte is the patch. */
  lemma SpliceUnique(page: seq<bv8>, off: nat, data: seq<bv8>, s: seq<bv8>)
    requires off + |data| <= |page| && |s| == |page|
    requires forall i | off <= i < off + |data| :: s[i] == data[i - off]
    requires forall i | 0 <= i < |page| && !(off <= i < off + |data|) :: s[i] == page[i]
    ensures s == Splice(page, off, data)
  {
    SpliceBytes(page, off, data);
  }

  /** A page written through the cache and flushed with an erase reads back
      as the old page with the written bytes patched in. */
  lemma WriteThenFlushReadsBack(dst: U32, data: seq<bv8>, pages: Pages)
    requires dst % PageSize + |data| <= PageSize
    ensures var base := PageBase(dst);
      var buf := Splice(PageOf(pages, base), dst % PageSize, data);
      PageOf(FlushPages(base, buf, pages, true), base) == buf
  {
    var base := PageBase(dst);
    var buf := Splice(PageOf(pages, base), dst % PageSize, data);
    SpliceBytes(PageOf(pages, base), dst % PageSize, data);
    assert base % PageSize == 0;
    FlushErasedReadsBack(base, buf, pages);
  }

  /** No page address is the empty-cache sentinel, so a loaded cache is
      never mistaken for an empty one. */
  lemma PageNeverSentinel(dst: U32)
    ensures PageBase(dst) != CacheInvalid
  {
  }

  // ---------------------------------------------------------------------------
  // The QSPI path

  /** What the QSPI branch of flash_nrf5x_write did: the commands on the QSPI
      bus, the function-static initialised flag and the erase memo after it. */
  datatype QspiRoute = QspiRoute(cmds: seq<Cmd>, initialized: bool, memo: U32)

  /** The erase-and-program part of the QSPI branch, for a driver whose
      initialised flag is `driverInit`: the memoised sector erase, then the
      write, whose status is discarded. */
  function QspiEraseWrite(ans: Oracle, pos: nat, driverInit: bool, memo: U32, offset: U32,
                          src: seq<bv8>, len: U32, needErase: bool): (q: QspiRoute)
    requires len <= |src|
    ensures q.initialized
  {
    var sector := SectorBase(offset);
    if needErase && sector != memo then
      var erase := EraseSectorSpec(ans, pos, driverInit, sector);
      if erase.status != Success then QspiRoute(erase.cmds, true, memo)
      else
        var write := WriteSpec(ans, pos + |erase.cmds|, driverInit, offset, Bytes(src), len);
        QspiRoute(erase.cmds + write.cmds, true, sector)
    else QspiRoute(WriteSpec(ans, pos, driverInit, offset, Bytes(src), len).cmds, true, memo)
  }

  /** The QSPI branch as evidently intended: ask the driver to come up before
      every write. qspi_flash_init answers success at once when the driver is
      up, so no flag of its own is needed; `init` is that answer. */
  function QspiWritePathRechecked(ans: Oracle, pos: nat, init: Outcome, memo: U32,
                                  dst: U32, src: seq<bv8>, len: U32, needErase: bool): QspiRoute
    requires InQspiWindow(dst) && len <= |src|
  {
    if init.status != Success then QspiRoute(init.cmds, false, memo)
    else
      var rest := QspiEraseWrite(ans, pos + |init.cmds|, true, memo, dst - WindowBase, src, len, needErase);
      QspiRoute(init.cmds + rest.cmds, true, rest.memo)
  }

  /** The QSPI branch of flash_nrf5x_write: bring the driver up once (the
      function-static flag `ready`), give up if that fails, then the
      erase-and-program part at offset `dst - XIP`. `init` is what bring-up
      answers when it runs; the driver's Init gives InitSpec. Once `ready` is
      set, bring-up is never asked again, whatever the driver's own flag
      `driverInit` says (StaleFlagDropsWrite). */
  function QspiWritePath(ans: Oracle, pos: nat, ready: bool, driverInit: bool, init: Outcome,
                         memo: U32, dst: U32, src: seq<bv8>, len: U32, needErase: bool): QspiRoute
    requires InQspiWindow(dst) && len <= |src|
  {
    if ready then QspiEraseWrite(ans, pos, driverInit, memo, dst - WindowBase, src, len, needErase)
    else QspiWritePathRechecked(ans, pos, init, memo, dst, src, len, needErase)
  }

  /** The commands of the erase-and-program part: erases only of the sector
      holding `offset`, programs only of the first `len` bytes of `src`,
      clamped to the device, at `offset`. */
  predicate EraseWriteCmds(cmds: seq<Cmd>, offset: U32, src: seq<bv8>, len: U32) {
    forall c | c in cmds :: Targets(c, offset, src, len)
  }

  /** One command erases at most the sector holding `offset`, and a program
      carries exactly the payload that fits in the device, at `offset`. */
  predicate Targets(c: Cmd, offset: U32, src: seq<bv8>, len: U32) {
    && (c.Erase? ==> c == Erase(Len4KB, SectorBase(offset)))
    && (c.ProgramData? ==>
          c.address == offset && offset < FlashSize && len <= |src| && c.bytes == src[..Clamp(offset, len)])
  }

  lemma EraseWriteCmdsAppend(a: seq<Cmd>, b: seq<Cmd>, offset: U32, src: seq<bv8>, len: U32)
    requires EraseWriteCmds(a, offset, src, len) && EraseWriteCmds(b, offset, src, len)
    ensures EraseWriteCmds(a + b, offset, src, len)
  {
    forall c | c in a + b
      ensures Targets(c, offset, src, len)
    {
      InConcat(a, b, c);
    }
  }

  /** The erase-and-program part when no erase is due: only the write. */
  lemma EraseWriteNoEraseCase(ans: Oracle, pos: nat, driverInit: bool, memo: U32, offset: U32,
                              src: seq<bv8>, len: U32, needErase: bool, write: Outcome)
    requires len <= |src| && !(needErase && SectorBase(offset) != memo)
    requires write == WriteSpec(ans, pos, driverInit, offset, Bytes(src), len)
    ensures QspiEraseWrite(ans, pos, driverInit, memo, offset, src, len, needErase)
      == QspiRoute(write.cmds, true, memo)
  {
  }

  /** The erase-and-program part when the due erase fails: nothing more. */
  lemma EraseWriteFailedCase(ans: Oracle, pos: nat, driverInit: bool, memo: U32, offset: U32,
                             src: seq<bv8>, len: U32, erase: Outcome)
    requires len <= |src| && SectorBase(offset) != memo
    requires erase == EraseSectorSpec(ans, pos, driverInit, SectorBase(offset)) && erase.status != Success
    ensures QspiEraseWrite(ans, pos, driverInit, memo, offset, src, len, true)
      == QspiRoute(erase.cmds, true, memo)
  {
  }

  /** The erase-and-program part when the due erase succeeds: the erase, then
      the write, and the memo moves to the erased sector. */
  lemma EraseWriteErasedCase(ans: Oracle, pos: nat, driverInit: bool, memo: U32, offset: U32,
                             src: seq<bv8>, len: U32, erase: Outcome, write: Outcome)
    requires len <= |src| && SectorBase(offset) != memo
    requires erase == EraseSectorSpec(ans, pos, driverInit, SectorBase(offset)) && erase.status == Success
    requires write == WriteSpec(ans, pos + |erase.cmds|, driverInit, offset, Bytes(src), len)
    ensures QspiEraseWrite(ans, pos, driverInit, memo, offset, src, len, true)
      == QspiRoute(erase.cmds + write.cmds, true, SectorBase(offset))
  {
  }

  /** The erase-and-program part only erases the sector holding `offset`
      and only programs the clamped payload `src[..Clamp(offset, len)]` at `offset`. */
  lemma EraseWriteTargets(ans: Oracle, pos: nat, driverInit: bool, memo: U32, offset: U32,
                          src: seq<bv8>, len: U32, needErase: bool)
    requires len <= |src|
    ensures EraseWriteCmds(QspiEraseWrite(ans, pos, driverInit, memo, offset, src, len, needErase).cmds, offset, src, len)
  {
    var sector := SectorBase(offset);
    if needErase && sector != memo {
      var erase := EraseSectorSpec(ans, pos, driverInit, sector);
      EraseTargets(ans, pos, driverInit, offset, src, len);
      if erase.status == Success {
        var write := WriteSpec(ans, pos + |erase.cmds|, driverInit, offset, Bytes(src), len);
        EraseWriteErasedCase(ans, pos, driverInit, memo, offset, src, len, erase, write);
        WriteTargets(ans, pos + |erase.cmds|, driverInit, offset, src, len);
        EraseWriteCmdsAppend(erase.cmds, write.cmds, offset, src, len);
      } else {
        EraseWriteFailedCase(ans, pos, driverInit, memo, offset, src, len, erase);
      }
    } else {
      var write := WriteSpec(ans, pos, driverInit, offset, Bytes(src), len);
      EraseWriteNoEraseCase(ans, pos, driverInit, memo, offset, src, len, needErase, write);
      WriteTargets(ans, pos, driverInit, offset, src, len);
    }
  }

  /** The sector erase of the erase-and-program part meets its targets. */
  lemma EraseTargets(ans: Oracle, pos: nat, driverInit: bool, offset: U32, src: seq<bv8>, len: U32)
    ensures EraseWriteCmds(EraseSectorSpec(ans, pos, driverInit, SectorBase(offset)).cmds, offset, src, len)
  {
    EraseSectorIssues(ans, pos, driverInit, SectorBase(offset));
    SectorBaseIdempotent(offset);
  }

  /** The write of the erase-and-program part meets its targets. */
  lemma WriteTargets(ans: Oracle, pos: nat, driverInit: bool, offset: U32, src: seq<bv8>, len: U32)
    requires len <= |src|
    ensures EraseWriteCmds(WriteSpec(ans, pos, driverInit, offset, Bytes(src), len).cmds, offset, src, len)
  {
    WriteIssues(ans, pos, driverInit, offset, Bytes(src), len);
  }

  /** Without `needErase`, or when the sector holding `offset` is the memo,
      nothing is erased and the memo stays. */
  lemma EraseWriteSkips(ans: Oracle, pos: nat, driverInit: bool, memo: U32, offset: U32,
                        src: seq<bv8>, len: U32, needErase: bool)
    requires len <= |src| && (!needErase || SectorBase(offset) == memo)
    ensures var q := QspiEraseWrite(ans, pos, driverInit, memo, offset, src, len, needErase);
      q.memo == memo && NoErase(q.cmds)
  {
    WriteIssues(ans, pos, driverInit, offset, Bytes(src), len);
  }

  /** With `needErase` and a sector other than the memo, the sector erase
      runs first; the memo becomes that sector exactly when the erase
      succeeds, and when it fails nothing is programmed and the memo stays. */
  lemma EraseWriteErases(ans: Oracle, pos: nat, driverInit: bool, memo: U32, offset: U32,
                         src: seq<bv8>, len: U32)
    requires len <= |src| && SectorBase(offset) != memo
    ensures var q := QspiEraseWrite(ans, pos, driverInit, memo, offset, src, len, true);
      var erase := EraseSectorSpec(ans, pos, driverInit, SectorBase(offset));
      && erase.cmds <= q.cmds
      && (q.memo == SectorBase(offset) <==> erase.status == Success)
      && (erase.status != Success ==> q.memo == memo && NoProgram(q.cmds))
      && (erase.status == Success ==> Erase(Len4KB, SectorBase(offset)) in q.cmds)
  {
    var sector := SectorBase(offset);
    var erase := EraseSectorSpec(ans, pos, driverInit, sector);
    EraseSectorIssues(ans, pos, driverInit, sector);
    SectorBaseIdempotent(offset);
    if erase.status == Success {
      var write := WriteSpec(ans, pos + |erase.cmds|, driverInit, offset, Bytes(src), len);
      EraseWriteErasedCase(ans, pos, driverInit, memo, offset, src, len, erase, write);
      InConcatLeft(erase.cmds, write.cmds, Erase(Len4KB, sector));
    } else {
      EraseWriteFailedCase(ans, pos, driverInit, memo, offset, src, len, erase);
    }
  }

  /** The memo only ever moves to the sector holding `offset`, and only after
      the bus accepted a 4 KB erase of it. */
  lemma EraseWriteMemo(ans: Oracle, pos: nat, driverInit: bool, memo: U32, offset: U32,
                       src: seq<bv8>, len: U32, needErase: bool)
    requires len <= |src|
    ensures var q := QspiEraseWrite(ans, pos, driverInit, memo, offset, src, len, needErase);
      q.memo != memo ==> q.memo == SectorBase(offset) && Erase(Len4KB, SectorBase(offset)) in q.cmds
  {
    if needErase && SectorBase(offset) != memo {
      EraseWriteErases(ans, pos, driverInit, memo, offset, src, len);
    } else {
      EraseWriteSkips(ans, pos, driverInit, memo, offset, src, len, needErase);
    }
  }

  /** Aligning an aligned sector address changes nothing. */
  lemma SectorBaseIdempotent(offset: U32)
    ensures SectorBase(SectorBase(offset)) == SectorBase(offset)
  {
  }

  lemma InConcatLeft(a: seq<Cmd>, b: seq<Cmd>, c: Cmd)
    requires c in a
    ensures c in a + b
  {
  }

  /** Commands issued before the erase-and-program part keep its memo rule. */
  lemma MemoAfterInit(q: QspiRoute, head: seq<Cmd>, rest: QspiRoute, memo: U32, sector: U32)
    requires q == QspiRoute(head + rest.cmds, true, rest.memo)
    requires rest.memo != memo ==> rest.memo == sector && Erase(Len4KB, sector) in rest.cmds
    ensures q.memo != memo ==> q.memo == sector && Erase(Len4KB, sector) in q.cmds
  {
  }

  /** When bring-up fails the QSPI branch issues no erase and no program and
      leaves the flag clear and the memo as it was. */
  lemma QspiInitFailureWritesNothing(ans: Oracle, pos: nat, driverInit: bool, memo: U32,
                                     dst: U32, src: seq<bv8>, len: U32, needErase: bool)
    requires InQspiWindow(dst) && len <= |src|
    requires InitSpec(ans, pos, driverInit).status != Success
    ensures var q := QspiWritePath(ans, pos, false, driverInit, InitSpec(ans, pos, driverInit),
                                   memo, dst, src, len, needErase);
      !q.initialized && q.memo == memo && NoErase(q.cmds) && NoProgram(q.cmds)
  {
    InitIssues(ans, pos, driverInit);
  }

  /** Once brought up, the QSPI branch sets the flag, erases only the sector
      holding `dst - XIP` and programs only the clamped payload at `dst - XIP`:
      the window is translated to a device offset. Bring-up itself neither
      erases nor programs (InitIssues). */
  lemma QspiWriteTargets(ans: Oracle, pos: nat, ready: bool, driverInit: bool, init: Outcome,
                         memo: U32, dst: U32, src: seq<bv8>, len: U32, needErase: bool)
    requires InQspiWindow(dst) && len <= |src|
    requires NoErase(init.cmds) && NoProgram(init.cmds)
    ensures var q := QspiWritePath(ans, pos, ready, driverInit, init, memo, dst, src, len, needErase);
      && (ready || init.status == Success ==> q.initialized)
      && EraseWriteCmds(q.cmds, dst - WindowBase, src, len)
  {
    var offset := dst - WindowBase;
    if ready {
      QspiWritePathReady(ans, pos, driverInit, init, memo, dst, src, len, needErase);
      EraseWriteTargets(ans, pos, driverInit, memo, offset, src, len, needErase);
    } else if init.status == Success {
      var rest := QspiEraseWrite(ans, pos + |init.cmds|, true, memo, offset, src, len, needErase);
      QspiWritePathAfterInit(ans, pos, driverInit, init, memo, dst, src, len, needErase, rest);
      EraseWriteTargets(ans, pos + |init.cmds|, true, memo, offset, src, len, needErase);
      QuietTargets(init.cmds, offset, src, len);
      EraseWriteCmdsAppend(init.cmds, rest.cmds, offset, src, len);
    } else {
      QuietTargets(init.cmds, offset, src, len);
    }
  }

  /** Commands that neither erase nor program meet any target. */
  lemma QuietTargets(cmds: seq<Cmd>, offset: U32, src: seq<bv8>, len: U32)
    requires NoErase(cmds) && NoProgram(cmds)
    ensures EraseWriteCmds(cmds, offset, src, len)
  {
  }

  /** The QSPI branch once brought up is the erase-and-program part. */
  lemma QspiWritePathReady(ans: Oracle, pos: nat, driverInit: bool, init: Outcome, memo: U32,
                           dst: U32, src: seq<bv8>, len: U32, needErase: bool)
    requires InQspiWindow(dst) && len <= |src|
    ensures QspiWritePath(ans, pos, true, driverInit, init, memo, dst, src, len, needErase)
      == QspiEraseWrite(ans, pos, driverInit, memo, dst - WindowBase, src, len, needErase)
  {
  }

  /** The QSPI branch after a successful bring-up, in terms of its two parts. */
  lemma QspiWritePathAfterInit(ans: Oracle, pos: nat, driverInit: bool, init: Outcome, memo: U32,
                               dst: U32, src: seq<bv8>, len: U32, needErase: bool, rest: QspiRoute)
    requires InQspiWindow(dst) && len <= |src| && init.status == Success
    requires rest == QspiEraseWrite(ans, pos + |init.cmds|, true, memo, dst - WindowBase, src, len, needErase)
    ensures QspiWritePath(ans, pos, false, driverInit, init, memo, dst, src, len, needErase)
      == QspiRoute(init.cmds + rest.cmds, true, rest.memo)
  {
  }

  /** Over the whole QSPI branch, the memo only moves to the sector holding
      `dst - XIP`, after the bus accepted a 4 KB erase of it. */
  lemma QspiWriteMemo(ans: Oracle, pos: nat, ready: bool, driverInit: bool, init: Outcome,
                      memo: U32, dst: U32, src: seq<bv8>, len: U32, needErase: bool)
    requires InQspiWindow(dst) && len <= |src|
    ensures var q := QspiWritePath(ans, pos, ready, driverInit, init, memo, dst, src, len, needErase);
      var sector := SectorBase(dst - WindowBase);
      q.memo != memo ==> q.memo == sector && Erase(Len4KB, sector) in q.cmds
  {
    if ready {
      QspiWriteMemoReady(ans, pos, driverInit, init, memo, dst, src, len, needErase);
    } else if init.status == Success {
      QspiWriteMemoAfterInit(ans, pos, driverInit, init, memo, dst, src, len, needErase);
    }
  }

  lemma QspiWriteMemoReady(ans: Oracle, pos: nat, driverInit: bool, init: Outcome,
                           memo: U32, dst: U32, src: seq<bv8>, len: U32, needErase: bool)
    requires InQspiWindow(dst) && len <= |src|
    ensures var q := QspiWritePath(ans, pos, true, driverInit, init, memo, dst, src, len, needErase);
      var sector := SectorBase(dst - WindowBase);
      q.memo != memo ==> q.memo == sector && Erase(Len4KB, sector) in q.cmds
  {
    QspiWritePathReady(ans, pos, driverInit, init, memo, dst, src, len, needErase);
    EraseWriteMemo(ans, pos, driverInit, memo, dst - WindowBase, src, len, needErase);
  }

  lemma QspiWriteMemoAfterInit(ans: Oracle, pos: nat, driverInit: bool, init: Outcome,
                               memo: U32, dst: U32, src: seq<bv8>, len: U32, needErase: bool)
    requires InQspiWindow(dst) && len <= |src| && init.status == Success
    ensures var q := QspiWritePath(ans, pos, false, driverInit, init, memo, dst, src, len, needErase);
      var sector := SectorBase(dst - WindowBase);
      q.memo != memo ==> q.memo == sector && Erase(Len4KB, sector) in q.cmds
  {
    var offset := dst - WindowBase;
    var rest := QspiEraseWrite(ans, pos + |init.cmds|, true, memo, offset, src, len, needErase);
    QspiWritePathAfterInit(ans, pos, driverInit, init, memo, dst, src, len, needErase, rest);
    EraseWriteMemo(ans, pos + |init.cmds|, true, memo, offset, src, len, needErase);
    MemoAfterInit(QspiWritePath(ans, pos, false, driverInit, init, memo, dst, src, len, needErase),
                  init.cmds, rest, memo, SectorBase(offset));
  }


  /** The reset value of the memo is no sector address, so after
      flash_nrf5x_reset_qspi_erase_cache the next write with `needErase`
      erases its sector. */
  lemma ResetForcesErase(offset: U32)
    ensures SectorBase(offset) != NoSector
  {
  }

  // ---------------------------------------------------------------------------
  // The function-static flag outlives qspi_flash_deinit

  /** As written: the function-static flag stays set after the driver is
      deinitialised, so bring-up is skipped, the driver rejects the erase and
      the write before touching the bus, and the payload is lost without a
      trace: no command, memo unchanged. */
  lemma StaleFlagDropsWrite(ans: Oracle, pos: nat, init: Outcome, memo: U32,
                            dst: U32, src: seq<bv8>, len: U32, needErase: bool)
    requires InQspiWindow(dst) && len <= |src|
    ensures var q := QspiWritePath(ans, pos, true, false, init, memo, dst, src, len, needErase);
      q.cmds == [] && q.memo == memo
  {
  }

  /** On a driver that is up, the erase or the write of a non-empty payload
      always reaches the bus. */
  lemma EraseWriteReachesBus(ans: Oracle, pos: nat, memo: U32, offset: U32,
                             src: seq<bv8>, len: U32, needErase: bool)
    requires len <= |src| && 0 < len && offset < FlashSize
    ensures |QspiEraseWrite(ans, pos, true, memo, offset, src, len, needErase).cmds| > 0
  {
    var sector := SectorBase(offset);
    if needErase && sector != memo {
      var erase := EraseSectorSpec(ans, pos, true, sector);
      var k := SequencedProtocol(ans, pos, Erase(Len4KB, sector), SectorEraseBudget);
      assert |erase.cmds| > 0;
      if erase.status == Success {
        var write := WriteSpec(ans, pos + |erase.cmds|, true, offset, Bytes(src), len);
        EraseWriteErasedCase(ans, pos, true, memo, offset, src, len, erase, write);
      } else {
        EraseWriteFailedCase(ans, pos, true, memo, offset, src, len, erase);
      }
    } else {
      var write := WriteSpec(ans, pos, true, offset, Bytes(src), len);
      var k := SequencedProtocol(ans, pos, ProgramData(offset, src[..Clamp(offset, len)]), ProgramBudget);
      assert |write.cmds| > 0;
      EraseWriteNoEraseCase(ans, pos, true, memo, offset, src, len, needErase, write);
    }
  }

  /** The corrected branch never loses a write silently: a deinitialised
      driver is brought up again first, and once bring-up succeeds a
      non-empty payload reaches the bus. */
  lemma RecheckedReachesBus(ans: Oracle, pos: nat, driverInit: bool, memo: U32,
                            dst: U32, src: seq<bv8>, len: U32, needErase: bool)
    requires InQspiWindow(dst) && len <= |src|
    ensures var init := InitSpec(ans, pos, driverInit);
      var q := QspiWritePathRechecked(ans, pos, init, memo, dst, src, len, needErase);
      && (!driverInit ==> |q.cmds| > 0 && q.cmds[0] == DriverInit)
      && (init.status == Success && 0 < len ==> q.initialized && |q.cmds| > |init.cmds|)
  {
    var init := InitSpec(ans, pos, driverInit);
    if init.status == Success && 0 < len {
      EraseWriteReachesBus(ans, pos + |init.cmds|, memo, dst - WindowBase, src, len, needErase);
    }
  }

  /** Wherever the function-static flag implies that the driver is up (every
      state reached without qspi_flash_deinit), the branch as written and the
      corrected branch agree. */
  lemma RecheckedAgrees(ans: Oracle, pos: nat, ready: bool, driverInit: bool, memo: U32,
                        dst: U32, src: seq<bv8>, len: U32, needErase: bool)
    requires InQspiWindow(dst) && len <= |src| && (ready ==> driverInit)
    ensures var init := InitSpec(ans, pos, driverInit);
      QspiWritePath(ans, pos, ready, driverInit, init, memo, dst, src, len, needErase)
        == QspiWritePathRechecked(ans, pos, init, memo, dst, src, len, needErase)
  {
    var init := InitSpec(ans, pos, driverInit);
    if ready {
      var rest := QspiEraseWrite(ans, pos, true, memo, dst - WindowBase, src, len, needErase);
      assert init == Outcome(Success, []);
      assert init.cmds + rest.cmds == rest.cmds;
    }
  }

  // ---------------------------------------------------------------------------
  // The devices and the module state

  /** The internal flash controller, with its contents. */
  class Nvmc {
    var pages: Pages
    /** The NVMC calls made so far, in order. */
    ghost var ops: seq<NvmcOp>

    constructor (contents: Pages)
      ensures pages == contents && ops == []
    {
      pages := contents;
      ops := [];
    }

    /** Reads the page at `address`, as memcmp and memcpy do. */
    function Page(address: U32): (s: seq<bv8>)
      reads this
    {
      PageOf(pages, address)
    }

    /** nrfx_nvmc_page_erase */
    method ErasePage(address: U32)
      modifies this
      ensures pages == old(pages)[address := Erased()]
      ensures ops == old(ops) + [PageErase(address)]
    {
      pages := pages[address := Erased()];
      ops := ops + [PageErase(address)];
    }

    /** nrfx_nvmc_words_write of one whole page. */
    method WritePage(address: U32, data: seq<bv8>)
      requires |data| == PageSize
      modifies this
      ensures pages == old(pages)[address := Program(PageOf(old(pages), address), data)]
      ensures ops == old(ops) + [WordsWrite(address, PageSize / 4)]
    {
      pages := pages[address := Program(PageOf(pages, address), data)];
      ops := ops + [WordsWrite(address, PageSize / 4)];
    }
  }

  /** The statics of flash_nrf5x.c, with the two devices they drive. */
  class FlashWriter {
    /** _fl_addr */
    var flAddr: U32
    /** _fl_buf */
    const buf: array<bv8>
    /** _qspi_erased_sector */
    var erasedSector: U32
    /** The function-static qspi_initialized of flash_nrf5x_write. */
    var qspiReady: bool
    const nvmc: Nvmc
    const qspi: QspiDriver.Driver

    ghost predicate Valid()
      reads this, qspi
    {
      && buf.Length == PageSize
      && qspi.Valid()
      && (flAddr == CacheInvalid || flAddr % PageSize == 0)
    }

    /** The statics at reset: empty cache, no erased sector, QSPI not brought up. */
    constructor (nvmc: Nvmc, qspi: QspiDriver.Driver)
      requires qspi.Valid()
      ensures Valid() && fresh(buf) && this.nvmc == nvmc && this.qspi == qspi
      ensures flAddr == CacheInvalid && erasedSector == NoSector && !qspiReady
    {
      flAddr := CacheInvalid;
      buf := new bv8[PageSize](_ => 0);
      erasedSector := NoSector;
      qspiReady := false;
      this.nvmc := nvmc;
      this.qspi := qspi;
    }

    /** flash_nrf5x_flush */
    method Flush(needErase: bool)
      requires Valid()
      modifies this, nvmc
      ensures Valid() && flAddr == CacheInvalid
      ensures erasedSector == old(erasedSector) && qspiReady == old(qspiReady)
      ensures nvmc.ops == old(nvmc.ops) + FlushOps(old(flAddr), buf[..], old(nvmc.pages), needErase)
      ensures nvmc.pages == FlushPages(old(flAddr), buf[..], old(nvmc.pages), needErase)
    {
      if flAddr == CacheInvalid {
        AppendNoOps(nvmc.ops);
        return;
      }
      if buf[..] != nvmc.Page(flAddr) {
        if needErase {
          nvmc.ErasePage(flAddr);
          nvmc.WritePage(flAddr, buf[..]);
          OpsAssoc(old(nvmc.ops), [PageErase(flAddr)], [WordsWrite(flAddr, PageSize / 4)]);
        } else {
          nvmc.WritePage(flAddr, buf[..]);
        }
      } else {
        AppendNoOps(nvmc.ops);
      }
      flAddr := CacheInvalid;
    }

    /** flash_nrf5x_reset_qspi_erase_cache */
    method ResetQspiEraseCache()
      requires Valid()
      modifies this
      ensures Valid() && erasedSector == NoSector
      ensures flAddr == old(flAddr) && qspiReady == old(qspiReady)
    {
      erasedSector := NoSector;
    }

    /** flash_nrf5x_write. The status of the QSPI write is discarded, as in
        the source. `len` is the C `int`; the memcpy into the page buffer
        must stay inside it, which the source does not check. */
    method Write(dst: U32, src: seq<bv8>, len: int, needErase: bool)
      requires Valid() && 0 <= len <= |src| && len < 0x8000_0000
      requires !InQspiWindow(dst) ==> dst % PageSize + len <= PageSize
      modifies this, buf, nvmc, qspi
      ensures Valid()
      ensures InQspiWindow(dst) ==>
        (var q := QspiWritePath(qspi.answers, old(qspi.issued), old(qspiReady), old(qspi.initialized),
                                InitSpec(qspi.answers, old(qspi.issued), old(qspi.initialized)),
                                old(erasedSector), dst, src, len, needErase);
         && qspi.trace == old(qspi.trace) + q.cmds
         && qspiReady == q.initialized && erasedSector == q.memo
         && qspi.initialized == (if old(qspiReady) then old(qspi.initialized) else old(qspi.initialized) || qspiReady)
         && qspi.xipOffset == (if old(qspiReady) || old(qspi.initialized) then old(qspi.xipOffset) else XipOffset)
         && flAddr == old(flAddr) && buf[..] == old(buf[..])
         && nvmc.pages == old(nvmc.pages) && nvmc.ops == old(nvmc.ops))
      ensures !InQspiWindow(dst) ==>
        && qspi.trace == old(qspi.trace) && qspi.initialized == old(qspi.initialized)
        && qspi.xipOffset == old(qspi.xipOffset)
        && qspiReady == old(qspiReady) && erasedSector == old(erasedSector)
        && flAddr == PageBase(dst)
      ensures !InQspiWindow(dst) && PageBase(dst) == old(flAddr) ==>
        && buf[..] == Splice(old(buf[..]), dst % PageSize, src[..len])
        && nvmc.pages == old(nvmc.pages) && nvmc.ops == old(nvmc.ops)
      ensures !InQspiWindow(dst) && PageBase(dst) != old(flAddr) ==>
        && nvmc.ops == old(nvmc.ops) + FlushOps(old(flAddr), old(buf[..]), old(nvmc.pages), needErase)
        && nvmc.pages == FlushPages(old(flAddr), old(buf[..]), old(nvmc.pages), needErase)
        && buf[..] == Splice(PageOf(old(nvmc.pages), PageBase(dst)), dst % PageSize, src[..len])
    {
      if InQspiWindow(dst) {
        WriteQspi(dst, src, len, needErase);
        return;
      }
      var newAddr := PageBase(dst);
      if newAddr != flAddr {
        ghost var oldAddr := flAddr;
        ghost var oldPages := nvmc.pages;
        Flush(needErase);
        flAddr := newAddr;
        var page := nvmc.Page(newAddr);
        FlushKeepsOtherPages(oldAddr, buf[..], oldPages, needErase, newAddr);
        forall i | 0 <= i < PageSize {
          buf[i] := page[i];
        }
        assert buf[..] == PageOf(oldPages, newAddr);
      }
      ghost var before := buf[..];
      var off := dst % PageSize;
      forall i | off <= i < off + len {
        buf[i] := src[i - off];
      }
      SpliceUnique(before, off, src[..len], buf[..]);
    }

    /** The QSPI branch of flash_nrf5x_write. */
    method WriteQspi(dst: U32, src: seq<bv8>, len: U32, needErase: bool)
      requires Valid() && InQspiWindow(dst) && len <= |src|
      modifies this, qspi
      ensures Valid() && flAddr == old(flAddr)
      ensures qspi.initialized == if old(qspiReady) then old(qspi.initialized) else old(qspi.initialized) || qspiReady
      ensures qspi.xipOffset == if old(qspiReady) || old(qspi.initialized) then old(qspi.xipOffset) else XipOffset
      ensures var q := QspiWritePath(qspi.answers, old(qspi.issued), old(qspiReady), old(qspi.initialized),
                                     InitSpec(qspi.answers, old(qspi.issued), old(qspi.initialized)),
                                     old(erasedSector), dst, src, len, needErase);
        && qspi.trace == old(qspi.trace) + q.cmds
        && qspiReady == q.initialized && erasedSector == q.memo
    {
      if !qspiReady {
        WriteQspiFirst(dst, src, len, needErase);
      } else {
        QspiWritePathReady(qspi.answers, qspi.issued, qspi.initialized,
                           InitSpec(qspi.answers, qspi.issued, qspi.initialized), erasedSector,
                           dst, src, len, needErase);
        EraseThenWrite(dst - WindowBase, src, len, needErase);
      }
    }

    /** The QSPI branch while its function-static flag is still clear: bring
        the driver up, give up if that fails, else set the flag and go on. */
    method WriteQspiFirst(dst: U32, src: seq<bv8>, len: U32, needErase: bool)
      requires Valid() && !qspiReady && InQspiWindow(dst) && len <= |src|
      modifies this, qspi
      ensures Valid() && flAddr == old(flAddr)
      ensures qspi.initialized == (old(qspi.initialized) || qspiReady)
      ensures qspi.xipOffset == if old(qspi.initialized) then old(qspi.xipOffset) else XipOffset
      ensures var q := QspiWritePath(qspi.answers, old(qspi.issued), false, old(qspi.initialized),
                                     InitSpec(qspi.answers, old(qspi.issued), old(qspi.initialized)),
                                     old(erasedSector), dst, src, len, needErase);
        && qspi.trace == old(qspi.trace) + q.cmds
        && qspiReady == q.initialized && erasedSector == q.memo
    {
      ghost var init := InitSpec(qspi.answers, qspi.issued, qspi.initialized);
      var status := qspi.Init();
      if status != Success {
        return;
      }
      qspiReady := true;
      assert qspi.initialized;
      ghost var rest := QspiEraseWrite(qspi.answers, qspi.issued, qspi.initialized, erasedSector,
                                       dst - WindowBase, src, len, needErase);
      QspiWritePathAfterInit(qspi.answers, old(qspi.issued), old(qspi.initialized), init, old(erasedSector),
                             dst, src, len, needErase, rest);
      ghost var mid := qspi.trace;
      EraseThenWrite(dst - WindowBase, src, len, needErase);
      assert erasedSector == rest.memo && qspi.trace == mid + rest.cmds;
      AppendAssoc(old(qspi.trace), init.cmds, rest.cmds);
    }

    /** The part of flash_nrf5x_write after bring-up: the memoised sector
        erase and the write. */
    method EraseThenWrite(offset: U32, src: seq<bv8>, len: U32, needErase: bool)
      requires Valid() && len <= |src|
      modifies this, qspi
      ensures Valid() && flAddr == old(flAddr) && qspiReady == old(qspiReady)
      ensures qspi.initialized == old(qspi.initialized) && qspi.xipOffset == old(qspi.xipOffset)
      ensures var q := QspiEraseWrite(qspi.answers, old(qspi.issued), old(qspi.initialized),
                                      old(erasedSector), offset, src, len, needErase);
        qspi.trace == old(qspi.trace) + q.cmds && erasedSector == q.memo
    {
      if needErase {
        var sector := SectorBase(offset);
        if sector != erasedSector {
          ghost var erase := EraseSectorSpec(qspi.answers, qspi.issued, qspi.initialized, sector);
          var status := qspi.EraseSector(sector);
          if status != Success {
            EraseWriteFailedCase(qspi.answers, old(qspi.issued), old(qspi.initialized), erasedSector,
                                 offset, src, len, erase);
            return;
          }
          erasedSector := sector;
          ghost var write := WriteSpec(qspi.answers, qspi.issued, qspi.initialized, offset, Bytes(src), len);
          EraseWriteErasedCase(qspi.answers, old(qspi.issued), old(qspi.initialized), old(erasedSector),
                               offset, src, len, erase, write);
          var _ := qspi.Write(offset, Bytes(src), len);
          AppendAssoc(old(qspi.trace), erase.cmds, write.cmds);
          return;
        }
      }
      ghost var write := WriteSpec(qspi.answers, qspi.issued, qspi.initialized, offset, Bytes(src), len);
      EraseWriteNoEraseCase(qspi.answers, qspi.issued, qspi.initialized, erasedSector,
                            offset, src, len, needErase, write);
      var _ := qspi.Write(offset, Bytes(src), len);
    }
  }

  lemma OpsAssoc(a: seq<NvmcOp>, b: seq<NvmcOp>, c: seq<NvmcOp>)
    ensures (a + b) + c == a + (b + c)
  {
  }

  lemma AppendNoOps(a: seq<NvmcOp>)
    ensures a + [] == a
  {
  }
}
