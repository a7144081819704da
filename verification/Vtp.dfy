/** Buffers and pins: preparing and releasing user buffers over the page table. */
module Vtps {
  import opened Addresses
  import opened Words
  import opened TableView
  import opened TableMemory
  import opened TableSpec
  import opened TablePins
  import opened Driver
  import opened PageTables
  import opened BufferTables
  import opened ReleaseWalks
  import opened BufferRuns
  import opened PinSpec

  class Vtp {
    const pt: PageTable
    const buffers: BufferTable
    var maxPhysicalPageSize: PageSize

    constructor (pt: PageTable, buffers: BufferTable)
      ensures this.pt == pt && this.buffers == buffers
      ensures maxPhysicalPageSize == if pt.isHwVtpAvailable then Page2MB else Page1GB
    {
      this.pt, this.buffers := pt, buffers;
      maxPhysicalPageSize := if pt.isHwVtpAvailable then Page2MB else Page1GB;
    }

    /** Ask the driver to pin user memory. */
    method PinUserMemory(va: int, size: PageSize, readOnly: bool) returns (ok: bool, wsid: int, at: int)
      requires pt.Valid()
      modifies pt.fpga`pinned, pt.fpga`faults, pt.fpga.asked`pins
      ensures pt.Valid()
      ensures AskedToPin(old(pt.fpga.asked.pins), pt.fpga.asked.pins, va, size, readOnly)
      ensures Latest(pt.fpga.asked.pins).answer == if ok then Granted(wsid, at) else Refused
      ensures pt.fpga.faults == if ok && at == va then old(pt.fpga.faults) else old(pt.fpga.faults) + 1
      ensures ok ==> wsid !in old(pt.LoosePins()) && pt.LoosePins() == old(pt.LoosePins()) + {wsid}
      ensures !ok ==> pt.LoosePins() == old(pt.LoosePins())
    {
      hide Represents, PinsOk;
      pt.StoredIsPinned();
      ok, wsid, at := pt.fpga.PrepareBuffer(va, SizeToBytes(size), readOnly);
      if ok {
        AddLoosePin(pt, old(pt.fpga.pinned), wsid);
      }
    }

    lemma AddLoosePin(pt: PageTable, before: map<int, Pin>, wsid: int)
      requires pt.holder.Keys <= UserPins(before) && wsid !in before && pt.fpga.pinned == before[wsid := UserPin]
      requires PinsOk(pt.view, pt.holder, before, pt.fpga.tables, pt.hwPtWalkerPresent)
      ensures PinsOk(pt.view, pt.holder, pt.fpga.pinned, pt.fpga.tables, pt.hwPtWalkerPresent)
      ensures UserPins(pt.fpga.pinned) == UserPins(before) + {wsid} && wsid !in pt.holder && wsid !in UserPins(before)
    {
      ChangeLoosePin(pt.view, pt.holder, before, pt.fpga.tables, pt.hwPtWalkerPresent, wsid);
    }

    /** Give a pin that no page stores back to the driver. */
    method UnpinUserMemory(wsid: int)
      requires pt.Valid() && wsid in pt.LoosePins()
      modifies pt.fpga`pinned, pt.fpga`tables
      ensures pt.Valid()
      ensures pt.LoosePins() == old(pt.LoosePins()) - {wsid}
    {
      hide Represents, PinsOk;
      ChangeLoosePin(pt.view, pt.holder, pt.fpga.pinned, pt.fpga.tables, pt.hwPtWalkerPresent, wsid);
      pt.fpga.ReleaseBuffer(wsid);
    }

    /** Insert a pinned page, or give the pin back. */
    method InsertOrUnpin(va: VAddr, pa: int, wsid: int, size: PageSize, flags: set<Flag>) returns (r: FpgaResult)
      requires pt.Valid() && wsid in pt.LoosePins() && 0 <= pa < 0x1_0000_0000_0000_0000 && Invalid !in flags
      modifies pt, pt.fpga
      ensures pt.Valid()
      ensures r == OK ==>
                && AlignedFor(size, va, pa)
                && Inserted(old(pt.view), pt.view, OK, va, LevelOf(size), NewPage(pa, wsid, flags), flags)
      ensures r != OK ==> pt.view.pages == old(pt.view).pages
      ensures pt.LoosePins() == if r == OK && CoverAt(old(pt.view), va, LevelOf(size)).Some?
                                then old(pt.LoosePins()) else old(pt.LoosePins()) - {wsid}
      ensures old(pt.fpga.shootdowns) <= pt.fpga.shootdowns
      ensures old(pt.fpga.faults) <= pt.fpga.faults
      ensures r != OK ==>
                pt.fpga.faults > old(pt.fpga.faults) || !AlignedFor(size, va, pa) || Divided(old(pt.view), va, size)
    {
      hide Inserted, CoverAt, PlaceOf, UserPins, LevelOf, AlignedFor, NewPage, Represents, PinsOk, Divided;
      ghost var v := pt.view;
      r := pt.InsertPageMapping(va, pa, wsid, size, flags);
      if r != OK {
        if AlignedFor(size, va, pa) {
          WhyRefused(v, pt.view, r, va, size, NewPage(pa, wsid, flags), flags);
          InsertFailed(v, pt.view, r, va, LevelOf(size), NewPage(pa, wsid, flags), flags);
        }
        UnpinUserMemory(wsid);
      }
    }

    /** Pin the page of `size` at `va`, shoot down old translations of it and learn its
        device address; every failure after pinning unpins. */
    method PinForInsertion(va: VAddr, size: PageSize, readOnly: bool)
      returns (r: FpgaResult, pa: int, pinnedOk: bool, wsid: int)
      requires pt.Valid()
      modifies pt, pt.fpga, pt.fpga.asked
      ensures pt.Valid() && pt.view == old(pt.view) && pt.fpga.faults >= old(pt.fpga.faults)
      ensures AskedToPin(old(pt.fpga.asked.pins), pt.fpga.asked.pins, va, size, readOnly)
      ensures pinnedOk == Latest(pt.fpga.asked.pins).answer.Granted?
      ensures pt.fpga.asked.sizes == old(pt.fpga.asked.sizes)
      ensures |old(pt.fpga.asked.addresses)| <= |pt.fpga.asked.addresses|
      ensures r == OK ==>
                && pinnedOk && 0 <= pa < 0x1_0000_0000_0000_0000
                && wsid !in old(pt.LoosePins()) && pt.LoosePins() == old(pt.LoosePins()) + {wsid}
                && (pt.fpga.faults > old(pt.fpga.faults) || Misfit(size, va) || pa % AlignmentOf(size) == 0)
                && pt.fpga.shootdowns == (if pt.isHwVtpAvailable then old(pt.fpga.shootdowns) + [va]
                                          else old(pt.fpga.shootdowns))
                && PinnedThere(pt.fpga.asked, old(pt.fpga.asked.addresses), wsid, va, size, pa)
      ensures r != OK ==> pt.fpga.faults > old(pt.fpga.faults) && pt.LoosePins() == old(pt.LoosePins())
      ensures !pinnedOk ==> pt.fpga.faults > old(pt.fpga.faults)
    {
      hide PageTable.Valid, PageTable.LoosePins, PageTable.MarkedAt, AlignmentOf, AskedToPin, ReportedAs;
      pa := 0;
      var at;
      pinnedOk, wsid, at := PinUserMemory(va, size, readOnly);
      if !pinnedOk {
        return NoMemory, pa, pinnedOk, wsid;
      }
      if at != va {
        UnpinUserMemory(wsid);
        return NoMemory, pa, pinnedOk, wsid;
      }
      r := pt.InvalHWVAMapping(va);
      if r != OK {
        UnpinUserMemory(wsid);
        return;
      }
      var ok;
      ok, pa := DevicePa(wsid, va, size);
      if !ok {
        UnpinUserMemory(wsid);
        r := NoMemory;
        return;
      }
    }

    /** The device address to map for a page of `size` at `va`: the part of the physical
        page that lies there. */
    method DevicePa(wsid: int, va: VAddr, size: PageSize) returns (ok: bool, pa: int)
      requires pt.Valid()
      modifies pt.fpga`faults, pt.fpga.asked`addresses
      ensures pt.Valid() && pt.LoosePins() == old(pt.LoosePins())
      ensures 0 <= pa < 0x1_0000_0000_0000_0000
      ensures |pt.fpga.asked.addresses| == |old(pt.fpga.asked.addresses)| + if ok then 1 else 0
      ensures ok ==> ReportedAs(Latest(pt.fpga.asked.addresses), wsid, va, size, pa)
      ensures pt.fpga.faults >= old(pt.fpga.faults)
      ensures !ok ==> pt.fpga.faults > old(pt.fpga.faults)
      ensures pt.fpga.faults > old(pt.fpga.faults) || Misfit(size, va) || pa % AlignmentOf(size) == 0
    {
      hide Represents, PinsOk, AlignmentOf;
      var base, actualSize;
      ok, base, actualSize := pt.fpga.GetDMAAddress(wsid, va, size);
      pa := base;
      if SizeToBytes(actualSize) > SizeToBytes(size) {
        pa := RecoverPa(base, va, size, actualSize);
        RecoveredPage(base, va, size, actualSize);
        RecoveredAligned(base, va, size, actualSize);
      }
    }

    /** Pin the page of `size` at `va` and insert it in the table.  Every failure
        after pinning unpins.  `pinnedOk` is the driver's verdict on the pin itself. */
    method PinAndInsertPage(va: VAddr, size: PageSize, flags: set<Flag>)
      returns (r: FpgaResult, pa: int, pinnedOk: bool, ghost wsid: int)
      requires pt.Valid() && Invalid !in flags
      modifies pt, pt.fpga, pt.fpga.asked
      ensures pt.Valid()
      ensures AskedToPin(old(pt.fpga.asked.pins), pt.fpga.asked.pins, va, size, ReadOnly in flags)
      ensures pinnedOk == Latest(pt.fpga.asked.pins).answer.Granted?
      ensures pt.fpga.asked.sizes == old(pt.fpga.asked.sizes)
      ensures |old(pt.fpga.asked.addresses)| <= |pt.fpga.asked.addresses|
      ensures r == OK ==>
                && pinnedOk && AlignedFor(size, va, pa)
                && Inserted(old(pt.view), pt.view, OK, va, LevelOf(size), NewPage(pa, wsid, flags), flags)
                && PinnedThere(pt.fpga.asked, old(pt.fpga.asked.addresses), wsid, va, size, pa)
      ensures r != OK ==> pt.view.pages == old(pt.view).pages
      ensures r == OK ==> wsid !in old(pt.LoosePins())
      ensures pt.LoosePins() == if r == OK && CoverAt(old(pt.view), va, LevelOf(size)).Some?
                                then old(pt.LoosePins()) + {wsid} else old(pt.LoosePins())
      ensures r == OK && pt.isHwVtpAvailable ==> Sent(old(pt.fpga.shootdowns), pt.fpga.shootdowns, va)
      ensures old(pt.fpga.faults) <= pt.fpga.faults
      ensures r != OK ==>
                pt.fpga.faults > old(pt.fpga.faults) || Misfit(size, va) || Divided(old(pt.view), va, size)
      ensures !pinnedOk ==> pt.fpga.faults > old(pt.fpga.faults)
    {
      hide Divided, Sent, Inserted, CoverAt, PlaceOf, LevelOf, AlignedFor, AlignmentOf, NewPage, PageTable.Valid,
           PageTable.LoosePins, AskedToPin, PinnedThere;
      ghost var log := pt.fpga.shootdowns;
      var handle;
      r, pa, pinnedOk, handle := PinForInsertion(va, size, ReadOnly in flags);
      wsid := handle;
      if r == OK {
        AlignedBoth(size, va, pa);
        r := InsertOrUnpin(va, pa, handle, size, flags);
        if pt.isHwVtpAvailable {
          SentFirst(log, pt.fpga.shootdowns, va);
        }
      }
    }

    /** Count the page already mapped at `page` once more. */
    method CountExisting(page: VAddr, existingPa: int, size: PageSize, flags: set<Flag>, ghost s: Place)
      returns (r: FpgaResult)
      requires pt.Valid() && Invalid !in flags
      requires s in pt.view.pages && page == Lo(s) && existingPa == pt.view.pages[s].pa && size == DepthToSize(s.level)
      modifies pt, pt.fpga
      ensures pt.Valid() && r == OK
      ensures pt.view.pages == old(pt.view).pages[s := Bump(old(pt.view).pages[s], flags)]
      ensures pt.LoosePins() == old(pt.LoosePins())
      ensures old(pt.fpga.faults) <= pt.fpga.faults
    {
      hide Represents, PinsOk, Inserted, CoverAt, PlaceOf, UserPins, Lo, Span, Bump, PageNum;
      ghost var v := pt.view;
      pt.Tree();
      CoversItself(v, s);
      r := pt.InsertPageMapping(page, existingPa, -1, size, flags);
      InsertedExisting(v, pt.view, r, s, NewPage(existingPa, -1, flags), flags);
    }

    /** Pin a new page of `size` at the unmapped address `page`. */
    method PinNewPage(page: VAddr, size: PageSize, flags: set<Flag>) returns (r: FpgaResult, ghost s: Place)
      requires pt.Valid() && Invalid !in flags && PageAt(pt.view, page) == None
      requires (size == Page4KB && page % 0x1000 == 0) || (size == Page2MB && page % 0x20_0000 == 0)
      modifies pt, pt.fpga, pt.fpga.asked
      ensures pt.Valid()
      ensures r != OK ==> pt.view.pages == old(pt.view).pages
      ensures r == OK ==>
                && s !in old(pt.view).pages && s in pt.view.pages && Lo(s) == page
                && Hi(s) == page + SizeToBytes(size)
                && pt.view.pages == old(pt.view).pages[s := pt.view.pages[s]] && IsNew(pt.view.pages[s], flags)
                && PinnedThere(pt.fpga.asked, old(pt.fpga.asked.addresses), pt.view.pages[s].wsid, page, size,
                               pt.view.pages[s].pa)
      ensures AskedToPin(old(pt.fpga.asked.pins), pt.fpga.asked.pins, page, size, ReadOnly in flags)
      ensures pt.fpga.asked.sizes == old(pt.fpga.asked.sizes)
      ensures |old(pt.fpga.asked.addresses)| <= |pt.fpga.asked.addresses|
      ensures pt.LoosePins() == old(pt.LoosePins())
      ensures old(pt.fpga.faults) <= pt.fpga.faults
      ensures r != OK ==> pt.fpga.faults > old(pt.fpga.faults) || (size == Page2MB && Divided(old(pt.view), page, size))
    {
      hide Represents, PinsOk, Inserted, CoverAt, PlaceOf, UserPins, Lo, Hi, PageAt, PageNum, AskedToPin, PinnedThere;
      ghost var v := pt.view;
      pt.Tree();
      Uncovered(v, page, LevelOf(size));
      var pa, pinnedOk;
      ghost var wsid;
      r, pa, pinnedOk, wsid := PinAndInsertPage(page, size, flags);
      s := PlaceOf(page, LevelOf(size));
      SmallUndivided(v, page);
      if r == OK {
        InsertedFresh(v, pt.view, page, LevelOf(size), NewPage(pa, wsid, flags), flags);
      }
    }

    /** Pin the page that holds `page`: count it if it is pinned already, else try a
        2MB page where one fits, else a 4KB page. */
    method PinPageAt(page: VAddr, flags: set<Flag>) returns (r: FpgaResult, pageStart: int, bytes: int, ghost s: Place)
      requires pt.Valid() && Invalid !in flags && page % 0x1000 == 0
      requires Prealloc in flags || PageAt(pt.view, page) == None
      modifies pt, pt.fpga, pt.fpga.asked
      ensures pt.Valid()
      ensures r != OK ==> pt.view.pages == old(pt.view).pages
      ensures r == OK ==>
                && pageStart == Lo(s) && Hi(s) == pageStart + bytes && Hi(s) % 0x1000 == 0
                && s in pt.view.pages
                && match PageAt(old(pt.view), page)
                   case Some(t) =>
                     s == t && pt.view.pages == old(pt.view).pages[s := Bump(old(pt.view).pages[s], flags)]
                   case None =>
                     && s !in old(pt.view).pages && pageStart == page && IsNew(pt.view.pages[s], flags)
                     && pt.view.pages == old(pt.view).pages[s := pt.view.pages[s]]
                     && PinnedThere(pt.fpga.asked, old(pt.fpga.asked.addresses), pt.view.pages[s].wsid, page,
                                    if bytes == 0x20_0000 then Page2MB else Page4KB, pt.view.pages[s].pa)
      ensures var large := page % 0x20_0000 == 0 && maxPhysicalPageSize in {Page2MB, Page1GB};
              match PageAt(old(pt.view), page)
              case Some(_) => pt.fpga.asked.pins == old(pt.fpga.asked.pins)
              case None =>
                && Tried(old(pt.fpga.asked.pins), pt.fpga.asked.pins, page, large, ReadOnly in flags,
                         r == OK && bytes == 0x20_0000)
                && (r == OK && large ==> bytes == 0x20_0000 || pt.fpga.faults > old(pt.fpga.faults) ||
                                         Divided(old(pt.view), page, Page2MB))
      ensures AllAsked(old(pt.fpga.asked.pins), pt.fpga.asked.pins, ReadOnly in flags)
      ensures pt.fpga.asked.sizes == old(pt.fpga.asked.sizes)
      ensures |old(pt.fpga.asked.addresses)| <= |pt.fpga.asked.addresses|
      ensures pt.LoosePins() == old(pt.LoosePins())
      ensures old(pt.fpga.faults) <= pt.fpga.faults
      ensures r != OK ==> pt.fpga.faults > old(pt.fpga.faults)
    {
      hide PageTable.Valid, PageTable.LoosePins, PlaceOf, Lo, Hi, PageAt, PageNum, Bump, IsNew, DepthToSize,
           StopLevel, OnPath, SizeToBytes, AskedToPin, PinnedThere, Divided, Tried, AllAsked;
      ghost var pins, readOnly := pt.fpga.asked.pins, ReadOnly in flags;
      NoneAsked(pins, readOnly);
      NextOnGrid(page);
      if Prealloc in flags {
        var startVa, pa, size, pageFlags;
        r, startVa, pa, size, pageFlags := pt.TranslateVAtoPA(page, false);
        if r == OK {
          s := PageAt(pt.view, page).value;
          PageBounds(pt.view, page, s);
          bytes := SizeToBytes(size);
          pageStart := page - page % bytes;
          r := CountExisting(pageStart, pa, size, flags, s);
          return;
        }
      }
      pageStart := page;
      ghost var mid, addresses := pins, pt.fpga.asked.addresses;
      if page % 0x20_0000 == 0 && (maxPhysicalPageSize == Page2MB || maxPhysicalPageSize == Page1GB) {
        bytes := SizeToBytes(Page2MB);
        r, s := PinNewPage(page, Page2MB, flags);
        TriedLarge(pins, pt.fpga.asked.pins, page, readOnly);
        if r == OK {
          return;
        }
        mid := pt.fpga.asked.pins;
      }
      bytes := SizeToBytes(Page4KB);
      SamePagesSameLookup(old(pt.view), pt.view, page);
      ghost var midAddresses := pt.fpga.asked.addresses;
      r, s := PinNewPage(page, Page4KB, flags);
      TriedSmall(pins, mid, pt.fpga.asked.pins, page, readOnly);
      if r == OK {
        ThereSince(pt.fpga.asked, addresses, midAddresses, pt.view.pages[s].wsid, page, Page4KB, pt.view.pages[s].pa);
      }
    }

    /** Pin [bufAddr, bufAddr + len), page by page.  When it fails, the pages up to
        `reached` stay pinned. */
    method PinRegion(len: int, bufAddr: VAddr, flags: set<Flag>) returns (r: FpgaResult, ghost reached: int)
      requires pt.Valid() && Invalid !in flags
      requires 0 < len && bufAddr % 0x1000 == 0 && bufAddr + len <= VA_LIMIT
      requires Prealloc in flags || forall s :: s in pt.view.pages ==> !Touches(s, bufAddr, bufAddr + len)
      modifies pt, pt.fpga, pt.fpga.asked
      ensures pt.Valid()
      ensures r == OK ==> Pinned(old(pt.view).pages, pt.view.pages, bufAddr, bufAddr + len, flags)
      ensures r != OK ==> bufAddr <= reached < bufAddr + len &&
                          if reached == bufAddr then pt.view.pages == old(pt.view).pages
                          else Pinned(old(pt.view).pages, pt.view.pages, bufAddr, reached, flags)
      ensures AllAsked(old(pt.fpga.asked.pins), pt.fpga.asked.pins, ReadOnly in flags)
      ensures pt.fpga.asked.sizes == old(pt.fpga.asked.sizes)
      ensures pt.LoosePins() == old(pt.LoosePins())
      ensures old(pt.fpga.faults) <= pt.fpga.faults
      ensures r != OK ==> pt.fpga.faults > old(pt.fpga.faults)
    {
      hide Represents, PinsOk, PlaceOf, UserPins, Lo, Hi, PageAt, FindPage, PageNum, Pinned, Touches, TreeOk, PagesOk, Bump,
           PinnedUpTo, PageTable.Valid, AllAsked, Tried, PinnedThere, Divided;
      ghost var pages0, end, last := pt.view.pages, bufAddr + len, Root;
      NoneAsked(pt.fpga.asked.pins, ReadOnly in flags);
      var page, remaining := bufAddr, len;
      reached := bufAddr;
      StartPinning(pages0, bufAddr, end, flags, last);
      while remaining != 0
        invariant pt.Valid() && pt.LoosePins() == old(pt.LoosePins()) && old(pt.fpga.faults) <= pt.fpga.faults
        invariant 0 <= remaining && (remaining > 0 ==> page + remaining == end) && (remaining == 0 ==> end <= page)
        invariant bufAddr <= page && page % 0x1000 == 0
        invariant PinnedUpTo(pages0, pt.view.pages, bufAddr, page, end, flags, last)
        invariant AllAsked(old(pt.fpga.asked.pins), pt.fpga.asked.pins, ReadOnly in flags)
        invariant pt.fpga.asked.sizes == old(pt.fpga.asked.sizes)
        decreases if page < end then end - page else 0
      {
        reached := page;
        ghost var pages := pt.view.pages;
        pt.Tree();
        TreePagesOk(pt.view);
        PageAtIsFind(pt.view, page);
        if Prealloc !in flags {
          NothingAhead(pages0, pages, bufAddr, page, end, flags, last);
        }
        var pageStart, bytes;
        ghost var s;
        ghost var pins := pt.fpga.asked.pins;
        r, pageStart, bytes, s := PinPageAt(page, flags);
        AllAskedThen(old(pt.fpga.asked.pins), pins, pt.fpga.asked.pins, ReadOnly in flags);
        if r != OK {
          StoppedAt(pages0, pages, bufAddr, page, end, flags, last);
          return;
        }
        pt.Tree();
        TreePagesOk(pt.view);
        PinStep(pages0, pages, pt.view.pages, bufAddr, page, end, flags, last, s);
        last := s;
        remaining := remaining + (page - pageStart);
        page := pageStart + bytes;
        remaining := if bytes < remaining then remaining - bytes else 0;
      }
      pt.Tree();
      TreePagesOk(pt.view);
      PinFinished(pages0, pt.view.pages, bufAddr, page, end, flags, last);
      r := OK;
    }

    // -------------------------------------------------------------------
    //  Buffers
    // -------------------------------------------------------------------

    /** Every tracked buffer is a range of user addresses. */
    ghost predicate TrackedOk()
      reads buffers
    {
      forall e :: e in buffers.Contents() ==> 0 <= e.page <= e.vaddr && 0 < e.size && e.vaddr + e.size <= VA_LIMIT
    }

    ghost predicate Valid()
      reads this, pt, pt.fpga, buffers, buffers.buckets, buffers.descs
    {
      pt.Valid() && buffers.Valid() && TrackedOk()
    }

    /** Pin an existing buffer of any alignment, from the start of the page that the
        operating system says holds its first byte. */
    method PreallocBuffer(len: int, bufAddr: VAddr, readOnly: bool)
      returns (r: FpgaResult, bufPageAddr: int, ghost osSize: PageSize)
      requires pt.Valid() && 0 <= len && bufAddr + len <= VA_LIMIT
      modifies pt, pt.fpga, pt.fpga.asked
      ensures pt.Valid() && pt.LoosePins() == old(pt.LoosePins())
      ensures bufAddr == 0 || len == 0 ==> r == InvalidParam && pt.view == old(pt.view)
      ensures 0 <= bufPageAddr <= bufAddr
      ensures r == OK ==> pt.fpga.asked.sizes == old(pt.fpga.asked.sizes) + [SizeAnswer(bufAddr, osSize)]
      ensures AllAsked(old(pt.fpga.asked.pins), pt.fpga.asked.pins, readOnly)
      ensures r == OK ==> osSize != PageNone && bufPageAddr == bufAddr - bufAddr % SizeToBytes(osSize)
      ensures r == OK ==> Pinned(old(pt.view).pages, pt.view.pages, bufPageAddr, bufAddr + len, PreallocFlags(readOnly))
      ensures old(pt.fpga.faults) <= pt.fpga.faults
      ensures r != OK ==> pt.fpga.faults > old(pt.fpga.faults) || bufAddr == 0 || len == 0
    {
      hide Pinned, PageTable.Valid, PageTable.LoosePins, Touches, AllAsked;
      NoneAsked(pt.fpga.asked.pins, readOnly);
      bufPageAddr, osSize := bufAddr, PageNone;
      if bufAddr == 0 || len == 0 {
        return InvalidParam, bufPageAddr, osSize;
      }
      var ok, size := OsGetPageSize(bufAddr);
      if !ok {
        return NoMemory, bufPageAddr, osSize;
      }
      osSize := size;
      var bytes := SizeToBytes(size);
      bufPageAddr := bufAddr - bufAddr % bytes;
      OsPageStart(bufAddr, size);
      ghost var reached;
      r, reached := PinRegion(len + (bufAddr - bufPageAddr), bufPageAddr, PreallocFlags(readOnly));
    }

    /** Allocate and pin a buffer, rounded up to the page size that suits its length.
        `mapped` is the answer of the operating system to the request for memory. */
    method AllocBuffer(len: int, readOnly: bool, mapped: Option<int>)
      returns (r: FpgaResult, bufAddr: int, rounded: int)
      requires pt.Valid() && 0 < len
      requires NewlyMapped(pt.view.pages, mapped, RoundedLength(len, maxPhysicalPageSize))
      modifies pt, pt.fpga, pt.fpga.asked
      ensures pt.Valid() && pt.LoosePins() == old(pt.LoosePins())
      ensures len <= rounded && rounded == RoundedLength(len, maxPhysicalPageSize)
      ensures r == OK ==>
                && 0 < bufAddr && bufAddr + rounded <= VA_LIMIT
                && (forall s :: s in old(pt.view).pages ==> !Touches(s, bufAddr, bufAddr + rounded))
                && Pinned(old(pt.view).pages, pt.view.pages, bufAddr, bufAddr + rounded, AllocFlags(readOnly))
                && var first := FindPage(pt.view.pages, bufAddr);
                   first.Some? && Lo(first.value) == bufAddr
      ensures AllAsked(old(pt.fpga.asked.pins), pt.fpga.asked.pins, readOnly)
      ensures old(pt.fpga.faults) <= pt.fpga.faults
      ensures r != OK ==> pt.fpga.faults > old(pt.fpga.faults) || mapped.None?
    {
      hide Pinned, PageTable.Valid, PageTable.LoosePins, Touches, FindPage, Lo, PagesOk, TreeOk, AllAsked;
      NoneAsked(pt.fpga.asked.pins, readOnly);
      rounded := RoundedLength(len, maxPhysicalPageSize);
      if mapped.None? {
        return NoMemory, 0, rounded;
      }
      bufAddr := mapped.value;
      ghost var reached;
      r, reached := PinRegion(rounded, bufAddr, AllocFlags(readOnly));
      if r == OK {
        pt.Tree();
        TreePagesOk(pt.view);
        FirstStartsThere(old(pt.view).pages, pt.view.pages, bufAddr, bufAddr + rounded, AllocFlags(readOnly));
      }
    }

    /** Share a buffer with the FPGA: pin it and track it.  The size tracked is the
        size asked for. */
    method PrepareBuffer(len: int, bufAddr: VAddr, preallocated: bool, readOnly: bool, mapped: Option<int>)
      returns (r: FpgaResult, addr: int, page: int, pinnedEnd: int, ghost osSize: PageSize)
      requires Valid() && 0 <= len && bufAddr + len <= VA_LIMIT
      requires NewlyMapped(pt.view.pages, mapped, RoundedLength(len, maxPhysicalPageSize))
      modifies pt, pt.fpga, pt.fpga.asked, buffers, buffers.buckets
      ensures Valid() && fresh(buffers.descs - old(buffers.descs))
      ensures pt.LoosePins() == old(pt.LoosePins())
      ensures len == 0 ==> r == InvalidParam
      ensures buffers.Contents() ==
              if r == OK then old(buffers.Contents()) + multiset{Buffer(addr, len, page)} else old(buffers.Contents())
      ensures preallocated ==> addr == bufAddr && pinnedEnd == addr + len
      ensures AllAsked(old(pt.fpga.asked.pins), pt.fpga.asked.pins, readOnly)
      ensures r == OK ==> AddedAs(old(pt.view).pages, pt.view.pages, preallocated, readOnly)
      ensures preallocated && r == OK ==> pt.fpga.asked.sizes == old(pt.fpga.asked.sizes) + [SizeAnswer(bufAddr, osSize)]
      ensures preallocated && r == OK ==> osSize != PageNone && page == addr - addr % SizeToBytes(osSize)
      ensures !preallocated && r == OK ==> addr == page && pinnedEnd == addr + RoundedLength(len, maxPhysicalPageSize)
      ensures r == OK ==>
                && page <= addr
                && Pinned(old(pt.view).pages, pt.view.pages, page, pinnedEnd,
                          if preallocated then PreallocFlags(readOnly) else AllocFlags(readOnly))
      ensures old(pt.fpga.faults) <= pt.fpga.faults
      ensures r != OK ==> (pt.fpga.faults > old(pt.fpga.faults) || len == 0 ||
                           if preallocated then bufAddr == 0 else mapped.None?)
    {
      hide Pinned, PageTable.Valid, PageTable.LoosePins, Touches, BufferTable.Valid, BufferTable.Contents, RoundedLength, AllAsked,
           AddedAs;
      NoneAsked(pt.fpga.asked.pins, readOnly);
      addr, page, pinnedEnd, osSize := bufAddr, bufAddr, bufAddr + len, PageNone;
      if len == 0 {
        return InvalidParam, addr, page, pinnedEnd, osSize;
      }
      if preallocated {
        r, page, osSize := PreallocBuffer(len, bufAddr, readOnly);
      } else {
        var rounded;
        r, addr, rounded := AllocBuffer(len, readOnly, mapped);
        page := addr;
        pinnedEnd := addr + rounded;
      }
      if r == OK {
        PinnedAdds(old(pt.view).pages, pt.view.pages, page, pinnedEnd, preallocated, readOnly);
        r := Track(addr, len, page);
      }
    }

    /** Memory for a descriptor. */
    method Malloc() returns (granted: bool)
      requires pt.Valid()
      modifies pt.fpga`faults
      ensures pt.Valid() && pt.LoosePins() == old(pt.LoosePins())
      ensures pt.fpga.faults == if granted then old(pt.fpga.faults) else old(pt.fpga.faults) + 1
    {
      hide Represents, PinsOk;
      granted := pt.fpga.Malloc();
    }

    /** Remember a pinned buffer. */
    method Track(addr: int, len: int, page: int) returns (r: FpgaResult)
      requires Valid() && 0 <= page <= addr && 0 < addr && 0 < len && addr + len <= VA_LIMIT
      modifies pt.fpga`faults, buffers, buffers.buckets
      ensures Valid() && fresh(buffers.descs - old(buffers.descs)) && pt.LoosePins() == old(pt.LoosePins())
      ensures buffers.Contents() ==
              if r == OK then old(buffers.Contents()) + multiset{Buffer(addr, len, page)} else old(buffers.Contents())
      ensures pt.fpga.faults == if r == OK then old(pt.fpga.faults) else old(pt.fpga.faults) + 1
    {
      hide PageTable.Valid, PageTable.LoosePins, BufferTable.Valid, BufferTable.Contents;
      var granted := Malloc();
      r := buffers.Insert(addr, len, page, granted);
    }

    /** Drop the page at `va`: take one reference, and with the last one shoot the
        translation down and unpin the page.  When the shootdown fails, the pin of the
        page stays although no page stores it any more. */
    method DropPageAt(va: VAddr) returns (r: FpgaResult, size: PageSize, flags: set<Flag>)
      requires pt.Valid()
      modifies pt, pt.fpga
      ensures pt.Valid()
      ensures PageAt(old(pt.view), va) == None ==> r == NotFound && pt.view.pages == old(pt.view).pages
      ensures r == NotFound ==> PageAt(old(pt.view), va) == None
      ensures r != NotFound ==>
                var s := PageAt(old(pt.view), va).value;
                && size == DepthToSize(s.level) && pt.view.pages == TakeOne(old(pt.view).pages, s)
                && flags - {InUse} == old(pt.view).pages[s].flags
                && (r == Busy <==> s in pt.view.pages) && (r == OK || r == Busy || r == Exception)
      ensures r != Exception ==> pt.LoosePins() == old(pt.LoosePins())
      ensures r == Exception ==>
                var wsid := old(pt.view).pages[PageAt(old(pt.view), va).value].wsid;
                wsid !in old(pt.LoosePins()) && pt.LoosePins() == old(pt.LoosePins()) + {wsid}
      ensures pt.isHwVtpAvailable ==>
                ShotDown(old(pt.view).pages, pt.view.pages, old(pt.fpga.shootdowns), pt.fpga.shootdowns)
      ensures old(pt.fpga.faults) <= pt.fpga.faults
      ensures r == Exception ==> pt.fpga.faults > old(pt.fpga.faults)
    {
      hide Represents, PinsOk, PageAt, PageTable.CacheOk, PageTable.MarkedAt, UserPins, ShotDown;
      ghost var pages, log := pt.view.pages, pt.fpga.shootdowns;
      var pa, wsid;
      if PageAt(pt.view, va).Some? {
        pt.StoredPage(PageAt(pt.view, va).value);
      }
      r, pa, wsid, size, flags := pt.RemovePageMapping(va);
      if r != OK {
        NoneShotDown(pages, pt.view.pages, log, log);
        return;
      }
      r := pt.InvalHWVAMapping(va);
      OneShotDown(pages, pt.view.pages, log, va, PageAt(old(pt.view), va).value);
      if r != OK {
        return;
      }
      UnpinUserMemory(wsid);
    }

    /** Drop the pages from `start` on, one after the other, until `end` is reached.  `busy`
        tells that a page stays mapped, and `flags` collects those of the pages dropped. */
    method DropPages(start: VAddr, end: int) returns (r: FpgaResult, busy: bool, flags: set<Flag>)
      requires pt.Valid() && start < end <= VA_LIMIT
      modifies pt, pt.fpga
      ensures pt.Valid()
      ensures r == OK || r == NoMemory || r == Exception
      ensures r == NoMemory ==> flags == {}
      ensures r != Exception ==>
                ReleaseWalk(old(pt.view).pages, start, end) == Walked(pt.view.pages, r == OK)
      ensures Fewer(old(pt.view).pages, pt.view.pages, start, end)
      ensures busy <==> SomeStays(old(pt.view).pages, pt.view.pages)
      ensures r != NoMemory ==> (Alloc in flags <==> SomeAlloc(old(pt.view).pages, pt.view.pages))
      ensures if r == Exception then LostOne(old(pt.LoosePins()), pt.LoosePins())
              else pt.LoosePins() == old(pt.LoosePins())
      ensures pt.isHwVtpAvailable ==>
                ShotDown(old(pt.view).pages, pt.view.pages, old(pt.fpga.shootdowns), pt.fpga.shootdowns)
      ensures old(pt.fpga.faults) <= pt.fpga.faults && (r == Exception ==> pt.fpga.faults > old(pt.fpga.faults))
    {
      hide ShotDown, PageTable.Valid, PageTable.LoosePins, PageAt, FindPage, TakeOne, ReleaseWalk, Behind,
           SomeStays, SomeAlloc, Fewer;
      NoneShotDown(pt.view.pages, pt.view.pages, pt.fpga.shootdowns, pt.fpga.shootdowns);
      ghost var log0, pages0 := pt.fpga.shootdowns, pt.view.pages;
      var va, done := start, false;
      r, busy, flags := OK, false, {};
      NothingTaken(pages0, start, end);
      while !done && r == OK
        invariant pt.Valid() && old(pt.fpga.faults) <= pt.fpga.faults
        invariant pt.isHwVtpAvailable ==> ShotDown(pages0, pt.view.pages, log0, pt.fpga.shootdowns)
        invariant r == OK || r == NoMemory
        invariant pt.LoosePins() == old(pt.LoosePins())
        invariant r == OK && !done ==>
                    0 <= va < end && ReleaseWalk(pages0, start, end) == ReleaseWalk(pt.view.pages, va, end)
        invariant r == OK && done ==> ReleaseWalk(pages0, start, end) == Walked(pt.view.pages, true)
        invariant r == NoMemory ==> ReleaseWalk(pages0, start, end) == Walked(pt.view.pages, false) && flags == {}
        invariant Fewer(pages0, pt.view.pages, start, end) && (busy <==> SomeStays(pages0, pt.view.pages))
        invariant r == OK ==> start <= va && (Alloc in flags <==> SomeAlloc(pages0, pt.view.pages))
        invariant r == OK ==> Behind(pages0, pt.view.pages, va)
        decreases !done && r == OK, end - va
      {
        ghost var pages, log := pt.view.pages, pt.fpga.shootdowns;
        PageAtIsFind(pt.view, va);
        WalkUnfold(pages, va, end);
        ghost var v := pt.view;
        pt.Tree();
        TreePagesOk(pt.view);
        var pr, pageSize, pageFlags := DropPageAt(va);
        if pt.isHwVtpAvailable {
          ShotDownThen(pages0, pages, pt.view.pages, log0, log, pt.fpga.shootdowns);
        }
        if pr == NotFound {
          flags := {};
          r := NoMemory;
        } else {
          OneMoreTaken(pages0, pages, pt.view.pages, start, va, end, PageAt(v, va).value);
          flags := flags + pageFlags;
          if pr == Busy {
            busy := true;
          }
          if pr == Exception {
            return Exception, busy, flags;
          }
          va := va + SizeToBytes(pageSize);
          done := va >= end;
        }
      }
    }

    /** Release a buffer: stop tracking it and drop its pages one after the other.
        `unmapped` tells whether the memory itself was given back. */
    method ReleaseBuffer(bufAddr: VAddr, pinOnDemand: bool)
      returns (r: FpgaResult, unmapped: bool, ghost size: int, ghost page: int)
      requires Valid()
      modifies pt, pt.fpga, buffers, buffers.descs, buffers.buckets
      ensures Valid()
      ensures size == 0 ==>
                && (forall e :: e in old(buffers.Contents()) ==> e.vaddr != bufAddr)
                && r == (if pinOnDemand then OK else NoMemory) && !unmapped
                && buffers.Contents() == old(buffers.Contents()) && pt.view == old(pt.view)
      ensures size != 0 ==>
                var e := Buffer(bufAddr, size, page);
                && IsSmallest(old(buffers.Contents()), e)
                && buffers.Contents() == old(buffers.Contents()) - multiset{e}
      ensures size != 0 && r != Exception ==>
                var walk := ReleaseWalk(old(pt.view).pages, page, bufAddr + size);
                && pt.view.pages == walk.pages
                && r == if walk.done || pinOnDemand then OK else NoMemory
      ensures if r == Exception then LostOne(old(pt.LoosePins()), pt.LoosePins())
              else pt.LoosePins() == old(pt.LoosePins())
      ensures Fewer(old(pt.view).pages, pt.view.pages, page, bufAddr + size)
      ensures unmapped <==>
                && size != 0 && (r == Exception || ReleaseWalk(old(pt.view).pages, page, bufAddr + size).done)
                && !SomeStays(old(pt.view).pages, pt.view.pages) && SomeAlloc(old(pt.view).pages, pt.view.pages)
      ensures pt.isHwVtpAvailable ==>
                ShotDown(old(pt.view).pages, pt.view.pages, old(pt.fpga.shootdowns), pt.fpga.shootdowns)
      ensures old(pt.fpga.faults) <= pt.fpga.faults
      ensures r == Exception ==> pt.fpga.faults > old(pt.fpga.faults)
    {
      hide ShotDown, PageTable.Valid, PageTable.LoosePins, BufferTable.Valid, BufferTable.Contents, PageAt,
           FindPage, TakeOne, ReleaseWalk, LostOne, SomeStays, SomeAlloc, Fewer;
      NoneShotDown(pt.view.pages, pt.view.pages, pt.fpga.shootdowns, pt.fpga.shootdowns);
      var bufSize, bufVaStart := buffers.Remove(bufAddr);
      size, page := bufSize, bufVaStart;
      NothingTaken(pt.view.pages, page, bufAddr + size);
      unmapped := false;
      if bufSize == 0 {
        return if pinOnDemand then OK else NoMemory, unmapped, size, page;
      }
      var busy, flags;
      r, busy, flags := DropPages(bufVaStart, bufAddr + bufSize);
      // The memory of an MPF-allocated buffer is unmapped.
      unmapped := !busy && Alloc in flags;
      if r == NoMemory && pinOnDemand {
        r := OK;
      }
    }

    // -------------------------------------------------------------------
    //  Translation with pinning on demand
    // -------------------------------------------------------------------

    /** Pin the page of the unmapped address `bufAddr` and map it.  `hint` is the page
        size at which the search for it stopped: a node for 4KB pages there means
        that the page must be a 4KB page; otherwise the operating system is asked. */
    method PinOnDemand(tryReadOnly: bool, bufAddr: VAddr, hint: PageSize)
      returns (r: FpgaResult, pa: int, size: PageSize, readOnly: bool)
      requires pt.Valid() && PageAt(pt.view, bufAddr) == None
      modifies pt, pt.fpga, pt.fpga.asked
      ensures pt.Valid() && pt.LoosePins() == old(pt.LoosePins())
      ensures r != OK ==> pt.view.pages == old(pt.view).pages
      ensures r == OK ==>
                && PageAt(pt.view, bufAddr).Some?
                && var s := PageAt(pt.view, bufAddr).value;
                   && s !in old(pt.view).pages && size == DepthToSize(s.level)
                   && pt.view.pages == old(pt.view).pages[s := pt.view.pages[s]]
                   && (IsNew(pt.view.pages[s], {}) || (tryReadOnly && IsNew(pt.view.pages[s], {ReadOnly})))
                   && pa == pt.view.pages[s].pa && (readOnly <==> ReadOnly in pt.view.pages[s].flags)
                   && PinnedThere(pt.fpga.asked, old(pt.fpga.asked.addresses), pt.view.pages[s].wsid,
                                  bufAddr - bufAddr % SizeToBytes(size), size, pa)
      ensures SizeChosen(old(pt.fpga.asked.sizes), pt.fpga.asked.sizes, bufAddr, hint, size)
      ensures AskedOnDemand(old(pt.fpga.asked.pins), pt.fpga.asked.pins, bufAddr, size, tryReadOnly, readOnly)
      ensures r == OK && readOnly ==> pt.fpga.faults > old(pt.fpga.faults)
      ensures old(pt.fpga.faults) <= pt.fpga.faults
      ensures r != OK ==> (pt.fpga.faults > old(pt.fpga.faults) ||
                           ((size == Page2MB || size == Page1GB) &&
                            Subdivided(old(pt.view), PlaceOf(bufAddr, LevelOf(size)))))
    {
      hide PageTable.Valid, PageTable.LoosePins, PageAt, PlaceOf, Inserted, CoverAt, TreeOk, AlignedFor, Holds, DepthToSize,
           Divided, Subdivided, NewPage, IsNew, AlignmentOf, LevelOf,
           PinnedThere, SizeToBytes, AskedOnDemand, SizeChosen;
      size := PageSizeFor(bufAddr, hint);
      var page := bufAddr - bufAddr % SizeToBytes(size);
      ghost var v := pt.view;
      pt.Tree();
      AlignedUncovered(v, bufAddr, size);
      DividedThere(v, bufAddr, size);
      ghost var wsid, flags;
      r, pa, readOnly, v, wsid, flags := PinEither(page, size, tryReadOnly, bufAddr);
      if r == OK {
        pt.Tree();
        SamePagesSameLookup(old(pt.view), v, bufAddr);
        InsertedHere(v, pt.view, bufAddr, size, NewPage(pa, wsid, flags), flags);
        PinnedIsNew(pa, wsid, flags);
      }
    }

    /** Ask the operating system for the page size at an address. */
    method OsGetPageSize(va: VAddr) returns (ok: bool, size: PageSize)
      requires pt.Valid()
      modifies pt.fpga`faults, pt.fpga.asked`sizes
      ensures pt.Valid() && pt.LoosePins() == old(pt.LoosePins())
      ensures pt.fpga.asked.sizes == old(pt.fpga.asked.sizes) + [SizeAnswer(va, size)] && (ok <==> size != PageNone)
      ensures pt.fpga.faults == if ok then old(pt.fpga.faults) else old(pt.fpga.faults) + 1
    {
      hide Represents, PinsOk;
      ok, size := pt.fpga.OsGetPageSize(va);
    }

    /** The size of the page to pin for `bufAddr`. */
    method PageSizeFor(bufAddr: VAddr, hint: PageSize) returns (size: PageSize)
      requires pt.Valid()
      modifies pt.fpga`faults, pt.fpga.asked`sizes
      ensures pt.Valid() && pt.LoosePins() == old(pt.LoosePins()) && pt.fpga.faults >= old(pt.fpga.faults)
      ensures SizeChosen(old(pt.fpga.asked.sizes), pt.fpga.asked.sizes, bufAddr, hint, size) && size != PageNone
    {
      hide PageTable.Valid, PageTable.LoosePins;
      size := hint;
      if size != Page4KB {
        var ok;
        ok, size := OsGetPageSize(bufAddr);
        if !ok {
          size := Page4KB;
        }
      }
    }

    /** Pin and insert the page of `size` at `page`, which holds `va`; when it cannot be
        pinned for writing, for reading only if that will do.  The pages are those of `v`
        before the insertion. */
    method PinEither(page: VAddr, size: PageSize, tryReadOnly: bool, ghost va: VAddr)
      returns (r: FpgaResult, pa: int, readOnly: bool, ghost v: View, ghost wsid: int, ghost flags: set<Flag>)
      requires pt.Valid() && size != PageNone && page == va - va % SizeToBytes(size)
      requires CoverAt(pt.view, page, LevelOf(size)).None?
      modifies pt, pt.fpga, pt.fpga.asked
      ensures pt.Valid() && pt.LoosePins() == old(pt.LoosePins())
      ensures v.pages == old(pt.view).pages && (r != OK ==> pt.view.pages == old(pt.view).pages)
      ensures flags == if readOnly then {InUse, ReadOnly} else {InUse}
      ensures r == OK ==>
                && TreeOk(v) && Inserted(v, pt.view, OK, page, LevelOf(size), NewPage(pa, wsid, flags), flags)
                && PinnedThere(pt.fpga.asked, old(pt.fpga.asked.addresses), wsid, page, size, pa)
      ensures AskedOnDemand(old(pt.fpga.asked.pins), pt.fpga.asked.pins, va, size, tryReadOnly, readOnly)
      ensures pt.fpga.asked.sizes == old(pt.fpga.asked.sizes)
      ensures old(pt.fpga.faults) <= pt.fpga.faults && (readOnly ==> tryReadOnly && pt.fpga.faults > old(pt.fpga.faults))
      ensures r != OK ==> (pt.fpga.faults > old(pt.fpga.faults) || page % AlignmentOf(size) != 0 ||
                           Divided(old(pt.view), page, size))
    {
      hide PageTable.Valid, PageTable.LoosePins, PlaceOf, Inserted, CoverAt, TreeOk, AlignedFor, Divided, NewPage,
           AlignmentOf, LevelOf, AskedToPin, PinnedThere, SizeToBytes, AskedOnDemand;
      v, flags, readOnly := pt.view, {InUse}, false;
      pt.Tree();
      ghost var log, addresses := pt.fpga.asked.pins, pt.fpga.asked.addresses;
      var pinnedOk;
      r, pa, pinnedOk, wsid := PinAndInsertPage(page, size, {InUse});
      ghost var mid := pt.fpga.asked.pins;
      AskedFirst(log, mid, va, size, tryReadOnly, pinnedOk);
      if !pinnedOk && tryReadOnly {
        v, flags, readOnly := pt.view, {InUse, ReadOnly}, true;
        pt.Tree();
        CoverSame(old(pt.view), v, page, LevelOf(size));
        ghost var newer := pt.fpga.asked.addresses;
        r, pa, pinnedOk, wsid := PinAndInsertPage(page, size, {InUse, ReadOnly});
        AskedAgain(log, mid, pt.fpga.asked.pins, va, size);
        if r == OK {
          ThereSince(pt.fpga.asked, addresses, newer, wsid, page, size, pa);
        }
      }
    }

    /** Translate `bufAddr`, and up to `numPages` - 1 pages after it when it is mapped
        already; otherwise, unless `mode` forbids it, pin its page and map it.  Each
        translation tells if its page is pinned for reading only. */
    method PinAndGetIOAddressVec(mode: PinMode, bufAddr: VAddr, numPages: int)
      returns (r: FpgaResult, ioaddr: seq<int>, size: PageSize, readOnly: seq<bool>)
      requires pt.Valid()
      modifies pt, pt.fpga, pt.fpga.asked
      ensures pt.Valid() && pt.LoosePins() == old(pt.LoosePins()) && |readOnly| == |ioaddr|
      ensures match PageAt(old(pt.view), bufAddr)
              case Some(s) =>
                && r == OK && pt.view == old(pt.view) && size == DepthToSize(s.level)
                && 1 <= |ioaddr| && (|ioaddr| == 1 || |ioaddr| <= numPages) && Idx(s) + |ioaddr| <= FANOUT
                && (forall i :: 0 <= i < |ioaddr| ==> Reported(pt.view, s, i, ioaddr[i], readOnly[i]))
                && pt.fpga.asked.pins == old(pt.fpga.asked.pins)
                && pt.MarkedAt(old(pt.mem), pt.mem, pt.view, bufAddr, true)
                && (|ioaddr| < numPages && Idx(s) + |ioaddr| < FANOUT ==> After(s, |ioaddr|) !in pt.view.pages)
              case None =>
                if mode == LookupOnly then
                  r == NotFound && pt.view == old(pt.view) && pt.fpga.asked.pins == old(pt.fpga.asked.pins)
                else if r != OK then pt.view.pages == old(pt.view).pages
                else
                  && PageAt(pt.view, bufAddr).Some? && |ioaddr| == 1
                  && var s := PageAt(pt.view, bufAddr).value;
                     && s !in old(pt.view).pages && size == DepthToSize(s.level)
                     && pt.view.pages == old(pt.view).pages[s := pt.view.pages[s]]
                     && (IsNew(pt.view.pages[s], {}) || (mode == TryReadOnly && IsNew(pt.view.pages[s], {ReadOnly})))
                     && Reported(pt.view, s, 0, ioaddr[0], readOnly[0])
                     && PinnedThere(pt.fpga.asked, old(pt.fpga.asked.addresses), pt.view.pages[s].wsid,
                                    bufAddr - bufAddr % SizeToBytes(size), size, ioaddr[0])
                     && (readOnly[0] ==> pt.fpga.faults > old(pt.fpga.faults))
      ensures PageAt(old(pt.view), bufAddr) == None && mode != LookupOnly ==>
                && |readOnly| == 1
                && SizeChosen(old(pt.fpga.asked.sizes), pt.fpga.asked.sizes, bufAddr,
                              DepthToSize(StopLevel(old(pt.view), bufAddr)), size)
                && AskedOnDemand(old(pt.fpga.asked.pins), pt.fpga.asked.pins, bufAddr, size, mode == TryReadOnly,
                                 readOnly[0])
      ensures old(pt.fpga.faults) <= pt.fpga.faults
      ensures r != OK && mode != LookupOnly ==>
                (pt.fpga.faults > old(pt.fpga.faults) ||
                 ((size == Page2MB || size == Page1GB) && Subdivided(old(pt.view), PlaceOf(bufAddr, LevelOf(size)))))
    {
      hide PageTable.Valid, PageTable.LoosePins, PageAt, StopLevel, PlaceOf, Translates, After, Reported,
           AskedOnDemand, PinnedThere, SizeChosen, SizeToBytes, DepthToSize, PageTable.MarkedAt;
      var startVa, pa, flags;
      r, startVa, pa, size, flags := pt.TranslateVAtoPA(bufAddr, true);
      ioaddr, readOnly := [pa], [ReadOnly in flags];
      if r == OK {
        ghost var s := PageAt(pt.view, bufAddr).value;
        FirstReported(pt.view, s, pa, flags);
        if numPages > 1 {
          var more, moreFlags := pt.ExtendVecVAtoPA(numPages - 1);
          VectorOf(pt.view, s, pa, ReadOnly in flags, more, moreFlags);
          ioaddr := ioaddr + more;
          readOnly := readOnly + seq(|moreFlags|, i requires 0 <= i < |moreFlags| => ReadOnly in moreFlags[i]);
        }
        return;
      }
      if mode == LookupOnly {
        return;
      }
      var pinnedReadOnly;
      r, pa, size, pinnedReadOnly := PinOnDemand(mode == TryReadOnly, bufAddr, size);
      ioaddr, readOnly := [pa], [pinnedReadOnly];
      if r == OK {
        FirstReported(pt.view, PageAt(pt.view, bufAddr).value, pa, if pinnedReadOnly then {ReadOnly} else {});
      }
    }
  }

  /** One more pin is held that no page stores. */
  ghost predicate LostOne(pins: set<int>, pins': set<int>) {
    exists wsid :: wsid !in pins && pins' == pins + {wsid}
  }

  /** The region of the page of `size` at `va` holds smaller pages or nodes in use, and
      no page covers it: the table refuses a page there. */
  ghost predicate Divided(v: View, va: VAddr, size: PageSize) {
    CoverAt(v, va, LevelOf(size)).None? && Subdivided(v, PlaceOf(va, LevelOf(size)))
  }

  lemma WhyRefused(v: View, v': View, r: FpgaResult, va: VAddr, size: PageSize, page: Page, flags: set<Flag>)
    requires Inserted(v, v', r, va, LevelOf(size), page, flags) && r != OK
    ensures r == NoMemory || (r == Exception && Divided(v, va, size))
  {}

  /** There is no page of `size` at `va`. */
  predicate Misfit(size: PageSize, va: int) {
    size == PageNone || va % AlignmentOf(size) != 0
  }

  lemma AlignedBoth(size: PageSize, va: VAddr, pa: int)
    ensures AlignedFor(size, va, pa) <==> va % AlignmentOf(size) == 0 && pa % AlignmentOf(size) == 0
  {}

  lemma NextOnGrid(page: int)
    requires page % 0x1000 == 0
    ensures SizeToBytes(Page2MB) == 0x20_0000 && SizeToBytes(Page4KB) == 0x1000
    ensures (page + SizeToBytes(Page2MB)) % 0x1000 == 0 && (page + SizeToBytes(Page4KB)) % 0x1000 == 0
  {}

  /** Why a page of `size` around `va` is refused, seen from `va`. */
  lemma DividedThere(v: View, va: VAddr, size: PageSize)
    requires TreeOk(v) && PageAt(v, va) == None && size != PageNone
    ensures var page := va - va % SizeToBytes(size);
            && 0 <= page <= va && page % AlignmentOf(size) == 0
            && (Divided(v, page, size) ==> size != Page4KB && Subdivided(v, PlaceOf(va, LevelOf(size))))
  {
    hide PageAt, TreeOk, AlignmentOf, Subdivided, CoverAt;
    AlignedUncovered(v, va, size);
    AlignedDown(va, size);
    if size == Page4KB {
      SmallUndivided(v, va - va % SizeToBytes(size));
    }
  }

  lemma AlignedDown(va: VAddr, size: PageSize)
    requires size != PageNone
    ensures (va - va % SizeToBytes(size)) % AlignmentOf(size) == 0
  {
    var bytes, unit := SizeToBytes(size), AlignmentOf(size);
    assert bytes == bytes / unit * unit;
    Remainder(va - va % bytes, unit, bytes / unit * (va / bytes), 0);
  }

  lemma PinnedIsNew(pa: int, wsid: int, flags: set<Flag>)
    requires flags == {InUse} || flags == {InUse, ReadOnly}
    ensures IsNew(NewPage(pa, wsid, flags), flags - {InUse}) && NewPage(pa, wsid, flags).pa == pa
    ensures NewPage(pa, wsid, flags).wsid == wsid
    ensures flags - {InUse} == if ReadOnly in flags then {ReadOnly} else {}
    ensures ReadOnly in NewPage(pa, wsid, flags).flags <==> ReadOnly in flags
  {}

  /** Nothing divides the region of a 4KB page. */
  lemma SmallUndivided(v: View, va: VAddr)
    requires TreeOk(v)
    ensures !Divided(v, va, Page4KB)
  {}

  /** How far a translation request may go. */
  datatype PinMode = LookupOnly | Std | TryReadOnly

  /** What is reported of the page `i` places after `s`. */
  ghost predicate Reported(v: View, s: Place, i: int, pa: int, readOnly: bool) {
    var t := After(s, i);
    t in v.pages && pa == v.pages[t].pa && (readOnly <==> ReadOnly in v.pages[t].flags)
  }

  lemma FirstReported(v: View, s: Place, pa: int, flags: set<Flag>)
    requires s in v.pages && pa == v.pages[s].pa && (ReadOnly in flags <==> ReadOnly in v.pages[s].flags)
    ensures Reported(v, s, 0, pa, ReadOnly in flags)
  {}

  /** The first translation and those that follow it, as one vector. */
  lemma VectorOf(v: View, s: Place, pa: int, readOnly: bool, more: seq<int>, flags: seq<set<Flag>>)
    requires Reported(v, s, 0, pa, readOnly) && |flags| == |more|
    requires forall i :: 0 <= i < |more| ==> Translates(v, s, i + 1, more[i], flags[i])
    ensures var pas := [pa] + more;
            var marks := [readOnly] + seq(|flags|, i requires 0 <= i < |flags| => ReadOnly in flags[i]);
            |pas| == |marks| && forall i :: 0 <= i < |pas| ==> Reported(v, s, i, pas[i], marks[i])
  {
    var pas := [pa] + more;
    var marks := [readOnly] + seq(|flags|, i requires 0 <= i < |flags| => ReadOnly in flags[i]);
    forall i | 0 <= i < |pas| ensures Reported(v, s, i, pas[i], marks[i]) {
      if i > 0 {
        assert Translates(v, s, i - 1 + 1, more[i - 1], flags[i - 1]);
        assert ReadOnly in flags[i - 1] <==> ReadOnly in flags[i - 1] - {InUse};
      }
    }
  }

  /** Aligning an unmapped address down leads to no page of the aligned size or larger. */
  lemma AlignedUncovered(v: View, va: VAddr, size: PageSize)
    requires TreeOk(v) && PageAt(v, va) == None && size != PageNone
    ensures var page := va - va % SizeToBytes(size);
            && 0 <= page <= va && CoverAt(v, page, LevelOf(size)) == None
            && PlaceOf(page, LevelOf(size)) == PlaceOf(va, LevelOf(size))
  {
    var level := LevelOf(size);
    var page := va - va % SizeToBytes(size);
    PageStart(va, level);
    PlaceOfParent(va, level);
    OwnPlace(PlaceOf(va, level));
    hide PageNum, Lo, Hi;
    CoverSamePlace(v, va, page, level);
    Uncovered(v, va, level);
  }

  lemma CoverSamePlace(v: View, va: VAddr, vb: VAddr, level: int)
    requires 0 <= level <= ROOT_LEVEL && PlaceOf(va, level) == PlaceOf(vb, level)
    ensures CoverAt(v, va, level) == CoverAt(v, vb, level)
    decreases ROOT_LEVEL - level
  {
    if level < ROOT_LEVEL {
      PlaceOfParent(va, level);
      PlaceOfParent(vb, level);
      CoverSamePlace(v, va, vb, level + 1);
    }
  }

  /** A page inserted at the aligned address maps the address asked for. */
  lemma InsertedHere(v: View, v': View, va: VAddr, size: PageSize, page: Page, flags: set<Flag>)
    requires TreeOk(v) && TreeOk(v') && PageAt(v, va) == None && size != PageNone
    requires var aligned := va - va % SizeToBytes(size);
             0 <= aligned && Inserted(v, v', OK, aligned, LevelOf(size), page, flags)
    ensures var s := PlaceOf(va, LevelOf(size));
            && PageAt(v', va) == Some(s) && s !in v.pages && v'.pages == v.pages[s := page]
            && DepthToSize(s.level) == size
  {
    AlignedUncovered(v, va, size);
    var s := PlaceOf(va, LevelOf(size));
    HoldsIffPlaceOf(s, va);
    PageAtExact(v', s, va);
    PageAtExact(v, s, va);
  }

  /** The FPGA was told to forget `va` between two moments. */
  ghost predicate Sent(log: seq<int>, log': seq<int>, va: int) {
    log <= log' && exists k :: |log| <= k < |log'| && log'[k] == va
  }

  lemma SentFirst(log: seq<int>, log': seq<int>, va: int)
    requires log + [va] <= log'
    ensures Sent(log, log', va)
  {
    assert (log + [va])[|log|] == va && log'[|log|] == va;
  }

  /** The part of a larger physical page that a smaller page at `va` uses: the bits of
      `va` between the two page sizes are put in place of zeros. */
  function RecoverPa(base: int, va: int, size: PageSize, actualSize: PageSize): int {
    base + (va % SizeToBytes(actualSize) - va % SizeToBytes(size))
  }

  /** Every byte of the smaller page is where the larger page has it. */
  lemma RecoveredByte(base: int, va: int, x: int, size: PageSize, actualSize: PageSize)
    requires SizeToBytes(size) <= SizeToBytes(actualSize) && base % SizeToBytes(actualSize) == 0
    requires x - x % SizeToBytes(size) == va - va % SizeToBytes(size)
    ensures RecoverPa(base, va, size, actualSize) + x % SizeToBytes(size) == base + x % SizeToBytes(actualSize)
    ensures base <= RecoverPa(base, va, size, actualSize) <= base + SizeToBytes(actualSize) - SizeToBytes(size)
  {
    var small, k := SizeToBytes(size), SizeToBytes(actualSize) / SizeToBytes(size);
    assert SizeToBytes(actualSize) == k * small;
    hide SizeToBytes;
    SplitOffset(va, small, k);
    SplitOffset(x, small, k);
  }

  /** The offset in a larger page is that of the smaller page in it plus the rest. */
  lemma SplitOffset(x: int, small: int, k: int)
    requires small > 0 && k > 0
    ensures x % (k * small) == x / small % k * small + x % small
    ensures 0 <= x / small % k * small <= k * small - small
    ensures x / small * small == x - x % small
  {
    var n := x / small;
    var q, r := n / k, n % k;
    Scaled(q * k + r, n, small);
    assert (q * k + r) * small == q * (k * small) + r * small;
    Scaled(k - 1 - r, k - 1 - r, small);
    assert (k - 1 - r) * small == k * small - small - r * small;
    assert 0 <= r * small && r * small + x % small < k * small && k * small > 0;
    Remainder(x, k * small, q, r * small + x % small);
  }

  lemma Scaled(a: int, b: int, m: int)
    requires a == b && m > 0
    ensures a * m == b * m && (a >= 0 ==> a * m >= 0)
  {}

  /** The same for all the bytes of the smaller page. */
  lemma RecoveredPage(base: int, va: int, size: PageSize, actualSize: PageSize)
    requires SizeToBytes(size) <= SizeToBytes(actualSize) && base % SizeToBytes(actualSize) == 0
    ensures forall x :: OnSamePage(x, va, size) ==>
              RecoverPa(base, va, size, actualSize) + x % SizeToBytes(size) == base + x % SizeToBytes(actualSize)
  {
    forall x | OnSamePage(x, va, size)
      ensures RecoverPa(base, va, size, actualSize) + x % SizeToBytes(size) == base + x % SizeToBytes(actualSize)
    {
      RecoveredByte(base, va, x, size, actualSize);
    }
  }

  /** And its start is aligned as an insertion demands. */
  lemma RecoveredAligned(base: int, va: int, size: PageSize, actualSize: PageSize)
    requires SizeToBytes(size) < SizeToBytes(actualSize) && base % SizeToBytes(actualSize) == 0
    ensures 0 <= RecoverPa(base, va, size, actualSize) - base <= SizeToBytes(actualSize) - SizeToBytes(size)
    ensures !Misfit(size, va) ==> RecoverPa(base, va, size, actualSize) % AlignmentOf(size) == 0
  {
    RecoveredByte(base, va, va, size, actualSize);
    var k, n, bytes := SizeToBytes(actualSize) / AlignmentOf(size), base / SizeToBytes(actualSize), AlignmentOf(size);
    if !Misfit(size, va) {
      assert SizeToBytes(actualSize) == k * bytes && SizeToBytes(size) == bytes && base == n * (k * bytes);
      hide SizeToBytes, AlignmentOf;
      SplitOffset(va, bytes, k);
      Factor(n, k, bytes, va / bytes % k);
      Remainder(base + va / bytes % k * bytes, bytes, n * k + va / bytes % k, 0);
    }
  }

  lemma Factor(n: int, k: int, m: int, c: int)
    ensures n * (k * m) + c * m == (n * k + c) * m
  {}

  predicate OnSamePage(x: int, y: int, size: PageSize) {
    x - x % SizeToBytes(size) == y - y % SizeToBytes(size)
  }

  /** By the driver's answer for the pin `wsid` at `va`, the page of `size` there is at `pa`:
      in a larger physical page, every byte is where the larger page has it. */
  ghost predicate ReportedAs(a: AddressAnswer, wsid: int, va: int, size: PageSize, pa: int) {
    && a.wsid == wsid && a.va == va
    && if SizeToBytes(a.size) > SizeToBytes(size) then
         forall x :: OnSamePage(x, va, size) ==> pa + x % SizeToBytes(size) == a.base + x % SizeToBytes(a.size)
       else pa == a.base
  }

  ghost function Latest<T>(log: seq<T>): T
    requires log != []
  {
    log[|log| - 1]
  }

  /** One more request to pin, of the page of `size` at `va`. */
  ghost predicate AskedToPin(log: seq<PinRequest>, log': seq<PinRequest>, va: int, size: PageSize, readOnly: bool)
    ensures AskedToPin(log, log', va, size, readOnly) ==> log' != []
  {
    && |log'| == |log| + 1 && log <= log'
    && var q := log'[|log|];
       q.va == va && q.bytes == SizeToBytes(size) && q.readOnly == readOnly
  }

  lemma ThereSince(asked: Requests, older: seq<AddressAnswer>, newer: seq<AddressAnswer>, wsid: int, va: int,
                   size: PageSize, pa: int)
    requires PinnedThere(asked, newer, wsid, va, size, pa) && |older| <= |newer|
    ensures PinnedThere(asked, older, wsid, va, size, pa)
  {}

  /** A page was asked for at `page`: with 2MB where that fits, and with 4KB where it does
      not, or after 2MB was not possible. */
  ghost predicate Tried(log: seq<PinRequest>, log': seq<PinRequest>, page: int, large: bool, readOnly: bool,
                        gotLarge: bool)
  {
    if !large then AskedToPin(log, log', page, Page4KB, readOnly) && !gotLarge
    else if gotLarge then AskedToPin(log, log', page, Page2MB, readOnly)
    else
      && |log'| == |log| + 2
      && AskedToPin(log, log'[..|log| + 1], page, Page2MB, readOnly)
      && AskedToPin(log'[..|log| + 1], log', page, Page4KB, readOnly)
  }

  lemma TriedLarge(log: seq<PinRequest>, log': seq<PinRequest>, page: int, readOnly: bool)
    requires AskedToPin(log, log', page, Page2MB, readOnly)
    ensures Tried(log, log', page, true, readOnly, true) && AllAsked(log, log', readOnly) && log' != log
  {}

  lemma TriedSmall(log: seq<PinRequest>, mid: seq<PinRequest>, log': seq<PinRequest>, page: int, readOnly: bool)
    requires AskedToPin(mid, log', page, Page4KB, readOnly)
    requires mid == log || AskedToPin(log, mid, page, Page2MB, readOnly)
    ensures Tried(log, log', page, mid != log, readOnly, false) && AllAsked(log, log', readOnly)
  {
    if mid != log {
      assert mid == log'[..|log| + 1];
    }
  }

  /** The page size for a page pinned on demand: 4KB where a node for 4KB pages is, else what
      the operating system reports for the address, or 4KB if it reports nothing. */
  ghost predicate SizeChosen(log: seq<SizeAnswer>, log': seq<SizeAnswer>, va: int, hint: PageSize, size: PageSize) {
    if hint == Page4KB then log' == log && size == Page4KB
    else
      && |log'| == |log| + 1 && log <= log' && log'[|log|].va == va
      && size == if log'[|log|].size == PageNone then Page4KB else log'[|log|].size
  }

  /** The page that holds `va` was asked for once, for reading and writing, or, when that was
      refused and `tryReadOnly` is set, a second time for reading only. */
  ghost predicate AskedOnDemand(log: seq<PinRequest>, log': seq<PinRequest>, va: int, size: PageSize, tryReadOnly: bool,
                                readOnly: bool)
  {
    var page := va - va % SizeToBytes(size);
    if readOnly then
      && tryReadOnly && |log'| == |log| + 2
      && AskedToPin(log, log'[..|log| + 1], page, size, false) && log'[|log|].answer == Refused
      && AskedToPin(log'[..|log| + 1], log', page, size, true)
    else AskedToPin(log, log', page, size, false) && (tryReadOnly ==> log'[|log|].answer.Granted?)
  }

  lemma AskedFirst(log: seq<PinRequest>, log': seq<PinRequest>, va: int, size: PageSize, tryReadOnly: bool, granted: bool)
    requires AskedToPin(log, log', va - va % SizeToBytes(size), size, false) && granted == Latest(log').answer.Granted?
    ensures granted || !tryReadOnly ==> AskedOnDemand(log, log', va, size, tryReadOnly, false)
    ensures !granted ==> Latest(log').answer == Refused
  {}

  lemma AskedAgain(log: seq<PinRequest>, mid: seq<PinRequest>, log': seq<PinRequest>, va: int, size: PageSize)
    requires var page := va - va % SizeToBytes(size);
             AskedToPin(log, mid, page, size, false) && AskedToPin(mid, log', page, size, true)
    requires Latest(mid).answer == Refused
    ensures AskedOnDemand(log, log', va, size, true, true)
  {
    assert mid == log'[..|log| + 1];
  }

  /** All the requests to pin since the log was `log` were read-only or not, as told. */
  ghost predicate AllAsked(log: seq<PinRequest>, log': seq<PinRequest>, readOnly: bool) {
    log <= log' && forall k :: |log| <= k < |log'| ==> log'[k].readOnly == readOnly
  }

  lemma NoneAsked(log: seq<PinRequest>, readOnly: bool)
    ensures AllAsked(log, log, readOnly)
  {}

  lemma AllAskedThen(log: seq<PinRequest>, mid: seq<PinRequest>, log': seq<PinRequest>, readOnly: bool)
    requires AllAsked(log, mid, readOnly) && AllAsked(mid, log', readOnly)
    ensures AllAsked(log, log', readOnly)
  {
    forall k | |log| <= k < |log'| ensures log'[k].readOnly == readOnly {
      if k < |mid| {
        assert log'[k] == mid[k];
      }
    }
  }

  /** The last pin granted is `wsid` and is at `va`, and its device address, asked for since
      the log was `addresses`, is that of `pa` for a page of `size`. */
  ghost predicate PinnedThere(asked: Requests, addresses: seq<AddressAnswer>, wsid: int, va: int, size: PageSize, pa: int)
    reads asked
  {
    && asked.pins != [] && Latest(asked.pins).answer == Granted(wsid, va)
    && |addresses| < |asked.addresses| && ReportedAs(Latest(asked.addresses), wsid, va, size, pa)
  }

  /** The pages added are marked as the request says: who provides the memory, and whether
      the FPGA may write it.  The pages that were there keep their read-only mark. */
  ghost predicate AddedAs(pages: map<Place, Page>, pages': map<Place, Page>, preallocated: bool, readOnly: bool) {
    forall s :: s in pages' ==>
      if s in pages then ReadOnly in pages'[s].flags <==> ReadOnly in pages[s].flags
      else
        && (ReadOnly in pages'[s].flags <==> readOnly)
        && (Prealloc in pages'[s].flags <==> preallocated) && (Alloc in pages'[s].flags <==> !preallocated)
        && InUse !in pages'[s].flags && Terminal in pages'[s].flags && pages'[s].refcnt == 1
  }

  lemma PinnedAdds(pages: map<Place, Page>, pages': map<Place, Page>, lo: int, hi: int, preallocated: bool, readOnly: bool)
    requires Pinned(pages, pages', lo, hi, if preallocated then PreallocFlags(readOnly) else AllocFlags(readOnly))
    ensures AddedAs(pages, pages', preallocated, readOnly)
  {
    hide Touches, Mapped;
  }

  function PreallocFlags(readOnly: bool): set<Flag> {
    if readOnly then {Prealloc, ReadOnly} else {Prealloc}
  }

  function AllocFlags(readOnly: bool): set<Flag> {
    if readOnly then {Alloc, ReadOnly} else {Alloc}
  }

  lemma OsPageStart(va: VAddr, size: PageSize)
    requires size != PageNone
    ensures var page := va - va % SizeToBytes(size);
            0 <= page <= va && page % 0x1000 == 0
  {}

  /** Requests above these lengths get 1GB and 2MB pages. */
  const PAGE_1GB_THRESHOLD: int := 805306368
  const PAGE_2MB_THRESHOLD: int := 128 * 1024

  function AllocPageSize(len: int, maxSize: PageSize): PageSize {
    if len > PAGE_1GB_THRESHOLD && maxSize == Page1GB then Page1GB
    else if len > PAGE_2MB_THRESHOLD && (maxSize == Page2MB || maxSize == Page1GB) then Page2MB
    else Page4KB
  }

  /** Round up to a multiple of the page size chosen for the length. */
  function RoundedLength(len: int, maxSize: PageSize): int {
    var bytes := SizeToBytes(AllocPageSize(len, maxSize));
    (len + bytes - 1) / bytes * bytes
  }

  /** The length allocated is the least multiple of the page size that holds the request:
      1GB above 768MB, and 2MB above 128KB, where the platform has such pages, else 4KB. */
  lemma RoundedLengthIs(len: int, maxSize: PageSize)
    ensures var n := RoundedLength(len, maxSize);
            var unit := if len > 0x3000_0000 && maxSize == Page1GB then 0x4000_0000
                        else if len > 0x2_0000 && (maxSize == Page2MB || maxSize == Page1GB) then 0x20_0000
                        else 0x1000;
            n % unit == 0 && len <= n < len + unit
  {
    var unit := SizeToBytes(AllocPageSize(len, maxSize));
    Remainder((len + unit - 1) / unit * unit, unit, (len + unit - 1) / unit, 0);
  }

  lemma RoundingGrows(len: int, maxSize: PageSize)
    ensures len <= RoundedLength(len, maxSize) < len + SizeToBytes(AllocPageSize(len, maxSize))
  {}

  /** The 4KB pages number `first` up to `end`, as an allocation pins them. */
  ghost function SmallPages(first: int, end: int): map<Place, Page> {
    map s: Place | s in SmallPlaces(first, end) :: Page(0x1000 * s.num, {Terminal, Alloc}, s.num, 1)
  }

  ghost function SmallPlaces(first: int, end: int): set<Place> {
    set k | first <= k < end :: Place(0, k)
  }

  lemma SmallPagesOk(first: int, end: int)
    requires 0 <= first <= end <= 0x1000
    ensures PagesOk(SmallPages(first, end)) && Mapped(SmallPages(first, end), 0x1000 * first, 0x1000 * end)
    ensures forall s :: s in SmallPages(first, end) <==> s.level == 0 && first <= s.num < end
  {
    var pages := SmallPages(first, end);
    assert forall s :: s in pages ==> Lo(s) == 0x1000 * s.num && Hi(s) == 0x1000 * s.num + 0x1000;
    hide FindPage;
    forall x | 0x1000 * first <= x < 0x1000 * end ensures MappedAt(pages, x) {
      assert Place(0, x / 0x1000) in SmallPlaces(first, end);
      ReleaseWalks.Found(pages, Place(0, x / 0x1000), x);
    }
  }

  /** An allocation that leaves pages behind: 200KB is rounded up to 2MB, the 2MB page is
      refused and 512 pages of 4KB are pinned instead.  The release takes the 50 pages
      that were asked for, and 462 stay. */
  lemma PaddingOutlivesBuffer()
    ensures RoundedLength(204800, Page2MB) == 0x20_0000
    ensures Pinned(map[], SmallPages(512, 1024), 0x20_0000, 0x20_0000 + 0x20_0000, AllocFlags(false))
    ensures ReleaseWalk(SmallPages(512, 1024), 0x20_0000, 0x20_0000 + 204800) == Walked(SmallPages(562, 1024), true)
  {
    hide Pinned, ReleaseWalk, SmallPages;
    SmallPagesPinned();
    FirstSmallPages();
    SmallPagesOk(512, 1024);
    ReleaseWalks.Found(SmallPages(512, 1024), Place(0, 512), 0x20_0000);
    hide FindPage, PagesOk, Unreferenced;
    AlignedWalkExact(SmallPages(512, 1024), 0x20_0000, 0x20_0000 + 204800, Place(0, 512));
  }

  lemma SmallPagesPinned()
    ensures Pinned(map[], SmallPages(512, 1024), 0x20_0000, 0x40_0000, AllocFlags(false))
    ensures Mapped(SmallPages(512, 1024), 0x20_0000, 0x20_0000 + 204800)
  {
    hide FindPage;
    SmallPagesOk(512, 1024);
  }

  lemma FirstSmallPages()
    ensures Unreferenced(SmallPages(512, 1024), 0x20_0000, 0x20_0000 + 204800) == SmallPages(562, 1024)
  {
    hide Unbump;
    assert forall s :: s in SmallPlaces(512, 1024) <==> s.level == 0 && 512 <= s.num < 1024;
    assert forall s :: s in SmallPlaces(562, 1024) <==> s.level == 0 && 562 <= s.num < 1024;
    forall s | s in SmallPlaces(512, 1024) ensures Touches(s, 0x20_0000, 0x20_0000 + 204800) <==> s.num < 562 {}
    hide Touches;
  }

  /** Memory newly mapped by the operating system is aligned, and no page of the table overlaps it. */
  ghost predicate NewlyMapped(pages: map<Place, Page>, mapped: Option<int>, len: int) {
    mapped.Some? ==>
      var addr := mapped.value;
      && 0 < addr && addr % 0x1000 == 0 && addr + len <= VA_LIMIT
      && forall s :: s in pages ==> !Touches(s, addr, addr + len)
  }
}
