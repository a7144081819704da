/** The legacy buffer allocator: pages are allocated from the top of the buffer down,
    large ones where possible. */
module AalAllocators {
  import opened Addresses
  import opened AalTrees
  import opened AalStates
  import opened AalTables
  import opened AalTilings

  datatype Errnum = AliOK | NoMem | BadMapping | DriverError

  function AlignUp(n: int, size: int): (r: int)
    requires size > 0
    ensures n <= r < n + size
  {
    (n + size - 1) / size * size
  }

  /** The length that is allocated for a request: whole 2MB pages if little is wasted. */
  function PaddedLength(len: nat): (r: int)
    ensures len <= r
  {
    if len % LARGE_PAGE_SIZE > LARGE_PAGE_THRESHOLD then AlignUp(len, LARGE_PAGE_SIZE) else AlignUp(len, SMALL_PAGE_SIZE)
  }

  /** The row allocated so far, down to `va`. */
  ghost predicate Progress(before: PageMap, now: PageMap, tiles: seq<Place>, va: int, hi: int, starts: set<Place>) {
    && Row(tiles, va, hi) && Added(before, now, tiles, starts)
    && forall s :: s in starts ==> s in tiles
  }

  /** A page mapped before lies in [lo, hi). */
  ghost predicate Taken(before: PageMap, lo: int, hi: int) {
    exists s :: s in before && Lo(s) < hi && lo < Hi(s)
  }

  /** A page of `level` can be at the device address `pa`. */
  predicate SuitsPage(pa: int, level: int)
    requires 0 <= level <= 1
  {
    pa >= 0 && pa % Span(level) == 0
  }

  /** The row's pages have memory of the driver at the device addresses that the table maps,
      and outside [lo, hi) the driver holds what it held. */
  ghost predicate HeldFor(held0: map<int, int>, held: map<int, int>, pages: PageMap, tiles: seq<Place>, lo: int, hi: int) {
    && (forall t :: t in tiles ==> t in pages && Lo(t) in held && held[Lo(t)] == pages[t].addr)
    && forall x :: !(lo <= x < hi) ==> (x in held <==> x in held0) && (x in held ==> held[x] == held0[x])
  }

  /** The driver's memory below the row changes, and a page may be mapped there. */
  lemma HeldBelow(held0: map<int, int>, held: map<int, int>, pages: PageMap, tiles: seq<Place>, lo: int, hi: int, t: Place,
                  e: Entry, end: int)
    requires HeldFor(held0, held, pages, tiles, lo, hi) && lo <= Lo(t) < hi && Lo(t) < end && Row(tiles, end, hi)
    requires t !in pages
    ensures HeldFor(held0, held[Lo(t) := e.addr], pages[t := e], [t] + tiles, lo, hi)
  {
    RowBounds(tiles, end, hi);
    hide Lo, Row;
    forall s | s in tiles ensures Lo(s) != Lo(t) {
      var i :| 0 <= i < |tiles| && tiles[i] == s;
    }
  }

  lemma NothingHeld(held: map<int, int>, pages: PageMap, lo: int, hi: int)
    ensures HeldFor(held, held, pages, [], lo, hi)
  {}

  lemma StillHeld(held0: map<int, int>, held: map<int, int>, pages: PageMap, tiles: seq<Place>, lo: int, hi: int, t: Place,
                  pa: int, end: int)
    requires HeldFor(held0, held, pages, tiles, lo, hi) && lo <= Lo(t) < hi && Lo(t) < end && Row(tiles, end, hi)
    ensures HeldFor(held0, held[Lo(t) := pa], pages, tiles, lo, hi)
  {
    RowBounds(tiles, end, hi);
    hide Lo, Row;
    forall s | s in tiles ensures Lo(s) != Lo(t) {
      var i :| 0 <= i < |tiles| && tiles[i] == s;
    }
  }

  class Mpfvtp {
    const pt: AalPageTable
    /** Memory that the driver holds for this process: the device address by the address. */
    var held: map<int, int>
    /** The address space reserved for the allocation under way. */
    ghost var reservedFrom: int
    ghost var reservedTo: int
    /** Requests for address space that the operating system has turned down. */
    ghost var denials: nat
    /** The levels of the pages asked of the driver, oldest first. */
    ghost var levels: seq<int>

    constructor (pt: AalPageTable)
      ensures this.pt == pt && held == map[] && reservedFrom == reservedTo
    {
      this.pt := pt;
      held := map[];
      reservedFrom, reservedTo, denials, levels := 0, 0, 0, [];
    }

    /** Exactly `len` bytes from `base` on are reserved, or nothing if `len` is 0. */
    ghost predicate Reserved(base: int, len: int)
      reads this`reservedFrom, this`reservedTo
    {
      reservedFrom == base && reservedTo == base + len
    }

    /** What a failed allocation of a buffer is due to: the operating system denied address
        space, or the last page asked of the driver, a small one, could not be had. */
    ghost predicate Blame(levels0: seq<int>, denials0: nat, alive: bool, err: Errnum)
      reads this`levels, this`denials
    {
      && levels0 <= levels && denials0 <= denials
      && (alive && err == NoMem ==> denials > denials0)
      && (alive && (err == DriverError || err == BadMapping) ==> levels != levels0 && levels[|levels| - 1] == 0)
    }

    /** The driver allocates memory at `va`.  Its device address should suit a page of `level`. */
    method AllocateAt(va: int, level: int) returns (ok: bool)
      requires pt.Valid() && 0 <= level <= 1
      modifies pt`faults, this`held, this`levels
      ensures levels == old(levels) + [level]
      ensures pt.Valid() && (ok ==> va in held)
      ensures held == if ok then old(held)[va := held[va]] else old(held)
      ensures pt.faults == if ok && SuitsPage(held[va], level) then old(pt.faults) else old(pt.faults) + 1
    {
      hide TableOk;
      levels := levels + [level];
      ok := *;
      var iova: int := *;
      if ok {
        held := held[va := iova];
      }
      if !ok || !SuitsPage(iova, level) {
        pt.faults := pt.faults + 1;
      }
    }

    /** The driver takes its memory at `va` back. */
    method ReleaseAt(va: int)
      modifies this`held
      ensures held == old(held) - {va}
    {
      held := held - {va};
    }

    /** Reserve `len` bytes of address space. */
    method Mmap(len: int) returns (ok: bool, va: int)
      requires pt.Valid()
      modifies pt`faults, this`reservedFrom, this`reservedTo, this`denials
      ensures pt.Valid() && pt.faults == if ok then old(pt.faults) else old(pt.faults) + 1
      ensures denials == if ok then old(denials) else old(denials) + 1
      ensures ok ==> 0 < va && va % SMALL_PAGE_SIZE == 0 && va + len <= VA_LIMIT && Reserved(va, len)
    {
      hide TableOk;
      va := *;
      ok := 0 < va && va % SMALL_PAGE_SIZE == 0 && va + len <= VA_LIMIT;
      if ok {
        reservedFrom, reservedTo := va, va + len;
      } else {
        pt.faults, denials := pt.faults + 1, denials + 1;
      }
    }

    /** Change the length of the reservation at `base` in place, but not to nothing. */
    method Mremap(base: int, len: int, newLen: int) returns (ok: bool)
      requires pt.Valid() && Reserved(base, len) && len > 0
      modifies pt`faults, this`reservedTo, this`denials
      ensures pt.Valid() && pt.faults == if ok then old(pt.faults) else old(pt.faults) + 1
      ensures denials == if ok then old(denials) else old(denials) + 1
      ensures ok ==> newLen > 0 && reservedTo == base + newLen
      ensures Reserved(base, if ok then newLen else len)
    {
      hide TableOk;
      ok := *;
      ok := ok && newLen > 0;
      if ok {
        reservedTo := base + newLen;
      } else {
        pt.faults, denials := pt.faults + 1, denials + 1;
      }
    }

    /** Give the reservation back. */
    method Munmap(base: int, len: int)
      requires Reserved(base, len)
      modifies this`reservedTo
      ensures Reserved(base, 0)
    {
      reservedTo := base;
    }

    /** Reserve `len` bytes at `va` when nothing is reserved. */
    method MmapFixed(va: int, len: int) returns (ok: bool)
      requires pt.Valid() && reservedFrom == reservedTo
      modifies pt`faults, this`reservedFrom, this`reservedTo, this`denials
      ensures denials == if ok then old(denials) else old(denials) + 1
      ensures pt.Valid() && pt.faults == if ok then old(pt.faults) else old(pt.faults) + 1
      ensures ok ==> Reserved(va, len)
    {
      hide TableOk;
      ok := *;
      if ok {
        reservedFrom, reservedTo := va, va + len;
      } else {
        pt.faults, denials := pt.faults + 1, denials + 1;
      }
    }

    /** Allocate one page of memory at `va` and map it. */
    method Allocate(va: VAddr, level: int, flags: set<MapFlag>) returns (alive: bool, err: Errnum, ghost e: Entry)
      requires pt.Valid() && 0 <= level <= 1 && va % Span(level) == 0 && Terminal !in flags
      requires reservedTo <= va || reservedFrom == reservedTo
      modifies pt, this`held, this`levels
      ensures levels == old(levels) + [level]
      ensures alive ==> pt.Valid()
      ensures alive && err == AliOK ==>
                && Free(old(pt.fwd), PlaceOf(va, level)) && e.flags == flags + {Terminal}
                && Pages(pt.fwd) == Pages(old(pt.fwd))[PlaceOf(va, level) := e]
                && held == old(held)[va := e.addr]
      ensures alive && err != AliOK ==> Pages(pt.fwd) == Pages(old(pt.fwd)) && err != NoMem
      ensures alive && err != AliOK ==>
                if err == BadMapping then va in held && held == old(held)[va := held[va]] else held == old(held)
      ensures alive ==> Forgotten(old(pt.fwd).nodes, pt.fwd.nodes, old(pt.invals), pt.invals)
      ensures pt.faults >= old(pt.faults)
      ensures !(alive && err == AliOK) ==> pt.faults > old(pt.faults) || !Free(old(pt.fwd), PlaceOf(va, level))
    {
      hide AalPageTable.Valid, Pages, Free, PlaceOf, Forgotten;
      NoneForgotten(pt.fwd.nodes, pt.fwd.nodes, pt.invals);
      e := EMPTY;
      alive, err := true, DriverError;
      var given := AllocateAt(va, level);
      if !given {
        return;
      }
      // The address that the driver reports is checked by an assertion of the insertion.
      var pa := held[va];
      alive := SuitsPage(pa, level);
      if !alive {
        return;
      }
      e := Entry(pa, flags + {Terminal});
      NotTheMarker(pa, level, flags);
      var inserted;
      alive, inserted := pt.AddVAtoPA(va, pa, level, flags);
      err := if inserted then AliOK else BadMapping;
    }

    /** Allocate the page below the row. */
    method AllocateBelow(va: VAddr, level: int, flags: set<MapFlag>, ghost before: PageMap, ghost tiles: seq<Place>,
                         ghost hi: int, ghost starts: set<Place>, ghost held0: map<int, int>, ghost lo: int)
      returns (alive: bool, err: Errnum, ghost tiles': seq<Place>, ghost starts': set<Place>)
      requires pt.Valid() && 0 <= level <= 1 && va % Span(level) == 0
      requires Progress(before, Pages(pt.fwd), tiles, va + Span(level), hi, starts)
      requires Terminal !in flags && (AllocEnd in flags <==> tiles == [])
      requires reservedTo <= va || reservedFrom == reservedTo
      requires HeldFor(held0, held, Pages(pt.fwd), tiles, lo, hi) && lo <= va && va + Span(level) <= hi
      modifies pt, this`held, this`levels
      ensures levels == old(levels) + [level]
      ensures alive ==> HeldFor(held0, held, Pages(pt.fwd), tiles', lo, hi)
      ensures alive ==> pt.Valid()
      ensures alive && err == AliOK ==>
                && tiles' == [PlaceOf(va, level)] + tiles
                && starts' == (if AllocStart in flags then starts + {PlaceOf(va, level)} else starts)
                && Progress(before, Pages(pt.fwd), tiles', va, hi, starts')
      ensures alive && err != AliOK ==> tiles' == tiles && starts' == starts && Pages(pt.fwd) == Pages(old(pt.fwd))
      ensures alive ==> err != NoMem
      ensures pt.faults >= old(pt.faults)
      ensures !(alive && err == AliOK) ==> pt.faults > old(pt.faults) || Taken(before, va, va + Span(level))
    {
      hide AalPageTable.Valid, Pages, Free, PlaceOf, Added, Row, Lo, Hi, Forgotten, HeldFor;
      ghost var t, now, memory := PlaceOf(va, level), Pages(pt.fwd), held;
      tiles', starts' := tiles, starts;
      ghost var e;
      alive, err, e := Allocate(va, level, flags);
      if alive && err == AliOK {
        NewBelow(va, level);
        FreeMeansNew(old(pt.fwd), t);
        MarkedIsMapped(before, now, tiles, starts);
        HeldBelow(held0, memory, now, tiles, lo, hi, t, e, va + Span(level));
        AddTile(before, now, tiles, starts, t, e);
        PutBelow(t, tiles, va + Span(level), hi);
        tiles', starts' := [t] + tiles, if AllocStart in flags then starts + {t} else starts;
      } else if alive && err == BadMapping {
        NewBelow(va, level);
        StillHeld(held0, memory, now, tiles, lo, hi, t, held[va], va + Span(level));
      }
      if !(alive && err == AliOK) && pt.faults == old(pt.faults) {
        NewBelow(va, level);
        InTheWay(before, old(pt.fwd), tiles, t, hi, starts);
      }
    }

    /** Make a hole for a page at the end of what is reserved.  For large pages a reservation
        that would have nothing left is given back as a whole. */
    method Shrink(vaBase: int, vaBaseLen: int, bytes: int, mayUnmap: bool) returns (ok: bool)
      requires pt.Valid() && Reserved(vaBase, vaBaseLen) && vaBaseLen > 0
      modifies pt`faults, this`reservedTo, this`denials
      ensures denials == if ok then old(denials) else old(denials) + 1
      ensures mayUnmap && vaBaseLen == bytes ==> ok
      ensures !mayUnmap && vaBaseLen == bytes ==> !ok
      ensures pt.Valid() && pt.faults == if ok then old(pt.faults) else old(pt.faults) + 1
      ensures ok ==> Reserved(vaBase, vaBaseLen - bytes)
    {
      if mayUnmap && vaBaseLen == bytes {
        Munmap(vaBase, vaBaseLen);
        ok := true;
      } else {
        ok := Mremap(vaBase, vaBaseLen, vaBaseLen - bytes);
      }
    }

    /** Make a hole and allocate the page below the row in it. */
    method TakePage(va: VAddr, level: int, flags: set<MapFlag>, vaBase: int, vaBaseLen: int, mayUnmap: bool,
                    ghost before: PageMap, ghost tiles: seq<Place>, ghost hi: int, ghost starts: set<Place>,
                    ghost held0: map<int, int>, ghost lo: int)
      returns (shrunk: bool, alive: bool, err: Errnum, ghost tiles': seq<Place>, ghost starts': set<Place>)
      requires pt.Valid() && 0 <= level <= 1 && va % Span(level) == 0
      requires Reserved(vaBase, vaBaseLen) && vaBaseLen > 0 && vaBase + vaBaseLen == va + Span(level)
      requires Progress(before, Pages(pt.fwd), tiles, va + Span(level), hi, starts)
      requires Terminal !in flags && (AllocEnd in flags <==> tiles == [])
      requires HeldFor(held0, held, Pages(pt.fwd), tiles, lo, hi) && lo <= va && va + Span(level) <= hi
      modifies pt, this`held, this`levels, this`reservedTo, this`denials
      ensures alive ==> pt.Valid() && HeldFor(held0, held, Pages(pt.fwd), tiles', lo, hi)
      ensures alive && err == AliOK ==>
                && tiles' == [PlaceOf(va, level)] + tiles
                && starts' == (if AllocStart in flags then starts + {PlaceOf(va, level)} else starts)
                && Progress(before, Pages(pt.fwd), tiles', va, hi, starts')
      ensures alive && err != AliOK ==> tiles' == tiles && starts' == starts && Pages(pt.fwd) == Pages(old(pt.fwd))
      ensures !mayUnmap && vaBaseLen == Span(level) ==> !shrunk
      ensures shrunk ==> Reserved(vaBase, vaBaseLen - Span(level)) && denials == old(denials)
      ensures shrunk ==> levels == old(levels) + [level] && (alive ==> err != NoMem)
      ensures !shrunk ==> alive && err == NoMem && denials > old(denials) && levels == old(levels)
      ensures pt.faults >= old(pt.faults)
      ensures !(alive && err == AliOK) ==> pt.faults > old(pt.faults) || Taken(before, lo, hi)
    {
      hide AalPageTable.Valid, Pages, PlaceOf, Progress, Taken, HeldFor, Span;
      tiles', starts' := tiles, starts;
      shrunk := Shrink(vaBase, vaBaseLen, Span(level), mayUnmap);
      if !shrunk {
        return shrunk, true, NoMem, tiles', starts';
      }
      alive, err, tiles', starts' := AllocateBelow(va, level, flags, before, tiles, hi, starts, held0, lo);
      TakenMore(before, va, va + Span(level), lo, hi);
    }

    /** Small pages from the top of the buffer down to a 2MB boundary. */
    method SmallPages(aligned: int, len0: int, vaBase: int, vaBaseLen0: int, ghost before: PageMap, ghost hi: int)
      returns (alive: bool, err: Errnum, len: int, vaBaseLen: int, ptFlags: set<MapFlag>, ghost tiles: seq<Place>)
      requires pt.Valid() && before == Pages(pt.fwd)
      requires 0 <= vaBase <= aligned && aligned % LARGE_PAGE_SIZE == 0 && 0 <= len0 && len0 % SMALL_PAGE_SIZE == 0
      requires hi == aligned + len0 <= VA_LIMIT && vaBase + vaBaseLen0 == hi
      requires Reserved(vaBase, vaBaseLen0)
      modifies pt, this`held, this`levels, this`reservedTo, this`denials
      ensures Blame(old(levels), old(denials), alive, err)
      ensures vaBase == aligned && 0 < len0 < LARGE_PAGE_SIZE ==> !(alive && err == AliOK)
      ensures alive ==> HeldFor(old(held), held, Pages(pt.fwd), tiles, aligned, hi)
      ensures alive && err == AliOK ==> Reserved(vaBase, vaBaseLen)
      ensures pt.faults >= old(pt.faults)
      ensures !(alive && err == AliOK) ==> pt.faults > old(pt.faults) || Taken(before, aligned, hi)
      ensures alive ==> pt.Valid() && 0 <= len <= len0
      ensures alive ==> Progress(before, Pages(pt.fwd), tiles, aligned + len, hi,
                                 if len == 0 && tiles != [] then {tiles[0]} else {})
      ensures alive && err != AliOK ==> len > 0
      ensures alive && err == AliOK ==>
                && len % LARGE_PAGE_SIZE == 0 && vaBase + vaBaseLen == aligned + len
                && ptFlags == if tiles == [] then {AllocEnd} else {}
    {
      hide AalPageTable.Valid, Pages, PlaceOf, Progress, Taken, HeldFor, Reserved;
      alive, err, len, vaBaseLen, ptFlags, tiles := true, AliOK, len0, vaBaseLen0, {AllocEnd}, [];
      var vaAlloc := aligned + len;
      ghost var starts: set<Place> := {};
      NothingHeld(held, Pages(pt.fwd), aligned, hi);
      NothingYet(before, hi);
      while vaAlloc % LARGE_PAGE_SIZE != 0
        invariant alive && err == AliOK && pt.Valid() && pt.faults >= old(pt.faults)
        invariant 0 <= len <= len0 && len % SMALL_PAGE_SIZE == 0
        invariant vaAlloc == aligned + len == vaBase + vaBaseLen && Reserved(vaBase, vaBaseLen)
        invariant denials == old(denials) && old(levels) <= levels
        invariant len == len0 || vaBaseLen > 0
        invariant HeldFor(old(held), held, Pages(pt.fwd), tiles, aligned, hi)
        invariant starts == if len == 0 && tiles != [] then {tiles[0]} else {}
        invariant Progress(before, Pages(pt.fwd), tiles, vaAlloc, hi, starts)
        invariant ptFlags == if tiles == [] then {AllocEnd} else {}
        decreases len
      {
        SmallStep(aligned, len);
        vaAlloc := vaAlloc - SMALL_PAGE_SIZE;
        if len <= SMALL_PAGE_SIZE {
          ptFlags := ptFlags + {AllocStart};
        }
        var shrunk;
        shrunk, alive, err, tiles, starts := TakePage(vaAlloc, 0, ptFlags, vaBase, vaBaseLen, false, before, tiles, hi,
                                                      starts, old(held), aligned);
        if !shrunk || !alive || err != AliOK {
          return;
        }
        vaBaseLen := vaBaseLen - SMALL_PAGE_SIZE;
        ptFlags := {};
        len := len - SMALL_PAGE_SIZE;
      }
      AtBoundary(aligned, len);
    }

    /** Put the reservation of a large page at `va` back, at the end of what is reserved. */
    method Restore(va: int, vaBase: int, vaBaseLen: int) returns (ok: bool, base: int)
      requires pt.Valid() && Reserved(vaBase, vaBaseLen) && vaBase + vaBaseLen == va && vaBaseLen >= 0
      modifies pt`faults, this`reservedFrom, this`reservedTo, this`denials
      ensures denials == if ok then old(denials) else old(denials) + 1
      ensures pt.Valid() && pt.faults == if ok then old(pt.faults) else old(pt.faults) + 1
      ensures ok ==> Reserved(base, vaBaseLen + LARGE_PAGE_SIZE) && base == if vaBaseLen == 0 then va else vaBase
    {
      base := vaBase;
      if vaBaseLen == 0 {
        // The last reservation was given back as a whole.
        ok := MmapFixed(va, LARGE_PAGE_SIZE);
        base := va;
      } else {
        ok := Mremap(vaBase, vaBaseLen, vaBaseLen + LARGE_PAGE_SIZE);
      }
    }

    /** The rest of the buffer: large pages, until one cannot be allocated, and small
        pages from there.  `fellBack` tells whether that was the lowest large page. */
    method LargePages(aligned: int, len0: int, vaBase0: int, vaBaseLen0: int, ptFlags0: set<MapFlag>,
                      ghost before: PageMap, ghost tiles0: seq<Place>, ghost hi: int, ghost held0: map<int, int>)
      returns (alive: bool, err: Errnum, vaBase: int, vaBaseLen: int, ghost tiles: seq<Place>, ghost fellBack: bool,
               ghost left: int, ghost starts: set<Place>)
      requires pt.Valid()
      requires 0 <= vaBase0 <= aligned && aligned % LARGE_PAGE_SIZE == 0 && 0 <= len0 && len0 % LARGE_PAGE_SIZE == 0
      requires aligned + len0 <= hi <= VA_LIMIT && vaBase0 + vaBaseLen0 == aligned + len0
      requires Progress(before, Pages(pt.fwd), tiles0, aligned + len0, hi,
            if len0 == 0 && tiles0 != [] then {tiles0[0]} else {})
      requires ptFlags0 == if tiles0 == [] then {AllocEnd} else {}
      requires Reserved(vaBase0, vaBaseLen0) && HeldFor(held0, held, Pages(pt.fwd), tiles0, aligned, hi)
      modifies pt, this`held, this`levels, this`reservedFrom, this`reservedTo, this`denials
      ensures Blame(old(levels), old(denials), alive, err)
      ensures alive ==> HeldFor(held0, held, Pages(pt.fwd), tiles, aligned, hi)
      ensures alive && err == AliOK ==> Reserved(vaBase, vaBaseLen)
      ensures pt.faults >= old(pt.faults)
      ensures !(alive && err == AliOK) ==> pt.faults > old(pt.faults) || Taken(before, aligned, hi)
      ensures alive ==> pt.Valid()
      ensures alive ==> 0 <= left && Progress(before, Pages(pt.fwd), tiles, aligned + left, hi, starts)
      ensures alive ==> Marks(tiles, aligned, left, fellBack, starts) && (err == AliOK <==> left == 0)
    {
      hide AalPageTable.Valid, Pages, PlaceOf, Progress, LastSmall, Taken, HeldFor, Reserved;
      alive, err, vaBase, vaBaseLen, tiles, fellBack := true, AliOK, vaBase0, vaBaseLen0, tiles0, false;
      var len, ptFlags := len0, ptFlags0;
      var vaAlloc := aligned + len;
      left, starts := len, if len0 == 0 && tiles0 != [] then {tiles0[0]} else {};
      var effLevel := 1;
      while len > 0
        invariant alive && err == AliOK && pt.Valid() && pt.faults >= old(pt.faults)
        invariant denials == old(denials) && old(levels) <= levels
        invariant 0 <= vaBase <= aligned && vaAlloc == aligned + len == vaBase + vaBaseLen
        invariant Reserved(vaBase, vaBaseLen) && HeldFor(held0, held, Pages(pt.fwd), tiles, aligned, hi)
        invariant 0 <= effLevel <= 1 && 0 <= len <= len0 && len % Span(effLevel) == 0
        invariant fellBack ==> effLevel == 0 && len <= LARGE_PAGE_SIZE
        invariant left == len && Marks(tiles, aligned, len, fellBack, starts)
        invariant Progress(before, Pages(pt.fwd), tiles, vaAlloc, hi, starts)
        invariant ptFlags == (if tiles == [] then {AllocEnd} else {}) +
                             (if fellBack && len == LARGE_PAGE_SIZE then {AllocStart} else {})
        decreases effLevel, len
      {
        var pageSize := Span(effLevel);
        LargeStep(aligned, len, effLevel);
        vaAlloc := vaAlloc - pageSize;
        if len <= pageSize {
          ptFlags := ptFlags + {AllocStart};
        }
        ghost var below, starts0 := tiles, starts;
        var shrunk;
        shrunk, alive, err, tiles, starts := TakePage(vaAlloc, effLevel, ptFlags, vaBase, vaBaseLen, true, before,
                                                      tiles, hi, starts, held0, aligned);
        if !shrunk || !alive {
          return;
        }
        vaBaseLen := vaBaseLen - pageSize;
        if err != AliOK {
          if effLevel != 1 {
            return;
          }
          // Fall back to small pages; restore the last large reservation.
          var restored;
          restored, vaBase := Restore(vaAlloc, vaBase, vaBaseLen);
          if !restored {
            err := NoMem;
            return;
          }
          vaBaseLen := vaBaseLen + LARGE_PAGE_SIZE;
          vaAlloc := vaAlloc + LARGE_PAGE_SIZE;
          effLevel := 0;
          fellBack := len <= LARGE_PAGE_SIZE;
          err := AliOK;
        } else {
          assert tiles == [tiles[0]] + below;
          MarksStep(below, tiles[0], aligned, len, effLevel, fellBack, starts0, AllocStart in ptFlags);
          ptFlags := {};
          len := len - pageSize;
          left := len;
        }
      }
    }

    /** Allocate a buffer: on success its pages fill the padded length from the start
        returned, side by side, and nothing else in the table changes.  On failure the
        pages from `buffer + left` on stay, and the only one of them that can be marked
        START is the last 4KB page of the lowest 2MB. */
    method BufferAllocate(length: nat)
      returns (alive: bool, err: Errnum, buffer: int, ghost tiles: seq<Place>, ghost fellBack: bool, ghost left: int,
               ghost starts: set<Place>)
      requires pt.Valid()
      modifies pt, this`held, this`levels, this`reservedFrom, this`reservedTo, this`denials
      ensures Blame(old(levels), old(denials), alive, err)
      ensures !(alive && err == AliOK) ==> pt.faults > old(pt.faults) ||
                                           Taken(Pages(old(pt.fwd)), buffer, buffer + PaddedLength(length))
      ensures alive ==> pt.Valid() && 0 <= left && (err == AliOK ==> left == 0)
      ensures alive ==>
                && Row(tiles, buffer + left, buffer + PaddedLength(length))
                && Added(Pages(old(pt.fwd)), Pages(pt.fwd), tiles, starts)
      ensures alive ==> HeldFor(old(held), held, Pages(pt.fwd), tiles, buffer, buffer + PaddedLength(length))
      ensures alive && err == AliOK ==> reservedFrom == reservedTo
      ensures alive && err == AliOK ==>
                && 0 <= buffer && buffer % LARGE_PAGE_SIZE == 0 && starts == Starts(tiles, buffer, fellBack)
                && (fellBack ==> LastSmall(buffer) in tiles)
      ensures alive && err != AliOK ==> starts <= if fellBack then {LastSmall(buffer)} else {}
    {
      hide AalPageTable.Valid, Pages, Row, Added, PaddedLength, Taken;
      alive, err, buffer, tiles, fellBack, starts := true, NoMem, 0, [], false, {};
      var len := PaddedLength(length);
      left := len;
      Padded(length);
      NothingYet(Pages(pt.fwd), len);
      var mapped, vaBase := Mmap(len + LARGE_PAGE_SIZE);
      if !mapped {
        return;
      }
      buffer := AlignUp(vaBase, LARGE_PAGE_SIZE);
      Aligned(vaBase);
      NothingYet(Pages(pt.fwd), buffer + len);
      var trim := LARGE_PAGE_SIZE - (buffer - vaBase);
      var trimmed := Mremap(vaBase, len + LARGE_PAGE_SIZE, len + LARGE_PAGE_SIZE - trim);
      if !trimmed {
        return;
      }
      var vaBaseLen := len + LARGE_PAGE_SIZE - trim;
      ghost var before, hi := Pages(pt.fwd), buffer + len;
      var ptFlags;
      alive, err, len, vaBaseLen, ptFlags, tiles := SmallPages(buffer, len, vaBase, vaBaseLen, before, hi);
      left, starts := len, if len == 0 && tiles != [] then {tiles[0]} else {};
      if alive && err == AliOK {
        alive, err, vaBase, vaBaseLen, tiles, fellBack, left, starts :=
          LargePages(buffer, len, vaBase, vaBaseLen, ptFlags, before, tiles, hi, old(held));
        if alive && err == AliOK && vaBaseLen != 0 {
          Munmap(vaBase, vaBaseLen);
        }
      }
    }

    /** Tell the FPGA to forget what it has cached for `va`. */
    method InvalVAMapping(va: int) returns (ok: bool)
      requires pt.Valid()
      modifies pt`invals, pt`faults
      ensures pt.Valid() && pt.invals == old(pt.invals) + [va]
      ensures pt.faults == if ok then old(pt.faults) else old(pt.faults) + 1
    {
      hide TableOk;
      ok := pt.InvalVAMapping(va);
    }

    /** Free the buffer at `va`: refused, with nothing changed, unless the page there is
        marked START; otherwise pages are removed up to the END mark.  `invalidated` is
        false when the FPGA's copy of a translation cannot be invalidated. */
    method BufferFree(va0: nat) returns (err: Errnum, invalidated: bool)
      requires pt.Valid()
      modifies pt`mem, pt`fwd, pt`invals, pt`faults, this`held
      ensures pt.Valid() && (!invalidated ==> pt.faults > old(pt.faults))
      ensures var pages, s := Pages(old(pt.fwd)), Found(Pages(old(pt.fwd)), va0 % VA_LIMIT);
              if s !in pages || AllocStart !in pages[s].flags then
                err == NoMem && pt.fwd == old(pt.fwd) && invalidated && pt.invals == old(pt.invals) && held == old(held)
              else
                && (invalidated ==> FreeWalk(pages, va0) == Freed(Pages(pt.fwd), err == AliOK))
                && (invalidated ==> pt.invals == old(pt.invals) + FreeVas(pages, va0) &&
                                    held == old(held) - Elements(FreeVas(pages, va0)))
                && (!invalidated ==> PartlyFreed(pages, va0, Pages(pt.fwd)))
                && (err == AliOK || err == NoMem)
    {
      hide AalPageTable.Valid, Pages, Maps, Shape, Found, FreeWalk, PartlyFreed, FreeVas, Elements;
      err, invalidated := NoMem, true;
      var va: nat := va0;
      var ok, pa, flags;
      ghost var t;
      ok, pa, flags, t := pt.TranslateVAtoPA(va % VA_LIMIT);
      pt.Shapes();
      FoundIsMapped(pt.fwd, va % VA_LIMIT);
      if !ok || AllocStart !in flags {
        return;
      }
      ghost var pages := Pages(pt.fwd);
      ghost var freed: seq<int> := [];
      NothingFreed(held, pt.invals, FreeVas(pages, va0));
      var more := true;
      while more
        invariant more ==> err == NoMem && FreeWalk(pages, va0) == FreeWalk(Pages(pt.fwd), va)
        invariant more ==> forall now :: PartlyFreed(Pages(pt.fwd), va, now) ==> PartlyFreed(pages, va0, now)
        invariant !more ==> FreeWalk(pages, va0) == Freed(Pages(pt.fwd), err == AliOK)
        invariant pt.invals == old(pt.invals) + freed && held == old(held) - Elements(freed)
        invariant FreeVas(pages, va0) == if more then freed + FreeVas(Pages(pt.fwd), va) else freed
        invariant pt.Valid() && invalidated && pt.faults == old(pt.faults) && (err == AliOK || err == NoMem)
        decreases more, |Pages(pt.fwd)|
      {
        pt.Shapes();
        FoundIsMapped(pt.fwd, va % VA_LIMIT);
        FreeStep(Pages(pt.fwd), va);
        var ptPa, is2MB;
        ok, pa, ptPa, is2MB, flags, t := pt.RemovePageMapping(va % VA_LIMIT);
        if !ok {
          assert freed + [] == freed;
          more := false;
        } else {
          invalidated := InvalVAMapping(va);
          if !invalidated {
            return;
          }
          ReleaseAt(va);
          OneFreed(old(held), held, old(pt.invals), freed, va);
          OneAfter(freed, va, Pages(pt.fwd), va + (if is2MB then LARGE_PAGE_SIZE else SMALL_PAGE_SIZE));
          freed := freed + [va];
          if AllocEnd in flags {
            err := AliOK;
            more := false;
          } else {
            va := va + (if is2MB then LARGE_PAGE_SIZE else SMALL_PAGE_SIZE);
          }
        }
      }
    }
  }

  /** The page found is the page that maps the address. */
  lemma FoundIsMapped(t: Tree, va: VAddr)
    requires Shape(t) && forall s :: s in Pages(t) ==> s.level <= 1
    ensures Found(Pages(t), va) in Pages(t) <==> exists s :: Maps(t, s, va)
    ensures forall s :: Maps(t, s, va) ==> s == Found(Pages(t), va) && 0 <= s.level <= 1
  {
    HoldsIffPlaceOf(PlaceOf(va, 0), va);
    HoldsIffPlaceOf(PlaceOf(va, 1), va);
    PlaceOfParent(va, 0);
    hide Holds, PageNum, WfPlace, Parent;
    if Found(Pages(t), va) in Pages(t) {
      assert Maps(t, Found(Pages(t), va), va);
    }
    forall s | Maps(t, s, va) ensures s == Found(Pages(t), va) && 0 <= s.level <= 1 {
      HoldsIffPlaceOf(s, va);
      TerminalIsLeaf(t, PlaceOf(va, 0), PlaceOf(va, 1));
    }
  }

  lemma TerminalIsLeaf(t: Tree, c: Place, p: Place)
    requires Shape(t) && Parent(c) == p
    ensures c in Pages(t) && p in Pages(t) ==> p == Root
  {}

  ghost function Elements(vas: seq<int>): set<int> {
    set x | x in vas
  }

  lemma NothingFreed(held: map<int, int>, log: seq<int>, vas: seq<int>)
    ensures log == log + [] && held == held - Elements([]) && vas == [] + vas
  {}

  lemma OneFreed(held: map<int, int>, held': map<int, int>, log: seq<int>, freed: seq<int>, va: int)
    requires held' == held - Elements(freed) - {va}
    ensures held' == held - Elements(freed + [va]) && log + freed + [va] == log + (freed + [va])
  {}

  lemma OneAfter(freed: seq<int>, va: int, pages: PageMap, next: nat)
    ensures freed + ([va] + FreeVas(pages, next)) == freed + [va] + FreeVas(pages, next)
  {}

  /** The length allocated: whole 2MB pages when more than 128KB would be left over, else
      whole 4KB pages, in either case the fewest that hold the request. */
  lemma PaddedLengthIs(len: nat)
    ensures var n, unit := PaddedLength(len), if len % 0x20_0000 > 131072 then 0x20_0000 else 0x1000;
            n % unit == 0 && len <= n < len + unit
  {
    AlignedUp(len, SMALL_PAGE_SIZE);
    AlignedUp(len, LARGE_PAGE_SIZE);
  }

  /** One step of the walk that frees. */
  lemma FreeStep(pages: PageMap, va: nat)
    ensures var s := Found(pages, va % VA_LIMIT);
            && (s !in pages ==> FreeWalk(pages, va) == Freed(pages, false) && FreeVas(pages, va) == [])
            && (s in pages ==>
                  && |pages - {s}| < |pages|
                  && PartlyFreed(pages, va, pages - {s})
                  && if AllocEnd in pages[s].flags then
                       FreeWalk(pages, va) == Freed(pages - {s}, true) && FreeVas(pages, va) == [va]
                     else
                       && FreeVas(pages, va) == [va] + FreeVas(pages - {s}, va + Span(s.level))
                       && FreeWalk(pages, va) == FreeWalk(pages - {s}, va + Span(s.level))
                       && forall now :: PartlyFreed(pages - {s}, va + Span(s.level), now) ==> PartlyFreed(pages, va, now))
  {
    var s := Found(pages, va % VA_LIMIT);
    if s in pages {
      Smaller(pages, s);
    }
  }

  /** Allocating a buffer and freeing it at the address returned restores the map. */
  lemma AllocateThenFree(before: PageMap, after: Tree, buffer: int, length: nat, tiles: seq<Place>, fellBack: bool)
    requires Shape(after) && forall s :: s in Pages(after) ==> s.level <= 1
    requires 0 <= buffer && PaddedLength(length) > 0 && Row(tiles, buffer, buffer + PaddedLength(length))
    requires Added(before, Pages(after), tiles, Starts(tiles, buffer, fellBack))
    ensures var s := Found(Pages(after), buffer % VA_LIMIT);
            s in Pages(after) && AllocStart in Pages(after)[s].flags
    ensures FreeWalk(Pages(after), buffer) == Freed(before, true)
  {
    hide PaddedLength, FreeWalk, Pages, Shape;
    PagesApart(after);
    FreeUndoesAllocate(before, Pages(after), tiles, buffer, buffer + PaddedLength(length), fellBack);
    OwnPlace(tiles[0]);
    assert buffer % VA_LIMIT == buffer && tiles[0] in tiles;
    FoundIt(Pages(after), tiles[0], buffer);
  }

  lemma PagesApart(t: Tree)
    requires Shape(t) && forall s :: s in Pages(t) ==> s.level <= 1
    ensures Apart(Pages(t))
  {
    hide WfPlace;
    forall s, c | s in Pages(t) && c in Pages(t) && s != c ensures !Overlap(s, c) {
      hide Overlap, Parent;
      if Overlap(s, c) {
        OverlapSwap(s, c);
        if s.level == c.level {
          OverlapSame(s, c);
        } else if s.level == 1 {
          OverlapAbove(s, c);
          TerminalIsLeaf(t, c, s);
        } else {
          OverlapAbove(c, s);
          TerminalIsLeaf(t, s, c);
        }
        assert false;
      }
    }
  }

  lemma Padded(len: nat)
    ensures PaddedLength(len) % SMALL_PAGE_SIZE == 0
  {
    AlignedUp(len, SMALL_PAGE_SIZE);
    AlignedUp(len, LARGE_PAGE_SIZE);
  }

  lemma AlignedUp(n: int, size: int)
    requires size == SMALL_PAGE_SIZE || size == LARGE_PAGE_SIZE
    ensures AlignUp(n, size) % size == 0 && AlignUp(n, size) % SMALL_PAGE_SIZE == 0
  {
    var k := (n + size - 1) / size;
    if size == LARGE_PAGE_SIZE {
      assert k * size == SMALL_PAGE_SIZE * (512 * k);
    }
  }

  lemma Aligned(va: int)
    ensures AlignUp(va, LARGE_PAGE_SIZE) % LARGE_PAGE_SIZE == 0
  {
    AlignedUp(va, LARGE_PAGE_SIZE);
  }

  /** The marks set so far: the second START of a fallback on the lowest large page, and
      the START of the first page once everything is allocated. */
  ghost predicate Marks(tiles: seq<Place>, aligned: int, len: int, fellBack: bool, starts: set<Place>) {
    starts == (if len == 0 && tiles != [] then {tiles[0]} else {}) +
              (if fellBack && len < LARGE_PAGE_SIZE then {LastSmall(aligned)} else {})
  }

  lemma LargeStep(aligned: int, len: int, level: int)
    requires 0 <= aligned && aligned % LARGE_PAGE_SIZE == 0 && 0 <= level <= 1 && len > 0 && len % Span(level) == 0
    ensures Span(level) <= len && (len - Span(level)) % Span(level) == 0
    ensures (aligned + len - Span(level)) % Span(level) == 0
    ensures len % SMALL_PAGE_SIZE == 0
    ensures len <= Span(level) ==> len == Span(level)
  {
    if level == 1 {
      LargeAligned(aligned, len);
    } else {
      SmallAligned(aligned, len);
    }
  }

  lemma LargeAligned(aligned: int, len: int)
    requires aligned % LARGE_PAGE_SIZE == 0 && len > 0 && len % LARGE_PAGE_SIZE == 0
    ensures LARGE_PAGE_SIZE <= len && (len - LARGE_PAGE_SIZE) % LARGE_PAGE_SIZE == 0 && len % SMALL_PAGE_SIZE == 0
    ensures (aligned + len - LARGE_PAGE_SIZE) % LARGE_PAGE_SIZE == 0
  {
    var m, n := aligned / LARGE_PAGE_SIZE, len / LARGE_PAGE_SIZE;
    Large(n - 1);
    Large(m + n - 1);
    Small(512 * n);
  }

  lemma SmallAligned(aligned: int, len: int)
    requires aligned % LARGE_PAGE_SIZE == 0 && len > 0 && len % SMALL_PAGE_SIZE == 0
    ensures SMALL_PAGE_SIZE <= len && (len - SMALL_PAGE_SIZE) % SMALL_PAGE_SIZE == 0
    ensures (aligned + len - SMALL_PAGE_SIZE) % SMALL_PAGE_SIZE == 0
  {
    var m, n := 512 * (aligned / LARGE_PAGE_SIZE), len / SMALL_PAGE_SIZE;
    Small(n - 1);
    Small(m + n - 1);
  }

  lemma Large(k: int)
    ensures (k * LARGE_PAGE_SIZE) % LARGE_PAGE_SIZE == 0
  {}

  lemma Small(k: int)
    ensures (k * SMALL_PAGE_SIZE) % SMALL_PAGE_SIZE == 0
  {}

  lemma MarksStep(tiles: seq<Place>, t: Place, aligned: int, len: int, level: int, fellBack: bool,
                  starts: set<Place>, marked: bool)
    requires Marks(tiles, aligned, len, fellBack, starts)
    requires 0 <= aligned && aligned % LARGE_PAGE_SIZE == 0 && 0 <= level <= 1 && len > 0 && len % Span(level) == 0
    requires aligned + len <= VA_LIMIT && (fellBack ==> level == 0 && len <= LARGE_PAGE_SIZE)
    requires t == PlaceOf(aligned + len - Span(level), level)
    requires marked <==> (fellBack && len == LARGE_PAGE_SIZE) || len <= Span(level)
    ensures Marks([t] + tiles, aligned, len - Span(level), fellBack, if marked then starts + {t} else starts)
  {
    if fellBack && len == LARGE_PAGE_SIZE {
      assert t == LastSmall(aligned) by { LastOne(aligned); }
    }
  }

  lemma LastOne(aligned: int)
    requires 0 <= aligned && aligned % LARGE_PAGE_SIZE == 0 && aligned + LARGE_PAGE_SIZE <= VA_LIMIT
    ensures PlaceOf(aligned + LARGE_PAGE_SIZE - SMALL_PAGE_SIZE, 0) == LastSmall(aligned)
  {}

  lemma NothingYet(before: PageMap, hi: int)
    ensures Progress(before, before, [], hi, hi, {})
  {}

  lemma SmallStep(aligned: int, len: int)
    requires 0 <= aligned && aligned % LARGE_PAGE_SIZE == 0 && 0 <= len && len % SMALL_PAGE_SIZE == 0
    requires (aligned + len) % LARGE_PAGE_SIZE != 0
    ensures SMALL_PAGE_SIZE <= len && (len - SMALL_PAGE_SIZE) % SMALL_PAGE_SIZE == 0
    ensures (aligned + len - SMALL_PAGE_SIZE) % SMALL_PAGE_SIZE == 0
  {}

  lemma AtBoundary(aligned: int, len: int)
    requires aligned % LARGE_PAGE_SIZE == 0 && (aligned + len) % LARGE_PAGE_SIZE == 0
    ensures len % LARGE_PAGE_SIZE == 0
  {}

  lemma TakenMore(before: PageMap, lo: int, hi: int, lo': int, hi': int)
    requires lo' <= lo && hi <= hi'
    ensures Taken(before, lo, hi) ==> Taken(before, lo', hi')
  {}

  /** A page in the way of the row was there before: the row is above it. */
  lemma InTheWay(before: PageMap, t: Tree, tiles: seq<Place>, c: Place, hi: int, starts: set<Place>)
    requires Progress(before, Pages(t), tiles, Hi(c), hi, starts) && !Free(t, c)
    ensures Taken(before, Lo(c), Hi(c))
  {
    RowBounds(tiles, Hi(c), hi);
    var s :| s in Pages(t) && Overlap(s, c);
    assert forall i :: 0 <= i < |tiles| ==> !Overlap(tiles[i], c);
    assert s in before;
  }

  lemma FreeMeansNew(t: Tree, c: Place)
    requires Free(t, c) && 0 <= c.level <= 1
    ensures c !in Pages(t)
  {
    OverlapSelf(c);
  }

  lemma MarkedIsMapped(before: PageMap, now: PageMap, tiles: seq<Place>, starts: set<Place>)
    requires Added(before, now, tiles, starts) && forall s :: s in starts ==> s in tiles
    ensures forall s :: s in starts ==> s in now
  {}

  /** An aligned address is where its slot begins. */
  lemma NewBelow(va: VAddr, level: int)
    requires 0 <= level <= 1 && va % Span(level) == 0
    ensures var t := PlaceOf(va, level);
            Lo(t) == va && Hi(t) == va + Span(level) && WfPlace(t) && t.level == level
  {
    PageStart(va, level);
    PlaceOfParent(va, level);
  }

  lemma NotTheMarker(pa: int, level: int, flags: set<MapFlag>)
    requires 0 <= level <= 1 && pa % Span(level) == 0
    ensures Entry(pa, flags + {Terminal}) != EMPTY
  {
    assert 0xFFFF_FFFF_FFFF_FFF8 % 0x1000 != 0 && 0xFFFF_FFFF_FFFF_FFF8 % 0x20_0000 != 0;
  }
}
