/** Runs of buffer preparations and releases that share pages. */
module BufferRuns {
  import opened Addresses
  import opened Words
  import opened TableView
  import opened TableSpec
  import opened ReleaseWalks
  import opened BufferTables

  function End(b: Buffer): int {
    b.vaddr + b.size
  }

  /** A page just pinned: one reference, and the flags of the request but for InUse. */
  predicate IsNew(p: Page, flags: set<Flag>) {
    p.refcnt == 1 && p.flags == {Terminal} + flags - {InUse}
  }

  /** Pinning [lo, hi): pages already there that overlap it are counted once more,
      the pages added start within it and are counted once, and in the end every byte
      is mapped. */
  ghost predicate Pinned(pages: map<Place, Page>, pages': map<Place, Page>, lo: int, hi: int, flags: set<Flag>) {
    && (forall s :: s in pages ==>
          s in pages' && pages'[s] == if Touches(s, lo, hi) then Bump(pages[s], flags) else pages[s])
    && (forall s :: s in pages' && s !in pages ==> lo <= Lo(s) < hi && IsNew(pages'[s], flags))
    && Mapped(pages', lo, hi)
  }

  /** How many of the buffers overlap page `s`. */
  function Users(live: seq<Buffer>, s: Place): nat {
    if live == [] then 0
    else (if Touches(s, live[0].page, End(live[0])) then 1 else 0) + Users(live[1..], s)
  }

  lemma {:induction false} UsersAppend(a: seq<Buffer>, b: seq<Buffer>, s: Place)
    ensures Users(a + b, s) == Users(a, s) + Users(b, s)
  {
    if a == [] {
      assert a + b == b;
    } else {
      assert (a + b)[1..] == a[1..] + b;
      UsersAppend(a[1..], b, s);
    }
  }

  function Without(live: seq<Buffer>, i: nat): seq<Buffer>
    requires i < |live|
  {
    live[..i] + live[i + 1..]
  }

  lemma UsersWithout(live: seq<Buffer>, i: nat, s: Place)
    requires i < |live|
    ensures Users(live, s) ==
            Users(Without(live, i), s) + if Touches(s, live[i].page, End(live[i])) then 1 else 0
  {
    assert live == live[..i] + ([live[i]] + live[i + 1..]);
    UsersAppend(live[..i], [live[i]] + live[i + 1..], s);
    UsersAppend([live[i]], live[i + 1..], s);
    UsersAppend(live[..i], live[i + 1..], s);
    assert Users([live[i]], s) == if Touches(s, live[i].page, End(live[i])) then 1 else 0;
  }

  lemma {:induction false} UsersPositive(live: seq<Buffer>, s: Place)
    ensures Users(live, s) > 0 <==> exists b :: b in live && Touches(s, b.page, End(b))
  {
    hide Touches;
    if live != [] {
      UsersPositive(live[1..], s);
      assert forall b :: b in live <==> b == live[0] || b in live[1..];
    }
  }

  // ---------------------------------------------------------------------
  //  The system: mapped pages and live buffers
  // ---------------------------------------------------------------------

  datatype System = System(pages: map<Place, Page>, live: seq<Buffer>)

  const Fresh: System := System(map[], [])

  /** Every live buffer is fully mapped and its recorded page start is the start
      of the page found there. */
  ghost predicate Placed(pages: map<Place, Page>, b: Buffer) {
    && 0 <= b.page <= b.vaddr && b.page < End(b) && b.page < VA_LIMIT
    && Mapped(pages, b.page, End(b))
    && FindPage(pages, b.page).Some? && Lo(FindPage(pages, b.page).value) == b.page
  }

  /** Reference counts are exact. */
  ghost predicate Exact(sys: System) {
    && PagesOk(sys.pages)
    && (forall s :: s in sys.pages ==> sys.pages[s].refcnt == Users(sys.live, s))
    && (forall b :: b in sys.live ==> Placed(sys.pages, b))
  }

  /** A successful preparation.  The recorded page start is that of the page the
      table maps there: the operating system reported a page at least as large. */
  ghost predicate Prepare(sys: System, sys': System, b: Buffer, flags: set<Flag>) {
    && sys'.live == sys.live + [b]
    && PagesOk(sys'.pages)
    && Pinned(sys.pages, sys'.pages, b.page, End(b), flags)
    && Placed(sys'.pages, b)
  }

  /** The release of the `i`-th live buffer, as the release loop does it. */
  ghost predicate Release(sys: System, sys': System, i: nat) {
    && i < |sys.live|
    && sys'.live == Without(sys.live, i)
    && sys'.pages == ReleaseWalk(sys.pages, sys.live[i].page, End(sys.live[i])).pages
  }

  ghost predicate Step(sys: System, sys': System) {
    || (exists b, flags :: Prepare(sys, sys', b, flags))
    || (exists i :: Release(sys, sys', i))
  }

  ghost predicate Run(states: seq<System>) {
    && |states| > 0 && states[0] == Fresh
    && forall k {:trigger states[k]} :: 0 < k < |states| ==> Step(states[k - 1], states[k])
  }

  lemma Overlap(pages: map<Place, Page>, s: Place, b: Buffer) returns (t: Place)
    requires PagesOk(pages) && Mapped(pages, b.page, End(b)) && b.page < End(b)
    requires 0 <= s.level <= ROOT_LEVEL && WfPlace(s) && Touches(s, b.page, End(b))
    ensures t in pages && Touches(t, b.page, End(b))
    ensures Lo(t) < Hi(s) && Lo(s) < Hi(t)
  {
    OwnPlace(s);
    hide Lo, Hi, FindPage, WfPlace, PagesOk;
    var x := if Lo(s) < b.page then b.page else Lo(s);
    assert MappedAt(pages, x);
    t := FindPage(pages, x).value;
    Found(pages, t, x);
  }

  lemma KeepsPlaced(pages: map<Place, Page>, pages': map<Place, Page>, b: Buffer)
    requires PagesOk(pages) && PagesOk(pages') && Placed(pages, b)
    requires forall s :: s in pages && Touches(s, b.page, End(b)) ==> s in pages'
    ensures Placed(pages', b)
  {
    hide Lo, Hi, FindPage, WfPlace, PagesOk;
    forall x | b.page <= x < End(b) ensures MappedAt(pages', x) {
      assert MappedAt(pages, x);
      var t := FindPage(pages, x).value;
      Found(pages, t, x);
      assert Touches(t, b.page, End(b));
      Found(pages', t, x);
    }
    var t := FindPage(pages, b.page).value;
    Found(pages, t, b.page);
    Found(pages', t, b.page);
  }

  lemma StartsWithin(pages: map<Place, Page>, s: Place, lo: int, hi: int)
    requires PagesOk(pages) && s in pages && lo <= Lo(s) < hi
    ensures Touches(s, lo, hi)
  {
    OwnPlace(s);
  }

  /** Preparing a buffer keeps the counts exact. */
  lemma PrepareExact(sys: System, sys': System, b: Buffer, flags: set<Flag>)
    requires Exact(sys) && Prepare(sys, sys', b, flags)
    ensures Exact(sys')
  {
    hide Lo, Hi, FindPage, WfPlace, Touches;
    forall s | s in sys'.pages ensures sys'.pages[s].refcnt == Users(sys'.live, s) {
      UsersAppend(sys.live, [b], s);
      assert Users([b], s) == if Touches(s, b.page, End(b)) then 1 else 0;
      if s !in sys.pages {
        NewPageUnused(sys, sys'.pages, s);
        StartsWithin(sys'.pages, s, b.page, End(b));
      }
    }
    forall c | c in sys'.live ensures Placed(sys'.pages, c) {
      if c in sys.live {
        KeepsPlaced(sys.pages, sys'.pages, c);
      }
    }
  }

  /** No live buffer overlaps a page that was not there before. */
  lemma NewPageUnused(sys: System, pages': map<Place, Page>, s: Place)
    requires Exact(sys) && PagesOk(pages') && s in pages' && s !in sys.pages
    requires forall t :: t in sys.pages ==> t in pages'
    ensures Users(sys.live, s) == 0
  {
    UsersPositive(sys.live, s);
    forall c | c in sys.live && Touches(s, c.page, End(c)) ensures false {
      var t := Overlap(sys.pages, s, c);
      hide Lo, Hi;
    }
  }

  /** Releasing a buffer keeps the counts exact, and the loop runs to its end. */
  lemma ReleaseExact(sys: System, sys': System, i: nat)
    requires Exact(sys) && Release(sys, sys', i)
    ensures Exact(sys')
    ensures ReleaseWalk(sys.pages, sys.live[i].page, End(sys.live[i])).done
    ensures sys'.pages == Unreferenced(sys.pages, sys.live[i].page, End(sys.live[i]))
  {
    var b := sys.live[i];
    hide Lo, Hi, FindPage, WfPlace, Touches, ReleaseWalk;
    assert Placed(sys.pages, b);
    AlignedWalkExact(sys.pages, b.page, End(b), FindPage(sys.pages, b.page).value);
    assert sys'.pages == Unreferenced(sys.pages, b.page, End(b));
    forall s | s in sys.pages
      ensures s in sys'.pages ==> sys'.pages[s].refcnt == Users(sys'.live, s) && sys'.pages[s].refcnt >= 1
      ensures s !in sys'.pages ==> Users(sys'.live, s) == 0
    {
      UsersWithout(sys.live, i, s);
    }
    forall c | c in sys'.live ensures Placed(sys'.pages, c) {
      forall s | s in sys.pages && Touches(s, c.page, End(c)) ensures s in sys'.pages {
        UsersPositive(sys'.live, s);
      }
      KeepsPlaced(sys.pages, sys'.pages, c);
    }
  }

  lemma StepExact(sys: System, sys': System)
    requires Exact(sys) && Step(sys, sys')
    ensures Exact(sys')
  {
    hide Exact, Prepare, Release;
    if b, flags :| Prepare(sys, sys', b, flags) {
      PrepareExact(sys, sys', b, flags);
    } else {
      var i :| Release(sys, sys', i);
      ReleaseExact(sys, sys', i);
    }
  }

  /** In every run of preparations and releases, each page's count is the number
      of live buffers that overlap it. */
  lemma {:induction false} RunExact(states: seq<System>)
    requires Run(states)
    ensures Exact(states[|states| - 1])
    decreases |states|
  {
    var n := |states|;
    if n == 1 {
      assert states[0] == Fresh;
    } else {
      hide Exact, Step;
      var before := states[..n - 1];
      assert forall k {:trigger before[k]} :: 0 <= k < |before| ==> before[k] == states[k];
      RunExact(before);
      StepExact(states[n - 2], states[n - 1]);
    }
  }

  /** So once every buffer is released, in whatever order, nothing stays mapped. */
  lemma RunDrains(states: seq<System>)
    requires Run(states) && states[|states| - 1].live == []
    ensures states[|states| - 1].pages == map[]
  {
    RunExact(states);
    var sys := states[|states| - 1];
    forall s | s in sys.pages ensures false {
      ghost var users := Users(sys.live, s);
    }
  }

  /** A buffer that was pinned from an address aligned to the page size that the
      operating system reported is placed, if that size is at least the size of
      the page that the table maps there. */
  lemma HonestPageSize(pages: map<Place, Page>, pages': map<Place, Page>, b: Buffer, flags: set<Flag>, os: PageSize)
    requires PagesOk(pages') && Pinned(pages, pages', b.page, End(b), flags)
    requires 0 <= b.page <= b.vaddr && b.page < End(b) && b.page < VA_LIMIT && b.page % SizeToBytes(os) == 0
    requires FindPage(pages', b.page).Some? ==> FindPage(pages', b.page).value.level <= LevelOf(os) && os != PageNone
    ensures Placed(pages', b)
  {
    hide FindPage, Lo, Hi, PagesOk, WfPlace, Span, PageNum;
    assert MappedAt(pages', b.page);
    var s := FindPage(pages', b.page).value;
    HoldsIffPlaceOf(s, b.page);
    PageStart(b.page, s.level);
    SizeAligned(b.page, s.level, os);
  }

  /** A successful preparation of a user buffer is a step of a run when the operating
      system is honest about the page size at its start. */
  lemma PreparedIsStep(sys: System, pages': map<Place, Page>, b: Buffer, flags: set<Flag>, os: PageSize)
    requires PagesOk(pages') && Pinned(sys.pages, pages', b.page, End(b), flags)
    requires 0 <= b.vaddr && 0 < b.size && End(b) <= VA_LIMIT
    requires os != PageNone && b.page == b.vaddr - b.vaddr % SizeToBytes(os)
    requires FindPage(pages', b.page).Some? ==> FindPage(pages', b.page).value.level <= LevelOf(os)
    ensures Prepare(sys, System(pages', sys.live + [b]), b, flags)
  {
    hide FindPage, Pinned, PagesOk, Placed;
    AlignedPage(b.vaddr, os);
    HonestPageSize(sys.pages, pages', b, flags, os);
  }

  lemma AlignedPage(va: int, os: PageSize)
    requires 0 <= va && os != PageNone
    ensures var page := va - va % SizeToBytes(os);
            0 <= page <= va && page % SizeToBytes(os) == 0
  {
    RoundDown(va, SizeToBytes(os));
  }

  /** And the release of a tracked buffer is one, whichever equal buffer it takes. */
  lemma ReleasedIsStep(sys: System, e: Buffer, pages': map<Place, Page>) returns (i: nat, sys': System)
    requires e in multiset(sys.live) && pages' == ReleaseWalk(sys.pages, e.page, End(e)).pages
    ensures Release(sys, sys', i) && sys'.pages == pages'
    ensures multiset(sys'.live) == multiset(sys.live) - multiset{e}
  {
    i :| 0 <= i < |sys.live| && sys.live[i] == e;
    sys' := System(pages', Without(sys.live, i));
    assert sys.live == sys.live[..i] + [e] + sys.live[i + 1..];
  }

  lemma SizeAligned(page: int, level: int, os: PageSize)
    requires 0 <= level <= LevelOf(os) && os != PageNone && page % SizeToBytes(os) == 0
    ensures page % Span(level) == 0
  {
    var bytes, unit := SizeToBytes(os), Span(level);
    var k, n := bytes / unit, page / bytes;
    assert bytes == k * unit && page == n * bytes;
    hide SizeToBytes, Span;
    MultipleOfMultiple(n, k, unit);
  }

  lemma MultipleOfMultiple(n: int, k: int, unit: int)
    requires unit > 0
    ensures (n * (k * unit)) % unit == 0
  {
    assert n * (k * unit) == (n * k) * unit;
    Remainder(n * (k * unit), unit, n * k, 0);
  }

  /** An MPF-allocated buffer is pinned over its rounded length but released over
      the length asked for.  The release brings the table back to what it was if
      and only if no pinned page starts beyond the length asked for. */
  lemma AllocatedReleaseIff(pages: map<Place, Page>, pages': map<Place, Page>, addr: int, len: int, rounded: int,
                            flags: set<Flag>)
    requires PagesOk(pages) && PagesOk(pages') && Pinned(pages, pages', addr, addr + rounded, flags)
    requires 0 <= addr && 0 < len <= rounded && addr + rounded <= VA_LIMIT
    requires forall s :: s in pages ==> !Touches(s, addr, addr + rounded)
    ensures ReleaseWalk(pages', addr, addr + len) == Walked(pages, true) <==>
            forall s :: s in pages' ==> !(addr + len <= Lo(s) < addr + rounded)
  {
    hide FindPage, Lo, Hi, ReleaseWalk, WfPlace, PagesOk, Touches, Unreferenced;
    forall x | addr <= x < addr + len ensures MappedAt(pages', x) {}
    FirstStartsThere(pages, pages', addr, addr + rounded, flags);
    AlignedWalkExact(pages', addr, addr + len, FindPage(pages', addr).value);
    forall s | s in pages'
      ensures s in pages ==>
                !Touches(s, addr, addr + len) && pages'[s] == pages[s] && !(addr + len <= Lo(s) < addr + rounded)
      ensures s !in pages ==> pages'[s].refcnt == 1 && (Touches(s, addr, addr + len) <==> Lo(s) < addr + len)
      ensures s !in pages ==> Lo(s) < addr + rounded
    {
      PageInPinned(pages, pages', addr, len, rounded, flags, s);
    }
    TailRemains(pages, pages', addr, len, rounded);
  }

  /** In a region where nothing was mapped, the first page pinned starts at its start. */
  lemma FirstStartsThere(pages: map<Place, Page>, pages': map<Place, Page>, lo: VAddr, hi: int, flags: set<Flag>)
    requires PagesOk(pages') && Pinned(pages, pages', lo, hi, flags) && lo < hi
    requires forall s :: s in pages ==> !Touches(s, lo, hi)
    ensures FindPage(pages', lo).Some? && Lo(FindPage(pages', lo).value) == lo
  {
    assert MappedAt(pages', lo);
    var s := FindPage(pages', lo).value;
    Found(pages', s, lo);
    hide FindPage, PagesOk, Bump;
    assert s !in pages;
  }

  lemma TailRemains(pages: map<Place, Page>, pages': map<Place, Page>, addr: int, len: int, rounded: int)
    requires forall s :: s in pages ==> s in pages'
    requires forall s :: s in pages' && s in pages ==>
               !Touches(s, addr, addr + len) && pages'[s] == pages[s] && !(addr + len <= Lo(s) < addr + rounded)
    requires forall s :: s in pages' && s !in pages ==>
               pages'[s].refcnt == 1 && (Touches(s, addr, addr + len) <==> Lo(s) < addr + len) && Lo(s) < addr + rounded
    ensures Unreferenced(pages', addr, addr + len) == pages <==>
            forall s :: s in pages' ==> !(addr + len <= Lo(s) < addr + rounded)
  {
    hide Lo, Hi, Touches;
    var after := Unreferenced(pages', addr, addr + len);
    if forall s :: s in pages' ==> !(addr + len <= Lo(s) < addr + rounded) {
      assert after == pages;
    } else {
      var s :| s in pages' && addr + len <= Lo(s) < addr + rounded;
      assert s in after && s !in pages;
    }
  }

  lemma PageInPinned(pages: map<Place, Page>, pages': map<Place, Page>, addr: int, len: int, rounded: int,
                     flags: set<Flag>, s: Place)
    requires PagesOk(pages') && Pinned(pages, pages', addr, addr + rounded, flags) && s in pages'
    requires 0 < len <= rounded
    requires forall t :: t in pages ==> !Touches(t, addr, addr + rounded)
    ensures s in pages ==> !Touches(s, addr, addr + len) && pages'[s] == pages[s] && !(addr + len <= Lo(s) < addr + rounded)
    ensures s !in pages ==> pages'[s].refcnt == 1 && (Touches(s, addr, addr + len) <==> Lo(s) < addr + len)
    ensures s !in pages ==> Lo(s) < addr + rounded
  {
    OwnPlace(s);
  }

  // ---------------------------------------------------------------------
  //  Whose memory a release gives back
  // ---------------------------------------------------------------------

  /** No page under the buffer is marked as memory that MPF allocated. */
  ghost predicate UserMemory(pages: map<Place, Page>, b: Buffer) {
    forall s :: s in pages && Touches(s, b.page, End(b)) ==> Alloc !in pages[s].flags
  }

  /** A preallocated buffer is user memory once it is prepared, whatever was there before. */
  lemma PreparedIsUserMemory(pages: map<Place, Page>, pages': map<Place, Page>, b: Buffer, flags: set<Flag>)
    requires Pinned(pages, pages', b.page, End(b), flags) && Prealloc in flags && Alloc !in flags
    ensures UserMemory(pages', b)
  {
    hide Touches, Mapped;
  }

  /** It stays user memory as long as it is live, whatever is prepared and released besides. */
  lemma StaysUserMemory(sys: System, sys': System, b: Buffer)
    requires Exact(sys) && Step(sys, sys') && b in sys.live && b in sys'.live && UserMemory(sys.pages, b)
    ensures UserMemory(sys'.pages, b)
  {
    hide Touches, Mapped, PagesOk, ReleaseWalk, Placed;
    if c, flags :| Prepare(sys, sys', c, flags) {
      forall s | s in sys'.pages && Touches(s, b.page, End(b)) ensures Alloc !in sys'.pages[s].flags {
        if s !in sys.pages {
          NewPageUnused(sys, sys'.pages, s);
          UsersPositive(sys.live, s);
        }
      }
    } else {
      var i :| Release(sys, sys', i);
      ReleaseExact(sys, sys', i);
    }
  }

  lemma {:induction false} RunKeepsUserMemory(states: seq<System>, i: nat, j: nat, b: Buffer)
    requires Run(states) && i <= j < |states| && UserMemory(states[i].pages, b)
    requires forall k :: i <= k <= j ==> b in states[k].live
    ensures UserMemory(states[j].pages, b)
    decreases j
  {
    hide Exact, Step, UserMemory, Run;
    if i < j {
      RunKeepsUserMemory(states, i, j - 1, b);
      ExactAt(states, j - 1);
      StaysUserMemory(states[j - 1], states[j], b);
    }
  }

  lemma ExactAt(states: seq<System>, k: nat)
    requires Run(states) && k < |states|
    ensures Exact(states[k])
    ensures k + 1 < |states| ==> Step(states[k], states[k + 1])
  {
    hide Exact, Step;
    var before := states[..k + 1];
    assert forall m {:trigger before[m]} :: 0 <= m < |before| ==> before[m] == states[m];
    RunExact(before);
    if k + 1 < |states| {
      var next := states[k + 1];
    }
  }

  /** A release takes no MPF-allocated page from user memory, so it does not unmap it. */
  lemma UserMemoryIsNotUnmapped(pages: map<Place, Page>, pages': map<Place, Page>, b: Buffer)
    requires UserMemory(pages, b) && Fewer(pages, pages', b.page, End(b))
    ensures !SomeAlloc(pages, pages')
  {
    hide Touches, Taken;
  }

  /** The release of a buffer that MPF allocated where nothing was mapped visits pages that
      it allocated, all of which go away, to the end: its memory is unmapped. */
  lemma AllocatedIsUnmapped(pages: map<Place, Page>, pages': map<Place, Page>, addr: int, len: int, rounded: int,
                            flags: set<Flag>)
    requires PagesOk(pages) && PagesOk(pages') && Pinned(pages, pages', addr, addr + rounded, flags) && Alloc in flags
    requires 0 <= addr && 0 < len <= rounded && addr + rounded <= VA_LIMIT
    requires forall s :: s in pages ==> !Touches(s, addr, addr + rounded)
    ensures var walk := ReleaseWalk(pages', addr, addr + len);
            walk.done && !SomeStays(pages', walk.pages) && SomeAlloc(pages', walk.pages)
  {
    hide FindPage, Lo, Hi, ReleaseWalk, WfPlace, PagesOk, Touches;
    forall x | addr <= x < addr + len ensures MappedAt(pages', x) {}
    FirstStartsThere(pages, pages', addr, addr + rounded, flags);
    var first := FindPage(pages', addr).value;
    AlignedWalkExact(pages', addr, addr + len, first);
    forall s | s in pages'
      ensures s in pages ==> !Touches(s, addr, addr + len)
      ensures s !in pages ==> pages'[s].refcnt == 1
    {
      PageInPinned(pages, pages', addr, len, rounded, flags, s);
    }
    FirstTouched(pages', addr, len, first);
    assert first !in pages;
    assert Taken(pages', Unreferenced(pages', addr, addr + len), first);
  }

  lemma FirstTouched(pages: map<Place, Page>, addr: VAddr, len: int, s: Place)
    requires FindPage(pages, addr) == Some(s) && 0 < len
    ensures s in pages && Touches(s, addr, addr + len)
  {}

  /** A run that leaks.  Buffer A = [0x20_0000, 0x20_1000) gets a 2MB page.  Buffer
      B = [0x20_1000, 0x40_1000), whose first page the system reports as 4KB, counts that
      page and gets a 4KB page at 0x40_0000.  A is released, then B: its walk steps from
      inside the 2MB page over the 4KB page, reports success, and leaves it counted. */
  lemma MisalignedWalkLeaks()
    ensures var big, small, flags := Place(1, 1), Place(0, 1024), {Prealloc};
            var bigPage := Page(0x20_0000, {Terminal, Prealloc}, 1, 1);
            var smallPage := Page(0x60_0000, {Terminal, Prealloc}, 2, 1);
            var withA := map[big := bigPage];
            var withBoth := map[big := bigPage.(refcnt := 2), small := smallPage];
            var withB := map[big := bigPage, small := smallPage];
            && Pinned(map[], withA, 0x20_0000, 0x20_1000, flags)
            && Pinned(withA, withBoth, 0x20_1000, 0x40_1000, flags)
            && ReleaseWalk(withBoth, 0x20_0000, 0x20_1000) == Walked(withB, true)
            && ReleaseWalk(withB, 0x20_1000, 0x40_1000) == Walked(map[small := smallPage], true)
  {
    BigCounted();
    BigSkipsSmall();
  }

  lemma BigCounted()
    ensures var big, small, flags := Place(1, 1), Place(0, 1024), {Prealloc};
            var bigPage := Page(0x20_0000, {Terminal, Prealloc}, 1, 1);
            var smallPage := Page(0x60_0000, {Terminal, Prealloc}, 2, 1);
            var withA := map[big := bigPage];
            var withBoth := map[big := bigPage.(refcnt := 2), small := smallPage];
            && Pinned(map[], withA, 0x20_0000, 0x20_1000, flags)
            && Pinned(withA, withBoth, 0x20_1000, 0x40_1000, flags)
  {
    var big, small := Place(1, 1), Place(0, 1024);
    var bigPage := Page(0x20_0000, {Terminal, Prealloc}, 1, 1);
    var smallPage := Page(0x60_0000, {Terminal, Prealloc}, 2, 1);
    BigAndSmall(bigPage, smallPage, 2);
    var withA := map[big := bigPage];
    forall x | 0x20_0000 <= x < 0x20_1000 ensures MappedAt(withA, x) {
      Found(withA, big, x);
    }
    hide FindPage, PagesOk, MappedAt;
  }

  lemma BigSkipsSmall()
    ensures var big, small := Place(1, 1), Place(0, 1024);
            var bigPage := Page(0x20_0000, {Terminal, Prealloc}, 1, 1);
            var smallPage := Page(0x60_0000, {Terminal, Prealloc}, 2, 1);
            var withBoth := map[big := bigPage.(refcnt := 2), small := smallPage];
            var withB := map[big := bigPage, small := smallPage];
            && ReleaseWalk(withBoth, 0x20_0000, 0x20_1000) == Walked(withB, true)
            && ReleaseWalk(withB, 0x20_1000, 0x40_1000) == Walked(map[small := smallPage], true)
  {
    hide ReleaseWalk, Mapped;
    var big, small := Place(1, 1), Place(0, 1024);
    var bigPage := Page(0x20_0000, {Terminal, Prealloc}, 1, 1);
    var smallPage := Page(0x60_0000, {Terminal, Prealloc}, 2, 1);
    BigAndSmall(bigPage, smallPage, 1);
    BigAndSmall(bigPage, smallPage, 2);
    var withBoth := map[big := bigPage.(refcnt := 2), small := smallPage];
    var withB := map[big := bigPage, small := smallPage];
    Found(withBoth, big, 0x20_0000);
    Found(withB, big, 0x20_1000);
    hide FindPage, PagesOk;
    WalkOnce(withBoth, 0x20_0000, 0x20_1000, big);
    WalkOnce(withB, 0x20_1000, 0x40_1000, big);
    assert TakeOne(withBoth, big) == withB && TakeOne(withB, big) == map[small := smallPage];
  }

  /** A 2MB page and the 4KB page after it. */
  lemma BigAndSmall(bigPage: Page, smallPage: Page, n: nat)
    requires PageOk(bigPage, 1) && PageOk(smallPage, 0) && n >= 1
    ensures var pages := map[Place(1, 1) := bigPage.(refcnt := n), Place(0, 1024) := smallPage];
            PagesOk(pages) && PagesOk(map[Place(1, 1) := bigPage]) && Mapped(pages, 0x20_1000, 0x40_1000)
  {
    var big, small := Place(1, 1), Place(0, 1024);
    var pages := map[big := bigPage.(refcnt := n), small := smallPage];
    assert PagesOk(pages);
    forall x | 0x20_1000 <= x < 0x40_1000 ensures MappedAt(pages, x) {
      Found(pages, big, x);
      Found(pages, small, x);
    }
  }
}
