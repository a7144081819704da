/** Runs of the invalidation protocol that leave a stale byte behind, and how the code of
    the kernel and of the page table takes the steps of the protocol.  */
module MonitorRuns {
  import opened Addresses
  import opened Words
  import opened TableView
  import opened TableSpec
  import opened MmuMonitors
  import opened MonitorProtocol

  // ---------------------------------------------------------------------
  //  Runs that leave a stale byte
  // ---------------------------------------------------------------------

  ghost function Without(frames: Frames, r: Range): Frames {
    imap x | x in frames && !InRange(r, x) :: frames[x]
  }

  /** Memory is unmapped: the invalidation begins, the bytes go, and the invalidation ends
      with all the memory that it asks for. */
  ghost function Unmap(s: Sys, r: Range): Sys {
    var gone := s.(frames := Without(s.frames, r));
    if |s.queue| <= QUEUE_MAX_EVT
    then gone.(evtCnt := s.evtCnt + 1, queue := s.queue + [r], evtfd := s.evtfd + 1,
               accepted := s.accepted + [Report(r, gone.frames)])
    else gone.(refused := s.refused + [Report(r, gone.frames)])
  }

  ghost function Unmapping(s: Sys, r: Range): Sys {
    s.(startEvtCnt := 1, inFlight := [r], frames := Without(s.frames, r))
  }

  lemma Unmaps(s: Sys, r: Range)
    requires Reachable(s) && s.inFlight == [] && s.startEvtCnt == 0
    ensures Reachable(Unmapping(s, r)) && Reachable(Unmap(s, r))
    ensures RangeEnd(Unmapping(s, r), Unmap(s, r), 0, [r], [true])
  {
    var begun := s.(startEvtCnt := 1, inFlight := [r]);
    assert Step(s, begun) by {
      assert s.inFlight + [r] == [r];
      assert RangeStart(s, begun, r);
    }
    UnmapsBytes(begun, r);
    UnmapEnds(s, r);
    hide Reachable, Unmap, MemoryChanges, RangeEnd;
    assert Step(begun, Unmapping(s, r)) && Step(Unmapping(s, r), Unmap(s, r));
    hide Step;
    ReachStep(s, begun);
    ReachStep(begun, Unmapping(s, r));
    ReachStep(Unmapping(s, r), Unmap(s, r));
  }

  lemma UnmapsBytes(s: Sys, r: Range)
    requires s.inFlight == [r]
    ensures MemoryChanges(s, s.(frames := Without(s.frames, r)))
  {
    hide Covers;
    forall x ensures Covers([r], x) <==> InRange(r, x) { CoversOne(r, x); }
  }

  lemma UnmapEnds(s: Sys, r: Range)
    requires s.inFlight == [] && s.startEvtCnt == 0
    ensures RangeEnd(Unmapping(s, r), Unmap(s, r), 0, [r], [true])
  {
    SortOneMore([], [], QUEUE_MAX_EVT + 1 - |s.queue|, r, true);
    assert [] + [r] == [r] && [] + [true] == [true];
    assert Reports([r], Without(s.frames, r)) == [Report(r, Without(s.frames, r))];
    assert Reports([], Without(s.frames, r)) == [];
    hide Covers, Without;
  }

  ghost function Mapped(s: Sys, r: Range): Sys {
    s.(frames := imap x | x in s.frames || InRange(r, x) :: if InRange(r, x) then s.nextMapping else s.frames[x],
       nextMapping := s.nextMapping + 1)
  }

  lemma Maps(s: Sys, r: Range)
    requires Reachable(s) && s.inFlight == [] && forall x :: InRange(r, x) ==> x !in s.frames
    ensures Reachable(Mapped(s, r))
  {
    assert MemoryChanges(s, Mapped(s, r));
    assert Step(s, Mapped(s, r));
    hide Step, Reachable, Mapped;
    ReachStep(s, Mapped(s, r));
  }

  /** Nothing but the queue waits to be done. */
  ghost predicate Quiet(s: Sys) {
    && s.inFlight == [] && s.startEvtCnt == 0 && s.consumer == Idle && s.lock == Free
    && s.evtCnt == s.evtfd == |s.queue|
  }

  /** Releasing one range after the other. */
  ghost function ReleasedAll(pages: map<Place, Page>, ranges: seq<Range>): map<Place, Page> {
    if ranges == [] then pages
    else ReleasedAll(Released(pages, ranges[0].start, ranges[0].end), ranges[1..])
  }

  /** The monitor thread fetches and applies all that is queued. */
  ghost function Drained(s: Sys): Sys {
    s.(queue := [], evtCnt := 0, evtfd := 0, pages := ReleasedAll(s.pages, s.queue), applied := s.applied + s.queue)
  }

  lemma Drains(s: Sys)
    requires Reachable(s) && Quiet(s) && s.queue != []
    ensures Reachable(Drained(s))
  {
    var woken := s.(consumer := Woken(|s.queue|), evtfd := 0);
    var ready := woken.(consumer := Ready(|s.queue|), lock := ByConsumer);
    var drained := Drained(ready).(consumer := Ready(0));
    assert Step(s, woken) by { assert ReadEventfd(s, woken); }
    assert Step(woken, ready) by { assert ConsumerLocks(woken, ready); }
    assert Step(drained, Drained(s)) by { assert ConsumerUnlocks(drained, Drained(s)); }
    hide Step, Reachable, ReleasedAll;
    ReachStep(s, woken);
    ReachStep(woken, ready);
    DrainLoop(ready);
    ReachStep(drained, Drained(s));
  }

  lemma {:induction false} DrainLoop(s: Sys)
    requires Reachable(s) && s.consumer == Ready(|s.queue|) && s.evtCnt == |s.queue| && s.evtfd == 0
    ensures Reachable(Drained(s).(consumer := Ready(0)))
    decreases |s.queue|
  {
    hide Step, Reachable, Released, Drained, Fetched, Applied;
    if s.queue == [] {
      NothingToDrain(s);
    } else {
      FetchAndApply(s);
      ReachStep(s, Fetched(s));
      ReachStep(Fetched(s), Applied(s));
      DrainLoop(Applied(s));
    }
  }

  lemma NothingToDrain(s: Sys)
    requires s.queue == [] && s.consumer == Ready(0) && s.evtCnt == s.evtfd == 0
    ensures Drained(s).(consumer := Ready(0)) == s
  {}

  ghost function Fetched(s: Sys): Sys
    requires s.queue != []
  {
    s.(consumer := Applying(|s.queue| - 1, s.queue[0]), queue := s.queue[1..], evtCnt := |s.queue| - 1)
  }

  ghost function Applied(s: Sys): Sys
    requires s.queue != []
  {
    var r := s.queue[0];
    Fetched(s).(consumer := Ready(|s.queue| - 1), applied := s.applied + [r], pages := Released(s.pages, r.start, r.end))
  }

  lemma FetchAndApply(s: Sys)
    requires s.consumer == Ready(|s.queue|) && s.evtCnt == |s.queue| > 0
    ensures Step(s, Fetched(s)) && Step(Fetched(s), Applied(s))
    ensures var next := Applied(s);
            && next.consumer == Ready(|next.queue|) && next.evtCnt == |next.queue| == |s.queue| - 1
            && next.evtfd == s.evtfd && Drained(next).(consumer := Ready(0)) == Drained(s).(consumer := Ready(0))
  {
    hide KernelStep, ThreadStep, Released;
    assert GetEvent(s, Fetched(s));
    assert ApplyRange(Fetched(s), Applied(s));
    assert s.applied + s.queue == s.applied + [s.queue[0]] + s.queue[1..];
  }

  lemma TakeLock(s: Sys, id: int)
    requires Reachable(s) && s.lock == Free
    ensures Reachable(s.(lock := ByThread(id)))
  {
    var locked := s.(lock := ByThread(id));
    assert Step(s, locked) by { assert ThreadStep(s, locked, id); }
    hide Step, Reachable;
    ReachStep(s, locked);
  }

  lemma GiveLock(s: Sys, id: int)
    requires Reachable(s) && s.lock == ByThread(id)
    ensures Reachable(s.(lock := Free))
  {
    var unlocked := s.(lock := Free);
    assert Step(s, unlocked) by { assert ThreadStep(s, unlocked, id); }
    hide Step, Reachable;
    ReachStep(s, unlocked);
  }

  lemma Locks(s: Sys, id: int)
    requires Reachable(s) && Quiet(s) && s.queue == []
    ensures Settled(s.(lock := ByThread(id)), id)
  {
    hide Reachable;
    TakeLock(s, id);
  }

  /** A page of memory, mapped and pinned. */
  ghost predicate OnePage(s: Sys, page: Page, refs: int) {
    && Quiet(s) && s.queue == s.applied == [] && s.accepted == s.refused == []
    && s.frames == (imap x | InRange(Range(0, 4096), x) :: 0) && s.nextMapping == 1
    && s.pages == map[Place(0, 0) := page] && s.pins == map[Place(0, 0) := Pinning(s.frames, refs, 0, 0, 0)]
  }

  lemma PinOnePage(page: Page) returns (s: Sys)
    requires page.refcnt == 1
    ensures Reachable(s) && OnePage(s, page, 1)
  {
    var t, frames := Place(0, 0), imap x | InRange(Range(0, 4096), x) :: 0;
    var s0 := Sys(0, 0, [], 0, [], frames, 1, Idle, Free, map[], map[], [], [], []);
    var s1 := s0.(lock := ByThread(1));
    var s2 := s1.(pages := map[t := page], pins := map[t := PinnedNow(s1)]);
    s := s2.(lock := Free);
    assert Step(s0, s1) by { assert ThreadStep(s0, s1, 1); }
    assert Step(s1, s2) by { assert PinsPage(s1, s2, 1, t, page); assert ThreadStep(s1, s2, 1); }
    assert Step(s2, s) by { assert ThreadStep(s2, s, 1); }
    assert Run([s0]);
    hide Step, Run;
    ReachStep(s0, s1);
    ReachStep(s1, s2);
    ReachStep(s2, s);
  }

  /** The lock matters: without it a zero count can be read between the fetch of the
      last range and its application, with a stale page still in the table. */
  lemma UnlockedSampleIsTooEarly(page: Page) returns (s: Sys)
    requires page.refcnt == 1
    ensures Reachable(s) && s.evtCnt + s.startEvtCnt == 0 && s.lock == ByConsumer
    ensures s.refused == [] && |s.accepted| == 1 && s.applied == []
    ensures Place(0, 0) in s.pages && Place(0, 0) in s.pins && s.pins[Place(0, 0)].refs == 1
    ensures Stale(s, Place(0, 0), 0)
  {
    hide Reachable, Step, Without;
    var s1 := PinOnePage(page);
    var s2 := Unmap(s1, Range(0, 4096));
    Unmaps(s1, Range(0, 4096));
    GoneWithout(s1.frames, Range(0, 4096), 0);
    var s3 := s2.(consumer := Woken(1), evtfd := 0);
    var s4 := s3.(consumer := Ready(1), lock := ByConsumer);
    s := s4.(consumer := Applying(0, Range(0, 4096)), queue := [], evtCnt := 0);
    Fetches(s2, Range(0, 4096));
  }

  lemma Fetches(s: Sys, r: Range)
    requires Reachable(s) && Quiet(s) && s.queue == [r]
    ensures Reachable(s.(consumer := Applying(0, r), lock := ByConsumer, queue := [], evtCnt := 0, evtfd := 0))
  {
    var woken := s.(consumer := Woken(1), evtfd := 0);
    var ready := woken.(consumer := Ready(1), lock := ByConsumer);
    var fetched := ready.(consumer := Applying(0, r), queue := [], evtCnt := 0);
    hide Reachable, KernelStep, ThreadStep;
    assert ReadEventfd(s, woken) && ConsumerLocks(woken, ready) && GetEvent(ready, fetched);
    assert MonitorStep(s, woken) && MonitorStep(woken, ready) && MonitorStep(ready, fetched);
    ReachStep(s, woken);
    ReachStep(woken, ready);
    ReachStep(ready, fetched);
  }

  /** A page with two references outlives the range that unmapped it: a waiter holds the
      lock and reads a zero count, no range was refused, and the page is stale. */
  lemma SharedPageStaysStale(page: Page, id: int) returns (s: Sys)
    requires page.refcnt == 1
    ensures Settled(s, id) && s.refused == [] && |s.accepted| == |s.applied| == 1
    ensures Place(0, 0) in s.pages && Place(0, 0) in s.pins && s.pins[Place(0, 0)].refs == 2
    ensures Stale(s, Place(0, 0), 0)
  {
    hide Reachable, Released, Without;
    var s1 := PinOnePage(page);
    var s2 := CountOnePage(s1, page);
    var s3 := Unmap(s2, Range(0, 4096));
    Unmaps(s2, Range(0, 4096));
    assert 0 !in s3.frames by { GoneWithout(s2.frames, Range(0, 4096), 0); }
    Drains(s3);
    SharedOutlives(page);
    assert s3.queue == [Range(0, 4096)] && s3.pages == map[Place(0, 0) := page.(refcnt := 2)];
    ReleasedOne(s3.pages, Range(0, 4096));
    s := Drained(s3).(lock := ByThread(id));
    Locks(Drained(s3), id);
  }

  lemma GoneWithout(frames: Frames, r: Range, x: int)
    ensures InRange(r, x) ==> x !in Without(frames, r)
  {}

  lemma CountOnePage(s: Sys, page: Page) returns (s': Sys)
    requires Reachable(s) && OnePage(s, page, 1)
    ensures Reachable(s') && OnePage(s', page.(refcnt := page.refcnt + 1), 2)
  {
    hide Reachable, Step;
    var t := Place(0, 0);
    var s1 := s.(lock := ByThread(1));
    var s2 := s1.(pages := s.pages[t := Bump(page, {})], pins := s.pins[t := s.pins[t].(refs := 2)]);
    s' := s2.(lock := Free);
    TakeLock(s, 1);
    CountIsStep(s1, s2, t);
    ReachStep(s1, s2);
    GiveLock(s2, 1);
  }

  lemma CountIsStep(s: Sys, s': Sys, t: Place)
    requires CountsPage(s, s', 1, t, {})
    ensures Step(s, s')
  {
    hide CountsPage, KernelStep, MonitorStep;
    assert ThreadStep(s, s', 1);
  }

  lemma ReleasedOne(pages: map<Place, Page>, r: Range)
    ensures ReleasedAll(pages, [r]) == Released(pages, r.start, r.end)
  {}

  lemma SharedOutlives(page: Page)
    requires page.refcnt == 1
    ensures Released(map[Place(0, 0) := page.(refcnt := 2)], 0, 4096) == map[Place(0, 0) := page]
  {}

  /** Memory next to the page, which is mapped and unmapped again and again. */
  const NEXT_PAGE: Range := Range(4096, 8192)

  /** Each round of mapping and unmapping queues one event while the queue has room. */
  lemma {:induction false} QueueFills(s: Sys, n: nat) returns (s': Sys)
    requires Reachable(s) && Quiet(s) && |s.queue| + n <= QUEUE_MAX_EVT + 1
    requires (forall i :: 0 <= i < |s.queue| ==> s.queue[i] == NEXT_PAGE)
    requires forall x :: InRange(NEXT_PAGE, x) ==> x !in s.frames
    ensures Reachable(s') && Quiet(s') && |s'.queue| == |s.queue| + n
    ensures forall i :: 0 <= i < |s'.queue| ==> s'.queue[i] == NEXT_PAGE
    ensures s'.frames == s.frames && s'.pages == s.pages && s'.pins == s.pins && s'.refused == s.refused
    decreases n
  {
    s' := s;
    if n > 0 {
      var mapped := Mapped(s, NEXT_PAGE);
      var next := Unmap(mapped, NEXT_PAGE);
      Maps(s, NEXT_PAGE);
      Unmaps(mapped, NEXT_PAGE);
      assert Without(mapped.frames, NEXT_PAGE) == s.frames;
      hide Reachable, Mapped, Without;
      s' := QueueFills(next, n - 1);
    }
  }

  lemma {:induction false} ElsewhereKeeps(pages: map<Place, Page>, ranges: seq<Range>)
    requires forall i :: 0 <= i < |ranges| ==> ranges[i] == NEXT_PAGE
    requires forall t :: t in pages ==> !Touches(t, 4096, 8192)
    ensures ReleasedAll(pages, ranges) == pages
  {
    if ranges != [] {
      assert Released(pages, 4096, 8192) == pages;
      hide Released, Touches;
      ElsewhereKeeps(pages, ranges[1..]);
    }
  }

  /** The queue's limit: with 101 events queued, and all the memory it asks for, the kernel
      refuses the range of a page that is pinned once.  Later a waiter holds the lock and
      reads a zero count, and the page is stale. */
  lemma RefusedRangeStaysStale(page: Page, id: int) returns (before: Sys, after: Sys, s: Sys)
    requires page.refcnt == 1
    ensures Reachable(before) && |before.queue| == 101 && RangeEnd(before, after, 0, [Range(0, 4096)], [true])
    ensures Settled(s, id) && s.accepted == before.accepted && s.refused == after.refused
    ensures Place(0, 0) in s.pages && Place(0, 0) in s.pins && s.pins[Place(0, 0)].refs == 1
    ensures Stale(s, Place(0, 0), 0)
  {
    hide Reachable, RangeEnd, ReleasedAll, Without;
    var s1 := PinOnePage(page);
    var full := QueueFills(s1, 101);
    before, after := Unmapping(full, Range(0, 4096)), Unmap(full, Range(0, 4096));
    Unmaps(full, Range(0, 4096));
    GoneWithout(full.frames, Range(0, 4096), 0);
    ElsewhereKeeps(after.pages, after.queue);
    Drains(after);
    s := Drained(after).(lock := ByThread(id));
    Locks(Drained(after), id);
  }

  // ---------------------------------------------------------------------
  //  The code takes these steps
  // ---------------------------------------------------------------------

  /** What the kernel's end of an invalidation promises is a step of the protocol,
      when an eventfd is registered and `vmas` are the mapped regions. */
  lemma EndIsStep(s: Sys, i: nat, filter: bool, vmas: seq<Vma>, emitted: seq<Range>, granted: seq<bool>,
                  evtList: seq<Range>, evtfd: int)
    requires i < |s.inFlight| && |granted| == |emitted|
    requires forall x :: x in s.frames <==> IsMapped(vmas, x)
    requires !filter ==> emitted == [s.inFlight[i]]
    requires filter ==> ExactGaps(vmas, s.inFlight[i].start, s.inFlight[i].end, emitted)
    requires var accepted := Sort(emitted, granted, QUEUE_MAX_EVT + 1 - |s.queue|).accepted;
             evtList == s.queue + accepted && evtfd == s.evtfd + |accepted|
    ensures exists s' :: RangeEnd(s, s', i, emitted, granted) && s'.queue == evtList && s'.evtfd == evtfd
  {
    var sorted := Sort(emitted, granted, QUEUE_MAX_EVT + 1 - |s.queue|);
    var s' := Ended(s, i, sorted.accepted, sorted.refused);
    hide Sort;
    if filter {
      GapsAreUnmapped(s.frames, vmas, s.inFlight[i], emitted);
    }
    hide Covers, IsMapped, ExactGaps, Reports;
    assert RangeEnd(s, s', i, emitted, granted);
  }

  lemma GapsAreUnmapped(frames: Frames, vmas: seq<Vma>, r: Range, gaps: seq<Range>)
    requires forall x :: x in frames <==> IsMapped(vmas, x)
    requires ExactGaps(vmas, r.start, r.end, gaps)
    ensures Emits(r, frames, gaps)
  {
    forall x ensures Covers(gaps, x) <==> InRange(r, x) && x !in frames {
      if i :| 0 <= i < |gaps| && gaps[i].start <= x < gaps[i].end {
        assert InRange(r, x);
      }
    }
  }

  /** A successful insertion into the table pins a page that is mapped now, or counts the
      page that is there already. */
  lemma InsertedIsStep(s: Sys, id: int, v: View, v': View, va: VAddr, level: int, page: Page, flags: set<Flag>)
    returns (s': Sys)
    requires Reachable(s) && s.lock == ByThread(id) && s.pages == v.pages
    requires 0 <= level <= 2 && page.refcnt == 1 && Inserted(v, v', OK, va, level, page, flags)
    requires CoverAt(v, va, level).None? ==> forall x :: Holds(PlaceOf(va, level), x) ==> x in s.frames
    ensures s'.pages == v'.pages
    ensures match CoverAt(v, va, level)
            case None => PinsPage(s, s', id, PlaceOf(va, level), page)
            case Some(t) => CountsPage(s, s', id, t, flags)
  {
    hide Reachable, Holds, WfPlace, Bump, CoverAt, Inserted, PlaceOf;
    RecordedPins(s);
    InsertedPages(v, v', va, level, page, flags);
    PlaceOfParent(va, level);
    var t := PlaceOf(va, level);
    match CoverAt(v, va, level)
    case None =>
      s' := s.(pages := s.pages[t := page], pins := s.pins[t := PinnedNow(s)]);
    case Some(c) =>
      s' := s.(pages := s.pages[c := Bump(s.pages[c], flags)],
               pins := s.pins[c := s.pins[c].(refs := s.pins[c].refs + 1)]);
  }

  lemma InsertedPages(v: View, v': View, va: VAddr, level: int, page: Page, flags: set<Flag>)
    requires 0 <= level <= 2 && Inserted(v, v', OK, va, level, page, flags)
    ensures PlaceOf(va, level).level == level
    ensures match CoverAt(v, va, level)
            case None => PlaceOf(va, level) !in v.pages && v'.pages == v.pages[PlaceOf(va, level) := page]
            case Some(t) => t in v.pages && v'.pages == v.pages[t := Bump(v.pages[t], flags)]
  {}

  lemma RecordedPins(s: Sys)
    requires Reachable(s)
    ensures s.pages.Keys <= s.pins.Keys
  {
    hide CountsOk, RefsOk, StaleOk, PinOk;
    ReachableOk(s);
  }

  /** The removal of a mapping gives up one reference. */
  lemma RemovedIsStep(s: Sys, id: int, v: View, v': View, r: FpgaResult, va: VAddr) returns (s': Sys)
    requires Reachable(s) && s.lock == ByThread(id) && s.pages == v.pages
    requires Removed(v, v', r, va) && r != NotFound
    ensures s'.pages == v'.pages && PageAt(v, va).Some? && DropsPage(s, s', id, PageAt(v, va).value)
  {
    hide Reachable, PageAt, Unbump, Removed;
    RecordedPins(s);
    RemovedPages(v, v', r, va);
    var t := PageAt(v, va).value;
    s' := s.(pages := v'.pages, pins := s.pins[t := s.pins[t].(refs := s.pins[t].refs - 1)]);
  }

  lemma RemovedPages(v: View, v': View, r: FpgaResult, va: VAddr)
    requires Removed(v, v', r, va) && r != NotFound
    ensures PageAt(v, va).Some?
    ensures var s := PageAt(v, va).value;
            s in v.pages && v'.pages == if v.pages[s].refcnt <= 1 then v.pages - {s} else v.pages[s := Unbump(v.pages[s])]
  {}

  /** And the release of a range is the application of that range. */
  lemma ReleasedIsStep(s: Sys, v: View, v': View) returns (s': Sys)
    requires s.consumer.Applying? && s.pages == v.pages
    requires v'.pages == Released(v.pages, s.consumer.range.start, s.consumer.range.end)
    ensures s'.pages == v'.pages && ApplyRange(s, s')
  {
    hide Released;
    var r := s.consumer.range;
    s' := s.(consumer := Ready(s.consumer.left), pages := v'.pages, applied := s.applied + [r]);
  }
}
