/** The invalidation protocol between the kernel, the monitor thread and threads
    that wait for it.

    Every step below is atomic: kernel steps and the ioctls hold the monitor list
    lock, table steps hold the page table lock.  A run interleaves them in any
    order, with any number of waiting and pinning threads.  */
module MonitorProtocol {
  import opened Addresses
  import opened Words
  import opened TableView
  import opened TableSpec
  import opened MmuMonitors

  /** Where the monitor thread is in its loop.  `left` events of the count it read
      are still to be fetched; Broken is a fetch from an empty queue. */
  datatype Consumer =
    | Idle
    | Woken(left: nat)
    | Ready(left: nat)
    | Applying(left: nat, range: Range)
    | Broken

  datatype Lock = Free | ByConsumer | ByThread(id: int)

  /** Memory as it is now: for each mapped byte, which mapping it belongs to.  A byte
      that is unmapped and mapped again belongs to a new mapping. */
  type Frames = imap<int, int>

  /** A range that an invalidation reported, and memory when it did. */
  datatype Report = Report(range: Range, frames: Frames)

  /** The last time a page was added to the table: memory then, the references taken
      since less those given up by threads, and how long the histories were. */
  datatype Pinning = Pinning(frames: Frames, refs: int, accepted: nat, refused: nat, applied: nat)

  datatype Sys = Sys(
    // kernel
    startEvtCnt: int,
    evtCnt: int,
    queue: seq<Range>,
    evtfd: int,
    inFlight: seq<Range>,
    frames: Frames,
    nextMapping: int,
    // user
    consumer: Consumer,
    lock: Lock,
    pages: map<Place, Page>,
    // history: pinnings, also of pages gone since, and what became of the ranges reported
    pins: map<Place, Pinning>,
    accepted: seq<Report>,
    refused: seq<Report>,
    applied: seq<Range>)

  ghost predicate Start(s: Sys) {
    && s.startEvtCnt == s.evtCnt == s.evtfd == 0 && s.queue == s.inFlight == s.applied == []
    && s.accepted == s.refused == []
    && s.consumer == Idle && s.lock == Free && s.pages == map[] && s.pins == map[]
    && forall x :: x in s.frames ==> s.frames[x] < s.nextMapping
  }

  ghost predicate InRange(r: Range, x: int) {
    r.start <= x < r.end
  }

  function Pending(c: Consumer): nat {
    match c
    case Idle => 0
    case Woken(n) => n
    case Ready(n) => n
    case Applying(n, _) => n
    case Broken => 0
  }

  function UnderWay(c: Consumer): seq<Range> {
    if c.Applying? then [c.range] else []
  }

  ghost function Ranges(reports: seq<Report>): seq<Range> {
    seq(|reports|, i requires 0 <= i < |reports| => reports[i].range)
  }

  ghost function Reports(ranges: seq<Range>, frames: Frames): seq<Report> {
    seq(|ranges|, i requires 0 <= i < |ranges| => Report(ranges[i], frames))
  }

  // ---------------------------------------------------------------------
  //  Kernel steps
  // ---------------------------------------------------------------------

  ghost predicate RangeStart(s: Sys, s': Sys, r: Range) {
    s' == s.(startEvtCnt := s.startEvtCnt + 1, inFlight := s.inFlight + [r])
  }

  /** Memory changes: bytes are unmapped only within invalidations under way, no byte
      is mapped within one, and what is mapped belongs to a new mapping. */
  ghost predicate MemoryChanges(s: Sys, s': Sys) {
    && s' == s.(frames := s'.frames, nextMapping := s'.nextMapping) && s.nextMapping <= s'.nextMapping
    && (forall x :: (x in s.frames) != (x in s'.frames) || (x in s.frames && s.frames[x] != s'.frames[x]) ==>
          if Covers(s.inFlight, x) then x !in s'.frames else x !in s.frames)
    && forall x :: x in s'.frames && x !in s.frames ==> s.nextMapping <= s'.frames[x] < s'.nextMapping
  }

  /** What an invalidation of `r` reports: `r` itself, or exactly its unmapped bytes. */
  ghost predicate Emits(r: Range, frames: Frames, emitted: seq<Range>) {
    emitted == [r] || forall x :: Covers(emitted, x) <==> InRange(r, x) && x !in frames
  }

  /** The end of the `i`-th invalidation under way.  The ranges that the queue accepts
      signal the eventfd; `granted` tells for which of them memory was available. */
  ghost predicate RangeEnd(s: Sys, s': Sys, i: nat, emitted: seq<Range>, granted: seq<bool>) {
    && i < |s.inFlight| && |granted| == |emitted| && Emits(s.inFlight[i], s.frames, emitted)
    && var sorted := Sort(emitted, granted, QUEUE_MAX_EVT + 1 - |s.queue|);
       s' == Ended(s, i, sorted.accepted, sorted.refused)
  }

  ghost function Ended(s: Sys, i: nat, accepted: seq<Range>, refused: seq<Range>): Sys
    requires i < |s.inFlight|
  {
    s.(startEvtCnt := s.startEvtCnt - 1,
       inFlight := s.inFlight[..i] + s.inFlight[i + 1..],
       evtCnt := s.evtCnt + |accepted|,
       queue := s.queue + accepted,
       evtfd := s.evtfd + |accepted|,
       accepted := s.accepted + Reports(accepted, s.frames),
       refused := s.refused + Reports(refused, s.frames))
  }

  // ---------------------------------------------------------------------
  //  Monitor thread steps
  // ---------------------------------------------------------------------

  ghost predicate ReadEventfd(s: Sys, s': Sys) {
    s.consumer == Idle && s.evtfd > 0 && s' == s.(consumer := Woken(s.evtfd), evtfd := 0)
  }

  ghost predicate ConsumerLocks(s: Sys, s': Sys) {
    s.consumer.Woken? && s.lock == Free && s' == s.(consumer := Ready(s.consumer.left), lock := ByConsumer)
  }

  ghost predicate GetEvent(s: Sys, s': Sys) {
    && s.consumer.Ready? && s.consumer.left > 0
    && s' == if s.queue == [] then s.(consumer := Broken)
             else s.(consumer := Applying(s.consumer.left - 1, s.queue[0]), queue := s.queue[1..], evtCnt := s.evtCnt - 1)
  }

  ghost predicate ApplyRange(s: Sys, s': Sys) {
    && s.consumer.Applying?
    && var r := s.consumer.range;
       s' == s.(consumer := Ready(s.consumer.left), pages := Released(s.pages, r.start, r.end),
                applied := s.applied + [r])
  }

  ghost predicate ConsumerUnlocks(s: Sys, s': Sys) {
    s.consumer.Ready? && s.consumer.left == 0 && s' == s.(consumer := Idle, lock := Free)
  }

  // ---------------------------------------------------------------------
  //  Other threads
  // ---------------------------------------------------------------------

  ghost predicate ThreadLocks(s: Sys, s': Sys, id: int) {
    s.lock == Free && s' == s.(lock := ByThread(id))
  }

  ghost predicate ThreadUnlocks(s: Sys, s': Sys, id: int) {
    s.lock == ByThread(id) && s' == s.(lock := Free)
  }

  ghost function PinnedNow(s: Sys): Pinning {
    Pinning(s.frames, 1, |s.accepted|, |s.refused|, |s.applied|)
  }

  /** A thread that holds the lock pins a page that is mapped now and adds it. */
  ghost predicate PinsPage(s: Sys, s': Sys, id: int, t: Place, page: Page) {
    && s.lock == ByThread(id)
    && 0 <= t.level <= 2 && WfPlace(t) && t !in s.pages && page.refcnt == 1
    && (forall x :: Holds(t, x) ==> x in s.frames)
    && s' == s.(pages := s.pages[t := page], pins := s.pins[t := PinnedNow(s)])
  }

  /** A thread that holds the lock counts a page that is pinned already. */
  ghost predicate CountsPage(s: Sys, s': Sys, id: int, t: Place, flags: set<Flag>) {
    && s.lock == ByThread(id) && t in s.pages && t in s.pins
    && s' == s.(pages := s.pages[t := Bump(s.pages[t], flags)],
                pins := s.pins[t := s.pins[t].(refs := s.pins[t].refs + 1)])
  }

  /** A thread that holds the lock gives up one reference to a page. */
  ghost predicate DropsPage(s: Sys, s': Sys, id: int, t: Place) {
    && s.lock == ByThread(id) && t in s.pages && t in s.pins
    && s' == s.(pages := if s.pages[t].refcnt <= 1 then s.pages - {t} else s.pages[t := Unbump(s.pages[t])],
                pins := s.pins[t := s.pins[t].(refs := s.pins[t].refs - 1)])
  }

  ghost predicate KernelStep(s: Sys, s': Sys) {
    || (exists r :: RangeStart(s, s', r))
    || MemoryChanges(s, s')
    || (exists i, emitted, granted :: RangeEnd(s, s', i, emitted, granted))
  }

  ghost predicate MonitorStep(s: Sys, s': Sys) {
    || ReadEventfd(s, s')
    || ConsumerLocks(s, s')
    || GetEvent(s, s')
    || ApplyRange(s, s')
    || ConsumerUnlocks(s, s')
  }

  ghost predicate ThreadStep(s: Sys, s': Sys, id: int) {
    || ThreadLocks(s, s', id)
    || ThreadUnlocks(s, s', id)
    || (exists t, page :: PinsPage(s, s', id, t, page))
    || (exists t, flags :: CountsPage(s, s', id, t, flags))
    || (exists t :: DropsPage(s, s', id, t))
  }

  ghost predicate Step(s: Sys, s': Sys) {
    KernelStep(s, s') || MonitorStep(s, s') || exists id :: ThreadStep(s, s', id)
  }

  ghost predicate Run(states: seq<Sys>) {
    && |states| > 0 && Start(states[0])
    && forall k {:trigger states[k]} :: 0 < k < |states| ==> Step(states[k - 1], states[k])
  }

  // ---------------------------------------------------------------------
  //  Stale translations, references and what is known of them
  // ---------------------------------------------------------------------

  /** Byte `x` of page `t` no longer belongs to the mapping that was pinned. */
  ghost predicate Stale(s: Sys, t: Place, x: int)
    requires t in s.pins
  {
    !(x in s.frames && x in s.pins[t].frames && s.frames[x] == s.pins[t].frames[x])
  }

  /** One of the reports after the first `from` is of an invalidation that unmapped `x`. */
  ghost predicate Lost(reports: seq<Report>, from: nat, x: int) {
    exists k :: from <= k < |reports| && InRange(reports[k].range, x) && x !in reports[k].frames
  }

  /** Since `t` was pinned, the queue refused a range that unmapped `x`. */
  ghost predicate RefusedSince(s: Sys, t: Place, x: int)
    requires t in s.pins
  {
    Lost(s.refused, s.pins[t].refused, x)
  }

  ghost predicate AcceptedSince(s: Sys, t: Place, x: int)
    requires t in s.pins
  {
    Lost(s.accepted, s.pins[t].accepted, x)
  }

  /** How many of the ranges after the first `from` touch `t`. */
  function Hits(ranges: seq<Range>, from: nat, t: Place): nat {
    if |ranges| <= from then 0
    else
      var n := |ranges| - 1;
      Hits(ranges[..n], from, t) + if Touches(t, ranges[n].start, ranges[n].end) then 1 else 0
  }

  /** Since `t` was pinned, more references were taken than ranges applied that touch it. */
  ghost predicate MoreRefsThanHits(s: Sys, t: Place)
    requires t in s.pins
  {
    s.pins[t].refs > Hits(s.applied, s.pins[t].applied, t)
  }

  // ---------------------------------------------------------------------
  //  Invariants
  // ---------------------------------------------------------------------

  /** The counters tell the truth: the eventfd count plus the part of a read count
      not yet fetched is the length of the queue, and ranges arrive in order. */
  ghost predicate CountsOk(s: Sys) {
    && s.evtCnt == |s.queue| <= QUEUE_MAX_EVT + 1
    && s.startEvtCnt == |s.inFlight|
    && 0 <= s.evtfd && s.evtfd + Pending(s.consumer) == |s.queue|
    && Ranges(s.accepted) == s.applied + UnderWay(s.consumer) + s.queue
    && (s.lock == ByConsumer <==> s.consumer.Ready? || s.consumer.Applying?)
    && s.consumer != Broken
  }

  ghost predicate PinOk(s: Sys, t: Place)
    requires t in s.pins
  {
    var p := s.pins[t];
    && 0 <= t.level <= 2 && WfPlace(t)
    && p.applied <= p.accepted <= |s.accepted| && p.applied <= |s.applied| && p.refused <= |s.refused|
    && (forall x :: Holds(t, x) ==> x in p.frames)
    && (forall x :: x in p.frames ==> p.frames[x] < s.nextMapping)
  }

  ghost predicate PinsOk(s: Sys) {
    && s.pages.Keys <= s.pins.Keys
    && (forall t :: t in s.pins ==> PinOk(s, t))
    && (forall x :: x in s.frames ==> s.frames[x] < s.nextMapping)
  }

  /** The reference count is what the references taken leave after the ranges applied,
      and a page is in the table as long as something is left. */
  ghost predicate RefsOk(s: Sys) {
    forall t :: t in s.pins ==>
      if t in s.pages then s.pages[t].refcnt == s.pins[t].refs - Hits(s.applied, s.pins[t].applied, t) >= 1
      else !MoreRefsThanHits(s, t)
  }

  /** A stale byte was unmapped by an invalidation since, which has been reported or is
      under way; and whatever a report since has unmapped is stale for ever. */
  ghost predicate StaleOk(s: Sys) {
    forall t, x :: t in s.pins && Holds(t, x) ==> StaleByteOk(s, t, x)
  }

  ghost predicate StaleByteOk(s: Sys, t: Place, x: int)
    requires t in s.pins
  {
    && (Stale(s, t, x) ==> AcceptedSince(s, t, x) || RefusedSince(s, t, x) || (Covers(s.inFlight, x) && x !in s.frames))
    && (AcceptedSince(s, t, x) || RefusedSince(s, t, x) ==> Stale(s, t, x))
  }

  ghost predicate Ok(s: Sys) {
    CountsOk(s) && PinsOk(s) && RefsOk(s) && StaleOk(s)
  }

  // ---------------------------------------------------------------------
  //  The counters, step by step
  // ---------------------------------------------------------------------

  lemma CountsKept(s: Sys, s': Sys)
    requires CountsOk(s) && Step(s, s')
    ensures CountsOk(s')
  {
    hide CountsOk, KernelStep, MonitorStep, ThreadStep;
    if KernelStep(s, s') {
      CountsKeptByKernel(s, s');
    } else if MonitorStep(s, s') {
      CountsKeptByMonitor(s, s');
    } else {
      var id :| ThreadStep(s, s', id);
      CountsKeptByThread(s, s', id);
    }
  }

  lemma CountsKeptByKernel(s: Sys, s': Sys)
    requires CountsOk(s) && KernelStep(s, s')
    ensures CountsOk(s')
  {
    hide Covers, Sort, Emits, Ranges, Reports;
    if i, emitted, granted :| RangeEnd(s, s', i, emitted, granted) {
      var room := QUEUE_MAX_EVT + 1 - |s.queue|;
      var sorted := Sort(emitted, granted, room);
      SortIsPartition(emitted, granted, room);
      RangesOfMore(s.accepted, sorted.accepted, s.frames);
      assert Ranges(s'.accepted) == s.applied + UnderWay(s.consumer) + (s.queue + sorted.accepted);
    } else if MemoryChanges(s, s') {
      assert CountsOk(s.(frames := s'.frames, nextMapping := s'.nextMapping));
    }
  }

  lemma RangesOfMore(reports: seq<Report>, ranges: seq<Range>, frames: Frames)
    ensures Ranges(reports + Reports(ranges, frames)) == Ranges(reports) + ranges
  {}

  lemma CountsKeptByMonitor(s: Sys, s': Sys)
    requires CountsOk(s) && MonitorStep(s, s')
    ensures CountsOk(s')
  {
    if GetEvent(s, s') {
      CountsKeptByGet(s, s');
    } else if ApplyRange(s, s') {
      CountsKeptByApply(s, s');
    } else {
      hide Covers, Ranges;
    }
  }

  lemma CountsKeptByGet(s: Sys, s': Sys)
    requires CountsOk(s) && GetEvent(s, s')
    ensures CountsOk(s')
  {
    hide Ranges;
    assert s.queue == [s.queue[0]] + s.queue[1..];
  }

  lemma CountsKeptByApply(s: Sys, s': Sys)
    requires CountsOk(s) && ApplyRange(s, s')
    ensures CountsOk(s')
  {
    hide Released, Ranges;
    assert Ranges(s.accepted) == s'.applied + [] + s.queue;
  }

  lemma CountsKeptByThread(s: Sys, s': Sys, id: int)
    requires CountsOk(s) && ThreadStep(s, s', id)
    ensures CountsOk(s')
  {
    hide Holds, WfPlace, CountsPage, DropsPage, PinsPage, Ranges;
    if t, page :| PinsPage(s, s', id, t, page) {
      PinsOnly(s, s', id, t, page);
    } else if t, flags :| CountsPage(s, s', id, t, flags) {
      CountsOnly(s, s', id, t, flags);
    } else if t :| DropsPage(s, s', id, t) {
      DropsOnly(s, s', id, t);
    }
  }

  /** What happens to pages touches no counter and no history. */
  ghost predicate OnlyPages(s: Sys, s': Sys) {
    s' == s.(pages := s'.pages, pins := s'.pins) && (CountsOk(s) ==> CountsOk(s')) && s.lock.ByThread?
  }

  lemma PinsOnly(s: Sys, s': Sys, id: int, t: Place, page: Page)
    requires PinsPage(s, s', id, t, page)
    ensures OnlyPages(s, s')
  {
    hide Holds, WfPlace, Ranges;
  }

  lemma CountsOnly(s: Sys, s': Sys, id: int, t: Place, flags: set<Flag>)
    requires CountsPage(s, s', id, t, flags)
    ensures OnlyPages(s, s')
  {
    hide Bump, Ranges;
  }

  lemma DropsOnly(s: Sys, s': Sys, id: int, t: Place)
    requires DropsPage(s, s', id, t)
    ensures OnlyPages(s, s')
  {
    hide Ranges;
  }

  // ---------------------------------------------------------------------
  //  Pins, references and stale bytes, step by step
  // ---------------------------------------------------------------------

  lemma OkKept(s: Sys, s': Sys)
    requires Ok(s) && Step(s, s')
    ensures Ok(s')
  {
    hide CountsOk, PinsOk, RefsOk, StaleOk, KernelStep, MonitorStep, ThreadStep;
    CountsKept(s, s');
    if KernelStep(s, s') {
      OkKeptByKernel(s, s');
    } else if MonitorStep(s, s') {
      OkKeptByMonitor(s, s');
    } else {
      var id :| ThreadStep(s, s', id);
      OkKeptByThread(s, s', id);
    }
  }

  lemma OkKeptByKernel(s: Sys, s': Sys)
    requires Ok(s) && KernelStep(s, s')
    ensures PinsOk(s') && RefsOk(s') && StaleOk(s')
  {
    hide Ok, PinsOk, RefsOk, StaleOk, RangeEnd, MemoryChanges;
    if r :| RangeStart(s, s', r) {
      RangeStartKeeps(s, s', r);
    } else if MemoryChanges(s, s') {
      MemoryChangesKeeps(s, s');
    } else {
      var i, emitted, granted :| RangeEnd(s, s', i, emitted, granted);
      RangeEndKeeps(s, s', i, emitted, granted);
    }
  }

  lemma CoversMore(a: seq<Range>, b: seq<Range>, x: int)
    ensures Covers(a + b, x) <==> Covers(a, x) || Covers(b, x)
  {
    if i :| 0 <= i < |a| && a[i].start <= x < a[i].end {
      assert (a + b)[i] == a[i];
    }
    if i :| 0 <= i < |b| && b[i].start <= x < b[i].end {
      assert (a + b)[|a| + i] == b[i];
    }
  }

  lemma CoversOne(r: Range, x: int)
    ensures Covers([r], x) <==> InRange(r, x)
  {
    assert [r][0] == r;
  }

  /** The invalidation that ends is one of those under way. */
  lemma CoversWithout(inFlight: seq<Range>, i: nat, x: int)
    requires i < |inFlight|
    ensures Covers(inFlight, x) <==> Covers(inFlight[..i] + inFlight[i + 1..], x) || InRange(inFlight[i], x)
  {
    hide Covers;
    assert inFlight == inFlight[..i] + ([inFlight[i]] + inFlight[i + 1..]);
    CoversMore(inFlight[..i], [inFlight[i]] + inFlight[i + 1..], x);
    CoversMore([inFlight[i]], inFlight[i + 1..], x);
    CoversMore(inFlight[..i], inFlight[i + 1..], x);
    CoversOne(inFlight[i], x);
  }

  lemma RangeStartKeeps(s: Sys, s': Sys, r: Range)
    requires Ok(s) && RangeStart(s, s', r)
    ensures PinsOk(s') && RefsOk(s') && StaleOk(s')
  {
    hide Covers, Holds, WfPlace, Hits, Lost, CountsOk;
    forall t, x | t in s'.pins && Holds(t, x) ensures StaleByteOk(s', t, x) {
      CoversMore(s.inFlight, [r], x);
      assert StaleByteOk(s, t, x);
    }
  }

  /** A byte that stopped being current never is again. */
  lemma MemoryChangesKeeps(s: Sys, s': Sys)
    requires Ok(s) && MemoryChanges(s, s')
    ensures PinsOk(s') && RefsOk(s') && StaleOk(s')
  {
    hide Covers, Holds, WfPlace, Hits, Lost, CountsOk;
    assert forall t :: t in s'.pins ==> PinOk(s, t) && PinOk(s', t);
    forall t, x | t in s'.pins && Holds(t, x) ensures StaleByteOk(s', t, x) {
      assert PinOk(s, t) && StaleByteOk(s, t, x);
    }
  }

  lemma LostMore(reports: seq<Report>, more: seq<Report>, from: nat, x: int)
    requires from <= |reports|
    ensures Lost(reports + more, from, x) <==> Lost(reports, from, x) || Lost(more, 0, x)
  {
    if Lost(reports + more, from, x) {
      var k :| from <= k < |reports + more| && InRange((reports + more)[k].range, x) && x !in (reports + more)[k].frames;
      if k >= |reports| {
        assert InRange(more[k - |reports|].range, x);
      }
    }
    if k :| from <= k < |reports| && InRange(reports[k].range, x) && x !in reports[k].frames {
      assert (reports + more)[k] == reports[k];
    }
    if k :| 0 <= k < |more| && InRange(more[k].range, x) && x !in more[k].frames {
      assert (reports + more)[|reports| + k] == more[k];
    }
  }

  lemma LostNow(ranges: seq<Range>, frames: Frames, x: int)
    ensures Lost(Reports(ranges, frames), 0, x) <==> Covers(ranges, x) && x !in frames
  {
    if i :| 0 <= i < |ranges| && ranges[i].start <= x < ranges[i].end {
      assert Reports(ranges, frames)[i].range == ranges[i];
    }
  }

  lemma CoversSorted(emitted: seq<Range>, granted: seq<bool>, room: int, x: int)
    requires |granted| == |emitted| && 0 <= room
    ensures var sorted := Sort(emitted, granted, room);
            Covers(emitted, x) <==> Covers(sorted.accepted, x) || Covers(sorted.refused, x)
  {
    hide Sort;
    var sorted := Sort(emitted, granted, room);
    SortIsPartition(emitted, granted, room);
    CoversAnyOrder(emitted, sorted.accepted + sorted.refused, x);
    CoversMore(sorted.accepted, sorted.refused, x);
  }

  lemma CoversAnyOrder(a: seq<Range>, b: seq<Range>, x: int)
    requires multiset(a) == multiset(b)
    ensures Covers(a, x) <==> Covers(b, x)
  {
    if i :| 0 <= i < |a| && a[i].start <= x < a[i].end {
      assert a[i] in multiset(b);
      var j :| 0 <= j < |b| && b[j] == a[i];
    }
    if i :| 0 <= i < |b| && b[i].start <= x < b[i].end {
      assert b[i] in multiset(a);
      var j :| 0 <= j < |a| && a[j] == b[i];
    }
  }

  lemma RangeEndKeeps(s: Sys, s': Sys, i: nat, emitted: seq<Range>, granted: seq<bool>)
    requires Ok(s) && RangeEnd(s, s', i, emitted, granted)
    ensures PinsOk(s') && RefsOk(s') && StaleOk(s')
  {
    hide Covers, Holds, WfPlace, Hits, Lost, Sort, Emits, Reports, StaleByteOk, Stale;
    var room := QUEUE_MAX_EVT + 1 - |s.queue|;
    var sorted := Sort(emitted, granted, room);
    assert forall t :: t in s'.pins ==> PinOk(s, t) && PinOk(s', t);
    forall t, x | t in s'.pins && Holds(t, x) ensures StaleByteOk(s', t, x) {
      assert PinOk(s, t) && StaleByteOk(s, t, x);
      CoversSorted(emitted, granted, room, x);
      EndedByte(s, i, emitted, sorted.accepted, sorted.refused, t, x);
    }
  }

  /** What the invalidation that ends has unmapped is now reported. */
  lemma EndedByte(s: Sys, i: nat, emitted: seq<Range>, accepted: seq<Range>, refused: seq<Range>, t: Place, x: int)
    requires i < |s.inFlight| && Emits(s.inFlight[i], s.frames, emitted) && t in s.pins && PinOk(s, t)
    requires StaleByteOk(s, t, x)
    requires Covers(emitted, x) <==> Covers(accepted, x) || Covers(refused, x)
    ensures StaleByteOk(Ended(s, i, accepted, refused), t, x)
  {
    hide Covers, Holds, WfPlace, Lost, Reports;
    CoversWithout(s.inFlight, i, x);
    CoversOne(s.inFlight[i], x);
    LostMore(s.accepted, Reports(accepted, s.frames), s.pins[t].accepted, x);
    LostMore(s.refused, Reports(refused, s.frames), s.pins[t].refused, x);
    LostNow(accepted, s.frames, x);
    LostNow(refused, s.frames, x);
  }

  lemma OkKeptByMonitor(s: Sys, s': Sys)
    requires Ok(s) && MonitorStep(s, s')
    ensures PinsOk(s') && RefsOk(s') && StaleOk(s')
  {
    if ApplyRange(s, s') {
      ApplyRangeKeeps(s, s');
    } else {
      OnlyConsumer(s, s');
      SameTable(s, s');
    }
  }

  /** Pages, histories and memory are the same. */
  ghost predicate SameFor(s: Sys, s': Sys) {
    && s'.pages == s.pages && s'.pins == s.pins && s'.frames == s.frames && s'.nextMapping == s.nextMapping
    && s'.accepted == s.accepted && s'.refused == s.refused && s'.applied == s.applied && s'.inFlight == s.inFlight
  }

  lemma OnlyConsumer(s: Sys, s': Sys)
    requires MonitorStep(s, s') && !ApplyRange(s, s')
    ensures SameFor(s, s')
  {}

  lemma SameTable(s: Sys, s': Sys)
    requires Ok(s) && SameFor(s, s')
    ensures PinsOk(s') && RefsOk(s') && StaleOk(s')
  {
    hide Covers, Holds, WfPlace, Hits, Lost, CountsOk;
    forall t | t in s'.pins ensures PinOk(s', t) {
      assert PinOk(s, t);
    }
    forall t, x | t in s'.pins && Holds(t, x) ensures StaleByteOk(s', t, x) {
      assert StaleByteOk(s, t, x);
    }
  }

  lemma HitsMore(ranges: seq<Range>, from: nat, t: Place, r: Range)
    requires from <= |ranges|
    ensures Hits(ranges + [r], from, t) == Hits(ranges, from, t) + if Touches(t, r.start, r.end) then 1 else 0
  {
    assert (ranges + [r])[..|ranges|] == ranges;
  }

  /** Applying a range takes one reference from every page that it touches. */
  lemma ApplyRangeKeeps(s: Sys, s': Sys)
    requires Ok(s) && ApplyRange(s, s')
    ensures PinsOk(s') && RefsOk(s') && StaleOk(s')
  {
    var r := s.consumer.range;
    hide Covers, Holds, WfPlace, Hits, Lost, CountsOk, Touches, Lo, Hi;
    forall t | t in s.pins
      ensures PinOk(s', t)
      ensures Hits(s'.applied, s.pins[t].applied, t) ==
              Hits(s.applied, s.pins[t].applied, t) + if Touches(t, r.start, r.end) then 1 else 0
      ensures t in s.pages ==> Within(t, 0, VA_LIMIT)
    {
      assert PinOk(s, t);
      OwnPlace(t);
      HitsMore(s.applied, s.pins[t].applied, t, r);
    }
    forall t, x | t in s'.pins && Holds(t, x) ensures StaleByteOk(s', t, x) {
      assert StaleByteOk(s, t, x);
    }
  }

  lemma OkKeptByThread(s: Sys, s': Sys, id: int)
    requires Ok(s) && ThreadStep(s, s', id)
    ensures PinsOk(s') && RefsOk(s') && StaleOk(s')
  {
    hide Ok, PinsOk, RefsOk, StaleOk, PinsPage, CountsPage, DropsPage;
    if t, page :| PinsPage(s, s', id, t, page) {
      PinsPageKeeps(s, s', id, t, page);
    } else if t, flags :| CountsPage(s, s', id, t, flags) {
      CountsPageKeeps(s, s', id, t, flags);
    } else if t :| DropsPage(s, s', id, t) {
      DropsPageKeeps(s, s', id, t);
    } else {
      SameTable(s, s');
    }
  }

  lemma PinsPageKeeps(s: Sys, s': Sys, id: int, t: Place, page: Page)
    requires Ok(s) && PinsPage(s, s', id, t, page)
    ensures PinsOk(s') && RefsOk(s') && StaleOk(s')
  {
    hide Covers, Holds, WfPlace, Hits;
    NoHitsYet(s.applied, t);
    AppliedWereAccepted(s);
    forall u | u in s'.pins ensures PinOk(s', u) {
      assert u != t ==> PinOk(s, u);
    }
    forall u, x | u in s'.pins && Holds(u, x) ensures StaleByteOk(s', u, x) {
      assert u != t ==> StaleByteOk(s, u, x);
    }
  }

  lemma NoHitsYet(ranges: seq<Range>, t: Place)
    ensures Hits(ranges, |ranges|, t) == 0
  {}

  lemma AppliedWereAccepted(s: Sys)
    requires CountsOk(s)
    ensures |s.applied| <= |s.accepted|
  {
    assert |Ranges(s.accepted)| == |s.accepted|;
  }

  lemma CountsPageKeeps(s: Sys, s': Sys, id: int, t: Place, flags: set<Flag>)
    requires Ok(s) && CountsPage(s, s', id, t, flags)
    ensures PinsOk(s') && RefsOk(s') && StaleOk(s')
  {
    hide Covers, Holds, WfPlace, Hits, Lost, CountsOk;
    forall u | u in s'.pins ensures PinOk(s', u) {
      assert PinOk(s, u);
    }
    forall u, x | u in s'.pins && Holds(u, x) ensures StaleByteOk(s', u, x) {
      assert StaleByteOk(s, u, x);
    }
  }

  lemma DropsPageKeeps(s: Sys, s': Sys, id: int, t: Place)
    requires Ok(s) && DropsPage(s, s', id, t)
    ensures PinsOk(s') && RefsOk(s') && StaleOk(s')
  {
    hide Covers, Holds, WfPlace, Hits, Lost, CountsOk;
    forall u | u in s'.pins ensures PinOk(s', u) {
      assert PinOk(s, u);
    }
    forall u, x | u in s'.pins && Holds(u, x) ensures StaleByteOk(s', u, x) {
      assert StaleByteOk(s, u, x);
    }
  }

  // ---------------------------------------------------------------------
  //  Over all runs
  // ---------------------------------------------------------------------

  ghost predicate Reachable(s: Sys) {
    exists states :: Run(states) && states[|states| - 1] == s
  }

  lemma {:induction false} RunOk(states: seq<Sys>)
    requires Run(states)
    ensures Ok(states[|states| - 1])
    decreases |states|
  {
    var n := |states| - 1;
    if n == 0 {
      assert Start(states[0]);
    } else {
      hide Step, Ok;
      RunOk(states[..n]);
      assert Step(states[n - 1], states[n]);
      OkKept(states[n - 1], states[n]);
    }
  }

  lemma ReachStep(s: Sys, s': Sys)
    requires Reachable(s) && Step(s, s')
    ensures Reachable(s')
  {
    hide Step;
    var states :| Run(states) && states[|states| - 1] == s;
    assert Run(states + [s']);
  }

  /** A thread holds the lock and reads a zero count. */
  ghost predicate Settled(s: Sys, id: int) {
    Reachable(s) && s.lock == ByThread(id) && s.evtCnt + s.startEvtCnt == 0
  }

  lemma ReachableOk(s: Sys)
    requires Reachable(s)
    ensures Ok(s)
  {
    hide Step, Ok;
    var states :| Run(states) && states[|states| - 1] == s;
    RunOk(states);
  }

  /** What a waiter knows when it holds the lock and reads a zero count: nothing is under
      way or queued, and every range that the queue accepted has been applied, in order. */
  lemma ZeroMeansSettled(s: Sys, id: int)
    requires Settled(s, id)
    ensures s.inFlight == [] && s.queue == [] && s.evtfd == 0 && s.applied == Ranges(s.accepted)
  {
    hide Ranges, PinsOk, RefsOk, StaleOk;
    ReachableOk(s);
  }

  /** A page that was ever pinned is in the table if and only if it has had more references
      than ranges applied to it, whatever else has happened. */
  lemma InTableIff(s: Sys, t: Place)
    requires Reachable(s) && t in s.pins
    ensures t in s.pages <==> MoreRefsThanHits(s, t)
  {
    hide CountsOk, PinsOk, StaleOk, Hits;
    ReachableOk(s);
  }

  /** Exactly when a settled table translates a byte wrongly: the byte was unmapped since
      its page was pinned, and either the queue refused the range, or the page had more
      references than ranges that touched it. */
  lemma SettledStaleIff(s: Sys, id: int, t: Place, x: int)
    requires Settled(s, id) && t in s.pins && Holds(t, x)
    ensures t in s.pages && Stale(s, t, x) <==>
            MoreRefsThanHits(s, t) && (RefusedSince(s, t, x) || AcceptedSince(s, t, x))
  {
    hide CountsOk, PinsOk, RefsOk, Hits, Lost, Holds, Stale;
    ReachableOk(s);
    InTableIff(s, t);
    ZeroMeansSettled(s, id);
    assert StaleByteOk(s, t, x);
  }

  /** Of a page that was referenced once, then, the only stale bytes are those that a
      refused range has unmapped. */
  lemma PinnedOnceStaleIff(s: Sys, id: int, t: Place, x: int)
    requires Settled(s, id) && t in s.pages && t in s.pins && Holds(t, x) && s.pins[t].refs <= 1
    ensures Stale(s, t, x) <==> RefusedSince(s, t, x)
  {
    hide Holds, Stale, Hits, AcceptedSince, RefusedSince, Reachable;
    SettledStaleIff(s, id, t, x);
    InTableIff(s, t);
    if AcceptedSince(s, t, x) {
      AcceptedHits(s, id, t, x);
    }
  }

  /** An accepted range that unmapped a byte of the page has taken a reference from it. */
  lemma AcceptedHits(s: Sys, id: int, t: Place, x: int)
    requires Settled(s, id) && t in s.pins && AcceptedSince(s, t, x) && Holds(t, x)
    ensures Hits(s.applied, s.pins[t].applied, t) >= 1
  {
    hide Ok, Settled, Holds;
    ZeroMeansSettled(s, id);
    PinIsOk(s, id, t);
    AcceptedApplied(s, t, x);
  }

  lemma PinIsOk(s: Sys, id: int, t: Place)
    requires Settled(s, id) && t in s.pins
    ensures PinOk(s, t)
  {
    hide CountsOk, RefsOk, StaleOk, PinOk;
    ReachableOk(s);
  }

  lemma AcceptedApplied(s: Sys, t: Place, x: int)
    requires t in s.pins && PinOk(s, t) && s.applied == Ranges(s.accepted) && AcceptedSince(s, t, x) && Holds(t, x)
    ensures Hits(s.applied, s.pins[t].applied, t) >= 1
  {
    var k :| s.pins[t].accepted <= k < |s.accepted| && InRange(s.accepted[k].range, x) && x !in s.accepted[k].frames;
    hide Hits, WfPlace, Lo, Hi;
    assert s.applied[k] == s.accepted[k].range;
    OneHit(s.applied, s.pins[t].applied, t, k);
  }

  lemma {:induction false} OneHit(ranges: seq<Range>, from: nat, t: Place, k: nat)
    requires from <= k < |ranges| && Touches(t, ranges[k].start, ranges[k].end)
    ensures Hits(ranges, from, t) >= 1
  {
    hide Touches;
    var n := |ranges| - 1;
    if k < n {
      OneHit(ranges[..n], from, t, k);
    }
  }

  /** In every reachable state the monitor thread finds an event when it fetches one,
      so it never leaves the kernel with the monitor list lock held. */
  lemma FetchNeverFails(s: Sys)
    requires Reachable(s)
    ensures s.consumer != Broken
    ensures s.consumer.Ready? && s.consumer.left > 0 ==> s.queue != []
  {
    hide Ranges, PinsOk, RefsOk, StaleOk;
    ReachableOk(s);
  }
}
