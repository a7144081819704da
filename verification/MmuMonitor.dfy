/** The kernel side: counting invalidations and queueing the ranges they unmap. */
module MmuMonitors {

  datatype Range = Range(start: int, end: int)

  /** A mapped region of the process, [start, end). */
  datatype Vma = Vma(start: int, end: int)

  /** The regions of a process are sorted, non-empty and disjoint. */
  ghost predicate VmasOk(vmas: seq<Vma>) {
    && (forall i :: 0 <= i < |vmas| ==> vmas[i].start < vmas[i].end)
    && (forall i, j :: 0 <= i < j < |vmas| ==> vmas[i].end <= vmas[j].start)
  }

  ghost predicate IsMapped(vmas: seq<Vma>, x: int) {
    exists i :: 0 <= i < |vmas| && vmas[i].start <= x < vmas[i].end
  }

  ghost predicate Covers(ranges: seq<Range>, x: int) {
    exists i :: 0 <= i < |ranges| && ranges[i].start <= x < ranges[i].end
  }

  /** `gaps` are the unmapped parts of [start, end): non-empty, in order, apart from
      each other, and covering exactly the bytes that no region maps. */
  ghost predicate ExactGaps(vmas: seq<Vma>, start: int, end: int, gaps: seq<Range>) {
    && (forall i :: 0 <= i < |gaps| ==> start <= gaps[i].start < gaps[i].end <= end)
    && (forall i, j :: 0 <= i < j < |gaps| ==> gaps[i].end < gaps[j].start)
    && (forall x :: start <= x < end ==> (Covers(gaps, x) <==> !IsMapped(vmas, x)))
  }

  /** The index of the first region that ends after `addr`. */
  method FindVma(vmas: seq<Vma>, addr: int) returns (k: int)
    requires VmasOk(vmas)
    ensures 0 <= k <= |vmas|
    ensures forall i :: 0 <= i < k ==> vmas[i].end <= addr
    ensures k < |vmas| ==> addr < vmas[k].end
  {
    k := 0;
    while k < |vmas| && vmas[k].end <= addr
      invariant 0 <= k <= |vmas|
      invariant forall i :: 0 <= i < k ==> vmas[i].end <= addr
    {
      k := k + 1;
    }
  }

  /** What became of the ranges that an invalidation reported. */
  datatype Sorting = Sorting(accepted: seq<Range>, refused: seq<Range>)

  /** Each range reported enters the queue, which has room for `room` more, when memory
      for its event is granted and the ranges before it have left room. */
  function Sort(emitted: seq<Range>, granted: seq<bool>, room: int): (r: Sorting)
    requires |emitted| == |granted|
  {
    if emitted == [] then Sorting([], [])
    else
      var n := |emitted| - 1;
      var before := Sort(emitted[..n], granted[..n], room);
      if granted[n] && |before.accepted| < room then before.(accepted := before.accepted + [emitted[n]])
      else before.(refused := before.refused + [emitted[n]])
  }

  lemma SortOneMore(emitted: seq<Range>, granted: seq<bool>, room: int, r: Range, g: bool)
    requires |emitted| == |granted|
    ensures var before := Sort(emitted, granted, room);
            Sort(emitted + [r], granted + [g], room) ==
            if g && |before.accepted| < room then before.(accepted := before.accepted + [r])
            else before.(refused := before.refused + [r])
  {
    assert (emitted + [r])[..|emitted|] == emitted && (granted + [g])[..|emitted|] == granted;
  }

  /** Every range is either accepted or refused, and the queue keeps its limit. */
  lemma {:induction false} SortIsPartition(emitted: seq<Range>, granted: seq<bool>, room: int)
    requires |emitted| == |granted| && 0 <= room
    ensures var sorted := Sort(emitted, granted, room);
            && multiset(emitted) == multiset(sorted.accepted) + multiset(sorted.refused)
            && |sorted.accepted| <= room
  {
    if emitted == [] {
    } else {
      hide Sort;
      var n := |emitted| - 1;
      assert emitted == emitted[..n] + [emitted[n]] && granted == granted[..n] + [granted[n]];
      SortIsPartition(emitted[..n], granted[..n], room);
      SortOneMore(emitted[..n], granted[..n], room, emitted[n], granted[n]);
    }
  }

  /** When no allocation fails, the first ranges enter the queue, as many as it has
      room for, and the others are refused. */
  lemma {:induction false} SortAllGranted(emitted: seq<Range>, granted: seq<bool>, room: int)
    requires |emitted| == |granted| && 0 <= room && forall i :: 0 <= i < |granted| ==> granted[i]
    ensures var k := if |emitted| <= room then |emitted| else room;
            Sort(emitted, granted, room) == Sorting(emitted[..k], emitted[k..])
  {
    if emitted != [] {
      var n := |emitted| - 1;
      SortAllGranted(emitted[..n], granted[..n], room);
      if n >= room {
        assert emitted[..n][..room] == emitted[..room] && emitted[..n][room..] + [emitted[n]] == emitted[room..];
      } else {
        assert emitted[..n] + [emitted[n]] == emitted;
      }
    }
  }

  const QUEUE_MAX_EVT: int := 100

  class MmuMonitor {
    /** Is an eventfd registered? */
    var trigger: bool
    var filterStillMapped: bool
    /** Count of the registered eventfd, as far as it has not been read. */
    var evtfd: int
    var evtList: seq<Range>
    var evtCnt: int
    var startEvtCnt: int

    ghost predicate Valid()
      reads this
    {
      evtCnt == |evtList| <= QUEUE_MAX_EVT + 1
    }

    constructor ()
      ensures Valid() && evtList == [] && startEvtCnt == 0 && !trigger && evtfd == 0
    {
      trigger, filterStillMapped, evtfd, evtList, evtCnt, startEvtCnt := false, false, 0, [], 0, 0;
    }

    /** Add one event to the queue; a queue longer than its limit refuses it.  `granted`
        is the outcome of allocating the event. */
    method QueueEvent(start: int, end: int, granted: bool) returns (queued: bool)
      requires Valid()
      modifies this`evtList, this`evtCnt
      ensures Valid()
      ensures evtList == if queued then old(evtList) + [Range(start, end)] else old(evtList)
      ensures queued <==> |old(evtList)| <= QUEUE_MAX_EVT && granted
    {
      if evtCnt > QUEUE_MAX_EVT {
        return false;
      }
      if !granted {
        return false;
      }
      evtList := evtList + [Range(start, end)];
      evtCnt := evtCnt + 1;
      queued := true;
    }

    /** Fetch the oldest event from the queue. */
    method FetchEvent() returns (found: bool, evt: Range)
      requires Valid()
      modifies this`evtList, this`evtCnt
      ensures Valid()
      ensures found <==> old(evtList) != []
      ensures found ==> [evt] + evtList == old(evtList)
      ensures !found ==> evtList == old(evtList)
    {
      if |evtList| == 0 {
        return false, Range(0, 0);
      }
      evt := evtList[0];
      evtList := evtList[1..];
      evtCnt := evtCnt - 1;
      found := true;
    }

    method InvalidateRangeStart()
      modifies this`startEvtCnt
      ensures startEvtCnt == old(startEvtCnt) + 1
    {
      startEvtCnt := startEvtCnt + 1;
    }

    /** The state that user code polls: queued events plus invalidations under way. */
    method GetState() returns (evtcnt: int)
      requires Valid()
      ensures evtcnt == |evtList| + startEvtCnt
    {
      evtcnt := evtCnt + startEvtCnt;
    }

    /** Queue one range, and signal the eventfd when it is queued. */
    method Emit(start: int, end: int, memoryLeft: bool) returns (ghost granted: bool)
      requires Valid()
      modifies this`evtfd, this`evtList, this`evtCnt
      ensures Valid() && (memoryLeft ==> granted)
      ensures var fits := granted && |old(evtList)| <= QUEUE_MAX_EVT;
              && evtList == (if fits then old(evtList) + [Range(start, end)] else old(evtList))
              && evtfd == (if fits then old(evtfd) + 1 else old(evtfd))
    {
      var available: bool := *;
      var queued := QueueEvent(start, end, available || memoryLeft);
      if queued {
        evtfd := evtfd + 1;
      }
      granted := available || memoryLeft;
    }

    /** From the queue `before` and the eventfd count `fd`, the ranges emitted have been
        sorted into those queued and signalled and those refused. */
    ghost predicate Took(before: seq<Range>, fd: int, emitted: seq<Range>, granted: seq<bool>)
      reads this
    {
      && |emitted| == |granted|
      && var accepted := Sort(emitted, granted, QUEUE_MAX_EVT + 1 - |before|).accepted;
         evtList == before + accepted && evtfd == fd + |accepted|
    }

    /** The end of an invalidation of [start, end) while the process has the regions
        `vmas`.  `emitted` are the ranges to report, and `granted` tells for each if memory
        for its event was available; each range accepted signals the eventfd once. */
    method InvalidateRangeEnd(start: int, end: int, vmas: seq<Vma>, memoryLeft: bool)
      returns (ghost emitted: seq<Range>, ghost granted: seq<bool>)
      requires Valid() && VmasOk(vmas)
      modifies this`startEvtCnt, this`evtfd, this`evtList, this`evtCnt
      ensures Valid() && startEvtCnt == old(startEvtCnt) - 1
      ensures Took(old(evtList), old(evtfd), emitted, granted)
      ensures memoryLeft ==> forall i :: 0 <= i < |granted| ==> granted[i]
      ensures !trigger ==> emitted == []
      ensures trigger && !filterStillMapped ==> emitted == [Range(start, end)]
      ensures trigger && filterStillMapped ==> ExactGaps(vmas, start, end, emitted)
    {
      hide Sort, ExactGaps, VmasOk;
      NothingYet(vmas, start, end, QUEUE_MAX_EVT + 1 - |evtList|);
      startEvtCnt := startEvtCnt - 1;
      emitted, granted := [], [];
      if trigger {
        if !filterStillMapped {
          ghost var g := Emit(start, end, memoryLeft);
          SortOneMore([], [], QUEUE_MAX_EVT + 1 - |old(evtList)|, Range(start, end), g);
          emitted, granted := [] + [Range(start, end)], [] + [g];
          assert emitted == [Range(start, end)];
        } else {
          emitted, granted := EmitUnmapped(start, end, vmas, memoryLeft);
        }
      }
    }

    /** Report the parts of [start, end) that no region maps any more. */
    method EmitUnmapped(start0: int, end: int, vmas: seq<Vma>, memoryLeft: bool)
      returns (ghost emitted: seq<Range>, ghost granted: seq<bool>)
      requires Valid() && VmasOk(vmas)
      modifies this`evtfd, this`evtList, this`evtCnt
      ensures Valid() && Took(old(evtList), old(evtfd), emitted, granted)
      ensures memoryLeft ==> forall i :: 0 <= i < |granted| ==> granted[i]
      ensures ExactGaps(vmas, start0, end, emitted)
    {
      hide Sort, ExactGaps, VmasOk;
      emitted, granted := [], [];
      NothingYet(vmas, start0, end, QUEUE_MAX_EVT + 1 - |evtList|);
      var start := start0;
      ghost var done := if end < start0 then end else start0;
      while start < end
        invariant Reported(vmas, start0, start, end, done, emitted)
        invariant Valid() && Took(old(evtList), old(evtfd), emitted, granted)
        invariant memoryLeft ==> forall i :: 0 <= i < |granted| ==> granted[i]
        decreases end - start
      {
        var k := FindVma(vmas, start);
        var vmaStart := if k < |vmas| then vmas[k].start else end;
        ghost var gaps := emitted;
        if start < vmaStart {
          var rangeEnd := if vmaStart < end then vmaStart else end;
          ghost var g := Emit(start, rangeEnd, memoryLeft);
          SortOneMore(emitted, granted, QUEUE_MAX_EVT + 1 - |old(evtList)|, Range(start, rangeEnd), g);
          emitted, granted := emitted + [Range(start, rangeEnd)], granted + [g];
        }
        GapStep(vmas, start0, start, end, k, gaps, emitted);
        if k == |vmas| {
          return;
        }
        start := vmas[k].end;
        done := if start < end then start else end;
      }
    }
  }

  /** The report has come to `start`: `done` is how far it is complete. */
  ghost predicate Reported(vmas: seq<Vma>, start0: int, start: int, end: int, done: int, emitted: seq<Range>) {
    && start0 <= start
    && done == (if start < end then start else end)
    && ExactGaps(vmas, start0, done, emitted)
    && forall i :: 0 <= i < |emitted| ==> emitted[i].end < start
  }

  lemma NothingYet(vmas: seq<Vma>, start0: int, end: int, room: int)
    ensures Sort([], [], room) == Sorting([], [])
    ensures Reported(vmas, start0, start0, end, if end < start0 then end else start0, [])
  {}

  /** One step of the report: up to the end of the next region, or to the end of all. */
  lemma GapStep(vmas: seq<Vma>, start0: int, start: int, end: int, k: int, gaps: seq<Range>, gaps': seq<Range>)
    requires VmasOk(vmas) && start < end && 0 <= k <= |vmas|
    requires forall i :: 0 <= i < k ==> vmas[i].end <= start
    requires k < |vmas| ==> start < vmas[k].end
    requires Reported(vmas, start0, start, end, start, gaps)
    requires var vmaStart := if k < |vmas| then vmas[k].start else end;
             var rangeEnd := if vmaStart < end then vmaStart else end;
             gaps' == if start < vmaStart then gaps + [Range(start, rangeEnd)] else gaps
    ensures var next := if k < |vmas| && vmas[k].end < end then vmas[k].end else end;
            && start < next && ExactGaps(vmas, start0, next, gaps')
            && (k < |vmas| ==> start < vmas[k].end && Reported(vmas, start0, vmas[k].end, end, next, gaps'))
  {
    var next := if k < |vmas| && vmas[k].end < end then vmas[k].end else end;
    var vmaStart := if k < |vmas| then vmas[k].start else end;
    forall x | start0 <= x < next ensures Covers(gaps', x) <==> !IsMapped(vmas, x) {
      if x < start {
        assert Covers(gaps', x) <==> Covers(gaps, x) by {
          if i :| 0 <= i < |gaps| && gaps[i].start <= x < gaps[i].end {
            assert gaps'[i] == gaps[i];
          }
        }
      } else if x < vmaStart {
        assert gaps'[|gaps|].start <= x < gaps'[|gaps|].end;
      } else {
        assert vmas[k].start <= x < vmas[k].end;
      }
    }
  }
}
