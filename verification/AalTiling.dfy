/** Buffers of the legacy allocator as rows of pages, and what freeing one does. */
module AalTilings {
  import opened Addresses
  import opened AalTrees

  const SMALL_PAGE_SIZE: int := 0x1000
  const LARGE_PAGE_SIZE: int := 0x20_0000
  const LARGE_PAGE_THRESHOLD: int := 128 * 1024

  type PageMap = map<Place, Entry>

  /** Pages side by side that fill [lo, hi) from below. */
  ghost predicate Row(tiles: seq<Place>, lo: int, hi: int) {
    if tiles == [] then lo == hi
    else 0 <= tiles[0].level <= 1 && WfPlace(tiles[0]) && Lo(tiles[0]) == lo && Row(tiles[1..], Hi(tiles[0]), hi)
  }

  /** The 4KB page at the end of the 2MB region at `lo`. */
  function LastSmall(lo: int): Place {
    Place(0, lo / SMALL_PAGE_SIZE + 511)
  }

  /** The pages that carry the START mark: the first one and, when the allocation of
      the lowest 2MB fell back to 4KB pages, the last of these as well. */
  ghost function Starts(tiles: seq<Place>, lo: int, fellBack: bool): set<Place> {
    (if tiles != [] then {tiles[0]} else {}) + (if fellBack then {LastSmall(lo)} else {})
  }

  /** `after` is `before` with the row `tiles` added, END on its last page only and
      START on the pages of `starts`. */
  ghost predicate Added(before: PageMap, after: PageMap, tiles: seq<Place>, starts: set<Place>) {
    && (forall s :: s in after <==> s in before || s in tiles)
    && (forall s :: s in before ==> s !in tiles && after[s] == before[s])
    && (forall s :: s in tiles ==> (AllocStart in after[s].flags <==> s in starts))
    && (forall i :: 0 <= i < |tiles| ==> (AllocEnd in after[tiles[i]].flags <==> i == |tiles| - 1))
  }

  ghost predicate Apart(pages: PageMap) {
    forall s, t :: s in pages && t in pages && s != t ==> !Overlap(s, t)
  }

  /** Where a page for `va` is looked for. */
  function Found(pages: PageMap, va: VAddr): Place {
    if PlaceOf(va, 1) in pages then PlaceOf(va, 1) else PlaceOf(va, 0)
  }

  datatype Freed = Freed(pages: PageMap, ok: bool)

  /** What freeing does: remove pages one after the other up to one marked END.
      Addresses beyond 48 bits are looked up by their low 48 bits. */
  ghost function FreeWalk(pages: PageMap, va: nat): Freed
    decreases |pages|
  {
    var s := Found(pages, va % VA_LIMIT);
    if s !in pages then Freed(pages, false)
    else
      assert |pages - {s}| < |pages| by { Smaller(pages, s); }
      if AllocEnd in pages[s].flags then Freed(pages - {s}, true)
      else FreeWalk(pages - {s}, va + Span(s.level))
  }

  /** The addresses at which freeing finds a page to remove, in order. */
  ghost function FreeVas(pages: PageMap, va: nat): seq<int>
    decreases |pages|
  {
    var s := Found(pages, va % VA_LIMIT);
    if s !in pages then []
    else
      assert |pages - {s}| < |pages| by { Smaller(pages, s); }
      if AllocEnd in pages[s].flags then [va] else [va] + FreeVas(pages - {s}, va + Span(s.level))
  }

  /** `now` is what is left when freeing stops after one or more pages. */
  ghost predicate PartlyFreed(pages: PageMap, va: nat, now: PageMap)
    decreases |pages|
  {
    var s := Found(pages, va % VA_LIMIT);
    && s in pages
    && (now == pages - {s} ||
        (AllocEnd !in pages[s].flags &&
         assert |pages - {s}| < |pages| by { Smaller(pages, s); }
         PartlyFreed(pages - {s}, va + Span(s.level), now)))
  }

  lemma Smaller(pages: PageMap, s: Place)
    requires s in pages
    ensures |pages - {s}| < |pages|
  {
    assert pages.Keys == (pages - {s}).Keys + {s};
    assert |(pages - {s}).Keys| + 1 == |pages.Keys|;
  }

  /** A page that holds `va` is the one found. */
  lemma FoundIt(pages: PageMap, s: Place, va: VAddr)
    requires Apart(pages) && s in pages && 0 <= s.level <= 1 && Holds(s, va)
    ensures Found(pages, va) == s
  {
    HoldsIffPlaceOf(s, va);
    HoldsIffPlaceOf(PlaceOf(va, 1), va);
    if PlaceOf(va, 1) in pages && s.level == 0 {
      assert Overlap(s, PlaceOf(va, 1));
    }
  }

  lemma {:induction false} RowBounds(tiles: seq<Place>, lo: int, hi: int)
    requires Row(tiles, lo, hi)
    ensures lo <= hi && (lo == hi <==> tiles == [])
    ensures forall i :: 0 <= i < |tiles| ==> 0 <= tiles[i].level <= 1 && lo <= Lo(tiles[i]) < Hi(tiles[i]) <= hi
    ensures forall i, j :: 0 <= i < j < |tiles| ==> Hi(tiles[i]) <= Lo(tiles[j])
    ensures tiles != [] ==> tiles[0] !in tiles[1..]
  {
    if tiles != [] {
      RowBounds(tiles[1..], Hi(tiles[0]), hi);
      assert tiles == [tiles[0]] + tiles[1..];
    }
  }

  /** Every byte of a row is in exactly one of its pages. */
  lemma {:induction false} RowCovers(tiles: seq<Place>, lo: int, hi: int, x: int)
    requires Row(tiles, lo, hi)
    ensures lo <= x < hi <==> exists i :: 0 <= i < |tiles| && Holds(tiles[i], x)
    ensures forall i, j :: 0 <= i < |tiles| && 0 <= j < |tiles| && Holds(tiles[i], x) && Holds(tiles[j], x) ==> i == j
  {
    RowBounds(tiles, lo, hi);
    if tiles != [] && lo <= x < hi {
      RowCovers(tiles[1..], Hi(tiles[0]), hi, x);
      if x < Hi(tiles[0]) {
        assert Holds(tiles[0], x);
      } else {
        var i :| 0 <= i < |tiles[1..]| && Holds(tiles[1..][i], x);
        assert Holds(tiles[i + 1], x);
      }
    }
  }

  lemma RowFrom(tiles: seq<Place>, lo: int, hi: int, k: nat)
    requires Row(tiles, lo, hi) && k < |tiles|
    ensures Row(tiles[k..], Lo(tiles[k]), hi)
    decreases k
  {
    if k > 0 {
      RowFrom(tiles[1..], Hi(tiles[0]), hi, k - 1);
      assert tiles[1..][k - 1..] == tiles[k..];
    }
  }

  /** A page added below the row. */
  lemma AddTile(before: PageMap, now: PageMap, tiles: seq<Place>, starts: set<Place>, t: Place, e: Entry)
    requires Added(before, now, tiles, starts) && t !in now && t !in starts
    requires AllocEnd in e.flags <==> tiles == []
    ensures Added(before, now[t := e], [t] + tiles, if AllocStart in e.flags then starts + {t} else starts)
  {
    var tiles', after := [t] + tiles, now[t := e];
    forall i | 0 <= i < |tiles'| ensures AllocEnd in after[tiles'[i]].flags <==> i == |tiles'| - 1 {
      if i > 0 {
        assert tiles'[i] == tiles[i - 1] && tiles[i - 1] in tiles;
      }
    }
  }

  lemma PutBelow(t: Place, tiles: seq<Place>, lo: int, hi: int)
    requires Row(tiles, lo, hi) && 0 <= t.level <= 1 && WfPlace(t) && Hi(t) == lo
    ensures Row([t] + tiles, Lo(t), hi)
  {
    assert ([t] + tiles)[1..] == tiles;
  }

  // ---------------------------------------------------------------------
  //  Free undoes allocate
  // ---------------------------------------------------------------------

  /** `pages` is `rest` and a row that ends with its only END mark. */
  ghost predicate OnTop(rest: PageMap, pages: PageMap, tiles: seq<Place>) {
    && (forall s :: s in pages <==> s in rest || s in tiles)
    && (forall s :: s in rest ==> s !in tiles && pages[s] == rest[s])
    && (forall i :: 0 <= i < |tiles| ==> (AllocEnd in pages[tiles[i]].flags <==> i == |tiles| - 1))
  }

  lemma FirstOff(rest: PageMap, pages: PageMap, tiles: seq<Place>)
    requires OnTop(rest, pages, tiles) && |tiles| > 1 && tiles[0] !in tiles[1..]
    ensures tiles[0] in pages && AllocEnd !in pages[tiles[0]].flags
    ensures OnTop(rest, pages - {tiles[0]}, tiles[1..])
  {
    var t, rest', pages' := tiles[0], tiles[1..], pages - {tiles[0]};
    assert tiles == [t] + rest';
    forall i | 0 <= i < |rest'| ensures AllocEnd in pages'[rest'[i]].flags <==> i == |rest'| - 1 {
      assert rest'[i] == tiles[i + 1] && rest'[i] in rest';
    }
  }

  lemma LastOff(rest: PageMap, pages: PageMap, t: Place)
    requires OnTop(rest, pages, [t])
    ensures t in pages && AllocEnd in pages[t].flags && pages - {t} == rest
  {
    assert [t][0] in pages;
  }

  /** The walk starts at the page that begins at its address. */
  lemma WalkHere(pages: PageMap, t: Place)
    requires Apart(pages) && t in pages && 0 <= t.level <= 1 && WfPlace(t)
    ensures 0 <= Lo(t) && Hi(t) == Lo(t) + Span(t.level)
    ensures FreeWalk(pages, Lo(t)) ==
            if AllocEnd in pages[t].flags then Freed(pages - {t}, true) else FreeWalk(pages - {t}, Hi(t))
    ensures FreeVas(pages, Lo(t)) ==
            if AllocEnd in pages[t].flags then [Lo(t)] else [Lo(t)] + FreeVas(pages - {t}, Hi(t))
    ensures forall now :: PartlyFreed(pages, Lo(t), now) ==>
              now == pages - {t} || (AllocEnd !in pages[t].flags && PartlyFreed(pages - {t}, Hi(t), now))
  {
    OwnPlace(t);
    FoundIt(pages, t, Lo(t));
    assert Lo(t) % VA_LIMIT == Lo(t);
    hide Lo, Hi, Found, PlaceOf, Apart;
    assert Hi(t) == Lo(t) + Span(t.level) by { Extent(t); }
  }

  lemma Extent(t: Place)
    ensures Hi(t) == Lo(t) + Span(t.level)
  {}

  /** Freeing from the start of a row removes the row and nothing else. */
  lemma {:induction false} FreeRun(rest: PageMap, pages: PageMap, tiles: seq<Place>, lo: int, hi: int)
    requires Row(tiles, lo, hi) && tiles != [] && 0 <= lo && Apart(pages) && OnTop(rest, pages, tiles)
    ensures FreeWalk(pages, lo) == Freed(rest, true)
    ensures FreeVas(pages, lo) == seq(|tiles|, i requires 0 <= i < |tiles| => Lo(tiles[i]))
    decreases |tiles|
  {
    hide OnTop, FreeWalk, Lo, Hi, Overlap, FreeVas, PartlyFreed;
    var t := tiles[0];
    RowBounds(tiles, lo, hi);
    if |tiles| == 1 {
      assert tiles == [t];
      LastOff(rest, pages, t);
      WalkHere(pages, t);
    } else {
      FirstOff(rest, pages, tiles);
      WalkHere(pages, t);
      FreeRun(rest, pages - {t}, tiles[1..], Hi(t), hi);
    }
  }

  /** Freeing a buffer at its start undoes its allocation, whatever sizes its pages have. */
  lemma FreeUndoesAllocate(before: PageMap, after: PageMap, tiles: seq<Place>, lo: int, hi: int, fellBack: bool)
    requires Row(tiles, lo, hi) && 0 <= lo < hi && Apart(after)
    requires Added(before, after, tiles, Starts(tiles, lo, fellBack))
    ensures FreeWalk(after, lo) == Freed(before, true)
    ensures FreeVas(after, lo) == seq(|tiles|, i requires 0 <= i < |tiles| => Lo(tiles[i]))
  {
    FreeRun(before, after, tiles, lo, hi);
  }

  /** When freeing a buffer stops early, its pages from some point on stay, together with
      everything that is not the buffer's. */
  lemma {:induction false} StoppedFreeLeavesTail(rest: PageMap, pages: PageMap, tiles: seq<Place>, lo: int, hi: int,
                                                 now: PageMap)
    returns (k: nat)
    requires Row(tiles, lo, hi) && tiles != [] && 0 <= lo && Apart(pages) && OnTop(rest, pages, tiles)
    requires PartlyFreed(pages, lo, now)
    ensures 1 <= k <= |tiles| && forall s :: s in now <==> s in rest || s in tiles[k..]
    decreases |tiles|
  {
    hide OnTop, FreeWalk, Lo, Hi, Overlap, PartlyFreed;
    var t := tiles[0];
    RowBounds(tiles, lo, hi);
    if |tiles| == 1 {
      assert tiles == [t];
      LastOff(rest, pages, t);
      WalkHere(pages, t);
      k := 1;
    } else {
      FirstOff(rest, pages, tiles);
      WalkHere(pages, t);
      if now == pages - {t} {
        OnTopPages(rest, now, tiles[1..]);
        k := 1;
      } else {
        var k' := StoppedFreeLeavesTail(rest, pages - {t}, tiles[1..], Hi(t), hi, now);
        k := k' + 1;
        assert tiles[1..][k'..] == tiles[k..];
      }
    }
  }

  lemma OnTopPages(rest: PageMap, pages: PageMap, tiles: seq<Place>)
    requires OnTop(rest, pages, tiles)
    ensures forall s :: s in pages <==> s in rest || s in tiles
  {}

  /** The upper part of a row is a row on top of the rest. */
  lemma UpperPart(before: PageMap, after: PageMap, tiles: seq<Place>, k: nat) returns (low: PageMap)
    requires OnTop(before, after, tiles) && 0 < k < |tiles|
    requires forall i, j :: 0 <= i < j < |tiles| ==> tiles[i] != tiles[j]
    ensures OnTop(low, after, tiles[k..])
    ensures forall s :: s in low <==> s in before || s in tiles[..k]
  {
    low := map s | s in after && (s in before || s in tiles[..k]) :: after[s];
    assert tiles == tiles[..k] + tiles[k..];
    forall i | 0 <= i < |tiles[k..]| ensures tiles[k..][i] == tiles[k + i] && tiles[k + i] !in tiles[..k] {
    }
  }

  /** The mark START does not identify the start of a buffer whose lowest 2MB fell back
      to 4KB pages: freeing at the second mark frees the upper part and leaves the rest. */
  lemma SecondStartFreesTail(before: PageMap, after: PageMap, tiles: seq<Place>, lo: int, hi: int, k: nat)
    requires Row(tiles, lo, hi) && 0 <= lo < hi && Apart(after)
    requires Added(before, after, tiles, Starts(tiles, lo, true)) && 0 < k < |tiles| && tiles[k] == LastSmall(lo)
    ensures AllocStart in after[tiles[k]].flags
    ensures var f := FreeWalk(after, Lo(tiles[k]));
            && f.ok && f.pages != before
            && forall s :: s in f.pages <==> s in before || s in tiles[..k]
  {
    RowBounds(tiles, lo, hi);
    RowFrom(tiles, lo, hi, k);
    var low := UpperPart(before, after, tiles, k);
    assert tiles[k] in tiles;
    hide FreeWalk, Overlap, Lo, Hi;
    FreeRun(low, after, tiles[k..], Lo(tiles[k]), hi);
    assert tiles[0] in tiles[..k] && tiles[0] in low && tiles[0] in tiles;
  }
}
