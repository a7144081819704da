/** The loop that releases a buffer page by page, and when it releases exactly
    the pages of the buffer. */
module ReleaseWalks {
  import opened Addresses
  import opened Words
  import opened TableView
  import opened TableSpec

  /** Pages are well formed, counted, and do not overlap. */
  ghost predicate PagesOk(pages: map<Place, Page>) {
    && (forall s :: s in pages ==> 0 <= s.level <= 2 && WfPlace(s) && pages[s].refcnt >= 1)
    && (forall s, t :: s in pages && t in pages && s != t ==> Hi(s) <= Lo(t) || Hi(t) <= Lo(s))
  }

  lemma TreePagesOk(v: View)
    requires TreeOk(v)
    ensures PagesOk(v.pages)
  {
    forall s, t | s in v.pages && t in v.pages && s != t ensures Hi(s) <= Lo(t) || Hi(t) <= Lo(s) {
      OwnPlace(s);
      OwnPlace(t);
      hide Lo, Hi;
      if Hi(s) > Lo(t) && Hi(t) > Lo(s) {
        var x := if Lo(s) < Lo(t) then Lo(t) else Lo(s);
        PagesDisjoint(v, s, t, x);
      }
    }
  }

  lemma LoHi(s: Place)
    ensures Hi(s) == Lo(s) + Span(s.level)
  {}

  /** The search finds a page exactly when the address lies in it. */
  lemma Found(pages: map<Place, Page>, s: Place, x: VAddr)
    requires PagesOk(pages)
    ensures FindPage(pages, x) == Some(s) <==> s in pages && Holds(s, x)
    ensures s in pages ==> Lo(s) < Hi(s) == Lo(s) + Span(s.level)
  {
    hide Lo, Hi, Span, PageNum, WfPlace;
    if s in pages {
      OwnPlace(s);
      LoHi(s);
      if Holds(s, x) {
        HoldsIffPlaceOf(s, x);
        assert FindPage(pages, x).Some?;
      }
    }
  }

  /** Take one reference from a page; the last one takes the page away. */
  function TakeOne(pages: map<Place, Page>, s: Place): map<Place, Page>
    requires s in pages
  {
    if pages[s].refcnt > 1 then pages[s := Unbump(pages[s])] else pages - {s}
  }

  lemma TakeOneOk(pages: map<Place, Page>, s: Place)
    requires PagesOk(pages) && s in pages
    ensures PagesOk(TakeOne(pages, s))
  {
    hide Lo, Hi, WfPlace;
  }

  datatype Walked = Walked(pages: map<Place, Page>, done: bool)

  /** Starting at `va`, remove a reference to the page there and advance by the
      size of that page, until `end` is reached or nothing is mapped. */
  function ReleaseWalk(pages: map<Place, Page>, va: int, end: int): Walked
    decreases VA_LIMIT - va
  {
    if !(0 <= va < VA_LIMIT) then Walked(pages, false)
    else
      var s := FindPage(pages, va);
      if s.None? then Walked(pages, false)
      else
        var rest, next := TakeOne(pages, s.value), va + Span(s.value.level);
        if next >= end then Walked(rest, true) else ReleaseWalk(rest, next, end)
  }

  /** Every byte of [lo, hi) is mapped. */
  ghost predicate Mapped(pages: map<Place, Page>, lo: int, hi: int) {
    forall x :: lo <= x < hi ==> MappedAt(pages, x)
  }

  predicate MappedAt(pages: map<Place, Page>, x: int) {
    0 <= x < VA_LIMIT && FindPage(pages, x).Some?
  }

  /** Releasing exactly the pages of [min, max), one reference each. */
  ghost function Unreferenced(pages: map<Place, Page>, min: int, max: int): map<Place, Page> {
    map s | s in pages && !(Touches(s, min, max) && pages[s].refcnt <= 1) ::
      if Touches(s, min, max) then Unbump(pages[s]) else pages[s]
  }

  /** For well-formed pages this is what a range release does. */
  lemma UnreferencedIsReleased(pages: map<Place, Page>, min: int, max: int)
    requires PagesOk(pages)
    ensures Unreferenced(pages, min, max) == Released(pages, min, max)
  {
    forall s | s in pages ensures Within(s, 0, VA_LIMIT) {
      OwnPlace(s);
    }
  }

  /** The walk keeps the distance `offset` from the start of each page it visits.
      It lands in page `s` within the buffer when this holds. */
  predicate Lands(s: Place, offset: int, end: int) {
    Lo(s) + offset < Hi(s) && Lo(s) + offset < end
  }

  /** Each page of the buffer after the first is landed in. */
  ghost predicate LandsInAll(pages: map<Place, Page>, va: int, offset: int, end: int) {
    forall s :: s in pages && Touches(s, va, end) && !Holds(s, va) ==> Lands(s, offset, end)
  }

  /** The walk never goes back. */
  lemma {:induction false} BehindUntouched(pages: map<Place, Page>, va: int, end: int, s: Place)
    requires PagesOk(pages) && s in pages && Hi(s) <= va
    ensures s in ReleaseWalk(pages, va, end).pages && ReleaseWalk(pages, va, end).pages[s] == pages[s]
    decreases VA_LIMIT - va
  {
    hide PagesOk, Lo, Hi, WfPlace, Span, Unbump;
    if 0 <= va < VA_LIMIT {
      var f := FindPage(pages, va);
      if f.Some? {
        Found(pages, f.value, va);
        TakeOneOk(pages, f.value);
        var rest, next := TakeOne(pages, f.value), va + Span(f.value.level);
        if next < end {
          BehindUntouched(rest, next, end, s);
        }
      }
    }
  }

  /** The pages of a mapped range: the first one, and those of the rest. */
  lemma FirstPage(pages: map<Place, Page>, va: VAddr, end: int, s: Place)
    requires PagesOk(pages) && FindPage(pages, va) == Some(s) && va < end
    ensures Lo(s) <= va < Hi(s) && s in pages
    ensures Touches(s, va, end)
    ensures Hi(s) >= end ==> forall t :: t in pages && Touches(t, va, end) ==> t == s
    ensures forall t :: t in pages && t != s ==> (Touches(t, va, end) <==> Touches(t, Hi(s), end))
    ensures !Touches(s, Hi(s), end)
  {
    hide Lo, Hi, WfPlace, Span, FindPage;
    Found(pages, s, va);
    forall t | t in pages ensures Lo(t) < Hi(t) { Found(pages, t, va); }
  }

  lemma NextPage(pages: map<Place, Page>, s: Place, end: int) returns (t: Place)
    requires PagesOk(pages) && s in pages && Hi(s) < end && Mapped(pages, Hi(s), end)
    ensures t in pages && t != s && Lo(t) == Hi(s) && FindPage(pages, Hi(s)) == Some(t)
  {
    hide Lo, Hi, WfPlace, Span, FindPage;
    var x := Hi(s);
    assert MappedAt(pages, x);
    t := FindPage(pages, x).value;
    Found(pages, t, x);
    Found(pages, s, x);
  }

  /** The release loop run on a fully mapped buffer takes one reference from
      exactly the pages of the buffer if and only if it lands in all of them. */
  lemma {:induction false} WalkExactIff(pages: map<Place, Page>, va: VAddr, end: int, s: Place)
    requires PagesOk(pages) && va < end && Mapped(pages, va, end) && FindPage(pages, va) == Some(s)
    ensures ReleaseWalk(pages, va, end) == Walked(Unreferenced(pages, va, end), true)
       <==> LandsInAll(pages, va, va - Lo(s), end)
    decreases VA_LIMIT - va
  {
    hide Lo, Hi, WfPlace, Span, FindPage, PagesOk, Unreferenced, TakeOne, LandsInAll, Mapped;
    FirstPage(pages, va, end, s);
    Found(pages, s, va);
    TakeOneOk(pages, s);
    var rest, next, offset := TakeOne(pages, s), va + Span(s.level), va - Lo(s);
    assert next == Hi(s) + offset;
    if Hi(s) >= end {
      assert ReleaseWalk(pages, va, end) == Walked(rest, true);
      OnePageUnreferenced(pages, va, end, s);
    } else {
      MappedPart(pages, va, Hi(s), end);
      var t := NextPage(pages, s, end);
      if Lands(t, offset, end) {
        WalkExactStep(pages, va, end, s, t);
        WalkExactIff(rest, next, end, t);
      } else {
        WalkMisses(pages, va, end, s, t);
      }
    }
  }

  lemma OnePageUnreferenced(pages: map<Place, Page>, va: VAddr, end: int, s: Place)
    requires PagesOk(pages) && s in pages && Touches(s, va, end)
    requires forall t :: t in pages && Touches(t, va, end) ==> t == s
    requires Holds(s, va)
    ensures TakeOne(pages, s) == Unreferenced(pages, va, end)
    ensures LandsInAll(pages, va, va - Lo(s), end)
  {
    hide Lo, Hi, WfPlace, Touches;
  }

  lemma WalkMisses(pages: map<Place, Page>, va: VAddr, end: int, s: Place, t: Place)
    requires PagesOk(pages) && FindPage(pages, va) == Some(s) && Lo(s) <= va < Hi(s) && va < end
    requires t in pages && t != s && Lo(t) == Hi(s) && Lo(t) < end
    requires !Lands(t, va - Lo(s), end)
    ensures ReleaseWalk(pages, va, end) != Walked(Unreferenced(pages, va, end), true)
    ensures !LandsInAll(pages, va, va - Lo(s), end)
  {
    hide Lo, Hi, WfPlace, Span, FindPage, PagesOk;
    Found(pages, t, va);
    Found(pages, s, va);
    TakeOneOk(pages, s);
    var rest, next := TakeOne(pages, s), va + Span(s.level);
    assert Touches(t, va, end) && !Holds(t, va);
    assert t in rest && rest[t] == pages[t];
    if next < end {
      BehindUntouched(rest, next, end, t);
    }
    assert t in Unreferenced(pages, va, end) ==> Unreferenced(pages, va, end)[t] == Unbump(pages[t]);
  }

  lemma WalkExactStep(pages: map<Place, Page>, va: VAddr, end: int, s: Place, t: Place)
    requires PagesOk(pages) && Mapped(pages, va, end) && FindPage(pages, va) == Some(s) && va < end
    requires Hi(s) < end && t in pages && t != s && Lo(t) == Hi(s) && Lands(t, va - Lo(s), end)
    ensures var rest, next := TakeOne(pages, s), va + Span(s.level);
            && va < next < VA_LIMIT && next < end && next - Lo(t) == va - Lo(s)
            && PagesOk(rest) && Mapped(rest, next, end) && FindPage(rest, next) == Some(t)
            && Unreferenced(rest, next, end) == Unreferenced(pages, va, end)
            && (LandsInAll(rest, next, va - Lo(s), end) <==> LandsInAll(pages, va, va - Lo(s), end))
            && ReleaseWalk(pages, va, end) == ReleaseWalk(rest, next, end)
  {
    hide Lo, Hi, WfPlace, Span, FindPage, PagesOk, Unreferenced, LandsInAll, Mapped, Touches, ReleaseWalk;
    FirstPage(pages, va, end, s);
    Found(pages, s, va);
    Found(pages, t, va);
    TakeOneOk(pages, s);
    var rest, next := TakeOne(pages, s), va + Span(s.level);
    assert next == Lo(t) + (va - Lo(s));
    MappedPart(pages, va, next, end);
    StillMapped(pages, s, next, end);
    Found(rest, t, next);
    SameTouches(pages, va, next, end, s, t);
    WalkOnce(pages, va, end, s);
  }

  lemma WalkOnce(pages: map<Place, Page>, va: VAddr, end: int, s: Place)
    requires FindPage(pages, va) == Some(s)
    ensures var rest, next := TakeOne(pages, s), va + Span(s.level);
            ReleaseWalk(pages, va, end) == if next >= end then Walked(rest, true) else ReleaseWalk(rest, next, end)
  {
    hide FindPage, Span, TakeOne;
  }

  /** One step of the walk, and what it does to the pages. */
  lemma WalkUnfold(pages: map<Place, Page>, va: VAddr, end: int)
    ensures match FindPage(pages, va)
            case None => ReleaseWalk(pages, va, end) == Walked(pages, false)
            case Some(s) =>
              && s in pages && SizeToBytes(DepthToSize(s.level)) == Span(s.level) > 0
              && var rest, next := TakeOne(pages, s), va + Span(s.level);
                 && ReleaseWalk(pages, va, end) == (if next >= end then Walked(rest, true) else ReleaseWalk(rest, next, end))
                 && (s !in rest ==> rest == pages - {s})
  {
    hide FindPage, Span;
    if FindPage(pages, va).Some? {
      WalkOnce(pages, va, end, FindPage(pages, va).value);
      SpanIsSize(FindPage(pages, va).value.level);
    }
  }

  lemma SpanIsSize(level: int)
    requires 0 <= level <= 2
    ensures SizeToBytes(DepthToSize(level)) == Span(level)
  {}

  lemma MappedPart(pages: map<Place, Page>, lo: int, mid: int, hi: int)
    requires lo <= mid < hi && Mapped(pages, lo, hi)
    ensures Mapped(pages, mid, hi) && 0 <= mid < VA_LIMIT
  {
    assert MappedAt(pages, mid);
  }

  lemma StillMapped(pages: map<Place, Page>, s: Place, lo: int, hi: int)
    requires PagesOk(pages) && s in pages && Hi(s) <= lo && Mapped(pages, lo, hi)
    ensures Mapped(TakeOne(pages, s), lo, hi)
  {
    hide Lo, Hi, WfPlace, FindPage, PagesOk;
    TakeOneOk(pages, s);
    forall x | lo <= x < hi ensures MappedAt(TakeOne(pages, s), x) {
      assert MappedAt(pages, x);
      var t := FindPage(pages, x).value;
      Found(pages, t, x);
      Found(TakeOne(pages, s), t, x);
    }
  }

  /** After the first page, the pages of the buffer are those from `next` on. */
  lemma SameTouches(pages: map<Place, Page>, va: int, next: int, end: int, s: Place, t: Place)
    requires PagesOk(pages) && s in pages && t in pages && s != t
    requires Lo(s) <= va < Hi(s) == Lo(t) <= next < Hi(t) && next < end && next - Lo(t) == va - Lo(s)
    ensures Unreferenced(TakeOne(pages, s), next, end) == Unreferenced(pages, va, end)
    ensures LandsInAll(TakeOne(pages, s), next, va - Lo(s), end) <==> LandsInAll(pages, va, va - Lo(s), end)
  {
    hide Lo, Hi, WfPlace, Span, PageNum;
    forall u | u in pages ensures Lo(u) < Hi(u) { OwnPlace(u); }
    forall u | u in pages && u != s && u != t
      ensures Touches(u, va, end) == Touches(u, next, end) && !Holds(u, va) && !Holds(u, next)
    {
      assert Hi(u) <= Lo(t) || Hi(t) <= Lo(u);
      assert Hi(u) <= Lo(s) || Hi(s) <= Lo(u);
    }
    SameUnreferenced(pages, va, next, end, s, t);
  }

  lemma SameUnreferenced(pages: map<Place, Page>, va: int, next: int, end: int, s: Place, t: Place)
    requires s in pages && t in pages && s != t
    requires Touches(s, va, end) && !Touches(s, next, end) && Touches(t, va, end) && Touches(t, next, end)
    requires Holds(s, va) && !Holds(t, va) && Holds(t, next) && Lands(t, va - Lo(s), end)
    requires forall u :: u in pages && u != s && u != t ==>
               Touches(u, va, end) == Touches(u, next, end) && !Holds(u, va) && !Holds(u, next)
    ensures Unreferenced(TakeOne(pages, s), next, end) == Unreferenced(pages, va, end)
    ensures LandsInAll(TakeOne(pages, s), next, va - Lo(s), end) <==> LandsInAll(pages, va, va - Lo(s), end)
  {
    hide Touches, Holds, Lands, Lo;
    var rest := TakeOne(pages, s);
    if LandsInAll(rest, next, va - Lo(s), end) {
      forall u | u in pages && Touches(u, va, end) && !Holds(u, va) ensures Lands(u, va - Lo(s), end) {
        assert u in rest;
      }
    }
    if LandsInAll(pages, va, va - Lo(s), end) {
      forall u | u in rest && Touches(u, next, end) && !Holds(u, next) ensures Lands(u, va - Lo(s), end) {
        assert u in pages && u != s;
      }
    }
  }

  /** A buffer whose recorded start is the start of its first page is released exactly. */
  lemma AlignedWalkExact(pages: map<Place, Page>, va: VAddr, end: int, s: Place)
    requires PagesOk(pages) && va < end && Mapped(pages, va, end) && FindPage(pages, va) == Some(s)
    requires Lo(s) == va
    ensures ReleaseWalk(pages, va, end) == Walked(Unreferenced(pages, va, end), true)
  {
    hide Lo, Hi, WfPlace, FindPage, Mapped, ReleaseWalk;
    forall t | t in pages && Touches(t, va, end) && !Holds(t, va) ensures Lands(t, 0, end) {
      Found(pages, t, va);
    }
    WalkExactIff(pages, va, end, s);
  }

  // ---------------------------------------------------------------------
  //  What a release has visited, seen from the pages before and after
  // ---------------------------------------------------------------------

  /** Pages only went away or lost references, and only pages that touch [start, end). */
  ghost predicate Fewer(pages: map<Place, Page>, pages': map<Place, Page>, start: int, end: int) {
    && (forall s :: s in pages' ==> s in pages && pages'[s].flags == pages[s].flags)
    && forall s :: s in pages && Taken(pages, pages', s) ==> Touches(s, start, end)
  }

  /** A reference to page `s`, or the page with its last one, was taken. */
  ghost predicate Taken(pages: map<Place, Page>, pages': map<Place, Page>, s: Place)
    requires s in pages
  {
    s !in pages' || pages'[s] != pages[s]
  }

  /** A page from which a reference was taken is still there. */
  ghost predicate SomeStays(pages: map<Place, Page>, pages': map<Place, Page>) {
    exists s :: s in pages && s in pages' && pages'[s] != pages[s]
  }

  /** A page from which a reference was taken is memory that MPF allocated. */
  ghost predicate SomeAlloc(pages: map<Place, Page>, pages': map<Place, Page>) {
    exists s :: s in pages && Taken(pages, pages', s) && Alloc in pages[s].flags
  }

  /** The pages that lost references end before `va`. */
  ghost predicate Behind(pages: map<Place, Page>, pages': map<Place, Page>, va: int) {
    forall s :: s in pages && s in pages' && pages'[s] != pages[s] ==> Hi(s) <= va
  }

  lemma NothingTaken(pages: map<Place, Page>, start: int, end: int)
    ensures Fewer(pages, pages, start, end) && !SomeStays(pages, pages) && !SomeAlloc(pages, pages)
    ensures Behind(pages, pages, start)
  {}

  /** Taking one more reference, from the page at `va`. */
  lemma OneMoreTaken(pages0: map<Place, Page>, pages: map<Place, Page>, pages': map<Place, Page>, start: int, va: VAddr,
                     end: int, t: Place)
    requires Fewer(pages0, pages, start, end) && Behind(pages0, pages, va) && PagesOk(pages)
    requires t in pages && Holds(t, va) && pages' == TakeOne(pages, t) && start <= va < end
    ensures Fewer(pages0, pages', start, end) && Behind(pages0, pages', va + Span(t.level))
    ensures SomeStays(pages0, pages') <==> SomeStays(pages0, pages) || t in pages'
    ensures SomeAlloc(pages0, pages') <==> SomeAlloc(pages0, pages) || Alloc in pages[t].flags
  {
    LoHi(t);
    hide Lo, Hi, Span, PagesOk;
    assert pages[t] == pages0[t];
    forall s | s in pages && s != t ensures s in pages' && pages'[s] == pages[s] {}
    if SomeAlloc(pages0, pages) {
      var s :| s in pages0 && Taken(pages0, pages, s) && Alloc in pages0[s].flags;
      assert Taken(pages0, pages', s);
    }
    if SomeAlloc(pages0, pages') && !SomeAlloc(pages0, pages) {
      var s :| s in pages0 && Taken(pages0, pages', s) && Alloc in pages0[s].flags;
      assert !Taken(pages0, pages, s) && s == t;
    }
    assert Alloc in pages[t].flags ==> Taken(pages0, pages', t);
  }
}
