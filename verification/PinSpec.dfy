/** How the pin loop covers a buffer, page by page. */
module PinSpec {
  import opened Addresses
  import opened Words
  import opened TableView
  import opened TableSpec
  import opened ReleaseWalks
  import opened BufferRuns

  /** The loop has reached `page`: nothing is done yet, or everything that overlaps
      [lo, page) is pinned and `page` is where the last page pinned ends. */
  ghost predicate PinnedUpTo(pages: map<Place, Page>, pages': map<Place, Page>, lo: int, page: int, end: int,
                             flags: set<Flag>, last: Place)
  {
    if page == lo then pages' == pages
    else
      && lo < page && Pinned(pages, pages', lo, page, flags)
      && last in pages' && Hi(last) == page && Lo(last) < end
  }

  lemma Disjointness(pages: map<Place, Page>, s: Place, t: Place)
    requires PagesOk(pages) && s in pages && t in pages
    ensures s == t || Hi(s) <= Lo(t) || Hi(t) <= Lo(s)
    ensures Lo(s) < Hi(s)
  {
    OwnPlace(s);
  }

  /** The page found at `page` starts there, unless the loop has only just begun. */
  lemma ExistingStart(pages: map<Place, Page>, pages': map<Place, Page>, lo: int, page: VAddr, end: int,
                      flags: set<Flag>, last: Place, s: Place)
    requires PagesOk(pages') && PinnedUpTo(pages, pages', lo, page, end, flags, last)
    requires FindPage(pages', page) == Some(s)
    ensures Lo(s) <= page < Hi(s) && (page != lo ==> Lo(s) == page)
  {
    hide Lo, Hi, FindPage;
    Found(pages', s, page);
    if page != lo {
      Disjointness(pages', last, s);
    }
  }

  /** Counting the page found at `page` once more. */
  lemma PinExisting(pages: map<Place, Page>, pages': map<Place, Page>, lo: int, page: VAddr, end: int,
                    flags: set<Flag>, last: Place, s: Place)
    requires PagesOk(pages') && PinnedUpTo(pages, pages', lo, page, end, flags, last)
    requires FindPage(pages', page) == Some(s) && lo <= page < end
    ensures PinnedUpTo(pages, pages'[s := Bump(pages'[s], flags)], lo, Hi(s), end, flags, s)
    ensures Hi(s) > page
  {
    hide Lo, Hi, FindPage;
    ExistingStart(pages, pages', lo, page, end, flags, last, s);
    Found(pages', s, page);
    OwnPlace(s);
    var after := pages'[s := Bump(pages'[s], flags)];
    forall t | t in pages' && t != s ensures Touches(t, lo, Hi(s)) <==> (page != lo && Touches(t, lo, page)) {
      Disjointness(pages', t, s);
    }
    BumpMapped(pages', s, lo, page, Hi(s), after);
  }

  lemma BumpMapped(pages: map<Place, Page>, s: Place, lo: int, page: int, hi: int, after: map<Place, Page>)
    requires PagesOk(pages) && PagesOk(after) && (page > lo ==> Mapped(pages, lo, page))
    requires s in after && Lo(s) <= page && hi == Hi(s) && 0 <= Lo(s)
    requires forall t :: t in pages ==> t in after
    ensures Mapped(after, lo, hi) || lo > page
  {
    hide Lo, FindPage, WfPlace;
    OwnPlace(s);
    if lo <= page {
      forall x | lo <= x < hi ensures MappedAt(after, x) {
        if x < page {
          assert MappedAt(pages, x);
          var t := FindPage(pages, x).value;
          Found(pages, t, x);
          Found(after, t, x);
        } else {
          RegionInTable(s);
          Found(after, s, x);
        }
      }
    }
  }

  lemma RegionInTable(s: Place)
    requires 0 <= s.level <= ROOT_LEVEL && WfPlace(s)
    ensures Hi(s) <= VA_LIMIT
  {}

  /** Adding a new page that starts at `page`. */
  lemma PinFresh(pages: map<Place, Page>, pages': map<Place, Page>, lo: int, page: VAddr, end: int,
                 flags: set<Flag>, last: Place, s: Place, new': Page)
    requires PagesOk(pages') && PinnedUpTo(pages, pages', lo, page, end, flags, last) && lo <= page < end
    requires s !in pages' && Lo(s) == page && IsNew(new', flags) && PagesOk(pages'[s := new'])
    ensures PinnedUpTo(pages, pages'[s := new'], lo, Hi(s), end, flags, s)
    ensures Hi(s) > page
  {
    hide Lo, Hi, FindPage, Bump;
    var after := pages'[s := new'];
    Disjointness(after, s, s);
    forall t | t in pages' ensures Touches(t, lo, Hi(s)) <==> (page != lo && Touches(t, lo, page)) {
      Disjointness(after, t, s);
      Disjointness(after, t, t);
    }
    BumpMapped(pages', s, lo, page, Hi(s), after);
  }

  /** Once the loop has passed `end`, the pages pinned are those that overlap [lo, end). */
  lemma PinFinished(pages: map<Place, Page>, pages': map<Place, Page>, lo: int, page: int, end: int,
                    flags: set<Flag>, last: Place)
    requires PagesOk(pages') && PinnedUpTo(pages, pages', lo, page, end, flags, last) && lo < end <= page
    ensures Pinned(pages, pages', lo, end, flags)
  {
    hide Lo, Hi, FindPage, Bump;
    forall t | t in pages'
      ensures Touches(t, lo, page) <==> Touches(t, lo, end)
      ensures Lo(t) < page ==> Lo(t) < end
    {
      Disjointness(pages', t, last);
      Disjointness(pages', last, t);
      Disjointness(pages', t, t);
    }
    forall x | lo <= x < end ensures MappedAt(pages', x) {}
  }

  /** In a region without pages, the loop finds no page ahead of itself. */
  lemma NothingAhead(pages: map<Place, Page>, pages': map<Place, Page>, lo: int, page: VAddr, end: int,
                     flags: set<Flag>, last: Place)
    requires PagesOk(pages') && PinnedUpTo(pages, pages', lo, page, end, flags, last) && lo <= page < end
    requires forall s :: s in pages ==> !Touches(s, lo, end)
    ensures FindPage(pages', page) == None
  {
    hide Lo, Hi, Bump;
    var r := FindPage(pages', page);
    if r.Some? {
      ExistingStart(pages, pages', lo, page, end, flags, last, r.value);
    }
  }

  /** An unmapped address is covered by no page of any size. */
  lemma Uncovered(v: View, va: VAddr, level: int)
    requires TreeOk(v) && 0 <= level <= ROOT_LEVEL && PageAt(v, va) == None
    ensures CoverAt(v, va, level) == None
  {
    var c := CoverAt(v, va, level);
    if c.Some? {
      PageAtExact(v, c.value, va);
    }
  }

  /** A page covers its own start, and its start is aligned as an insertion demands. */
  lemma CoversItself(v: View, s: Place)
    requires TreeOk(v) && s in v.pages
    ensures 0 <= Lo(s) < VA_LIMIT && PlaceOf(Lo(s), s.level) == s
    ensures CoverAt(v, Lo(s), s.level) == Some(s)
    ensures LevelOf(DepthToSize(s.level)) == s.level
    ensures AlignedFor(DepthToSize(s.level), Lo(s), v.pages[s].pa)
    ensures Hi(s) == Lo(s) + SizeToBytes(DepthToSize(s.level))
  {
    OwnPlace(s);
    CoverUnique(v, Lo(s), s.level, s.level);
  }

  lemma InsertFailed(v: View, v': View, r: FpgaResult, va: VAddr, level: int, page: Page, flags: set<Flag>)
    requires 0 <= level <= 2 && Inserted(v, v', r, va, level, page, flags) && r != OK
    ensures v'.pages == v.pages
  {}

  /** Inserting over an existing page counts it, and cannot fail. */
  lemma InsertedExisting(v: View, v': View, r: FpgaResult, s: Place, page: Page, flags: set<Flag>)
    requires TreeOk(v) && s in v.pages && 0 <= Lo(s) < VA_LIMIT
    requires Inserted(v, v', r, Lo(s), LevelOf(DepthToSize(s.level)), page, flags)
    ensures r == OK && v'.pages == v.pages[s := Bump(v.pages[s], flags)]
  {
    CoversItself(v, s);
  }

  /** Inserting at an unmapped address adds a page that starts there. */
  lemma InsertedFresh(v: View, v': View, va: VAddr, level: int, page: Page, flags: set<Flag>)
    requires TreeOk(v) && 0 <= level <= 2 && PageAt(v, va) == None && va % Span(level) == 0
    requires Inserted(v, v', OK, va, level, page, flags)
    ensures var s := PlaceOf(va, level);
            && s !in v.pages && v'.pages == v.pages[s := page] && Lo(s) == va
            && Hi(s) == va + Span(level)
  {
    Uncovered(v, va, level);
    PageStart(va, level);
    PlaceOfParent(va, level);
    PageAtExact(v, PlaceOf(va, level), va);
    HoldsIffPlaceOf(PlaceOf(va, level), va);
    LoHi(PlaceOf(va, level));
  }

  lemma StartPinning(pages: map<Place, Page>, lo: int, end: int, flags: set<Flag>, last: Place)
    ensures PinnedUpTo(pages, pages, lo, lo, end, flags, last)
  {}

  lemma StoppedAt(pages: map<Place, Page>, pages': map<Place, Page>, lo: int, page: int, end: int, flags: set<Flag>,
                  last: Place)
    requires PinnedUpTo(pages, pages', lo, page, end, flags, last)
    ensures if page == lo then pages' == pages else Pinned(pages, pages', lo, page, flags)
  {}

  lemma PageAtIsFind(v: View, va: VAddr)
    ensures PageAt(v, va) == FindPage(v.pages, va)
  {}

  lemma SamePagesSameLookup(v: View, v': View, va: VAddr)
    requires v.pages == v'.pages
    ensures PageAt(v, va) == PageAt(v', va)
  {}

  /** One iteration: the page at `page` was counted, or a new page was added there. */
  lemma PinStep(pages: map<Place, Page>, before: map<Place, Page>, after: map<Place, Page>, lo: int, page: VAddr,
                end: int, flags: set<Flag>, last: Place, s: Place)
    requires PagesOk(before) && PagesOk(after) && PinnedUpTo(pages, before, lo, page, end, flags, last)
    requires lo <= page < end && s in after
    requires match FindPage(before, page)
             case Some(t) => s == t && after == before[s := Bump(before[s], flags)]
             case None => s !in before && Lo(s) == page && IsNew(after[s], flags) && after == before[s := after[s]]
    ensures PinnedUpTo(pages, after, lo, Hi(s), end, flags, s)
    ensures Hi(s) > page
  {
    if FindPage(before, page).Some? {
      PinExisting(pages, before, lo, page, end, flags, last, s);
    } else {
      PinFresh(pages, before, lo, page, end, flags, last, s, after[s]);
    }
  }

  /** The start and size of the page found at `va`. */
  lemma PageBounds(v: View, va: VAddr, s: Place)
    requires PageAt(v, va) == Some(s)
    ensures var bytes := SizeToBytes(DepthToSize(s.level));
            && va - va % bytes == Lo(s) && Hi(s) == Lo(s) + bytes && Hi(s) % 0x1000 == 0
            && 0 <= Lo(s) < VA_LIMIT && bytes > 0
  {
    hide Lo, Hi, PageNum, PlaceOf;
    HoldsIffPlaceOf(s, va);
    PageStart(va, s.level);
    LoHi(s);
    PageGrid(s);
  }

  /** Pages start and end on multiples of 4KB. */
  lemma PageGrid(s: Place)
    requires 0 <= s.level <= 2
    ensures SizeToBytes(DepthToSize(s.level)) == Span(s.level)
    ensures Lo(s) % 0x1000 == 0 && Hi(s) % 0x1000 == 0 && Span(s.level) % 0x1000 == 0
  {}
}
