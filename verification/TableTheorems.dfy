/** What the operations mean together. */
module TableTheorems {
  import opened Addresses
  import opened Words
  import opened FpgaTlb
  import opened TableView
  import opened TableMemory
  import opened TableSpec
  import opened TableSteps
  import opened RangeSpec

  /** A 2MB insertion that gets its memory is refused exactly when a 4KB page is mapped
      inside its region. */
  lemma TwoMegabyteRefusedIff(v: View, v': View, r: FpgaResult, va: VAddr, page: Page, flags: set<Flag>)
    requires TreeOk(v) && Inserted(v, v', r, va, 1, page, flags) && r != NoMemory
    ensures r == Exception <==>
            exists s :: s in v.pages && s.level == 0 && Within(s, Lo(PlaceOf(va, 1)), Hi(PlaceOf(va, 1)))
  {
    SmallPagesDivide(v, va);
    CoveredUndivided(v, va, 1);
  }

  /** The slots of the region that a page of `level` or larger covers are not in use. */
  lemma CoveredUndivided(v: View, va: VAddr, level: int)
    requires TreeOk(v) && 1 <= level <= 2
    ensures CoverAt(v, va, level).Some? ==> !Subdivided(v, PlaceOf(va, level))
  {
    var cover := CoverAt(v, va, level);
    if cover.Some? {
      CoverOnPath(v, va, level);
      if cover.value.level > level {
        MissingAncestor(v, va, level, cover.value.level);
      }
    }
  }

  lemma CoverOnPath(v: View, va: VAddr, level: int)
    requires TreeOk(v) && 0 <= level <= ROOT_LEVEL
    ensures var c := CoverAt(v, va, level);
            c.Some? ==> c.value == PlaceOf(va, c.value.level) && c.value !in v.nodes && level <= c.value.level <= 2
    decreases ROOT_LEVEL - level
  {
    if PlaceOf(va, level) !in v.pages && level < ROOT_LEVEL {
      CoverOnPath(v, va, level + 1);
    }
  }

  lemma SmallPagesDivide(v: View, va: VAddr)
    requires TreeOk(v)
    ensures Subdivided(v, PlaceOf(va, 1)) <==>
            exists s :: s in v.pages && s.level == 0 && Within(s, Lo(PlaceOf(va, 1)), Hi(PlaceOf(va, 1)))
  {
    var c := PlaceOf(va, 1);
    HoldsIffPlaceOf(c, va);
    if Subdivided(v, c) {
      var i :| 0 <= i < FANOUT && Occupied(v, Child(c, i));
      ChildRange(c, i);
      assert Child(c, i) in v.pages;
    }
    if s :| s in v.pages && s.level == 0 && Within(s, Lo(c), Hi(c)) {
      PlaceOfParent(va, 0);
      AncestorOccupied(v, s, 1);
      HoldsIffPlaceOf(c, Lo(s));
      PlaceOfParent(Lo(s), 0);
      ParentChild(s);
      assert Occupied(v, Child(c, Idx(s)));
    }
  }

  /** A 1GB insertion that gets its memory is refused exactly when a smaller page is mapped
      inside its region, or a node for 4KB pages is left there, empty or not. */
  lemma OneGigabyteRefusedIff(v: View, v': View, r: FpgaResult, va: VAddr, page: Page, flags: set<Flag>)
    requires TreeOk(v) && Inserted(v, v', r, va, 2, page, flags) && r != NoMemory
    ensures r == Exception <==>
            exists s :: Occupied(v, s) && s.level <= 1 && Within(s, Lo(PlaceOf(va, 2)), Hi(PlaceOf(va, 2)))
  {
    SmallerSlotsDivide(v, va);
    CoveredUndivided(v, va, 2);
  }

  lemma SmallerSlotsDivide(v: View, va: VAddr)
    requires TreeOk(v)
    ensures Subdivided(v, PlaceOf(va, 2)) <==>
            exists s :: Occupied(v, s) && s.level <= 1 && Within(s, Lo(PlaceOf(va, 2)), Hi(PlaceOf(va, 2)))
  {
    var c := PlaceOf(va, 2);
    if Subdivided(v, c) {
      var i :| 0 <= i < FANOUT && Occupied(v, Child(c, i));
      ChildRange(c, i);
      assert Within(Child(c, i), Lo(c), Hi(c));
    }
    if s :| Occupied(v, s) && s.level <= 1 && Within(s, Lo(c), Hi(c)) {
      AncestorOccupied(v, s, 2);
      AncestorOccupied(v, s, 1);
      HoldsIffPlaceOf(c, Lo(s));
      PlaceOfParent(Lo(s), 1);
      ParentChild(PlaceOf(Lo(s), 1));
      assert Occupied(v, Child(c, Idx(PlaceOf(Lo(s), 1))));
    }
  }

  /** So a 1GB page can be refused where nothing is mapped: mapping one 4KB page and
      removing it again leaves a table without pages that refuses the 1GB page there. */
  lemma OneGigabyteRefusedOnEmptyTable(root: NodeRef, n3: NodeRef, n2: NodeRef, n1: NodeRef)
    ensures var start := View(map[Root := root], map[]);
            var page := NewPage(0x7000, 1, {Prealloc});
            var small := View(map[Root := root, Place(3, 0) := n3, Place(2, 0) := n2, Place(1, 0) := n1],
                              map[Place(0, 0) := page]);
            var left := small.(pages := map[]);
            && Inserted(start, small, OK, 0, 0, page, {Prealloc})
            && Removed(small, left, OK, 0)
            && TreeOk(left) && left.pages == map[]
            && forall v', r, big :: Inserted(left, v', r, 0, 2, big, {Prealloc}) ==> r == Exception
  {
    var start := View(map[Root := root], map[]);
    var page := NewPage(0x7000, 1, {Prealloc});
    var small := View(map[Root := root, Place(3, 0) := n3, Place(2, 0) := n2, Place(1, 0) := n1],
                      map[Place(0, 0) := page]);
    var left := small.(pages := map[]);
    ZeroPlaces();
    assert CoverAt(start, 0, 0).None?;
    assert Inserted(start, small, OK, 0, 0, page, {Prealloc});
    assert PageAt(small, 0) == Some(Place(0, 0));
    assert small.pages - {Place(0, 0)} == map[];
    assert Occupied(left, Child(Place(2, 0), 0));
    assert Subdivided(left, PlaceOf(0, 2));
    assert CoverAt(left, 0, 2).None?;
  }

  lemma ZeroPlaces()
    ensures PlaceOf(0, 0) == Place(0, 0) && PlaceOf(0, 1) == Place(1, 0) && PlaceOf(0, 2) == Place(2, 0)
    ensures PlaceOf(0, 3) == Place(3, 0) && PlaceOf(0, 4) == Place(4, 0)
  {
    PageNumIsDiv(0, 0); PageNumIsDiv(0, 1); PageNumIsDiv(0, 2); PageNumIsDiv(0, 3); PageNumIsDiv(0, 4);
  }

  /** A 1GB page that the FPGA misreads: one insertion into an empty table maps 1GB at
      address 0 to 0x4000_0000; memory holds it, the device's walk for address 0x1000
      answers with a 4KB page, and the FPGA goes to the first byte of the page. */
  lemma OneGigabyteMisread(root: NodeRef, n3: NodeRef, io: map<int, int>) returns (mem: Memory, owner: map<int, Place>)
    requires NodeAddrOk(root.addr) && NodeAddrOk(n3.addr) && root.addr != n3.addr
    requires PageAligned(root.pa) && PageAligned(n3.pa) && root.pa in io && io[root.pa] == root.addr
    requires n3.pa in io && io[n3.pa] == n3.addr
    ensures var start := View(map[Root := root], map[]);
            var page := NewPage(0x4000_0000, 7, {InUse});
            var big := View(map[Root := root, Place(3, 0) := n3], map[Place(2, 0) := page]);
            && Inserted(start, big, OK, 0, 2, page, {InUse})
            && Represents(mem, big, owner) && DeviceMapped(big, io)
            && PageAt(big, 0x1000) == Some(Place(2, 0)) && page.pa + (0x1000 - Lo(Place(2, 0))) == 0x4000_1000
            && HwWalk(mem, io, root.pa, 0x1000, 3) == HwAnswer(Present(0x4_0000, false))
            && FpgaAddress(Present(0x4_0000, false), 0x1000) == 0x4000_0000
  {
    var page := NewPage(0x4000_0000, 7, {InUse});
    var big := View(map[Root := root, Place(3, 0) := n3], map[Place(2, 0) := page]);
    mem, owner := BuildOneGigabyte(root, n3);
    InsertOneGigabyte(root, n3);
    HoldsIffPlaceOf(Place(2, 0), 0x1000);
    PageAtExact(big, Place(2, 0), 0x1000);
    PlaceOfParent(0x1000, 3);
    hide Represents, PageAt;
    HwWalkIsDescend(mem, big, owner, io, 0x1000, 3);
    DescendIsLookup(big, 0x1000, 3) by { RepresentsTree(mem, big, owner); }
  }

  lemma RepresentsTree(mem: Memory, v: View, owner: map<int, Place>)
    requires Represents(mem, v, owner)
    ensures TreeOk(v)
  {}

  lemma InsertOneGigabyte(root: NodeRef, n3: NodeRef)
    ensures var page := NewPage(0x4000_0000, 7, {InUse});
            Inserted(View(map[Root := root], map[]),
                     View(map[Root := root, Place(3, 0) := n3], map[Place(2, 0) := page]), OK, 0, 2, page, {InUse})
  {
    ZeroPlaces();
  }

  /** The writes of that insertion, one after the other. */
  lemma BuildOneGigabyte(root: NodeRef, n3: NodeRef) returns (mem: Memory, owner: map<int, Place>)
    requires NodeAddrOk(root.addr) && NodeAddrOk(n3.addr) && root.addr != n3.addr
    ensures Represents(mem, View(map[Root := root, Place(3, 0) := n3],
                                 map[Place(2, 0) := NewPage(0x4000_0000, 7, {InUse})]), owner)
  {
    hide Represents;
    var start := View(map[Root := root], map[]);
    var linked := View(map[Root := root, Place(3, 0) := n3], map[]);
    ZeroPlaces();
    RootOnlyRepresents(root);
    var mem0, owner0 := map[root.addr := EmptyNode], map[root.addr := Root];
    LinkNode(mem0, start, owner0, Place(3, 0), n3);
    assert start.(nodes := start.nodes[Place(3, 0) := n3]) == linked;
    var mem1, owner1 := mem0[n3.addr := EmptyNode][root.addr := InsertChildNode(EmptyNode, 0, n3.addr, n3.pa, n3.wsid)],
                        owner0[n3.addr := Place(3, 0)];
    InsertSlot(mem1, linked, owner1, n3.addr, 0, 2, 0x4000_0000, 7, {InUse});
    mem := mem1[n3.addr := InsertTranslatedAddr(mem1[n3.addr], PtIdxFromAddr(0, 2), 0x4000_0000, 7, {InUse})];
    owner := owner1;
  }

  /** What counting a mapped page once more does to it.  The page is marked preallocated,
      and no longer MPF-allocated, if the request says so; its address, its handle and
      every other mark stay, and so does every other page. */
  lemma CountedOnceMore(v: View, v': View, va: VAddr, level: int, page: Page, flags: set<Flag>, c: Place)
    requires 0 <= level <= 2 && Inserted(v, v', OK, va, level, page, flags) && CoverAt(v, va, level) == Some(c)
    ensures v'.nodes == v.nodes && v'.pages.Keys == v.pages.Keys && c in v.pages && Holds(c, va) && level <= c.level
    ensures forall s :: s in v.pages && s != c ==> v'.pages[s] == v.pages[s]
    ensures var p, q := v.pages[c], v'.pages[c];
            && q.pa == p.pa && q.wsid == p.wsid && q.refcnt == p.refcnt + 1
            && (Prealloc in q.flags <==> Prealloc in p.flags || Prealloc in flags)
            && (Alloc in q.flags <==> Alloc in p.flags && Prealloc !in flags)
            && forall f :: f != Prealloc && f != Alloc ==> (f in q.flags <==> f in p.flags)
  {
    hide PlaceOf, OnlyPathNodes, Subdivided;
  }

  /** What an insertion over no page adds: the address, handle and marks of the request,
      but for the in-use mark, and a count of 1; every other page stays. */
  lemma AddedAsAsked(v: View, v': View, va: VAddr, level: int, pa: int, wsid: int, flags: set<Flag>)
    requires TreeOk(v) && 0 <= level <= 2 && CoverAt(v, va, level).None?
    requires Inserted(v, v', OK, va, level, NewPage(pa, wsid, flags), flags)
    ensures var s := PlaceOf(va, level);
            && s !in v.pages && v'.pages.Keys == v.pages.Keys + {s} && s.level == level && Holds(s, va)
            && (forall t :: t in v.pages ==> v'.pages[t] == v.pages[t])
            && var q := v'.pages[s];
               && q.pa == pa && q.wsid == wsid && q.refcnt == 1
               && forall f :: f in q.flags <==> f == Terminal || (f in flags && f != InUse)
  {
    HoldsIffPlaceOf(PlaceOf(va, level), va);
  }

  /** What a removal takes: one reference to the page that maps the address, or the page
      with its last one; of a page that stays, only the count changes. */
  lemma ReferenceDropped(v: View, v': View, r: FpgaResult, va: VAddr)
    requires TreeOk(v) && Removed(v, v', r, va)
    ensures r == NotFound <==> forall s :: s in v.pages ==> !Holds(s, va)
    ensures r == NotFound ==> v'.pages == v.pages
    ensures forall s :: s in v.pages && !Holds(s, va) ==> s in v'.pages && v'.pages[s] == v.pages[s]
    ensures forall s :: s in v'.pages ==> s in v.pages
    ensures forall s :: s in v.pages && Holds(s, va) ==>
              var p := v.pages[s];
              && (r == Busy <==> p.refcnt > 1) && (s in v'.pages <==> p.refcnt > 1)
              && (s in v'.pages ==> v'.pages[s] == Page(p.pa, p.flags, p.wsid, p.refcnt - 1))
  {
    hide PageAt, Holds, TreeOk;
    forall s | s in v.pages ensures Holds(s, va) <==> PageAt(v, va) == Some(s) { PageAtExact(v, s, va); }
    CountsPositive(v);
  }

  lemma CountsPositive(v: View)
    requires TreeOk(v)
    ensures forall s :: s in v.pages ==> v.pages[s].refcnt >= 1
  {}

  /** What a range release takes: one reference from each page that has a byte in the range,
      or the page with its last one. */
  lemma ReleasedByByte(v: View, min: int, max: int, s: Place)
    requires TreeOk(v) && min < max && s in v.pages
    ensures var pages, p, hit := Released(v.pages, min, max), v.pages[s], exists x :: min <= x < max && Holds(s, x);
            && (s in pages <==> !hit || p.refcnt > 1)
            && (s in pages ==> pages[s] == if hit then Page(p.pa, p.flags, p.wsid, p.refcnt - 1) else p)
  {
    CountsPositive(v);
    OwnPlace(s) by { assert 0 <= s.level <= 2 && WfPlace(s); }
    hide TreeOk, Lo, Hi;
    if Touches(s, min, max) {
      var x := if Lo(s) < min then min else Lo(s);
      assert min <= x < max && Holds(s, x);
    }
  }

  /** Removing what was just inserted takes the mapping back.  Over an existing page
      only its count returns; a preallocated insertion has changed its flags. */
  lemma InsertThenRemove(v: View, v1: View, v2: View, r: FpgaResult, va: VAddr, level: int, page: Page, flags: set<Flag>)
    requires TreeOk(v) && TreeOk(v1) && 0 <= level <= 2 && page.refcnt == 1
    requires Inserted(v, v1, OK, va, level, page, flags) && Removed(v1, v2, r, va)
    ensures match CoverAt(v, va, level)
            case None => r == OK && v2.pages == v.pages
            case Some(s) => r == Busy && v2.pages == v.pages[s := Bump(v.pages[s], flags).(refcnt := v.pages[s].refcnt)]
  {
    var slot := PlaceOf(va, level);
    var cover := CoverAt(v, va, level);
    PlaceOfParent(va, level);
    HoldsIffPlaceOf(slot, va);
    if cover.Some? {
      PageAtExact(v1, cover.value, va);
    } else {
      PageAtExact(v1, slot, va);
      assert slot !in v.pages by {
        if slot in v.pages { CoverUnique(v, va, level, level); }
      }
      assert v1.pages - {slot} == v.pages;
    }
  }

  /** A new page takes `va` to the address it was inserted with exactly when `va` is
      aligned to the size of the page; the insertion itself checks a 1GB page for 2MB
      alignment only. */
  lemma MapsToItsAddressIff(v: View, v1: View, va: VAddr, level: int, page: Page, flags: set<Flag>)
    requires TreeOk(v) && TreeOk(v1) && 0 <= level <= 2
    requires Inserted(v, v1, OK, va, level, page, flags) && CoverAt(v, va, level).None?
    ensures var s := PlaceOf(va, level);
            && PageAt(v1, va) == Some(s)
            && (v1.pages[s].pa + (va - Lo(s)) == page.pa <==> va % Span(level) == 0)
  {
    var s := PlaceOf(va, level);
    PlaceOfParent(va, level);
    HoldsIffPlaceOf(s, va);
    PageAtExact(v1, s, va);
    PageStart(va, level);
  }

  /** An insertion changes the translation of the addresses on its page only. */
  lemma InsertIsLocal(v: View, v1: View, va: VAddr, level: int, page: Page, flags: set<Flag>, x: VAddr)
    requires TreeOk(v) && TreeOk(v1) && 0 <= level <= 2
    requires Inserted(v, v1, OK, va, level, page, flags) && CoverAt(v, va, level).None?
    ensures PageAt(v1, x) == if Holds(PlaceOf(va, level), x) then Some(PlaceOf(va, level)) else PageAt(v, x)
  {
    var slot := PlaceOf(va, level);
    PlaceOfParent(va, level);
    if Holds(slot, x) {
      PageAtExact(v1, slot, x);
    } else {
      HoldsIffPlaceOf(slot, x);
      assert forall l :: 0 <= l <= 2 ==> (PlaceOf(x, l) in v1.pages <==> PlaceOf(x, l) in v.pages);
    }
  }

  /** Each result of a batch translation is the translation of its own address:
      the k-th page after the first starts k page sizes further and has the same size. */
  lemma BatchIsSingle(v: View, s: Place, k: int, pa: int, flags: set<Flag>)
    requires TreeOk(v) && s in v.pages && 0 <= k && Idx(s) + k < FANOUT
    requires Translates(v, s, k, pa, flags)
    ensures var x := Lo(s) + k * Span(s.level);
            && 0 <= x < VA_LIMIT
            && PageAt(v, x) == Some(After(s, k)) && v.pages[After(s, k)].pa == pa && Lo(After(s, k)) == x
            && DepthToSize(After(s, k).level) == DepthToSize(s.level)
  {
    var t := After(s, k);
    OwnPlace(t);
    AfterStart(s, k);
    PageAtExact(v, t, Lo(t));
  }

  lemma AfterStart(s: Place, k: int)
    requires 0 <= s.level <= 2
    ensures Lo(After(s, k)) == Lo(s) + k * Span(s.level)
  {}

  /** The order in which two ranges are released does not matter. */
  lemma ReleasesCommute(pages: map<Place, Page>, a: int, b: int, c: int, d: int)
    requires forall s :: s in pages ==> pages[s].refcnt >= 1
    ensures Released(Released(pages, a, b), c, d) == Released(Released(pages, c, d), a, b)
  {
    hide Within, Touches;
  }

  /** A range release is seen by a translation only on the pages that touch the range. */
  lemma ReleaseSeenByLookup(v: View, v': View, min: int, max: int, x: VAddr)
    requires TreeOk(v) && TreeOk(v') && v'.pages == Released(v.pages, min, max)
    ensures match PageAt(v, x)
            case None => PageAt(v', x) == None
            case Some(s) =>
              if Touches(s, min, max) && v.pages[s].refcnt == 1 then PageAt(v', x) == None
              else PageAt(v', x) == Some(s) && v'.pages[s].pa == v.pages[s].pa && v'.pages[s].wsid == v.pages[s].wsid
                   && v'.pages[s].refcnt == v.pages[s].refcnt - if Touches(s, min, max) then 1 else 0
  {
    hide Touches;
    var r := PageAt(v, x);
    if r.Some? {
      OwnPlace(r.value);
      if r.value in v'.pages {
        PageAtExact(v', r.value, x);
      } else {
        StaysUnmapped(v, v', x, r.value);
      }
    }
  }

  lemma StaysUnmapped(v: View, v': View, x: VAddr, s: Place)
    requires TreeOk(v) && PageAt(v, x) == Some(s) && s !in v'.pages
    requires forall t :: t in v'.pages ==> t in v.pages
    ensures PageAt(v', x) == None
  {
    var r := PageAt(v', x);
    if r.Some? {
      PagesDisjoint(v, r.value, s, x);
    }
  }
}
