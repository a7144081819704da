/** What the page table operations do, stated on views. */
module TableSpec {
  import opened Addresses
  import opened Words
  import opened TableView

  datatype FpgaResult = OK | NotFound | Busy | NoMemory | Exception | InvalidParam

  /** Page sizes; the numbers in the source are base-2 logarithms of bytes. */
  datatype PageSize = PageNone | Page4KB | Page2MB | Page1GB

  function DepthToSize(depth: int): PageSize {
    if depth == 0 then Page4KB else if depth == 1 then Page2MB else if depth == 2 then Page1GB else PageNone
  }

  function SizeToBytes(size: PageSize): (bytes: int)
    ensures bytes > 0
  {
    match size
    case PageNone => 1
    case Page4KB => 0x1000
    case Page2MB => 0x20_0000
    case Page1GB => 0x4000_0000
  }

  /** The level of the slot that a page of `size` is inserted in. */
  function LevelOf(size: PageSize): (l: int)
    ensures 0 <= l <= 2
  {
    match size
    case Page2MB => 1
    case Page1GB => 2
    case _ => 0
  }

  /** The alignment that an insertion insists on. */
  predicate AlignedFor(size: PageSize, va: VAddr, pa: int) {
    var mask := if size == Page4KB then 0x1000 else 0x20_0000;
    va % mask == 0 && pa % mask == 0
  }

  function NewPage(pa: int, wsid: int, flags: set<Flag>): Page {
    Page(pa, {Terminal} + flags - {InUse}, wsid, 1)
  }

  function Bump(p: Page, flags: set<Flag>): Page {
    p.(refcnt := p.refcnt + 1,
       flags := if Prealloc in flags then p.flags + {Prealloc} - {Alloc} else p.flags)
  }

  function Unbump(p: Page): Page {
    p.(refcnt := p.refcnt - 1)
  }

  // ---------------------------------------------------------------------
  //  Insert
  // ---------------------------------------------------------------------

  /** The page of `level` or larger that already maps `va`. */
  function CoverAt(v: View, va: VAddr, level: int): (r: Option<Place>)
    requires 0 <= level <= ROOT_LEVEL
    ensures r.Some? ==> r.value in v.pages && level <= r.value.level && Holds(r.value, va)
    decreases ROOT_LEVEL - level
  {
    if PlaceOf(va, level) in v.pages then Some(PlaceOf(va, level))
    else if level < ROOT_LEVEL then CoverAt(v, va, level + 1)
    else None
  }

  /** Slot `s` is subdivided by a node that is not empty. */
  ghost predicate Subdivided(v: View, s: Place) {
    s in v.nodes && exists i :: 0 <= i < FANOUT && Occupied(v, Child(s, i))
  }

  /** Nodes change only along the path of `va`: some may be added above `level`,
      and the node at `level`, if any, may be dropped. */
  ghost predicate OnlyPathNodes(v: View, v': View, va: VAddr, level: int)
    requires 0 <= level <= 3
  {
    && (forall s :: s in v'.nodes && s !in v.nodes ==> level < s.level && Holds(s, va))
    && (forall s :: s in v.nodes ==>
          if s in v'.nodes then v'.nodes[s] == v.nodes[s] else s == PlaceOf(va, level))
  }

  /** Inserting a page at `level` over `va`. */
  ghost predicate Inserted(v: View, v': View, r: FpgaResult, va: VAddr, level: int, page: Page, flags: set<Flag>)
    requires 0 <= level <= 2
  {
    var slot := PlaceOf(va, level);
    var cover := CoverAt(v, va, level);
    && OnlyPathNodes(v, v', va, level)
    && match r
       case OK =>
         if cover.Some? then
           v'.pages == v.pages[cover.value := Bump(v.pages[cover.value], flags)] && v'.nodes == v.nodes
         else
           !Subdivided(v, slot) && v'.pages == v.pages[slot := page]
       case Exception => cover.None? && Subdivided(v, slot) && v' == v
       case NoMemory => cover.None? && slot !in v.nodes && v'.pages == v.pages
       case _ => false
  }

  /** The part of the insertion that has only made nodes, from the root down to
      the slot of `va` at depth `k`. */
  ghost predicate Grown(v: View, v': View, va: VAddr, k: int) {
    && v'.pages == v.pages
    && (forall s :: s in v'.nodes && s !in v.nodes ==> k <= s.level && Holds(s, va))
    && (forall s :: s in v.nodes ==> s in v'.nodes && v'.nodes[s] == v.nodes[s])
    && (v' == v || PlaceOf(va, k) !in v.nodes)
  }

  /** A page on the path of `va` is the one that covers it. */
  lemma CoverUnique(v: View, va: VAddr, level: int, k: int)
    requires TreeOk(v) && 0 <= level <= k <= 3 && PlaceOf(va, k) in v.pages
    ensures CoverAt(v, va, level) == Some(PlaceOf(va, k))
    decreases k - level
  {
    if level < k {
      HoldsIffPlaceOf(PlaceOf(va, level), va);
      HoldsIffPlaceOf(PlaceOf(va, k), va);
      if PlaceOf(va, level) in v.pages {
        PagesDisjoint(v, PlaceOf(va, level), PlaceOf(va, k), va);
      }
      CoverUnique(v, va, level + 1, k);
    }
  }

  lemma CoverSteps(v: View, va: VAddr, k: int)
    requires 0 <= k < ROOT_LEVEL && PlaceOf(va, k) !in v.pages
    ensures CoverAt(v, va, k) == CoverAt(v, va, k + 1)
  {}

  lemma CoverSame(v: View, v': View, va: VAddr, k: int)
    requires 0 <= k <= ROOT_LEVEL && v.pages == v'.pages
    ensures CoverAt(v, va, k) == CoverAt(v', va, k)
    decreases ROOT_LEVEL - k
  {
    if k < ROOT_LEVEL {
      CoverSame(v, v', va, k + 1);
    }
  }

  /** Nothing below a missing node exists. */
  lemma MissingAncestor(v: View, va: VAddr, level: int, k: int)
    requires TreeOk(v) && 0 <= level <= k <= 3 && PlaceOf(va, k) !in v.nodes
    ensures PlaceOf(va, level) !in v.nodes
    ensures level < k ==> PlaceOf(va, level) !in v.pages
    decreases k - level
  {
    if level < k {
      MissingAncestor(v, va, level + 1, k);
      PlaceOfParent(va, level);
      assert PlaceOf(va, level) != Root;
      assert Parent(PlaceOf(va, level)) !in v.nodes;
    }
  }

  lemma GrownStep(v0: View, v: View, v': View, va: VAddr, k: int)
    requires 1 <= k <= 3
    requires Grown(v0, v, va, k + 1)
    requires PlaceOf(va, k) !in v.nodes && v'.pages == v.pages && PlaceOf(va, k) in v'.nodes
    requires v'.nodes == v.nodes[PlaceOf(va, k) := v'.nodes[PlaceOf(va, k)]]
    ensures Grown(v0, v', va, k)
  {
    HoldsIffPlaceOf(PlaceOf(va, k), va);
  }

  lemma GrownSkip(v0: View, v: View, va: VAddr, k: int)
    requires TreeOk(v0) && 1 <= k <= 3
    requires Grown(v0, v, va, k + 1) && PlaceOf(va, k) in v.nodes
    ensures v == v0 && Grown(v0, v, va, k)
  {
    if v != v0 {
      MissingAncestorOne(v0, va, k);
    }
  }

  lemma MissingAncestorOne(v: View, va: VAddr, k: int)
    requires TreeOk(v) && 0 <= k <= 3 && PlaceOf(va, k + 1) !in v.nodes
    ensures !Occupied(v, PlaceOf(va, k))
  {
    PlaceOfParent(va, k);
    assert Parent(PlaceOf(va, k)) !in v.nodes;
  }

  /** Growing takes no node away. */
  lemma GrownStay(v0: View, v: View, va: VAddr, k: int, log: seq<int>)
    requires Grown(v0, v, va, k)
    ensures forall s :: s in v0.nodes ==> s in v.nodes && v.nodes[s] == v0.nodes[s]
    ensures NodesShotDown(v0.nodes, v.nodes, log, log)
  {}

  /** Making the nodes on the path and then filling the leaf is one insertion. */
  lemma GrownThenInserted(v0: View, v: View, v': View, r: FpgaResult, va: VAddr, level: int, page: Page, flags: set<Flag>)
    requires TreeOk(v0) && TreeOk(v) && 0 <= level <= 2
    requires Grown(v0, v, va, level + 1) && CoverAt(v, va, level + 1).None?
    requires Inserted(v, v', r, va, level, page, flags)
    ensures Inserted(v0, v', r, va, level, page, flags)
  {
    CoverSame(v0, v, va, level);
    if v != v0 {
      MissingAncestorOne(v0, va, level);
      CoverSteps(v, va, level);
    }
  }

  // ---------------------------------------------------------------------
  //  Remove
  // ---------------------------------------------------------------------

  /** Removing one reference to the page that maps `va`. */
  ghost predicate Removed(v: View, v': View, r: FpgaResult, va: VAddr)
  {
    var s := PageAt(v, va);
    && v'.nodes == v.nodes
    && match r
       case OK => s.Some? && v.pages[s.value].refcnt == 1 && v'.pages == v.pages - {s.value}
       case Busy => s.Some? && v.pages[s.value].refcnt > 1 &&
                    v'.pages == v.pages[s.value := Unbump(v.pages[s.value])]
       case NotFound => s.None? && v'.pages == v.pages
       case _ => false
  }

  // ---------------------------------------------------------------------
  //  Translation of a run of pages
  // ---------------------------------------------------------------------

  /** The slot `k` places after `s`. */
  function After(s: Place, k: int): Place {
    Place(s.level, s.num + k)
  }

  /** `pa` and `flags` translate the page `k` places after `s`. */
  ghost predicate Translates(v: View, s: Place, k: int, pa: int, flags: set<Flag>) {
    var t := After(s, k);
    t in v.pages && pa == v.pages[t].pa && flags - {InUse} == v.pages[t].flags
  }

  // ---------------------------------------------------------------------
  //  Range release
  // ---------------------------------------------------------------------

  /** The source's test of a slot against a range: both ends are compared with
      the slot's region, so an empty range inside a page still touches it. */
  predicate Touches(s: Place, min: int, max: int)
  {
    min < Hi(s) && Lo(s) < max
  }

  predicate Within(s: Place, lo: int, hi: int)
  {
    lo <= Lo(s) < hi
  }

  /** Release [min, max) among the pages that start within [lo, hi). */
  ghost function ReleasedWithin(pages: map<Place, Page>, min: int, max: int, lo: int, hi: int): map<Place, Page>
  {
    map s | s in pages && !(Within(s, lo, hi) && Touches(s, min, max) && pages[s].refcnt <= 1) ::
      if Within(s, lo, hi) && Touches(s, min, max) then Unbump(pages[s]) else pages[s]
  }

  /** Release [min, max) everywhere: pages that do not touch the range keep
      everything, the others lose one reference, and vanish with the last one. */
  ghost function Released(pages: map<Place, Page>, min: int, max: int): map<Place, Page>
  {
    ReleasedWithin(pages, min, max, 0, VA_LIMIT)
  }

  // ---------------------------------------------------------------------
  //  Shootdowns
  // ---------------------------------------------------------------------

  /** Between two moments the FPGA was told to forget an address of every page that
      left the table.  `log` and `log'` are the invalidations sent so far. */
  ghost predicate ShotDown(pages: map<Place, Page>, pages': map<Place, Page>, log: seq<int>, log': seq<int>) {
    && log <= log'
    && forall s :: s in pages && s !in pages' ==> Announced(s, log, log')
  }

  ghost predicate Announced(s: Place, log: seq<int>, log': seq<int>) {
    exists k :: |log| <= k < |log'| && Holds(s, log'[k])
  }

  /** Between two moments the FPGA was told to forget every table node that went away. */
  ghost predicate NodesShotDown(nodes: map<Place, NodeRef>, nodes': map<Place, NodeRef>, log: seq<int>, log': seq<int>) {
    forall s :: s in nodes && s !in nodes' ==> Told(nodes[s].addr, log, log')
  }

  ghost predicate Told(address: int, log: seq<int>, log': seq<int>) {
    exists k :: |log| <= k < |log'| && log'[k] == address
  }

  lemma NodesShotDownThen(nodes: map<Place, NodeRef>, mid: map<Place, NodeRef>, nodes': map<Place, NodeRef>,
                          log: seq<int>, logMid: seq<int>, log': seq<int>)
    requires NodesShotDown(nodes, mid, log, logMid) && NodesShotDown(mid, nodes', logMid, log')
    requires log <= logMid <= log' && forall s :: s in mid && s in nodes ==> mid[s] == nodes[s]
    ensures NodesShotDown(nodes, nodes', log, log')
  {
    forall s | s in nodes && s !in nodes' ensures Told(nodes[s].addr, log, log') {
      if s in mid {
        var k :| |logMid| <= k < |log'| && log'[k] == nodes[s].addr;
      } else {
        var k :| |log| <= k < |logMid| && logMid[k] == nodes[s].addr;
        assert log'[k] == logMid[k];
      }
    }
  }

  lemma OneNodeShotDown(nodes: map<Place, NodeRef>, nodes': map<Place, NodeRef>, log: seq<int>, s: Place)
    requires s in nodes && forall t :: t in nodes && t != s ==> t in nodes'
    ensures NodesShotDown(nodes, nodes', log, log + [nodes[s].addr])
  {
    assert (log + [nodes[s].addr])[|log|] == nodes[s].addr;
  }

  lemma NodesStay(nodes: map<Place, NodeRef>, nodes': map<Place, NodeRef>, log: seq<int>, log': seq<int>)
    requires forall s :: s in nodes ==> s in nodes'
    ensures NodesShotDown(nodes, nodes', log, log')
  {}

  lemma ShotDownThen(pages: map<Place, Page>, mid: map<Place, Page>, pages': map<Place, Page>, log: seq<int>,
                     logMid: seq<int>, log': seq<int>)
    requires ShotDown(pages, mid, log, logMid) && ShotDown(mid, pages', logMid, log')
    ensures ShotDown(pages, pages', log, log')
  {
    hide Holds;
    forall s | s in pages && s !in pages' ensures Announced(s, log, log') {
      if s in mid {
        var k :| |logMid| <= k < |log'| && Holds(s, log'[k]);
      } else {
        var k :| |log| <= k < |logMid| && Holds(s, logMid[k]);
        assert log'[k] == logMid[k];
      }
    }
  }

  lemma OneShotDown(pages: map<Place, Page>, pages': map<Place, Page>, log: seq<int>, va: int, s: Place)
    requires forall t :: t in pages && t !in pages' ==> t == s
    requires Holds(s, va)
    ensures ShotDown(pages, pages', log, log + [va])
  {
    assert (log + [va])[|log|] == va;
  }

  lemma NoneShotDown(pages: map<Place, Page>, pages': map<Place, Page>, log: seq<int>, log': seq<int>)
    requires log <= log' && forall s :: s in pages ==> s in pages'
    ensures ShotDown(pages, pages', log, log')
  {}
}
