/** The abstract page table: what the tree of nodes means.

    A view lists the table nodes by the slot that points at them and the mapped
    pages by the slot that holds them.  It is the specification that the node
    memory is proved against, and on which the main theorems are stated.  */
module TableView {
  import opened Addresses
  import opened Words

  /** A table node: host address, address seen by the device, driver handle. */
  datatype NodeRef = NodeRef(addr: int, pa: int, wsid: int)

  /** A mapped page.  `flags` leaves out InUse, which only reflects FPGA caching. */
  datatype Page = Page(pa: int, flags: set<Flag>, wsid: int, refcnt: int)

  datatype View = View(nodes: map<Place, NodeRef>, pages: map<Place, Page>)

  datatype Option<+T> = None | Some(value: T)

  /** Physical addresses are 4KB aligned, and 2MB aligned for the larger pages. */
  predicate PaOk(pa: int, level: int) {
    PageAligned(pa) && (level >= 1 ==> pa % 0x20_0000 == 0)
  }

  predicate PageOk(p: Page, level: int) {
    && PaOk(p.pa, level)
    && Terminal in p.flags && InUse !in p.flags && Invalid !in p.flags
    && p.refcnt >= 1
  }

  /** Shape of the tree: every node and page hangs below a node, pages sit at
      levels 0 to 2, and no slot is both. */
  ghost predicate TreeOk(v: View) {
    && Root in v.nodes
    && (forall s :: s in v.nodes ==> 1 <= s.level && WfPlace(s) && (s == Root || s.level < ROOT_LEVEL))
    && (forall s :: s in v.pages ==> 0 <= s.level <= 2 && WfPlace(s) && s !in v.nodes)
    && (forall s {:trigger Parent(s)} :: Occupied(v, s) && s != Root ==> Parent(s) in v.nodes)
    && (forall s :: s in v.pages ==> PageOk(v.pages[s], s.level))
  }

  /** Is slot `s` in use? */
  predicate Occupied(v: View, s: Place) {
    s in v.pages || s in v.nodes
  }

  /** The page that maps `va`, if there is one. */
  function FindPage(pages: map<Place, Page>, va: VAddr): (r: Option<Place>)
    ensures r.Some? ==> r.value in pages && 0 <= r.value.level <= 2 && Holds(r.value, va)
  {
    HoldsIffPlaceOf(PlaceOf(va, 0), va); HoldsIffPlaceOf(PlaceOf(va, 1), va); HoldsIffPlaceOf(PlaceOf(va, 2), va);
    if PlaceOf(va, 0) in pages then Some(PlaceOf(va, 0))
    else if PlaceOf(va, 1) in pages then Some(PlaceOf(va, 1))
    else if PlaceOf(va, 2) in pages then Some(PlaceOf(va, 2))
    else None
  }

  function PageAt(v: View, va: VAddr): (r: Option<Place>)
    ensures r.Some? ==> r.value in v.pages && 0 <= r.value.level <= 2 && Holds(r.value, va)
  {
    FindPage(v.pages, va)
  }

  /** The level at which a search for an unmapped `va` stops: the deepest level
      whose node exists on the path of `va`. */
  function StopLevel(v: View, va: VAddr): (l: int)
    ensures 0 <= l <= 3
  {
    if PlaceOf(va, 3) !in v.nodes then 3
    else if PlaceOf(va, 2) !in v.nodes then 2
    else if PlaceOf(va, 1) !in v.nodes then 1
    else 0
  }

  lemma Ancestors(v: View, s: Place)
    requires TreeOk(v) && Occupied(v, s)
    ensures 0 <= s.level <= ROOT_LEVEL && WfPlace(s)
    ensures s.level < 4 ==> Parent(s) in v.nodes && Parent(s) !in v.pages
    ensures s.level < 3 ==> Parent(Parent(s)) in v.nodes
    ensures s.level < 2 ==> Parent(Parent(Parent(s))) in v.nodes
  {}

  /** Mapped pages never overlap. */
  lemma PagesDisjoint(v: View, s: Place, t: Place, va: VAddr)
    requires TreeOk(v) && s in v.pages && t in v.pages
    requires Holds(s, va) && Holds(t, va)
    ensures s == t
  {
    HoldsIffPlaceOf(s, va);
    HoldsIffPlaceOf(t, va);
    PlaceOfParent(va, 0); PlaceOfParent(va, 1); PlaceOfParent(va, 2);
    Ancestors(v, s);
    Ancestors(v, t);
  }

  /** PageAt is exact: it returns the one page whose region contains `va`. */
  lemma PageAtExact(v: View, s: Place, va: VAddr)
    requires TreeOk(v)
    ensures PageAt(v, va) == Some(s) <==> s in v.pages && Holds(s, va)
  {
    if s in v.pages && Holds(s, va) {
      HoldsIffPlaceOf(s, va);
      var r := PageAt(v, va);
      assert r.Some?;
      PagesDisjoint(v, r.value, s, va);
    }
  }

  /** What a walk from the node below PlaceOf(va, level + 1) finds. */
  datatype Outcome = Hit(place: Place) | Miss(level: int)

  ghost function Descend(v: View, va: VAddr, level: int): (r: Outcome)
    requires 0 <= level < ROOT_LEVEL
    ensures r.Hit? ==> r.place in v.pages && 0 <= r.place.level <= level
  {
    var s := PlaceOf(va, level);
    if s in v.pages then Hit(s)
    else if s in v.nodes && level > 0 then Descend(v, va, level - 1)
    else Miss(level)
  }

  ghost function Lookup(v: View, va: VAddr): Outcome {
    var r := PageAt(v, va);
    if r.Some? then Hit(r.value) else Miss(StopLevel(v, va))
  }

  /** Starting from any node on the path of `va` gives the same answer as starting from the root. */
  lemma DescendIsLookup(v: View, va: VAddr, level: int)
    requires TreeOk(v) && 0 <= level < ROOT_LEVEL && PlaceOf(va, level + 1) in v.nodes
    ensures Descend(v, va, level) == Lookup(v, va)
  {
    PlaceOfParent(va, 0); PlaceOfParent(va, 1); PlaceOfParent(va, 2); PlaceOfParent(va, 3);
    var s0, s1, s2, s3 := PlaceOf(va, 0), PlaceOf(va, 1), PlaceOf(va, 2), PlaceOf(va, 3);
    assert Parent(s0) == s1 && Parent(s1) == s2 && Parent(s2) == s3 && Parent(s3) == Root;
    assert s0 !in v.nodes && s3 !in v.pages;
    if level == 3 {
      assert s3 in v.nodes ==> Descend(v, va, 3) == Descend(v, va, 2);
    }
    assert s2 in v.nodes ==> Descend(v, va, 2) == Descend(v, va, 1);
    assert s1 in v.nodes ==> Descend(v, va, 1) == Descend(v, va, 0);
  }
}
