/** The driver pins recorded in the table, each exactly once. */
module TablePins {
  import opened Addresses
  import opened TableView
  import opened TableMemory
  import opened Driver

  /** Every page handle is a live user pin stored by one page; when the hardware
      walks the table every node is a live table pin too. */
  ghost predicate PinsOk(v: View, holder: map<int, Place>, pinned: map<int, Pin>, tables: map<int, int>, hw: bool) {
    && (hw ==> DeviceMapped(v, tables))
    && (hw ==> forall s :: s in v.nodes ==>
          v.nodes[s].wsid in pinned && pinned[v.nodes[s].wsid] == TablePin(v.nodes[s].pa, v.nodes[s].addr))
    && (forall s :: s in v.pages ==>
          && v.pages[s].wsid in pinned && pinned[v.pages[s].wsid].UserPin?
          && v.pages[s].wsid in holder && holder[v.pages[s].wsid] == s)
    && (forall w :: w in holder ==> holder[w] in v.pages && v.pages[holder[w]].wsid == w)
  }

  /** Live pins of user memory. */
  ghost function UserPins(pinned: map<int, Pin>): set<int> {
    set w | w in pinned && pinned[w].UserPin?
  }

  lemma AddNodePin(v: View, holder: map<int, Place>, pinned: map<int, Pin>, tables: map<int, int>, hw: bool,
                   s: Place, c: NodeRef)
    requires PinsOk(v, holder, pinned, tables, hw)
    requires hw ==> c.wsid !in pinned && c.pa !in tables && Words.PageAligned(c.pa)
    requires s !in v.nodes
    ensures var v' := v.(nodes := v.nodes[s := c]);
            if hw then
              PinsOk(v', holder, pinned[c.wsid := TablePin(c.pa, c.addr)], tables[c.pa := c.addr], hw)
            else PinsOk(v', holder, pinned, tables, hw)
    ensures UserPins(pinned) == UserPins(pinned[c.wsid := TablePin(c.pa, c.addr)]) || c.wsid in pinned
  {}

  lemma FreeNodePin(mem: Memory, v: View, owner: map<int, Place>,
                    holder: map<int, Place>, pinned: map<int, Pin>, tables: map<int, int>, hw: bool, s: Place)
    requires Linked(mem, v, owner) && PinsOk(v, holder, pinned, tables, hw)
    requires s in v.nodes
    ensures var v', c := v.(nodes := v.nodes - {s}), v.nodes[s];
            if hw then
              && c.wsid in pinned && pinned[c.wsid] == TablePin(c.pa, c.addr)
              && PinsOk(v', holder, pinned - {c.wsid}, tables - {c.pa}, hw)
            else PinsOk(v', holder, pinned, tables, hw)
    ensures hw ==> UserPins(pinned - {v.nodes[s].wsid}) == UserPins(pinned)
  {}

  lemma AddPagePin(v: View, holder: map<int, Place>, pinned: map<int, Pin>, tables: map<int, int>, hw: bool,
                   s: Place, page: Page)
    requires PinsOk(v, holder, pinned, tables, hw)
    requires s !in v.pages && page.wsid in pinned && pinned[page.wsid].UserPin? && page.wsid !in holder
    ensures PinsOk(v.(pages := v.pages[s := page]), holder[page.wsid := s], pinned, tables, hw)
  {}

  lemma KeepPagePin(v: View, holder: map<int, Place>, pinned: map<int, Pin>, tables: map<int, int>, hw: bool,
                    s: Place, page: Page)
    requires PinsOk(v, holder, pinned, tables, hw)
    requires s in v.pages && page.wsid == v.pages[s].wsid
    ensures PinsOk(v.(pages := v.pages[s := page]), holder, pinned, tables, hw)
  {}

  lemma DropPagePin(v: View, holder: map<int, Place>, pinned: map<int, Pin>, tables: map<int, int>, hw: bool, s: Place)
    requires PinsOk(v, holder, pinned, tables, hw)
    requires s in v.pages
    ensures PinsOk(v.(pages := v.pages - {s}), holder - {v.pages[s].wsid}, pinned, tables, hw)
  {}

  /** Releasing or adding a user pin that no page stores disturbs nothing. */
  lemma ChangeLoosePin(v: View, holder: map<int, Place>, pinned: map<int, Pin>, tables: map<int, int>, hw: bool, w: int)
    requires PinsOk(v, holder, pinned, tables, hw)
    requires w !in holder && (w in pinned ==> pinned[w].UserPin?)
    ensures PinsOk(v, holder, pinned - {w}, tables, hw)
    ensures PinsOk(v, holder, pinned[w := UserPin], tables, hw)
  {}

  /** Unpinning the page in slot `s` as the page goes away. */
  lemma ReleasePagePin(v: View, holder: map<int, Place>, pinned: map<int, Pin>, tables: map<int, int>, hw: bool, s: Place)
    requires PinsOk(v, holder, pinned, tables, hw)
    requires s in v.pages
    ensures var w := v.pages[s].wsid;
            && w in pinned && pinned[w].UserPin?
            && PinsOk(v.(pages := v.pages - {s}), holder - {w}, pinned - {w}, tables, hw)
            && UserPins(pinned - {w}) - (holder - {w}).Keys == UserPins(pinned) - holder.Keys
  {
    DropPagePin(v, holder, pinned, tables, hw, s);
    var w := v.pages[s].wsid;
    ChangeLoosePin(v.(pages := v.pages - {s}), holder - {w}, pinned, tables, hw, w);
  }
}
