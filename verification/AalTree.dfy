/** Trees of 512-entry nodes in memory, as the legacy page table lays them out.

    The same node type serves two trees.  The forward table maps virtual addresses
    and links its nodes by physical address; the reverse table maps the physical
    address of every forward node to its virtual address and links by pointer.  */
module AalTrees {
  import opened Addresses

  datatype MapFlag = Terminal | AllocStart | AllocEnd

  /** A table word: an address whose three low bits are flags. */
  datatype Entry = Entry(addr: int, flags: set<MapFlag>)

  /** All bits set.  Its Terminal bit is set too. */
  const EMPTY: Entry := Entry(0xFFFF_FFFF_FFFF_FFF8, {Terminal, AllocStart, AllocEnd})

  type Node = seq<Entry>
  type Memory = map<int, Node>

  const EmptyNode: Node := seq(FANOUT, i => EMPTY)

  /** A tree on paper: where each node is, and the word that links each slot in use. */
  datatype Tree = Tree(nodes: map<Place, int>, links: map<Place, Entry>)

  datatype Kind = Forward | Reverse

  /** Who a node's memory belongs to. */
  datatype Owner = Of(kind: Kind, place: Place) | OnFreeList(k: nat)

  function LinkAt(t: Tree, c: Place): Entry {
    if c in t.links then t.links[c] else EMPTY
  }

  ghost predicate NodeStored(mem: Memory, owner: map<int, Owner>, kind: Kind, t: Tree, s: Place)
    requires s in t.nodes
  {
    var a := t.nodes[s];
    && a in mem && a in owner && owner[a] == Of(kind, s)
    && |mem[a]| == FANOUT
    && forall i :: 0 <= i < FANOUT ==> mem[a][i] == LinkAt(t, Child(s, i))
  }

  /** Memory holds the tree. */
  ghost predicate Stored(mem: Memory, owner: map<int, Owner>, kind: Kind, t: Tree) {
    forall s :: s in t.nodes ==> NodeStored(mem, owner, kind, t, s)
  }

  /** Every slot in use hangs below a node; a link leads to a node unless it is terminal. */
  ghost predicate Shape(t: Tree) {
    && Root in t.nodes && Root !in t.links
    && (forall s :: s in t.nodes ==> 1 <= s.level <= ROOT_LEVEL)
    && (forall s :: s in t.nodes && s != Root ==> s in t.links && Terminal !in t.links[s].flags)
    && (forall s :: s in t.links ==>
          && 0 <= s.level < ROOT_LEVEL && WfPlace(s) && Parent(s) in t.nodes
          && t.links[s] != EMPTY
          && (Terminal !in t.links[s].flags ==> s in t.nodes))
  }

  /** The mappings of a tree: its terminal links. */
  ghost function Pages(t: Tree): map<Place, Entry> {
    map s | s in t.links && Terminal in t.links[s].flags :: t.links[s]
  }

  /** Is `va` mapped by the page `s`? */
  ghost predicate Maps(t: Tree, s: Place, va: int) {
    s in Pages(t) && Holds(s, va)
  }

  predicate Overlap(s: Place, c: Place) {
    Lo(s) < Hi(c) && Lo(c) < Hi(s)
  }

  ghost predicate Free(t: Tree, c: Place) {
    forall s :: s in Pages(t) ==> !Overlap(s, c)
  }

  // ---------------------------------------------------------------------
  //  Walks
  // ---------------------------------------------------------------------

  /** The ancestors of a node are nodes. */
  lemma PathUp(t: Tree, va: VAddr, l: int, m: int)
    requires Shape(t) && 1 <= l <= m <= ROOT_LEVEL && PlaceOf(va, l) in t.nodes
    ensures PlaceOf(va, m) in t.nodes
    decreases m - l
  {
    if l < m {
      PlaceOfParent(va, l);
      PathUp(t, va, l + 1, m);
    }
  }

  /** Where a walk that has reached level `d` stops decides the mapping of `va`. */
  lemma WalkStops(t: Tree, va: VAddr, d: int)
    requires Shape(t) && 0 <= d < ROOT_LEVEL && PlaceOf(va, d + 1) in t.nodes
    requires PlaceOf(va, d) !in t.nodes
    ensures PlaceOf(va, d) in t.links ==> Maps(t, PlaceOf(va, d), va) && forall s :: Maps(t, s, va) ==> s == PlaceOf(va, d)
    ensures PlaceOf(va, d) !in t.links ==> forall s :: !Maps(t, s, va)
  {
    hide PageNum, Lo, Hi, Span, WfPlace;
    HoldsIffPlaceOf(PlaceOf(va, d), va);
    forall s | Maps(t, s, va) ensures s == PlaceOf(va, d) {
      HoldsIffPlaceOf(s, va);
      PlaceOfParent(va, s.level);
      if s.level > d {
        PathUp(t, va, d + 1, s.level);
      } else if s.level < d {
        PathUp(t, va, s.level + 1, d);
      }
    }
  }

  lemma OverlapSame(s: Place, c: Place)
    requires 0 <= s.level == c.level <= 1 && Overlap(s, c)
    ensures s == c
  {}

  lemma OverlapAbove(s: Place, c: Place)
    requires c.level == 0 && s.level == 1 && Overlap(s, c)
    ensures s == Parent(c)
  {}

  lemma OverlapSelf(c: Place)
    requires 0 <= c.level <= 1
    ensures Overlap(c, c)
    ensures c.level == 1 ==> forall i :: 0 <= i < FANOUT ==> Overlap(Child(c, i), c)
  {
    forall i | 0 <= i < FANOUT && c.level == 1 ensures Overlap(Child(c, i), c) {
      ChildRange(c, i);
    }
  }

  /** A walk down to level `l` + 1 tells whether the region of the slot below is free. */
  lemma FreeIff(t: Tree, va: VAddr, l: int)
    requires Shape(t) && 0 <= l <= 1 && PlaceOf(va, l + 1) in t.nodes
    requires forall s :: s in Pages(t) ==> s.level <= 1
    ensures var c := PlaceOf(va, l);
            Free(t, c) <==> c !in t.links || (c in t.nodes && forall i :: 0 <= i < FANOUT ==> Child(c, i) !in t.links)
  {
    var c := PlaceOf(va, l);
    PlaceOfParent(va, l);
    OverlapSelf(c);
    hide Overlap, PageNum, WfPlace;
    forall s | s in Pages(t) && Overlap(s, c)
      ensures s == c || (c in t.nodes && s == Child(c, Idx(s)))
    {
      if s.level > l {
        OverlapAbove(s, c);
      } else if s.level < l {
        assert Overlap(c, s) by { OverlapSwap(s, c); }
        OverlapAbove(c, s);
        ParentChild(s);
      } else {
        OverlapSame(s, c);
      }
    }
    if c in t.links && c !in t.nodes {
      assert c in Pages(t) && Overlap(c, c);
    }
    if c in t.nodes {
      forall i | 0 <= i < FANOUT && Child(c, i) in t.links ensures !Free(t, c) {
        assert Child(c, i) in Pages(t) && Overlap(Child(c, i), c);
      }
    }
  }

  lemma OverlapSwap(s: Place, c: Place)
    requires Overlap(s, c)
    ensures Overlap(c, s)
  {}

  /** A terminal link above the slot makes its region overlap a page. */
  lemma CoveredAbove(t: Tree, va: VAddr, l: int, d: int)
    requires Shape(t) && 0 <= l < d < ROOT_LEVEL && PlaceOf(va, d) in Pages(t)
    ensures !Free(t, PlaceOf(va, l))
  {
    Nested(va, l, d);
    HoldsIffPlaceOf(PlaceOf(va, l), va);
    HoldsIffPlaceOf(PlaceOf(va, d), va);
    assert Overlap(PlaceOf(va, d), PlaceOf(va, l));
  }

  // ---------------------------------------------------------------------
  //  Writes
  // ---------------------------------------------------------------------

  /** Memory after one entry of a node is written. */
  function Put(mem: Memory, a: int, i: int, e: Entry): Memory
    requires a in mem && 0 <= i < |mem[a]|
  {
    mem[a := mem[a][i := e]]
  }

  ghost function WithLink(t: Tree, c: Place, e: Entry): Tree {
    t.(links := if e == EMPTY then t.links - {c} else t.links[c := e])
  }

  lemma PutLink(mem: Memory, owner: map<int, Owner>, kind: Kind, t: Tree, s: Place, i: int, e: Entry)
    requires Stored(mem, owner, kind, t) && s in t.nodes && 0 <= i < FANOUT
    requires EMPTY !in t.links.Values
    ensures t.nodes[s] in mem && |mem[t.nodes[s]]| == FANOUT
    ensures Stored(Put(mem, t.nodes[s], i, e), owner, kind, WithLink(t, Child(s, i), e))
  {
    assert NodeStored(mem, owner, kind, t, s);
    var mem' := Put(mem, t.nodes[s], i, e);
    var t' := WithLink(t, Child(s, i), e);
    forall r | r in t.nodes ensures NodeStored(mem', owner, kind, t', r) {
      assert NodeStored(mem, owner, kind, t, r);
      forall j | 0 <= j < FANOUT ensures mem'[t.nodes[r]][j] == LinkAt(t', Child(r, j)) {
        ChildInjective(r, j);
        ChildInjective(s, i);
      }
    }
  }

  /** A tree does not notice writes to memory that is not its own. */
  lemma NotMine(mem: Memory, mem': Memory, owner: map<int, Owner>, owner': map<int, Owner>, kind: Kind, t: Tree)
    requires Stored(mem, owner, kind, t)
    requires forall a :: a in owner && owner[a].Of? && owner[a].kind == kind && a in mem ==>
               a in mem' && a in owner' && mem'[a] == mem[a] && owner'[a] == owner[a]
    ensures Stored(mem', owner', kind, t)
  {
    forall s | s in t.nodes ensures NodeStored(mem', owner', kind, t, s) {
      assert NodeStored(mem, owner, kind, t, s);
    }
  }

  /** A tree in which a node for slot `c` is hung, with nothing below it. */
  ghost function WithNode(t: Tree, c: Place, a: int, e: Entry): Tree {
    Tree(t.nodes[c := a], t.links[c := e])
  }

  lemma WithNodeShape(t: Tree, c: Place, a: int, e: Entry)
    requires Shape(t) && Parent(c) in t.nodes && 1 <= c.level < ROOT_LEVEL && WfPlace(c)
    requires c !in t.links && Terminal !in e.flags
    ensures c !in t.nodes && Shape(WithNode(t, c, a, e)) && Pages(WithNode(t, c, a, e)) == Pages(t)
  {
    hide WfPlace, Parent, Pages;
    assert c != Root && c !in t.nodes;
    assert e != EMPTY;
    WithNodePages(t, c, a, e);
  }

  lemma WithNodePages(t: Tree, c: Place, a: int, e: Entry)
    requires c !in t.links && Terminal !in e.flags
    ensures Pages(WithNode(t, c, a, e)) == Pages(t)
  {}

  /** An empty node at `a` becomes the node of slot `c`, linked by `e`. */
  lemma AddNode(mem: Memory, owner: map<int, Owner>, kind: Kind, t: Tree, s: Place, i: int, a: int, e: Entry)
    requires Stored(mem, owner, kind, t) && Shape(t) && s in t.nodes && 0 <= i < FANOUT && 2 <= s.level && WfPlace(s)
    requires Child(s, i) !in t.links && Terminal !in e.flags
    requires a in mem && mem[a] == EmptyNode
    requires a in owner ==> !(owner[a].Of? && owner[a].kind == kind)
    ensures t.nodes[s] in mem && |mem[t.nodes[s]]| == FANOUT
    ensures var c := Child(s, i);
            && Shape(WithNode(t, c, a, e)) && Pages(WithNode(t, c, a, e)) == Pages(t)
            && Stored(Put(mem, t.nodes[s], i, e), owner[a := Of(kind, c)], kind, WithNode(t, c, a, e))
  {
    var c := Child(s, i);
    ChildInjective(s, i);
    ChildRange(s, i);
    hide Stored, Shape, Pages, Put, WithLink, WithNode, Child, WfPlace;
    LinksInUse(t);
    WithNodeShape(t, c, a, e);
    PutLink(mem, owner, kind, t, s, i, e);
    NodeOwned(mem, owner, kind, t, s);
    ChildrenUnused(t, c);
    HangEmpty(mem, owner, kind, t, t.nodes[s], i, a, c, e);
  }

  lemma LinksInUse(t: Tree)
    requires Shape(t)
    ensures EMPTY !in t.links.Values
  {}

  lemma NodeOwned(mem: Memory, owner: map<int, Owner>, kind: Kind, t: Tree, s: Place)
    requires Stored(mem, owner, kind, t) && s in t.nodes
    ensures var a := t.nodes[s];
            a in mem && a in owner && owner[a] == Of(kind, s) && |mem[a]| == FANOUT
  {
    assert NodeStored(mem, owner, kind, t, s);
  }

  /** Once the link is written, an empty node can be the node it leads to. */
  lemma HangEmpty(mem: Memory, owner: map<int, Owner>, kind: Kind, t: Tree, table: int, i: int, a: int, c: Place, e: Entry)
    requires table in mem && 0 <= i < |mem[table]| && a in mem && mem[a] == EmptyNode && a != table
    requires Stored(Put(mem, table, i, e), owner, kind, WithLink(t, c, e)) && Terminal !in e.flags && c !in t.nodes
    requires a in owner ==> !(owner[a].Of? && owner[a].kind == kind)
    requires forall j :: 0 <= j < FANOUT ==> Child(c, j) !in t.links && Child(c, j) != c
    ensures Stored(Put(mem, table, i, e), owner[a := Of(kind, c)], kind, WithNode(t, c, a, e))
  {
    hide Child;
    var mem', linked, t' := Put(mem, table, i, e), WithLink(t, c, e), WithNode(t, c, a, e);
    assert e != EMPTY;
    assert linked.links == t'.links;
    forall r | r in t'.nodes ensures NodeStored(mem', owner[a := Of(kind, c)], kind, t', r) {
      assert r != c ==> NodeStored(mem', owner, kind, linked, r);
    }
  }

  lemma SameChild(r: Place, j: int, s: Place, i: int)
    requires 0 <= j < FANOUT && 0 <= i < FANOUT
    ensures Child(r, j) == Child(s, i) <==> r == s && j == i
  {
    ChildInjective(r, j);
    ChildInjective(s, i);
  }

  /** Nothing hangs below a slot that has no node. */
  lemma ChildrenUnused(t: Tree, c: Place)
    requires Shape(t) && c !in t.nodes
    ensures forall j :: 0 <= j < FANOUT ==> Child(c, j) !in t.links && Child(c, j) != c
  {
    forall j | 0 <= j < FANOUT ensures Child(c, j) !in t.links && Child(c, j) != c {
      ChildInjective(c, j);
    }
  }
}
