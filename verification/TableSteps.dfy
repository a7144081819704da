/** The elementary changes to table nodes, and the effect of each on the view. */
module TableSteps {
  import opened Addresses
  import opened Words
  import opened TableView
  import opened TableMemory
  import opened TableSpec

  // ---------------------------------------------------------------------
  //  Primitive operations on one node
  // ---------------------------------------------------------------------

  function WithSlot(n: Node, idx: int, p: Word, w: Word, m: Meta): Node
    requires 0 <= idx < FANOUT
  {
    n.(ptable := n.ptable[idx := p], vtable := n.vtable[idx := w], meta := n.meta[idx := m])
  }

  function EntryReset(n: Node, idx: int): Node
    requires 0 <= idx < FANOUT
  {
    WithSlot(n, idx, EMPTY, EMPTY, Meta(-1, -1))
  }

  function InsertChildNode(n: Node, idx: int, child: int, childPa: int, childWsid: int): Node
    requires 0 <= idx < FANOUT
  {
    WithSlot(n, idx, Word(childPa, {}), Word(child, {}), Meta(childWsid, 1))
  }

  function InsertTranslatedAddr(n: Node, idx: int, pa: int, wsid: int, flags: set<Flag>): Node
    requires 0 <= idx < FANOUT
  {
    var w := Word(pa, {Terminal} + flags);
    WithSlot(n, idx, w, w, Meta(wsid, 1))
  }

  function DecrRefCnt(n: Node, idx: int): Node
    requires 0 <= idx < FANOUT
  {
    n.(meta := n.meta[idx := n.meta[idx].(refcnt := n.meta[idx].refcnt - 1)])
  }

  /** Count one more reference.  A preallocated reference also marks the page as
      preallocated and no longer MPF-allocated, rewriting the software word from
      the hardware word. */
  function IncrRefCnt(n: Node, idx: int, flags: set<Flag>): Node
    requires 0 <= idx < FANOUT
  {
    var m := n.meta[idx].(refcnt := n.meta[idx].refcnt + 1);
    if Prealloc in flags then
      var w := n.ptable[idx].(flags := n.ptable[idx].flags + {Prealloc} - {Alloc});
      WithSlot(n, idx, w, w, m)
    else
      n.(meta := n.meta[idx := m])
  }

  /** The metadata of a removed entry is left behind. */
  function RemoveTranslatedAddr(n: Node, idx: int): Node
    requires 0 <= idx < FANOUT
  {
    n.(ptable := n.ptable[idx := EMPTY], vtable := n.vtable[idx := EMPTY])
  }

  function SetTranslatedAddrFlags(n: Node, idx: int, flags: set<Flag>): Node
    requires 0 <= idx < FANOUT
  {
    n.(vtable := n.vtable[idx := n.vtable[idx].(flags := n.vtable[idx].flags + flags)])
  }

  function ClearTranslatedAddrFlags(n: Node, idx: int, flags: set<Flag>): Node
    requires 0 <= idx < FANOUT
  {
    n.(vtable := n.vtable[idx := n.vtable[idx].(flags := n.vtable[idx].flags - flags)])
  }

  // ---------------------------------------------------------------------
  //  Effects on the view
  // ---------------------------------------------------------------------

  ghost predicate SameElsewhere(n: Node, n': Node, idx: int) {
    forall j :: 0 <= j < FANOUT && j != idx ==>
      n'.ptable[j] == n.ptable[j] && n'.vtable[j] == n.vtable[j] && n'.meta[j] == n.meta[j]
  }

  /** In the software word of slot `idx`, InUse is as `on` says, and nothing else changed. */
  ghost predicate MarkedSlot(n: Node, n': Node, idx: int, on: bool)
    requires 0 <= idx < FANOUT
  {
    && SameElsewhere(n, n', idx) && n'.ptable == n.ptable && n'.meta == n.meta
    && n'.vtable[idx].addr == n.vtable[idx].addr
    && (InUse in n'.vtable[idx].flags <==> on)
    && forall f :: f != InUse ==> (f in n'.vtable[idx].flags <==> f in n.vtable[idx].flags)
  }

  /** A table of just an empty root maps nothing. */
  lemma RootOnlyRepresents(root: NodeRef)
    requires NodeAddrOk(root.addr)
    ensures Represents(map[root.addr := EmptyNode], View(map[Root := root], map[]), map[root.addr := Root])
  {}

  /** Writing one slot so that it holds `page` maps that page and changes nothing else. */
  lemma PutPage(mem: Memory, v: View, owner: map<int, Place>, s: Place, page: Page, n: Node)
    requires Represents(mem, v, owner)
    requires 0 <= s.level <= 2 && WfPlace(s) && Parent(s) in v.nodes && s !in v.nodes
    requires PageOk(page, s.level)
    requires SameElsewhere(mem[v.nodes[Parent(s)].addr], n, Idx(s))
    requires IsPageSlot(n, Idx(s), page)
    ensures Represents(mem[v.nodes[Parent(s)].addr := n], v.(pages := v.pages[s := page]), owner)
  {
    var a := v.nodes[Parent(s)].addr;
    var mem', v' := mem[a := n], v.(pages := v.pages[s := page]);
    forall b | b in mem' ensures NodeOk(mem'[b], owner[b], v') {
      assert NodeOk(mem[b], owner[b], v);
      forall i | 0 <= i < FANOUT ensures SlotOk(mem'[b], i, Child(owner[b], i), v') {
        assert SlotOk(mem[b], i, Child(owner[b], i), v);
        ChildInjective(owner[b], i);
        ParentChild(s);
      }
    }
  }

  /** Emptying the slot of a page unmaps that page and changes nothing else. */
  lemma DropPage(mem: Memory, v: View, owner: map<int, Place>, s: Place, n: Node)
    requires Represents(mem, v, owner) && s in v.pages
    requires SameElsewhere(mem[v.nodes[Parent(s)].addr], n, Idx(s))
    requires IsEmptySlot(n, Idx(s))
    ensures Represents(mem[v.nodes[Parent(s)].addr := n], v.(pages := v.pages - {s}), owner)
  {
    var a := v.nodes[Parent(s)].addr;
    var mem', v' := mem[a := n], v.(pages := v.pages - {s});
    forall b | b in mem' ensures NodeOk(mem'[b], owner[b], v') {
      assert NodeOk(mem[b], owner[b], v);
      forall i | 0 <= i < FANOUT ensures SlotOk(mem'[b], i, Child(owner[b], i), v') {
        assert SlotOk(mem[b], i, Child(owner[b], i), v);
        ChildInjective(owner[b], i);
        ParentChild(s);
      }
    }
  }

  /** Linking a fresh empty node into an empty slot adds one node and no page. */
  lemma LinkNode(mem: Memory, v: View, owner: map<int, Place>, s: Place, c: NodeRef)
    requires Represents(mem, v, owner)
    requires 1 <= s.level <= 3 && WfPlace(s) && Parent(s) in v.nodes && !Occupied(v, s)
    requires NodeAddrOk(c.addr) && c.addr !in mem
    ensures var a := v.nodes[Parent(s)].addr;
            var n := InsertChildNode(mem[a], Idx(s), c.addr, c.pa, c.wsid);
            Represents(mem[c.addr := EmptyNode][a := n], v.(nodes := v.nodes[s := c]), owner[c.addr := s])
  {
    var a := v.nodes[Parent(s)].addr;
    var n := InsertChildNode(mem[a], Idx(s), c.addr, c.pa, c.wsid);
    var mem', v', owner' := mem[c.addr := EmptyNode][a := n], v.(nodes := v.nodes[s := c]), owner[c.addr := s];
    forall b | b in mem' ensures NodeOk(mem'[b], owner'[b], v') {
      if b == c.addr {
        LinkedEmpty(v, s, c);
      } else {
        LinkedNode(mem[b], owner[b], v, s, c);
      }
    }
  }

  lemma LinkedEmpty(v: View, s: Place, c: NodeRef)
    requires TreeOk(v) && !Occupied(v, s) && 1 <= s.level <= 3
    ensures NodeOk(EmptyNode, s, v.(nodes := v.nodes[s := c]))
  {
    forall i | 0 <= i < FANOUT ensures SlotOk(EmptyNode, i, Child(s, i), v.(nodes := v.nodes[s := c])) {
      ChildInjective(s, i);
    }
  }

  lemma LinkedNode(node: Node, p: Place, v: View, s: Place, c: NodeRef)
    requires NodeOk(node, p, v) && !Occupied(v, s) && 1 <= s.level <= 3
    ensures var n := if p == Parent(s) then InsertChildNode(node, Idx(s), c.addr, c.pa, c.wsid) else node;
            NodeOk(n, p, v.(nodes := v.nodes[s := c]))
  {
    var n := if p == Parent(s) then InsertChildNode(node, Idx(s), c.addr, c.pa, c.wsid) else node;
    forall i | 0 <= i < FANOUT ensures SlotOk(n, i, Child(p, i), v.(nodes := v.nodes[s := c])) {
      ChildInjective(p, i);
      ParentChild(s);
      assert SlotOk(node, i, Child(p, i), v);
    }
  }

  /** Freeing a node with no occupied slot and resetting its parent's entry
      removes one node and no page. */
  lemma UnlinkNode(mem: Memory, v: View, owner: map<int, Place>, s: Place)
    requires Represents(mem, v, owner)
    requires s in v.nodes && s != Root
    requires forall i :: 0 <= i < FANOUT ==> !Occupied(v, Child(s, i))
    ensures var a := v.nodes[Parent(s)].addr;
            var c := v.nodes[s].addr;
            a != c && Represents((mem - {c})[a := EntryReset(mem[a], Idx(s))], v.(nodes := v.nodes - {s}), owner - {c})
  {
    var a := v.nodes[Parent(s)].addr;
    var c := v.nodes[s].addr;
    assert owner[a] == Parent(s) && owner[c] == s;
    var mem' := (mem - {c})[a := EntryReset(mem[a], Idx(s))];
    var v', owner' := v.(nodes := v.nodes - {s}), owner - {c};
    UnlinkedTree(v, s);
    forall b | b in mem' ensures NodeOk(mem'[b], owner'[b], v') {
      UnlinkedNode(mem[b], owner[b], v, s);
    }
  }

  lemma UnlinkedTree(v: View, s: Place)
    requires TreeOk(v) && s in v.nodes && s != Root
    requires forall i :: 0 <= i < FANOUT ==> !Occupied(v, Child(s, i))
    ensures TreeOk(v.(nodes := v.nodes - {s}))
  {
    var v' := v.(nodes := v.nodes - {s});
    forall t {:trigger Parent(t)} | Occupied(v', t) && t != Root ensures Parent(t) in v'.nodes {
      ParentChild(t);
      ghost var siblingInUse := Occupied(v, Child(s, Idx(t)));
    }
  }

  lemma UnlinkedNode(n: Node, p: Place, v: View, s: Place)
    requires NodeOk(n, p, v) && s !in v.pages
    ensures NodeOk(if p == Parent(s) then EntryReset(n, Idx(s)) else n, p, v.(nodes := v.nodes - {s}))
  {
    var n', v' := if p == Parent(s) then EntryReset(n, Idx(s)) else n, v.(nodes := v.nodes - {s});
    forall i | 0 <= i < FANOUT ensures SlotOk(n', i, Child(p, i), v') {
      assert SlotOk(n, i, Child(p, i), v);
      ChildInjective(p, i);
      ParentChild(s);
    }
  }

  lemma NodeOfPlace(mem: Memory, v: View, owner: map<int, Place>, s: Place)
    requires Represents(mem, v, owner) && s in v.nodes
    ensures v.nodes[s].addr in mem && NodeAddrOk(v.nodes[s].addr) && owner[v.nodes[s].addr] == s
    ensures mem == (mem - {v.nodes[s].addr})[v.nodes[s].addr := mem[v.nodes[s].addr]]
    ensures Linked(mem, v, owner)
  {}

  /** The slot of `va` at a node on its path. */
  lemma SlotPlace(mem: Memory, v: View, owner: map<int, Place>, node: int, va: VAddr, level: int)
    requires Represents(mem, v, owner) && OnPath(v, node, va, level)
    ensures node in mem && node != NULL
    ensures var s := PlaceOf(va, level);
            WfPlace(s) && s.level == level && s != Root && Idx(s) == PtIdxFromAddr(va, level) &&
            Parent(s) in v.nodes && v.nodes[Parent(s)].addr == node
  {
    SlotAt(mem, v, owner, va, level);
    PlaceOfParent(va, level);
  }

  /** The entry `k` slots after the one of `va` in the same node. */
  lemma NextSlot(mem: Memory, v: View, owner: map<int, Place>, node: int, va: VAddr, level: int, k: int)
    requires Represents(mem, v, owner) && OnPath(v, node, va, level)
    requires 0 <= k && Idx(PlaceOf(va, level)) + k < FANOUT
    ensures node in mem
    ensures var s := PlaceOf(va, level);
            var t, n, i := After(s, k), mem[node], Idx(s) + k;
            && (EntryExists(n, i) && EntryIsTerminal(n, i) <==> t in v.pages)
            && (t in v.pages ==> Translates(v, s, k, n.vtable[i].addr, n.vtable[i].flags))
  {
    SlotPlace(mem, v, owner, node, va, level);
    var s := PlaceOf(va, level);
    var p, i := Parent(s), Idx(s) + k;
    assert owner[node] == p && NodeOk(mem[node], p, v);
    assert Child(p, i) == After(s, k) by { ParentChild(s); }
    assert SlotOk(mem[node], i, Child(p, i), v);
  }

  /** Entry `idx` of `table` points at the node of slot `s`. */
  ghost predicate IsLink(mem: Memory, v: View, table: int, idx: int, s: Place) {
    && s in v.nodes && s != Root && Parent(s) in v.nodes && v.nodes[Parent(s)].addr == table
    && idx == Idx(s) && table in mem && v.nodes[s].addr != table
    && mem[table].vtable[idx] == Word(v.nodes[s].addr, {}) && mem[table].meta[idx].wsid == v.nodes[s].wsid
  }

  /** What the entry of a subdivided slot stores. */
  lemma ChildIsLink(mem: Memory, v: View, owner: map<int, Place>, node: int, va: VAddr, level: int)
    requires Represents(mem, v, owner) && OnPath(v, node, va, level) && PlaceOf(va, level) in v.nodes
    ensures IsLink(mem, v, node, PtIdxFromAddr(va, level), PlaceOf(va, level))
  {
    SlotAt(mem, v, owner, va, level);
    SlotPlace(mem, v, owner, node, va, level);
    assert SlotOk(mem[node], PtIdxFromAddr(va, level), PlaceOf(va, level), v);
  }

  lemma KeepsPath(v: View, v': View, node: int, va: VAddr, level: int)
    requires OnPath(v, node, va, level) && v'.nodes == v.nodes - {PlaceOf(va, level)}
    ensures OnPath(v', node, va, level)
  {}

  lemma ParentOf(mem: Memory, v: View, owner: map<int, Place>, s: Place)
    requires Represents(mem, v, owner) && s in v.nodes && s != Root
    ensures Root in v.nodes && Parent(s) in v.nodes && v.nodes[Parent(s)].addr in mem
  {}

  lemma PageSlotOf(mem: Memory, v: View, owner: map<int, Place>, s: Place)
    requires Represents(mem, v, owner) && s in v.pages
    ensures Parent(s) in v.nodes && v.nodes[Parent(s)].addr in mem
    ensures IsPageSlot(mem[v.nodes[Parent(s)].addr], Idx(s), v.pages[s])
  {
    var a := v.nodes[Parent(s)].addr;
    assert NodeOk(mem[a], owner[a], v);
    ParentChild(s);
    assert SlotOk(mem[a], Idx(s), s, v);
  }

  /** `node` is the node below slot `p`. */
  ghost predicate IsNodeAt(mem: Memory, v: View, node: int, p: Place) {
    p in v.nodes && v.nodes[p].addr == node && node in mem
  }

  lemma StillNode(mem: Memory, v: View, owner: map<int, Place>, node: int, p: Place)
    requires Represents(mem, v, owner) && p in v.nodes && v.nodes[p].addr == node
    ensures IsNodeAt(mem, v, node, p)
  {}

  /** What entry `idx` of the node below `p` says about the slot it stands for. */
  lemma EntryOfNode(mem: Memory, v: View, owner: map<int, Place>, node: int, p: Place, idx: int)
    requires Represents(mem, v, owner) && IsNodeAt(mem, v, node, p) && 0 <= idx < FANOUT
    ensures var c, n := Child(p, idx), mem[node];
            && TreeOk(v) && Parent(c) == p && Idx(c) == idx
            && EntryExists(n, idx) == Occupied(v, c)
            && (EntryExists(n, idx) ==> EntryIsTerminal(n, idx) == (c in v.pages))
            && (c in v.pages ==> c !in v.nodes && n.meta[idx].refcnt == v.pages[c].refcnt)
            && (c in v.nodes ==> c.level >= 1 && IsNodeAt(mem, v, n.vtable[idx].addr, c))
  {
    ChildInjective(p, idx);
    assert NodeOk(mem[node], owner[node], v);
    assert SlotOk(mem[node], idx, Child(p, idx), v);
  }

  lemma LinkOfNode(mem: Memory, v: View, owner: map<int, Place>, node: int, p: Place, idx: int)
    requires Represents(mem, v, owner) && IsNodeAt(mem, v, node, p) && 0 <= idx < FANOUT && Child(p, idx) in v.nodes
    ensures IsLink(mem, v, node, idx, Child(p, idx))
  {
    ChildInjective(p, idx);
    assert NodeOk(mem[node], owner[node], v);
    assert SlotOk(mem[node], idx, Child(p, idx), v);
  }

  /** Setting or clearing InUse in the software word maps nothing else. */
  lemma MarkInUse(mem: Memory, v: View, owner: map<int, Place>, node: int, va: VAddr, depth: int)
    requires Represents(mem, v, owner) && OnPath(v, node, va, depth)
    requires PlaceOf(va, depth) in v.pages
    ensures node in mem
    ensures var i := PtIdxFromAddr(va, depth);
            && Represents(mem[node := SetTranslatedAddrFlags(mem[node], i, {InUse})], v, owner)
            && Represents(mem[node := ClearTranslatedAddrFlags(mem[node], i, {InUse})], v, owner)
  {
    SlotAt(mem, v, owner, va, depth);
    PlaceOfParent(va, depth);
    var s, i := PlaceOf(va, depth), PtIdxFromAddr(va, depth);
    var page := v.pages[s];
    assert v.(pages := v.pages[s := page]) == v;
    assert SlotOk(mem[node], i, s, v);
    PutPage(mem, v, owner, s, page, SetTranslatedAddrFlags(mem[node], i, {InUse}));
    PutPage(mem, v, owner, s, page, ClearTranslatedAddrFlags(mem[node], i, {InUse}));
  }

  /** Counting one more reference to the page in a slot. */
  lemma BumpSlot(mem: Memory, v: View, owner: map<int, Place>, node: int, va: VAddr, level: int, flags: set<Flag>)
    requires Represents(mem, v, owner) && OnPath(v, node, va, level) && PlaceOf(va, level) in v.pages
    ensures node in mem
    ensures var s := PlaceOf(va, level);
            Represents(mem[node := IncrRefCnt(mem[node], PtIdxFromAddr(va, level), flags)],
                       v.(pages := v.pages[s := Bump(v.pages[s], flags)]), owner)
  {
    SlotPlace(mem, v, owner, node, va, level);
    SlotAt(mem, v, owner, va, level);
    var s, i := PlaceOf(va, level), PtIdxFromAddr(va, level);
    assert SlotOk(mem[node], i, s, v);
    PutPage(mem, v, owner, s, Bump(v.pages[s], flags), IncrRefCnt(mem[node], i, flags));
  }

  /** Dropping one of several references to the page in a slot. */
  lemma UnbumpSlot(mem: Memory, v: View, owner: map<int, Place>, s: Place)
    requires Represents(mem, v, owner) && s in v.pages && v.pages[s].refcnt > 1
    ensures var node := v.nodes[Parent(s)].addr;
            node in mem &&
            Represents(mem[node := DecrRefCnt(mem[node], Idx(s))],
                       v.(pages := v.pages[s := Unbump(v.pages[s])]), owner)
  {
    var node := v.nodes[Parent(s)].addr;
    assert NodeOk(mem[node], owner[node], v);
    ParentChild(s);
    assert SlotOk(mem[node], Idx(s), s, v);
    PutPage(mem, v, owner, s, Unbump(v.pages[s]), DecrRefCnt(mem[node], Idx(s)));
  }

  /** Filling an unused slot with a page. */
  lemma InsertSlot(mem: Memory, v: View, owner: map<int, Place>, node: int, va: VAddr, level: int,
                   pa: int, wsid: int, flags: set<Flag>)
    requires Represents(mem, v, owner) && OnPath(v, node, va, level) && !Occupied(v, PlaceOf(va, level))
    requires level <= 2 && PaOk(pa, level) && Invalid !in flags
    ensures node in mem
    ensures var s := PlaceOf(va, level);
            Represents(mem[node := InsertTranslatedAddr(mem[node], PtIdxFromAddr(va, level), pa, wsid, flags)],
                       v.(pages := v.pages[s := NewPage(pa, wsid, flags)]), owner)
  {
    SlotPlace(mem, v, owner, node, va, level);
    var s, i := PlaceOf(va, level), PtIdxFromAddr(va, level);
    PutPage(mem, v, owner, s, NewPage(pa, wsid, flags), InsertTranslatedAddr(mem[node], i, pa, wsid, flags));
  }

  /** Removing the page in a slot. */
  lemma RemoveSlot(mem: Memory, v: View, owner: map<int, Place>, s: Place)
    requires Represents(mem, v, owner) && s in v.pages
    ensures var node := v.nodes[Parent(s)].addr;
            node in mem &&
            Represents(mem[node := RemoveTranslatedAddr(mem[node], Idx(s))], v.(pages := v.pages - {s}), owner)
  {
    var node := v.nodes[Parent(s)].addr;
    DropPage(mem, v, owner, s, RemoveTranslatedAddr(mem[node], Idx(s)));
  }

  /** A node is empty in memory exactly when no slot below it is in use. */
  lemma EmptyNodeUnused(mem: Memory, v: View, owner: map<int, Place>, s: Place)
    requires Represents(mem, v, owner) && s in v.nodes
    ensures v.nodes[s].addr in mem
    ensures var n := mem[v.nodes[s].addr];
            (forall i :: 0 <= i < FANOUT ==> n.vtable[i] == EMPTY) <==>
            (forall i :: 0 <= i < FANOUT ==> !Occupied(v, Child(s, i)))
  {
    var a := v.nodes[s].addr;
    var n := mem[a];
    assert NodeOk(n, owner[a], v);
    forall i | 0 <= i < FANOUT ensures n.vtable[i] == EMPTY <==> !Occupied(v, Child(s, i)) {
      assert SlotOk(n, i, Child(s, i), v);
    }
  }

  // ---------------------------------------------------------------------
  //  The descent of an insertion, from view `v0`
  // ---------------------------------------------------------------------

  lemma StartGrowing(mem: Memory, v: View, owner: map<int, Place>, va: VAddr)
    requires Represents(mem, v, owner)
    ensures TreeOk(v) && OnPath(v, v.nodes[Root].addr, va, 3)
    ensures Grown(v, v, va, ROOT_LEVEL) && CoverAt(v, va, ROOT_LEVEL).None?
  {
    RootOnPath(mem, v, owner, va);
    PlaceOfParent(va, 3);
  }

  lemma KeepGrowing(v0: View, v: View, mem: Memory, v': View, owner: map<int, Place>, va: VAddr, k: int)
    requires TreeOk(v0) && Represents(mem, v', owner) && 1 <= k <= 3
    requires Grown(v0, v, va, k + 1) && CoverAt(v, va, k + 1).None?
    requires !Occupied(v, PlaceOf(va, k)) && v'.pages == v.pages && PlaceOf(va, k) in v'.nodes
    requires v'.nodes == v.nodes[PlaceOf(va, k) := v'.nodes[PlaceOf(va, k)]]
    ensures Grown(v0, v', va, k) && CoverAt(v', va, k).None?
  {
    GrownStep(v0, v, v', va, k);
    CoverSame(v, v', va, k);
  }

  lemma PassNode(v0: View, mem: Memory, v: View, owner: map<int, Place>, va: VAddr, k: int)
    requires TreeOk(v0) && Represents(mem, v, owner) && 1 <= k <= 3
    requires Grown(v0, v, va, k + 1) && CoverAt(v, va, k + 1).None? && PlaceOf(va, k) in v.nodes
    ensures Grown(v0, v, va, k) && CoverAt(v, va, k).None?
  {
    GrownSkip(v0, v, va, k);
  }

  lemma GrowingFailed(v0: View, mem: Memory, v: View, owner: map<int, Place>, va: VAddr, level: int, k: int,
                      page: Page, flags: set<Flag>)
    requires TreeOk(v0) && Represents(mem, v, owner) && 0 <= level < k <= 3 && level <= 2
    requires Grown(v0, v, va, k + 1) && CoverAt(v, va, k + 1).None? && !Occupied(v, PlaceOf(va, k))
    ensures Inserted(v0, v, NoMemory, va, level, page, flags)
  {
    MissingAncestor(v0, va, level, k);
    NoCoverBelow(v0, va, level, k);
    CoverSame(v0, v, va, k + 1);
  }

  /** Below a missing node there is no page to find. */
  lemma NoCoverBelow(v: View, va: VAddr, level: int, k: int)
    requires TreeOk(v) && 0 <= level <= k <= 3 && !Occupied(v, PlaceOf(va, k))
    ensures CoverAt(v, va, level) == CoverAt(v, va, k + 1)
    decreases k - level
  {
    if level < k {
      MissingAncestor(v, va, level, k);
      NoCoverBelow(v, va, level + 1, k);
    }
  }

  lemma CoveredOnTheWay(v0: View, mem: Memory, v: View, owner: map<int, Place>, va: VAddr, level: int, k: int,
                        page: Page, flags: set<Flag>)
    requires TreeOk(v0) && Represents(mem, v, owner) && 0 <= level < k <= 3 && level <= 2
    requires Grown(v0, v, va, k + 1) && PlaceOf(va, k) in v.pages
    ensures var s := PlaceOf(va, k);
            CoverAt(v0, va, level).Some? &&
            Inserted(v0, v.(pages := v.pages[s := Bump(v.pages[s], flags)]), OK, va, level, page, flags)
  {
    if v != v0 {
      MissingAncestorOne(v0, va, k);
    }
    CoverUnique(v, va, level, k);
  }

  lemma LeafDone(v0: View, v: View, v': View, r: FpgaResult, va: VAddr, level: int, page: Page, flags: set<Flag>)
    requires TreeOk(v0) && TreeOk(v) && 0 <= level <= 2
    requires Grown(v0, v, va, level + 1) && CoverAt(v, va, level + 1).None?
    ensures CoverAt(v, va, level) == CoverAt(v0, va, level)
    ensures PlaceOf(va, level) !in v.pages ==> CoverAt(v0, va, level).None?
    ensures Inserted(v, v', r, va, level, page, flags) ==> Inserted(v0, v', r, va, level, page, flags)
  {
    CoverSame(v0, v, va, level);
    if Inserted(v, v', r, va, level, page, flags) {
      GrownThenInserted(v0, v, v', r, va, level, page, flags);
    }
  }

  lemma TreeOf(mem: Memory, v: View, owner: map<int, Place>)
    requires Represents(mem, v, owner)
    ensures TreeOk(v)
  {}
}
