/** The VTP page table manager.

    Table nodes live in `mem`, a memory indexed by host address, because the
    entries of a node are words that hold host pointers; an access to a node
    that was freed would be an access outside `mem`.  The caller holds the table
    mutex, so each method runs without interference.  */
module PageTables {
  import opened Addresses
  import opened Words
  import opened FpgaTlb
  import opened TableView
  import opened TableMemory
  import opened TableSpec
  import opened TableSteps
  import opened TablePins
  import opened RangeSpec
  import opened TeardownSpec
  import opened Driver

  /** Search from `start`, a node that the walk for `va` visits at depth `top`:
      one pass of the descending loop, by 9-bit index at each depth. */
  method Walk(mem: Memory, start: int, va: VAddr, top: int, ghost v: View, ghost owner: map<int, Place>)
    returns (r: FpgaResult, node: int, idx: int, depth: int)
    requires Represents(mem, v, owner) && OnPath(v, start, va, top) && 0 <= top < ROOT_LEVEL
    ensures SwWalk(mem, start, va, top) == if r == OK then Found(node, idx, depth) else Stopped(depth)
    ensures r == OK || r == NotFound
    ensures r == OK ==> OnPath(v, node, va, depth) && idx == PtIdxFromAddr(va, depth) && 0 <= depth <= 2
    ensures r == OK ==> node in mem && node != NULL
  {
    hide Represents, OnPath, PtIdxFromAddr, PlaceOf;
    node, idx, depth := start, 0, top;
    while depth >= 0
      invariant -1 <= depth < ROOT_LEVEL
      invariant depth >= 0 ==> OnPath(v, node, va, depth)
      invariant SwWalk(mem, start, va, top) == if depth >= 0 then SwWalk(mem, node, va, depth) else Stopped(0)
      decreases depth
    {
      SwWalkStep(mem, v, owner, node, va, depth);
      idx := PtIdxFromAddr(va, depth);
      if !EntryExists(mem[node], idx) {
        return NotFound, node, idx, depth;
      }
      if EntryIsTerminal(mem[node], idx) {
        return OK, node, idx, depth;
      }
      node, depth := mem[node].vtable[idx].addr, depth - 1;
    }
    r, depth := NotFound, 0;
  }

  /** Scan the software vector for an entry in use. */
  method NodeIsEmpty(n: Node) returns (empty: bool)
    ensures empty <==> forall i :: 0 <= i < FANOUT ==> n.vtable[i] == EMPTY
  {
    for idx := 0 to FANOUT
      invariant forall i :: 0 <= i < idx ==> n.vtable[i] == EMPTY
    {
      if n.vtable[idx] != EMPTY {
        return false;
      }
    }
    return true;
  }

  class PageTable {
    const fpga: Fpga
    const hwPtWalkerPresent: bool
    const isHwVtpAvailable: bool

    var ptRoot: int
    var ptRootPaddr: int
    var ptRootWsid: int
    var mem: Memory

    // The node found by the last successful search.
    var prevFindTermNode: int
    var prevVa: VAddr
    var prevDepth: int
    var prevIdx: int

    ghost var view: View
    /** The place of each live node. */
    ghost var owner: map<int, Place>
    /** The page that stores each page handle. */
    ghost var holder: map<int, Place>

    /** The cached node is the live node that `prevVa` reaches at `prevDepth`. */
    ghost predicate CacheOk()
      reads this
    {
      && 0 <= prevDepth <= 2
      && (prevFindTermNode != NULL ==>
            && OnPath(view, prevFindTermNode, prevVa, prevDepth)
            && prevIdx == PtIdxFromAddr(prevVa, prevDepth))
    }

    /** The node memory represents the view, and the driver holds the pins it records. */
    ghost predicate Rep()
      reads this`mem, this`view, this`owner, this`holder, this`ptRoot, this`ptRootPaddr, this`ptRootWsid, fpga
    {
      && Represents(mem, view, owner)
      && view.nodes[Root] == NodeRef(ptRoot, ptRootPaddr, ptRootWsid)
      && PinsOk(view, holder, fpga.pinned, fpga.tables, hwPtWalkerPresent)
    }

    lemma Tree()
      requires Valid()
      ensures TreeOk(view)
    {}

    lemma StoredPage(s: Place)
      requires Valid() && s in view.pages
      ensures view.pages[s].wsid in holder && view.pages[s].wsid in UserPins(fpga.pinned)
      ensures view.pages[s].refcnt >= 1
    {}

    /** A handle that is not pinned is not stored either. */
    lemma StoredIsPinned()
      requires Valid()
      ensures holder.Keys <= UserPins(fpga.pinned)
    {
      hide Represents;
      forall w | w in holder ensures w in fpga.pinned && fpga.pinned[w].UserPin? {
        ghost var s := holder[w];
      }
    }

    ghost predicate Valid()
      reads this, fpga
    {
      Rep() && CacheOk()
    }

    /** In every valid state the FPGA's walk of physical pointers stays in the pinned
        nodes and answers from the page that maps `va`, or that there is none. */
    lemma HardwareWalk(va: VAddr)
      requires Valid() && hwPtWalkerPresent
      ensures HwWalk(mem, fpga.tables, ptRootPaddr, va, ROOT_LEVEL - 1) == HwAnswer(AnswerFor(view, PageAt(view, va)))
    {
      HwWalkIsDescend(mem, view, owner, fpga.tables, va, ROOT_LEVEL - 1) by { PlaceOfParent(va, ROOT_LEVEL - 1); }
      DescendIsLookup(view, va, ROOT_LEVEL - 1) by { PlaceOfParent(va, ROOT_LEVEL - 1); }
    }

    /** So the address that the FPGA uses for a mapped byte is the table's if and only if
        the page is 4KB or 2MB, or the byte is in the first 4KB of a 1GB page. */
    lemma HardwareAddressRightIff(va: VAddr)
      requires Valid() && hwPtWalkerPresent && PageAt(view, va).Some?
      ensures var s := PageAt(view, va).value;
              var hw := HwWalk(mem, fpga.tables, ptRootPaddr, va, ROOT_LEVEL - 1);
              && hw.HwAnswer? && hw.response.Present?
              && (FpgaAddress(hw.response, va) == view.pages[s].pa + (va - Lo(s)) <==>
                    s.level <= 1 || va % 0x4000_0000 < 0x1000)
    {
      hide Represents, PinsOk, HwWalk, CacheOk, FpgaAddress;
      HardwareWalk(va);
      Tree();
      AnswerRightIff(view, va);
    }

    /** Pins of user memory that no page of the table records. */
    ghost function LoosePins(): set<int>
      reads this`holder, fpga`pinned
    {
      UserPins(fpga.pinned) - holder.Keys
    }

    /** Build a table with an empty root.  `ptRoot` stays NULL when the root cannot be allocated. */
    constructor (fpga: Fpga, hwPtWalkerPresent: bool, isHwVtpAvailable: bool)
      modifies fpga`pinned, fpga`tables, fpga`faults
      ensures ptRoot == NULL <==> fpga.faults > old(fpga.faults)
      ensures this.fpga == fpga && this.hwPtWalkerPresent == hwPtWalkerPresent
      ensures this.isHwVtpAvailable == isHwVtpAvailable
      ensures ptRoot != NULL ==> Valid() && view.pages == map[] && view.nodes.Keys == {Root}
      ensures ptRoot == NULL ==> fpga.pinned == old(fpga.pinned)
    {
      this.fpga := fpga;
      this.hwPtWalkerPresent := hwPtWalkerPresent;
      this.isHwVtpAvailable := isHwVtpAvailable;
      mem := map[];
      ptRoot, ptRootPaddr, ptRootWsid := NULL, 0, 0;
      prevFindTermNode, prevVa, prevDepth, prevIdx := NULL, 0, 0, 0;
      view, owner, holder := View(map[], map[]), map[], map[];
      new;
      hide Rep, CacheOk, LoosePins;
      var r, node, pa, wsid := AllocTableNode();
      if r == OK {
        InstallRoot(node, pa, wsid);
      }
    }

    /** Make the only node the root. */
    method InstallRoot(node: int, pa: int, wsid: int)
      requires NodeAddrOk(node) && mem == map[node := EmptyNode] && prevFindTermNode == NULL && prevDepth == 0
      requires view == View(map[], map[]) && owner == map[] && holder == map[]
      requires hwPtWalkerPresent ==> PageAligned(pa) && wsid in fpga.pinned && fpga.pinned[wsid] == TablePin(pa, node)
      requires hwPtWalkerPresent ==> pa in fpga.tables && fpga.tables[pa] == node
      modifies this`ptRoot, this`ptRootPaddr, this`ptRootWsid, this`view, this`owner
      ensures ptRoot == node && Valid() && view.pages == map[] && view.nodes.Keys == {Root}
    {
      hide WfPlace, OnPath, Represents;
      ptRoot, ptRootPaddr, ptRootWsid := node, pa, wsid;
      view := View(map[Root := NodeRef(node, pa, wsid)], map[]);
      owner := map[node := Root];
      RootOnlyRepresents(view.nodes[Root]);
    }

    /** Map, fill with ones, and pin when the hardware walks the table, one node. */
    method AllocTableNode() returns (r: FpgaResult, node: int, pa: int, wsid: int)
      modifies this`mem, fpga`pinned, fpga`tables, fpga`faults
      ensures fpga.faults == if r == OK then old(fpga.faults) else old(fpga.faults) + 1
      ensures r == OK ==> NodeAddrOk(node) && node !in old(mem) && mem == old(mem)[node := EmptyNode]
      ensures r == OK && hwPtWalkerPresent ==>
                && wsid !in old(fpga.pinned) && pa !in old(fpga.tables) && PageAligned(pa)
                && fpga.pinned == old(fpga.pinned)[wsid := TablePin(pa, node)]
                && fpga.tables == old(fpga.tables)[pa := node]
      ensures r != OK ==> r == NoMemory && mem == old(mem)
      ensures r != OK || !hwPtWalkerPresent ==>
                fpga.pinned == old(fpga.pinned) && fpga.tables == old(fpga.tables)
    {
      pa, wsid := 0, 0;
      var ok;
      ok, node := fpga.MapNodeMemory(mem);
      if !ok {
        return NoMemory, NULL, pa, wsid;
      }
      mem := mem[node := EmptyNode];
      if hwPtWalkerPresent {
        ok, wsid, pa := fpga.PrepareTable(node);
        if !ok {
          mem := mem - {node};
          return NoMemory, node, pa, wsid;
        }
      }
      r := OK;
    }

    /** Forget the result of the last search. */
    method InvalFindNodeCache()
      modifies this`prevFindTermNode
      ensures prevFindTermNode == NULL
    {
      prevFindTermNode := NULL;
    }

    // -------------------------------------------------------------------
    //  Search
    // -------------------------------------------------------------------

    /** Search for the terminal entry of `va`, starting from the cached node when
        `va` lies on the page of the last successful search.  The answer is always
        that of the uncached walk from the root. */
    method FindTerminalNodeAndIndex(va: VAddr) returns (r: FpgaResult, node: int, idx: int, depth: int)
      requires Valid()
      modifies this`prevFindTermNode, this`prevVa, this`prevDepth, this`prevIdx
      ensures Valid()
      ensures r == OK || r == NotFound
      ensures RootWalk(mem, ptRoot, va) == if r == OK then Found(node, idx, depth) else Stopped(depth)
      ensures r == OK ==> prevFindTermNode == node && prevVa == va && prevDepth == depth && prevIdx == idx && node != NULL
    {
      hide Represents, PinsOk, OnPath, PtIdxFromAddr, PlaceOf, RootWalk, SwWalk;
      RootOnPath(mem, view, owner, va);
      var start, top := prevFindTermNode, prevDepth;
      if start == NULL || PlaceOf(prevVa, prevDepth) != PlaceOf(va, prevDepth) {
        start, top := ptRoot, ROOT_LEVEL - 1;
      } else {
        OnPathShared(view, start, prevVa, va, prevDepth);
      }
      SwWalkFromPath(mem, view, owner, start, va, top);
      r, node, idx, depth := Walk(mem, start, va, top, view, owner);
      if r == OK {
        prevDepth := depth;
        prevVa := va;
        prevFindTermNode := node;
        prevIdx := idx;
      }
    }

    // -------------------------------------------------------------------
    //  In-use flag and FPGA shootdown
    // -------------------------------------------------------------------

    /** The software word of the page that maps `va` has InUse as `on` says; every other
        bit of memory is as it was. */
    ghost predicate MarkedAt(m: Memory, m': Memory, v: View, va: VAddr, on: bool) {
      match PageAt(v, va)
      case None => m' == m
      case Some(s) =>
        && Parent(s) in v.nodes
        && var node := v.nodes[Parent(s)].addr;
           && node in m && node in m' && m' == m[node := m'[node]] && MarkedSlot(m[node], m'[node], Idx(s), on)
    }

    /** Clear InUse in the entry that maps `va`. */
    method ClearInUseFlag(va: VAddr) returns (r: FpgaResult)
      requires Valid()
      modifies this`mem, this`prevFindTermNode, this`prevVa, this`prevDepth, this`prevIdx
      ensures Valid()
      ensures r == if PageAt(view, va).Some? then OK else NotFound
      ensures MarkedAt(old(mem), mem, view, va, false)
    {
      hide Represents, PinsOk, OnPath, PtIdxFromAddr, PlaceOf, RootWalk, SwWalk, PageAt;
      var node, idx, depth;
      r, node, idx, depth := FindTerminalNodeAndIndex(va);
      FoundIsPage(va, r, node, idx, depth);
      if r != OK {
        return r;
      }
      MarkInUse(mem, view, owner, node, va, depth);
      mem := mem[node := ClearTranslatedAddrFlags(mem[node], idx, {InUse})];
    }

    /** A successful search returns the slot of the page that maps `va`. */
    lemma FoundIsPage(va: VAddr, r: FpgaResult, node: int, idx: int, depth: int)
      requires Valid()
      requires r == OK || r == NotFound
      requires RootWalk(mem, ptRoot, va) == if r == OK then Found(node, idx, depth) else Stopped(depth)
      requires r == OK ==> prevFindTermNode == node && prevVa == va && prevDepth == depth && prevIdx == idx && node != NULL
      ensures r == OK <==> PageAt(view, va).Some?
      ensures r == OK ==> OnPath(view, node, va, depth) && idx == PtIdxFromAddr(va, depth)
      ensures r == OK ==> PageAt(view, va) == Some(PlaceOf(va, depth))
      ensures r == OK ==> var s := PlaceOf(va, depth);
                          && Parent(s) in view.nodes && view.nodes[Parent(s)].addr == node && Idx(s) == idx
      ensures r != OK ==> depth == StopLevel(view, va)
    {
      hide PinsOk;
      SwWalkIsLookup(mem, view, owner, va);
      var p := PageAt(view, va);
      if p.Some? {
        HoldsIffPlaceOf(p.value, va);
        PlaceOfParent(va, p.value.level);
      }
    }

    /** Drop any FPGA-side copy of the translation of `va`. */
    method InvalHWVAMapping(va: VAddr) returns (r: FpgaResult)
      requires Valid()
      modifies this`mem, this`prevFindTermNode, this`prevVa, this`prevDepth, this`prevIdx, fpga`shootdowns, fpga`faults
      ensures Valid()
      ensures fpga.faults == if r == OK then old(fpga.faults) else old(fpga.faults) + 1
      ensures fpga.shootdowns == if isHwVtpAvailable then old(fpga.shootdowns) + [va] else old(fpga.shootdowns)
      ensures if isHwVtpAvailable then MarkedAt(old(mem), mem, view, va, false) else mem == old(mem)
      ensures r == OK || r == Exception
    {
      if !isHwVtpAvailable {
        return OK;
      }
      r := ClearInUseFlag(va);
      var ok := fpga.InvalidatePage(va);
      r := if ok then OK else Exception;
    }

    // -------------------------------------------------------------------
    //  Insert
    // -------------------------------------------------------------------

    /** Add a new empty node below the unused slot of `va` at depth `k`. */
    method LinkNewNode(table: int, va: VAddr, k: int) returns (ok: bool)
      requires Valid()
      requires 1 <= k <= 3 && OnPath(view, table, va, k) && !Occupied(view, PlaceOf(va, k))
      modifies this`mem, this`view, this`owner, fpga`pinned, fpga`tables, fpga`faults
      ensures Valid()
      ensures fpga.faults == if ok then old(fpga.faults) else old(fpga.faults) + 1
      ensures view.pages == old(view).pages
      ensures ok ==> PlaceOf(va, k) in view.nodes &&
                     view.nodes == old(view).nodes[PlaceOf(va, k) := view.nodes[PlaceOf(va, k)]]
      ensures ok ==> OnPath(view, table, va, k)
      ensures !ok ==> view == old(view)
      ensures UserPins(fpga.pinned) == UserPins(old(fpga.pinned))
    {
      hide Represents, PinsOk, PtIdxFromAddr, PlaceOf, UserPins, WfPlace;
      ghost var m := mem;
      ghost var s := PlaceOf(va, k);
      var r, child, childPa, childWsid := AllocTableNode();
      if r != OK {
        return false;
      }
      var idx := PtIdxFromAddr(va, k);
      ghost var c := NodeRef(child, childPa, childWsid);
      SlotPlace(m, view, owner, table, va, k);
      LinkNode(m, view, owner, s, c);
      AddNodePin(view, holder, old(fpga.pinned), old(fpga.tables), hwPtWalkerPresent, s, c);
      mem := mem[table := InsertChildNode(mem[table], idx, child, childPa, childWsid)];
      view := view.(nodes := view.nodes[s := c]);
      owner := owner[child := s];
      ok := true;
    }

    /** Unpin and unmap node `node`, which must have no occupied slot.  The entry
        that points at it is left for the caller to overwrite; `n` is the content
        of the node when it was freed. */
    method FreeTableNode(node: int, wsid: int, doInval: bool, ghost s: Place) returns (ghost n: Node)
      requires Valid()
      requires s in view.nodes && s != Root && view.nodes[s].addr == node && view.nodes[s].wsid == wsid
      modifies this`mem, this`prevFindTermNode, this`prevVa, this`prevDepth, this`prevIdx, fpga
      ensures node !in mem && Represents(mem[node := n], view, owner)
      ensures PinsOk(view.(nodes := view.nodes - {s}), holder, fpga.pinned, fpga.tables, hwPtWalkerPresent)
      ensures prevFindTermNode == NULL && 0 <= prevDepth <= 2
      ensures UserPins(fpga.pinned) == UserPins(old(fpga.pinned))
      ensures fpga.shootdowns ==
              old(fpga.shootdowns) + if hwPtWalkerPresent && doInval && isHwVtpAvailable then [node] else []
      ensures old(fpga.faults) <= fpga.faults
    {
      hide Represents, PinsOk, UserPins, OnPath, PageAt, PlaceOf, RootWalk;
      NodeOfPlace(mem, view, owner, s);
      if hwPtWalkerPresent {
        if doInval {
          var _ := InvalHWVAMapping(node);
        }
      }
      NodeOfPlace(mem, view, owner, s);
      FreeNodePin(mem, view, owner, holder, fpga.pinned, fpga.tables, hwPtWalkerPresent, s);
      n := mem[node];
      UnpinAndUnmapNode(node, wsid);
    }

    /** The end of a node: unpin it if it was pinned, and give its memory back. */
    method UnpinAndUnmapNode(node: int, wsid: int)
      requires node in mem && (hwPtWalkerPresent ==> wsid in fpga.pinned)
      modifies this`mem, this`prevFindTermNode, fpga`pinned, fpga`tables
      ensures mem == old(mem) - {node} && prevFindTermNode == NULL
      ensures hwPtWalkerPresent ==> fpga.pinned == old(fpga.pinned) - {wsid}
      ensures hwPtWalkerPresent ==> fpga.tables == match old(fpga.pinned)[wsid]
                                                   case UserPin => old(fpga.tables)
                                                   case TablePin(pa, _) => old(fpga.tables) - {pa}
      ensures !hwPtWalkerPresent ==> fpga.pinned == old(fpga.pinned) && fpga.tables == old(fpga.tables)
    {
      if hwPtWalkerPresent {
        fpga.ReleaseBuffer(wsid);
      }
      mem := mem - {node};
      InvalFindNodeCache();
    }

    /** Count another reference to the page that `va` reaches at depth `k`. */
    method CountReference(table: int, va: VAddr, k: int, flags: set<Flag>)
      requires Valid()
      requires OnPath(view, table, va, k) && PlaceOf(va, k) in view.pages
      modifies this`mem, this`view
      ensures Valid()
      ensures view == old(view).(pages := old(view).pages[PlaceOf(va, k) := Bump(old(view).pages[PlaceOf(va, k)], flags)])
    {
      hide Represents, PinsOk, PtIdxFromAddr, PlaceOf;
      ghost var s := PlaceOf(va, k);
      BumpSlot(mem, view, owner, table, va, k, flags);
      KeepPagePin(view, holder, fpga.pinned, fpga.tables, hwPtWalkerPresent, s, Bump(view.pages[s], flags));
      mem := mem[table := IncrRefCnt(mem[table], PtIdxFromAddr(va, k), flags)];
      view := view.(pages := view.pages[s := Bump(view.pages[s], flags)]);
    }

    /** Store a new page in the unused slot that `va` reaches at depth `level`. */
    method StorePage(table: int, va: VAddr, level: int, pa: int, wsid: int, flags: set<Flag>)
      requires Valid() && PaOk(pa, level) && Invalid !in flags
      requires level <= 2 && OnPath(view, table, va, level) && !Occupied(view, PlaceOf(va, level))
      requires wsid in LoosePins()
      modifies this`mem, this`view, this`holder
      ensures Valid()
      ensures view == old(view).(pages := old(view).pages[PlaceOf(va, level) := NewPage(pa, wsid, flags)])
      ensures holder == old(holder)[wsid := PlaceOf(va, level)]
    {
      hide Represents, PinsOk, PtIdxFromAddr, PlaceOf;
      ghost var s := PlaceOf(va, level);
      InsertSlot(mem, view, owner, table, va, level, pa, wsid, flags);
      AddPagePin(view, holder, fpga.pinned, fpga.tables, hwPtWalkerPresent, s, NewPage(pa, wsid, flags));
      mem := mem[table := InsertTranslatedAddr(mem[table], PtIdxFromAddr(va, level), pa, wsid, flags)];
      view := view.(pages := view.pages[s := NewPage(pa, wsid, flags)]);
      holder := holder[wsid := s];
    }

    /** Free the empty node that entry `idx` of `table` points at, and reset the entry. */
    method DropEmptyNode(table: int, idx: int, ghost s: Place)
      requires Valid()
      requires IsLink(mem, view, table, idx, s)
      requires forall i :: 0 <= i < FANOUT ==> !Occupied(view, Child(s, i))
      modifies this`mem, this`view, this`owner, this`prevFindTermNode, this`prevVa, this`prevDepth, this`prevIdx, fpga
      ensures Valid()
      ensures view == old(view).(nodes := old(view).nodes - {s}) && prevFindTermNode == NULL
      ensures UserPins(fpga.pinned) == UserPins(old(fpga.pinned))
      ensures fpga.shootdowns ==
              old(fpga.shootdowns) + if hwPtWalkerPresent && isHwVtpAvailable then [old(view).nodes[s].addr] else []
      ensures old(fpga.faults) <= fpga.faults
    {
      hide Represents, PinsOk, PtIdxFromAddr, PlaceOf, UserPins, Occupied;
      var child := mem[table].vtable[idx].addr;
      ghost var n := FreeTableNode(child, mem[table].meta[idx].wsid, true, s);
      ghost var full := mem[child := n];
      ParentOf(full, view, owner, s);
      UnlinkNode(full, view, owner, s);
      assert full - {child} == mem && full[table] == mem[table];
      mem := mem[table := EntryReset(mem[table], idx)];
      view := view.(nodes := view.nodes - {s});
      owner := owner - {child};
    }

    /** Place the translation once the walk has reached the leaf node `table`. */
    method InsertAtLeaf(table: int, va: VAddr, level: int, pa: int, wsid: int, flags: set<Flag>)
      returns (r: FpgaResult)
      requires Valid() && PaOk(pa, level) && Invalid !in flags
      requires 0 <= level <= 2 && OnPath(view, table, va, level) && CoverAt(view, va, level + 1).None?
      requires PlaceOf(va, level) !in view.pages ==>
                 wsid in LoosePins()
      modifies this`mem, this`view, this`owner, this`holder,
               this`prevFindTermNode, this`prevVa, this`prevDepth, this`prevIdx, fpga
      ensures Valid()
      ensures Inserted(old(view), view, r, va, level, NewPage(pa, wsid, flags), flags)
      ensures holder == if r == OK && CoverAt(old(view), va, level).None?
                        then old(holder)[wsid := PlaceOf(va, level)] else old(holder)
      ensures UserPins(fpga.pinned) == UserPins(old(fpga.pinned))
      ensures old(fpga.shootdowns) <= fpga.shootdowns
      ensures hwPtWalkerPresent && isHwVtpAvailable ==>
                NodesShotDown(old(view).nodes, view.nodes, old(fpga.shootdowns), fpga.shootdowns)
      ensures old(fpga.faults) <= fpga.faults
      ensures r != NoMemory && prevFindTermNode == NULL
    {
      hide Represents, PinsOk, OnPath, PtIdxFromAddr, PlaceOf, UserPins, NodesShotDown;
      NodesStay(view.nodes, view.nodes, fpga.shootdowns, fpga.shootdowns);
      ghost var s := PlaceOf(va, level);
      var leafIdx := PtIdxFromAddr(va, level);
      SwWalkStep(mem, view, owner, table, va, level);
      InvalFindNodeCache();
      if EntryExists(mem[table], leafIdx) {
        if level >= 1 && !EntryIsTerminal(mem[table], leafIdx) {
          ChildIsLink(mem, view, owner, table, va, level);
          var child := mem[table].vtable[leafIdx].addr;
          EmptyNodeUnused(mem, view, owner, s);
          var empty := NodeIsEmpty(mem[child]);
          if !empty {
            return Exception;
          }
          DropEmptyNode(table, leafIdx, s);
          if hwPtWalkerPresent && isHwVtpAvailable {
            OneNodeShotDown(old(view).nodes, view.nodes, old(fpga.shootdowns), s);
          }
          KeepsPath(old(view), view, table, va, level);
        } else if EntryIsTerminal(mem[table], leafIdx) {
          CountReference(table, va, level, flags);
          return OK;
        } else {
          return Exception;
        }
      }
      StorePage(table, va, level, pa, wsid, flags);
      r := OK;
    }

    /** Walk down to the leaf of a page at `depth` (4 for 4KB, 3 for 2MB, 2 for
        1GB), making missing nodes, and add the translation there.  A page already
        covering `va` on the way is counted once more instead. */
    method AddVAtoTable(va: VAddr, pa: int, wsid: int, depth: int, flags: set<Flag>) returns (r: FpgaResult)
      requires Valid() && PaOk(pa, ROOT_LEVEL - depth) && Invalid !in flags
      requires 2 <= depth <= 4
      requires CoverAt(view, va, ROOT_LEVEL - depth).None? ==> wsid in LoosePins()
      modifies this`mem, this`view, this`owner, this`holder,
               this`prevFindTermNode, this`prevVa, this`prevDepth, this`prevIdx, fpga
      ensures Valid()
      ensures Inserted(old(view), view, r, va, ROOT_LEVEL - depth, NewPage(pa, wsid, flags), flags)
      ensures holder == if r == OK && CoverAt(old(view), va, ROOT_LEVEL - depth).None?
                        then old(holder)[wsid := PlaceOf(va, ROOT_LEVEL - depth)] else old(holder)
      ensures UserPins(fpga.pinned) == UserPins(old(fpga.pinned))
      ensures old(fpga.shootdowns) <= fpga.shootdowns
      ensures hwPtWalkerPresent && isHwVtpAvailable ==>
                NodesShotDown(old(view).nodes, view.nodes, old(fpga.shootdowns), fpga.shootdowns)
      ensures old(fpga.faults) <= fpga.faults
      ensures r == NoMemory ==> fpga.faults > old(fpga.faults)
    {
      hide Represents, PinsOk, OnPath, PtIdxFromAddr, PlaceOf, UserPins, Grown, CoverAt, TreeOk, Inserted, NodesShotDown;
      ghost var v0, log := view, fpga.shootdowns;
      var level := ROOT_LEVEL - depth;
      ghost var page := NewPage(pa, wsid, flags);
      var table := ptRoot;
      var curDepth := ROOT_LEVEL;
      var d := depth - 1;
      StartGrowing(mem, view, owner, va);
      while d != 0
        invariant 0 <= d && curDepth == level + 1 + d
        invariant Valid() && holder == old(holder) && UserPins(fpga.pinned) == UserPins(old(fpga.pinned))
        invariant fpga.shootdowns == old(fpga.shootdowns) && fpga.faults == old(fpga.faults)
        invariant OnPath(view, table, va, curDepth - 1)
        invariant Grown(v0, view, va, curDepth) && CoverAt(view, va, curDepth).None?
        decreases d
      {
        curDepth := curDepth - 1;
        d := d - 1;
        var idx := PtIdxFromAddr(va, curDepth);
        SwWalkStep(mem, view, owner, table, va, curDepth);
        if !EntryExists(mem[table], idx) {
          GrowingFailed(v0, mem, view, owner, va, level, curDepth, page, flags);
          GrownStay(v0, view, va, curDepth + 1, log);
          ghost var v := view;
          var ok := LinkNewNode(table, va, curDepth);
          if !ok {
            return NoMemory;
          }
          KeepGrowing(v0, v, mem, view, owner, va, curDepth);
          SwWalkStep(mem, view, owner, table, va, curDepth);
        } else if EntryIsTerminal(mem[table], idx) {
          CoveredOnTheWay(v0, mem, view, owner, va, level, curDepth, page, flags);
          GrownStay(v0, view, va, curDepth + 1, log);
          CountReference(table, va, curDepth, flags);
          return OK;
        } else {
          PassNode(v0, mem, view, owner, va, curDepth);
        }
        table := mem[table].vtable[idx].addr;
      }
      ghost var v := view;
      TreeOf(mem, view, owner);
      LeafDone(v0, v, v, OK, va, level, page, flags);
      GrownStay(v0, v, va, curDepth, log);
      r := InsertAtLeaf(table, va, level, pa, wsid, flags);
      if hwPtWalkerPresent && isHwVtpAvailable {
        NodesShotDownThen(v0.nodes, v.nodes, view.nodes, log, log, fpga.shootdowns);
      }
      LeafDone(v0, v, view, r, va, level, page, flags);
    }

    /** Insert a mapping.  Only 4KB pages are checked for 4KB alignment; the
        larger sizes, 1GB included, are checked for 2MB alignment. */
    method InsertPageMapping(va: VAddr, pa: int, wsid: int, size: PageSize, flags: set<Flag>) returns (r: FpgaResult)
      requires Valid() && 0 <= pa < 0x1_0000_0000_0000_0000 && Invalid !in flags
      requires CoverAt(view, va, LevelOf(size)).None? ==> wsid in LoosePins()
      modifies this`mem, this`view, this`owner, this`holder,
               this`prevFindTermNode, this`prevVa, this`prevDepth, this`prevIdx, fpga
      ensures Valid()
      ensures !AlignedFor(size, va, pa) ==> r == InvalidParam && view == old(view)
      ensures AlignedFor(size, va, pa) ==>
                Inserted(old(view), view, r, va, LevelOf(size), NewPage(pa, wsid, flags), flags)
      ensures holder == if r == OK && CoverAt(old(view), va, LevelOf(size)).None?
                        then old(holder)[wsid := PlaceOf(va, LevelOf(size))] else old(holder)
      ensures UserPins(fpga.pinned) == UserPins(old(fpga.pinned))
      ensures old(fpga.shootdowns) <= fpga.shootdowns
      ensures hwPtWalkerPresent && isHwVtpAvailable ==>
                NodesShotDown(old(view).nodes, view.nodes, old(fpga.shootdowns), fpga.shootdowns)
      ensures old(fpga.faults) <= fpga.faults
      ensures r == NoMemory ==> fpga.faults > old(fpga.faults)
    {
      hide Rep, CacheOk, Inserted, CoverAt, PlaceOf, UserPins, PaOk, LoosePins;
      var mask := if size == Page4KB then 0x1000 else 0x20_0000;
      if va % mask != 0 || pa % mask != 0 {
        return InvalidParam;
      }
      MaskedPa(pa, size);
      var depth := ROOT_LEVEL;
      if size == Page2MB {
        depth := depth - 1;
      } else if size == Page1GB {
        depth := depth - 2;
      }
      r := AddVAtoTable(va, pa, wsid, depth, flags);
    }

    lemma MaskedPa(pa: int, size: PageSize)
      requires 0 <= pa < 0x1_0000_0000_0000_0000 && pa % (if size == Page4KB then 0x1000 else 0x20_0000) == 0
      ensures PaOk(pa, LevelOf(size))
    {
      if size != Page4KB {
        LargeIsSmall(pa);
      }
    }

    lemma LargeIsSmall(pa: int)
      requires pa % 0x20_0000 == 0
      ensures pa % 0x1000 == 0
    {
      Remainder(pa, 0x1000, 512 * (pa / 0x20_0000), 0);
    }

    // -------------------------------------------------------------------
    //  Remove
    // -------------------------------------------------------------------

    /** Drop one reference to the page that maps `va`, and the page with the last one. */
    method RemovePageMapping(va: VAddr)
      returns (r: FpgaResult, pa: int, wsid: int, size: PageSize, flags: set<Flag>)
      requires Valid()
      modifies this`mem, this`view, this`holder, this`prevFindTermNode
      ensures Valid()
      ensures Removed(old(view), view, r, va)
      ensures r != NotFound ==>
                var s := PageAt(old(view), va).value;
                && pa == old(view).pages[s].pa && wsid == old(view).pages[s].wsid
                && flags - {InUse} == old(view).pages[s].flags && size == DepthToSize(s.level)
      ensures holder == if r == OK then old(holder) - {wsid} else old(holder)
      ensures r == OK ==> prevFindTermNode == NULL
    {
      hide Represents, PinsOk, PtIdxFromAddr, PlaceOf, RootWalk, PageAt;
      RootOnPath(mem, view, owner, va);
      var node, idx, depth;
      r, node, idx, depth := Walk(mem, ptRoot, va, ROOT_LEVEL - 1, view, owner);
      pa, wsid, size, flags := 0, 0, PageNone, {};
      WalkedFromRoot(va, r, node, idx, depth);
      if r != OK {
        return;
      }
      ghost var s := PlaceOf(va, depth);
      pa := mem[node].vtable[idx].addr;
      wsid := mem[node].meta[idx].wsid;
      size := DepthToSize(depth);
      flags := mem[node].vtable[idx].flags;
      if mem[node].meta[idx].refcnt > 1 {
        UnbumpSlot(mem, view, owner, s);
        KeepPagePin(view, holder, fpga.pinned, fpga.tables, hwPtWalkerPresent, s, Unbump(view.pages[s]));
        mem := mem[node := DecrRefCnt(mem[node], idx)];
        view := view.(pages := view.pages[s := Unbump(view.pages[s])]);
        r := Busy;
        return;
      }
      RemoveSlot(mem, view, owner, s);
      DropPagePin(view, holder, fpga.pinned, fpga.tables, hwPtWalkerPresent, s);
      mem := mem[node := RemoveTranslatedAddr(mem[node], idx)];
      view := view.(pages := view.pages - {s});
      holder := holder - {wsid};
      InvalFindNodeCache();
    }

    /** What a walk from the root returned, in terms of the view. */
    lemma WalkedFromRoot(va: VAddr, r: FpgaResult, node: int, idx: int, depth: int)
      requires Valid()
      requires r == OK || r == NotFound
      requires SwWalk(mem, ptRoot, va, ROOT_LEVEL - 1) == if r == OK then Found(node, idx, depth) else Stopped(depth)
      ensures r == OK <==> PageAt(view, va).Some?
      ensures r != OK ==> depth == StopLevel(view, va)
      ensures r == OK ==>
                var s := PlaceOf(va, depth);
                && PageAt(view, va) == Some(s) && s in view.pages && s.level == depth && PageOk(view.pages[s], depth)
                && idx == PtIdxFromAddr(va, depth) == Idx(s)
                && Parent(s) in view.nodes && node == view.nodes[Parent(s)].addr
                && node in mem && 0 <= idx < FANOUT && IsPageSlot(mem[node], idx, view.pages[s])
    {
      hide PinsOk;
      SwWalkIsLookup(mem, view, owner, va);
      var p := PageAt(view, va);
      if p.Some? {
        HoldsIffPlaceOf(p.value, va);
        PlaceOfParent(va, p.value.level);
        SlotAt(mem, view, owner, va, p.value.level);
      }
    }

    // -------------------------------------------------------------------
    //  Translation
    // -------------------------------------------------------------------

    /** Translate `va`.  A failed translation still reports the page size of the
        level at which the search stopped. */
    method TranslateVAtoPA(va: VAddr, setInUse: bool)
      returns (r: FpgaResult, startVa: int, pa: int, size: PageSize, flags: set<Flag>)
      requires Valid()
      modifies this`mem, this`prevFindTermNode, this`prevVa, this`prevDepth, this`prevIdx
      ensures Valid()
      ensures r == if PageAt(view, va).Some? then OK else NotFound
      ensures r != OK ==> size == DepthToSize(StopLevel(view, va))
      ensures r == OK ==>
                var s := PageAt(view, va).value;
                && startVa == Lo(s) && pa == view.pages[s].pa && size == DepthToSize(s.level)
                && flags - {InUse} == view.pages[s].flags && (setInUse ==> InUse in flags)
                && prevFindTermNode != NULL && s == PlaceOf(prevVa, prevDepth)
      ensures if setInUse then MarkedAt(old(mem), mem, view, va, true) else mem == old(mem)
    {
      hide Represents, PinsOk, PtIdxFromAddr, PageNum, RootWalk, PageAt, StopLevel, Lo, Span, OnPath;
      startVa, pa, flags := 0, 0, {};
      var node, idx, depth;
      r, node, idx, depth := FindTerminalNodeAndIndex(va);
      FoundIsPage(va, r, node, idx, depth);
      size := DepthToSize(depth);
      if r != OK {
        return;
      }
      ghost var s := PlaceOf(va, depth);
      FoundSlotIsPage(va, node, depth);
      if setInUse {
        MarkInUse(mem, view, owner, node, va, depth);
        mem := mem[node := SetTranslatedAddrFlags(mem[node], idx, {InUse})];
      }
      startVa := va - va % Span(depth);
      PageStart(va, depth);
      pa := mem[node].vtable[idx].addr;
      flags := mem[node].vtable[idx].flags;
    }

    lemma FoundSlotIsPage(va: VAddr, node: int, depth: int)
      requires Valid() && OnPath(view, node, va, depth) && PageAt(view, va) == Some(PlaceOf(va, depth))
      ensures node in mem && IsPageSlot(mem[node], PtIdxFromAddr(va, depth), view.pages[PlaceOf(va, depth)])
    {
      hide PinsOk;
      SlotAt(mem, view, owner, va, depth);
    }

    /** More translations of virtually contiguous pages, following the page of the
        last successful search, from the same node.  It stops at `maxPages`, at
        the end of the node, or at the first slot without a page. */
    method ExtendVecVAtoPA(maxPages: int) returns (pas: seq<int>, flags: seq<set<Flag>>)
      requires Valid()
      ensures |flags| == |pas|
      ensures prevFindTermNode == NULL ==> |pas| == 0
      ensures prevFindTermNode != NULL ==>
                var s := PlaceOf(prevVa, prevDepth);
                && (|pas| == 0 || |pas| <= maxPages) && Idx(s) + |pas| < FANOUT
                && (forall i :: 0 <= i < |pas| ==> Translates(view, s, i + 1, pas[i], flags[i]))
                && (|pas| < maxPages && Idx(s) + |pas| + 1 < FANOUT ==> After(s, |pas| + 1) !in view.pages)
    {
      hide Represents, PinsOk, PtIdxFromAddr, PlaceOf, OnPath, Translates;
      var node := prevFindTermNode;
      var idx := prevIdx;
      pas, flags := [], [];
      if node == NULL || prevDepth > 2 {
        return;
      }
      ghost var s := PlaceOf(prevVa, prevDepth);
      SlotPlace(mem, view, owner, node, prevVa, prevDepth);
      idx := idx + 1;
      while |pas| < maxPages && idx < FANOUT
        invariant |flags| == |pas| && idx == Idx(s) + 1 + |pas| && idx <= FANOUT
        invariant |pas| == 0 || |pas| <= maxPages
        invariant forall i :: 0 <= i < |pas| ==> Translates(view, s, i + 1, pas[i], flags[i])
        decreases FANOUT - idx
      {
        NextSlot(mem, view, owner, node, prevVa, prevDepth, |pas| + 1);
        if !EntryExists(mem[node], idx) || !EntryIsTerminal(mem[node], idx) {
          break;
        }
        pas := pas + [mem[node].vtable[idx].addr];
        flags := flags + [mem[node].vtable[idx].flags];
        idx := idx + 1;
      }
    }

    // -------------------------------------------------------------------
    //  Range release
    // -------------------------------------------------------------------

    /** Unpin and unmap the page in slot `s`, which is entry `idx` of `node`. */
    method ReleasePage(node: int, idx: int, va: VAddr, ghost s: Place)
      requires Valid()
      requires s in view.pages && node == view.nodes[Parent(s)].addr && idx == Idx(s)
      modifies this`mem, this`view, this`holder, this`prevFindTermNode, this`prevVa, this`prevDepth, this`prevIdx, fpga
      ensures Valid()
      ensures view == old(view).(pages := old(view).pages - {s})
      ensures LoosePins() == old(LoosePins())
      ensures fpga.shootdowns == if isHwVtpAvailable then old(fpga.shootdowns) + [va] else old(fpga.shootdowns)
    {
      hide Represents, PinsOk, RootWalk, PageAt, OnPath, PtIdxFromAddr, PlaceOf;
      PageSlotOf(mem, view, owner, s);
      var childWsid := mem[node].meta[idx].wsid;
      var _ := InvalHWVAMapping(va);
      PageSlotOf(mem, view, owner, s);
      RootOnPath(mem, view, owner, va);
      RemoveSlot(mem, view, owner, s);
      ReleasePagePin(view, holder, fpga.pinned, fpga.tables, hwPtWalkerPresent, s);
      fpga.ReleaseBuffer(childWsid);
      mem := mem[node := RemoveTranslatedAddr(mem[node], idx)];
      view := view.(pages := view.pages - {s});
      holder := holder - {childWsid};
      assert CacheOk() by { KeepsNodes(old(view)); }
    }

    lemma KeepsNodes(v: View)
      requires view.nodes == v.nodes
      requires 0 <= prevDepth <= 2
      requires prevFindTermNode != NULL ==>
                 OnPath(v, prevFindTermNode, prevVa, prevDepth) && prevIdx == PtIdxFromAddr(prevVa, prevDepth)
      ensures CacheOk()
    {}

    /** Take one reference from the page in slot `s`, which is entry `idx` of `node`. */
    method DropReference(node: int, idx: int, ghost s: Place)
      requires Valid()
      requires s in view.pages && node == view.nodes[Parent(s)].addr && idx == Idx(s)
      requires view.pages[s].refcnt > 1
      modifies this`mem, this`view
      ensures Valid()
      ensures view == old(view).(pages := old(view).pages[s := Unbump(old(view).pages[s])])
    {
      hide Represents, PinsOk, RootWalk, PageAt, OnPath, PtIdxFromAddr, PlaceOf;
      RootOnPath(mem, view, owner, 0);
      UnbumpSlot(mem, view, owner, s);
      KeepPagePin(view, holder, fpga.pinned, fpga.tables, hwPtWalkerPresent, s, Unbump(view.pages[s]));
      mem := mem[node := DecrRefCnt(mem[node], idx)];
      view := view.(pages := view.pages[s := Unbump(view.pages[s])]);
      assert CacheOk() by { KeepsNodes(old(view)); }
    }

    /** Between two moments the FPGA was told to forget every page that left the table and,
        when it walks the table itself, every node. */
    ghost predicate AllShotDown(v: View, v': View, log: seq<int>, log': seq<int>) {
      isHwVtpAvailable ==>
        && ShotDown(v.pages, v'.pages, log, log')
        && (hwPtWalkerPresent ==> NodesShotDown(v.nodes, v'.nodes, log, log'))
    }

    lemma AllShotDownThen(v: View, mid: View, v': View, log: seq<int>, logMid: seq<int>, log': seq<int>)
      requires AllShotDown(v, mid, log, logMid) && AllShotDown(mid, v', logMid, log')
      requires forall s :: s in mid.nodes && s in v.nodes ==> mid.nodes[s] == v.nodes[s]
      ensures AllShotDown(v, v', log, log')
    {
      if isHwVtpAvailable {
        ShotDownThen(v.pages, mid.pages, v'.pages, log, logMid, log');
        if hwPtWalkerPresent {
          NodesShotDownThen(v.nodes, mid.nodes, v'.nodes, log, logMid, log');
        }
      }
    }

    lemma NothingShotDown(v: View, v': View, log: seq<int>)
      requires (forall s :: s in v.pages ==> s in v'.pages) && forall s :: s in v.nodes ==> s in v'.nodes
      ensures AllShotDown(v, v', log, log)
    {}

    lemma PageShotDown(v: View, v': View, log: seq<int>, va: int, s: Place)
      requires (forall t :: t in v.pages && t !in v'.pages ==> t == s) && forall t :: t in v.nodes ==> t in v'.nodes
      requires Holds(s, va)
      ensures AllShotDown(v, v', log, if isHwVtpAvailable then log + [va] else log)
    {
      OneShotDown(v.pages, v'.pages, log, va, s);
      NodesStay(v.nodes, v'.nodes, log, log + [va]);
    }

    lemma NodeShotDown(v: View, v': View, log: seq<int>, s: Place)
      requires s in v.nodes && v'.pages == v.pages && forall t :: t in v.nodes && t != s ==> t in v'.nodes
      ensures AllShotDown(v, v', log, log + if hwPtWalkerPresent && isHwVtpAvailable then [v.nodes[s].addr] else [])
    {
      OneNodeShotDown(v.nodes, v'.nodes, log, s);
    }

    /** Release entry `idx` of the node below slot `p`, which lies in the range.
        Returns whether the entry is still in use. */
    method ReleaseEntry(node: int, idx: int, min: int, max: int, va: VAddr, depth: int, ghost p: Place)
      returns (active: bool)
      requires Valid() && IsNodeAt(mem, view, node, p) && 1 <= depth == p.level <= ROOT_LEVEL
      requires 0 <= idx < FANOUT && EntryExists(mem[node], idx)
      requires va == Lo(Child(p, idx)) && Touches(Child(p, idx), min, max)
      modifies this`mem, this`view, this`owner, this`holder,
               this`prevFindTermNode, this`prevVa, this`prevDepth, this`prevIdx, fpga
      ensures Valid() && IsNodeAt(mem, view, node, p)
      ensures SlotReleased(old(view), view, min, max, p, idx)
      ensures active == Occupied(view, Child(p, idx))
      ensures LoosePins() == old(LoosePins())
      ensures AllShotDown(old(view), view, old(fpga.shootdowns), fpga.shootdowns)
      decreases depth, 0
    {
      hide Represents, PinsOk, UserPins, Lo, Hi, Touches, SlotReleased, PartlyReleased, OnPath, CacheOk,
           PtIdxFromAddr, AllShotDown;
      ghost var v, c, log := view, Child(p, idx), fpga.shootdowns;
      EntryOfNode(mem, view, owner, node, p, idx);
      if EntryIsTerminal(mem[node], idx) {
        PageReleased(view, min, max, p, idx);
        if mem[node].meta[idx].refcnt > 1 {
          DropReference(node, idx, c);
          NothingShotDown(v, view, log);
          active := true;
        } else {
          ReleasePage(node, idx, va, c);
          StartHeld(c);
          PageShotDown(v, view, log, va, c);
          active := false;
        }
        StillNode(mem, view, owner, node, p);
      } else {
        var child := mem[node].vtable[idx].addr;
        active := ReleaseRangeNode(child, min, max, va, depth - 1, c);
        KeepsUpperNodes(v, view, min, max, c, p);
        TreeOf(mem, view, owner);
        StillNode(mem, view, owner, node, p);
        if active {
          ChildReleased(v, view, min, max, p, idx);
        } else {
          ChildDropped(v, view, min, max, p, idx);
          LinkOfNode(mem, view, owner, node, p, idx);
          ghost var before, logged := view, fpga.shootdowns;
          NodesKept(v, before, min, max, c, FANOUT);
          DropEmptyNode(node, idx, c);
          StillNode(mem, view, owner, node, p);
          NodeShotDown(before, view, logged, c);
          AllShotDownThen(v, before, view, log, logged, fpga.shootdowns);
        }
      }
    }

    /** Release [min, max) in the subtree of `node`, the node below slot `p`.
        Returns whether the node is still in use. */
    method ReleaseRangeNode(node: int, min: int, max: int, partialVa: VAddr, depth: int, ghost p: Place)
      returns (active: bool)
      requires Valid() && IsNodeAt(mem, view, node, p) && 1 <= depth == p.level <= ROOT_LEVEL && partialVa == Lo(p)
      modifies this`mem, this`view, this`owner, this`holder,
               this`prevFindTermNode, this`prevVa, this`prevDepth, this`prevIdx, fpga
      ensures Valid() && IsNodeAt(mem, view, node, p)
      ensures PartlyReleased(old(view), view, min, max, p, FANOUT)
      ensures active == AnyOccupied(view, p, FANOUT)
      ensures LoosePins() == old(LoosePins())
      ensures AllShotDown(old(view), view, old(fpga.shootdowns), fpga.shootdowns)
      decreases depth, 1
    {
      hide Represents, PinsOk, UserPins, Lo, Hi, Touches, SlotReleased, PartlyReleased, OnPath, CacheOk, Occupied,
           PtIdxFromAddr, TreeOk, LoosePins, AnyOccupied, AllShotDown;
      ghost var v0, log0 := view, fpga.shootdowns;
      NothingShotDown(view, view, log0);
      active := false;
      var idx := 0;
      TreeOf(mem, view, owner);
      StartRelease(view, min, max, p);
      while idx < FANOUT
        invariant 0 <= idx <= FANOUT
        invariant Valid() && IsNodeAt(mem, view, node, p)
        invariant PartlyReleased(v0, view, min, max, p, idx)
        invariant active == AnyOccupied(view, p, idx)
        invariant LoosePins() == old(LoosePins())
        invariant AllShotDown(v0, view, log0, fpga.shootdowns)
        decreases FANOUT - idx
      {
        ghost var v, log := view, fpga.shootdowns;
        TreeOf(mem, view, owner);
        EntryOfNode(mem, view, owner, node, p, idx);
        EntryRange(p, idx, min, max);
        if EntryExists(mem[node], idx) {
          var va := partialVa + idx * Span(depth - 1);
          var vaNext := va + Span(depth - 1);
          if min < vaNext && va < max {
            var entryActive := ReleaseEntry(node, idx, min, max, va, depth, p);
            NodesKept(v0, v, min, max, p, idx);
            AllShotDownThen(v0, v, view, log0, log, fpga.shootdowns);
            if entryActive {
              active := true;
            }
          } else {
            OutsideReleased(view, min, max, p, idx);
            active := true;
            if va > max {
              RestOutside(v0, view, min, max, p, idx);
              SomeOccupied(view, p, idx);
              break;
            }
          }
        } else {
          UnusedReleased(view, min, max, p, idx);
        }
        ReleaseStep(v0, v, view, min, max, p, idx);
        idx := idx + 1;
      }
    }

    /** Release [min, max): every page that touches the range loses a reference,
        and is unpinned and unmapped with its last one. */
    method ReleaseRange(min: int, max: int)
      requires Valid()
      modifies this`mem, this`view, this`owner, this`holder,
               this`prevFindTermNode, this`prevVa, this`prevDepth, this`prevIdx, fpga
      ensures Valid()
      ensures view.pages == Released(old(view).pages, min, max)
      ensures forall s :: s in view.nodes ==> s in old(view).nodes && view.nodes[s] == old(view).nodes[s]
      ensures forall s :: s in old(view).nodes && s !in view.nodes ==> Touches(s, min, max)
      ensures forall s :: s in view.nodes && s != Root && Touches(s, min, max) ==> Subdivided(view, s)
      ensures LoosePins() == old(LoosePins())
      ensures AllShotDown(old(view), view, old(fpga.shootdowns), fpga.shootdowns)
    {
      hide Represents, PinsOk, UserPins, OnPath, CacheOk, PtIdxFromAddr, Occupied, LoosePins, ReleasedWithin,
           Touches, AllShotDown;
      NodeOfPlace(mem, view, owner, Root) by { RootOnPath(mem, view, owner, 0); }
      var _ := ReleaseRangeNode(ptRoot, min, max, 0, ROOT_LEVEL, Root);
      TreeOf(mem, view, owner);
      BelowRoot(view);
    }

    lemma StartHeld(s: Place)
      ensures Holds(s, Lo(s))
    {}

    lemma BelowRoot(v: View)
      requires TreeOk(v)
      ensures forall s :: s in v.nodes && s != Root ==> s.level < ROOT_LEVEL && Within(s, 0, VA_LIMIT)
      ensures Lo(Root) == 0 && Hi(Root) == VA_LIMIT
    {
      forall s | s in v.nodes && s != Root ensures s.level < ROOT_LEVEL && Within(s, 0, VA_LIMIT) {
        OwnPlace(s);
      }
    }

    // -------------------------------------------------------------------
    //  Teardown
    // -------------------------------------------------------------------

    /** Tear down what entry `idx` of the node below slot `p` stands for. */
    method FreeEntry(node: int, idx: int, va: VAddr, depth: int, ghost p: Place,
                     ghost m0: Memory, ghost p0: map<int, Pin>, ghost t0: map<int, int>)
      returns (ghost gone: seq<int>)
      requires Represents(m0, view, owner) && PinsOk(view, holder, p0, t0, hwPtWalkerPresent)
      requires IsNodeAt(m0, view, node, p) && node in mem && mem[node] == m0[node]
      requires 1 <= depth == p.level <= ROOT_LEVEL && 0 <= idx < FANOUT && va == Lo(Child(p, idx))
      requires EntryExists(mem[node], idx)
      requires Standing(view, owner, holder, hwPtWalkerPresent, m0, p0, mem, fpga.pinned,
                        Lo(Child(p, idx)), Hi(Child(p, idx)), p.level - 1)
      modifies this`mem, this`prevFindTermNode, fpga`pinned, fpga`tables
      ensures mem == MemWithout(old(mem), owner, Lo(Child(p, idx)), Hi(Child(p, idx)), p.level - 1)
      ensures fpga.pinned == PinsWithout(view, owner, holder, hwPtWalkerPresent, old(fpga.pinned),
                                         Lo(Child(p, idx)), Hi(Child(p, idx)), p.level - 1)
      ensures Unmaps(view, gone, Lo(Child(p, idx)), Hi(Child(p, idx)))
      decreases depth, 0
    {
      hide Represents, PinsOk, TreeOk, Standing, MemWithout, PinsWithout, Unmaps, Lo, Hi, Span;
      ghost var c := Child(p, idx);
      EntryOfNode(m0, view, owner, node, p, idx);
      var childWsid := mem[node].meta[idx].wsid;
      gone := [];
      if EntryIsTerminal(mem[node], idx) {
        TearPage(view, owner, holder, hwPtWalkerPresent, m0, p0, t0, mem, fpga.pinned, p, idx);
        PageSlotOf(m0, view, owner, c);
        if Alloc in mem[node].vtable[idx].flags {
          // The MPF-allocated user memory that starts at va is unmapped here.
          gone := [va];
        }
        fpga.ReleaseBuffer(childWsid);
      } else {
        LinkOfNode(m0, view, owner, node, p, idx);
        gone := FreeTableAndPinnedPages(mem[node].vtable[idx].addr, childWsid, va, depth - 1, c, m0, p0, t0);
      }
    }

    /** Unpin every page and free every node at and below `node`, the node below
        slot `p`.  `gone` lists the starts of the MPF-allocated pages given back.
        The ghost parameters are the memory and pins when the teardown began. */
    method FreeTableAndPinnedPages(node: int, nodeWsid: int, partialVa: VAddr, depth: int, ghost p: Place,
                                   ghost m0: Memory, ghost p0: map<int, Pin>, ghost t0: map<int, int>)
      returns (ghost gone: seq<int>)
      requires Represents(m0, view, owner) && PinsOk(view, holder, p0, t0, hwPtWalkerPresent)
      requires IsNodeAt(m0, view, node, p) && nodeWsid == view.nodes[p].wsid
      requires 1 <= depth == p.level <= ROOT_LEVEL && partialVa == Lo(p)
      requires Standing(view, owner, holder, hwPtWalkerPresent, m0, p0, mem, fpga.pinned, Lo(p), Hi(p), p.level)
      modifies this`mem, this`prevFindTermNode, fpga`pinned, fpga`tables
      ensures mem == MemWithout(old(mem), owner, Lo(p), Hi(p), p.level)
      ensures fpga.pinned ==
              PinsWithout(view, owner, holder, hwPtWalkerPresent, old(fpga.pinned), Lo(p), Hi(p), p.level)
      ensures Unmaps(view, gone, Lo(p), Hi(p))
      decreases depth, 1
    {
      hide Represents, PinsOk, TreeOk, Standing, MemWithout, PinsWithout, Unmaps, Lo, Hi, Span, Occupied, Front;
      ghost var m1, q1, hw := mem, fpga.pinned, hwPtWalkerPresent;
      gone := [];
      NothingGoneYet(view, owner, holder, hw, mem, fpga.pinned, p);
      NodeStands(view, owner, holder, hw, m0, p0, mem, fpga.pinned, p);
      TreeOf(m0, view, owner);
      var idx := 0;
      while idx < FANOUT
        invariant 0 <= idx <= FANOUT
        invariant mem == MemWithout(m1, owner, Lo(p), Front(p, idx), p.level - 1)
        invariant fpga.pinned == PinsWithout(view, owner, holder, hw, q1, Lo(p), Front(p, idx), p.level - 1)
        invariant Unmaps(view, gone, Lo(p), Front(p, idx))
        invariant node in mem && mem[node] == m0[node]
        decreases FANOUT - idx
      {
        FrontStep(view, p, idx);
        StandingAt(view, owner, holder, hw, m0, p0, m1, q1, p, idx);
        NodeSurvives(view, owner, m0, mem, node, p, Front(p, idx), Front(p, idx + 1));
        ghost var here: seq<int> := [];
        if EntryExists(mem[node], idx) {
          here := FreeEntry(node, idx, partialVa + idx * Span(depth - 1), depth, p, m0, p0, t0);
        } else {
          EntryOfNode(m0, view, owner, node, p, idx);
          TearUnused(view, owner, holder, hw, m0, p0, t0, mem, fpga.pinned, p, idx);
        }
        UnmapsCompose(view, gone, here, Lo(p), Front(p, idx), Front(p, idx + 1));
        MemCompose(m1, owner, Lo(p), Front(p, idx), Front(p, idx + 1), p.level - 1);
        PinsCompose(view, owner, holder, hw, q1, Lo(p), Front(p, idx), Front(p, idx + 1), p.level - 1);
        gone := gone + here;
        idx := idx + 1;
      }
      FinishTeardown(view, owner, holder, hw, m0, p0, t0, m1, q1, p);
      UnpinAndUnmapNode(node, nodeWsid);
    }

    /** Destroy the table.  Every node is freed and every recorded pin is released,
        each of them once, and no other pin is touched. */
    method Term() returns (ghost gone: seq<int>)
      requires Valid()
      modifies this`mem, this`ptRoot, this`prevFindTermNode, fpga`pinned, fpga`tables
      ensures mem == map[] && ptRoot == NULL && prevFindTermNode == NULL
      ensures UserPins(fpga.pinned) == old(LoosePins())
      ensures hwPtWalkerPresent ==> forall s :: s in view.nodes ==> view.nodes[s].wsid !in fpga.pinned
      ensures forall w :: w in fpga.pinned ==> w in old(fpga.pinned) && fpga.pinned[w] == old(fpga.pinned)[w]
      ensures Unmaps(view, gone, 0, VA_LIMIT)
    {
      hide Represents, PinsOk, Standing, MemWithout, PinsWithout, Unmaps, UserPins, OnPath, CacheOk;
      ghost var p0, t0 := fpga.pinned, fpga.tables;
      AllStanding(mem, view, owner, holder, hwPtWalkerPresent, p0);
      RootOnPath(mem, view, owner, 0);
      NodeOfPlace(mem, view, owner, Root);
      gone := FreeTableAndPinnedPages(ptRoot, ptRootWsid, 0, ROOT_LEVEL, Root, mem, p0, t0);
      AllGone(old(mem), view, owner, holder, p0, t0, hwPtWalkerPresent);
      InvalFindNodeCache();
      ptRoot := NULL;
    }
  }
}
