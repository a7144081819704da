/** Table nodes in memory, and how they represent a view. */
module TableMemory {
  import opened Addresses
  import opened Words
  import opened TableView
  import opened FpgaTlb

  datatype Meta = Meta(wsid: int, refcnt: int)

  datatype NodeVectors = NodeVectors(ptable: seq<Word>, vtable: seq<Word>, meta: seq<Meta>)

  /** One table node: the vector the device walks, the parallel vector that
      software walks, and the software-only metadata, of 512 entries each. */
  type Node = n: NodeVectors | |n.ptable| == FANOUT && |n.vtable| == FANOUT && |n.meta| == FANOUT
    witness NodeVectors(seq(FANOUT, i => EMPTY), seq(FANOUT, i => EMPTY), seq(FANOUT, i => Meta(-1, -1)))

  /** A node just after it was filled with ones. */
  const EmptyNode: Node :=
    NodeVectors(seq(FANOUT, i => EMPTY), seq(FANOUT, i => EMPTY), seq(FANOUT, i => Meta(-1, -1)))

  /** Allocated nodes by host address. */
  type Memory = map<int, Node>

  predicate EntryExists(n: Node, idx: int)
    requires 0 <= idx < FANOUT
  {
    n.vtable[idx] != EMPTY
  }

  predicate EntryIsTerminal(n: Node, idx: int)
    requires 0 <= idx < FANOUT
  {
    Terminal in n.vtable[idx].flags
  }

  ghost predicate IsEmptySlot(n: Node, idx: int)
    requires 0 <= idx < FANOUT
  {
    n.vtable[idx] == EMPTY && n.ptable[idx] == EMPTY
  }

  /** Slot `idx` holds page `p`; only the software copy may carry InUse differently. */
  ghost predicate IsPageSlot(n: Node, idx: int, p: Page)
    requires 0 <= idx < FANOUT
  {
    && n.vtable[idx].addr == p.pa && n.vtable[idx].flags - {InUse} == p.flags
    && n.ptable[idx].addr == p.pa && n.ptable[idx].flags - {InUse} == p.flags
    && n.meta[idx] == Meta(p.wsid, p.refcnt)
  }

  /** Slot `idx` points to the child node `c`. */
  ghost predicate IsChildSlot(n: Node, idx: int, c: NodeRef)
    requires 0 <= idx < FANOUT
  {
    && n.vtable[idx] == Word(c.addr, {})
    && n.ptable[idx] == Word(c.pa, {})
    && n.meta[idx] == Meta(c.wsid, 1)
  }

  ghost predicate SlotOk(n: Node, idx: int, s: Place, v: View)
    requires 0 <= idx < FANOUT
  {
    if s in v.pages then IsPageSlot(n, idx, v.pages[s])
    else if s in v.nodes then IsChildSlot(n, idx, v.nodes[s])
    else IsEmptySlot(n, idx)
  }

  ghost predicate NodeOk(n: Node, p: Place, v: View) {
    forall i :: 0 <= i < FANOUT ==> SlotOk(n, i, Child(p, i), v)
  }

  /** Host addresses of nodes are aligned user pointers. */
  predicate NodeAddrOk(a: int) {
    PageAligned(a) && 0 < a < VA_LIMIT
  }

  /** Each live node belongs to exactly one place of the tree. */
  ghost predicate Linked(mem: Memory, v: View, owner: map<int, Place>) {
    && (forall s :: s in v.nodes ==> v.nodes[s].addr in owner && owner[v.nodes[s].addr] == s)
    && (forall a :: a in owner <==> a in mem)
    && (forall a :: a in mem ==> owner[a] in v.nodes && v.nodes[owner[a]].addr == a)
  }

  /** The representation invariant. */
  ghost predicate Represents(mem: Memory, v: View, owner: map<int, Place>) {
    && TreeOk(v)
    && Linked(mem, v, owner)
    && (forall a :: a in mem ==> NodeAddrOk(a))
    && (forall a :: a in mem ==> NodeOk(mem[a], owner[a], v))
  }

  /** The device reaches nodes by the address it was given for them. */
  ghost predicate DeviceMapped(v: View, io: map<int, int>) {
    forall s :: s in v.nodes ==>
      PageAligned(v.nodes[s].pa) && v.nodes[s].pa in io && io[v.nodes[s].pa] == v.nodes[s].addr
  }

  // ---------------------------------------------------------------------
  //  Walks
  // ---------------------------------------------------------------------

  /** Result of a software search: the node and slot of the terminal entry, or
      the depth at which the search stopped. */
  datatype WalkResult = Found(node: int, idx: int, depth: int) | Stopped(depth: int)

  /** The uncached software walk of the vtable vectors, from `node` at depth `level`. */
  function SwWalk(mem: Memory, node: int, va: VAddr, level: int): WalkResult
    requires 0 <= level < ROOT_LEVEL
    decreases level
  {
    if node !in mem then Stopped(level)
    else
      var idx := PtIdxFromAddr(va, level);
      var n := mem[node];
      if !EntryExists(n, idx) then Stopped(level)
      else if EntryIsTerminal(n, idx) then Found(node, idx, level)
      else if level == 0 then Stopped(0)
      else SwWalk(mem, n.vtable[idx].addr, va, level - 1)
  }

  /** The uncached software search from the root of the table. */
  function RootWalk(mem: Memory, root: int, va: VAddr): WalkResult {
    SwWalk(mem, root, va, ROOT_LEVEL - 1)
  }

  /** What the device's page table walker does: it answers, or it reads an address that
      holds no table node. */
  datatype HwResult = HwAnswer(response: Response) | HwFault

  /** The device's walk: ptable words only, following device addresses.  The walker
      counts its depth from 0 at the root and derives the size bit of its answer from
      the lowest bit of that depth. */
  function HwWalk(mem: Memory, io: map<int, int>, pa: int, va: VAddr, level: int): HwResult
    requires 0 <= level < ROOT_LEVEL
    decreases level
  {
    if pa !in io then HwFault
    else
      var node: int := io[pa];
      if node !in mem then HwFault else
      var n := mem[node];
      var w := n.ptable[PtIdxFromAddr(va, level)];
      var walkDepth := ROOT_LEVEL - 1 - level;
      if Invalid in w.flags then HwAnswer(NotPresent)
      else if Terminal in w.flags then HwAnswer(Present(w.addr / 0x1000, walkDepth % 2 == 0))
      else if level == 0 then HwAnswer(NotPresent)
      else HwWalk(mem, io, w.addr, va, level - 1)
  }

  /** The answer for a page: 1GB pages look like 4KB pages. */
  function AnswerFor(v: View, p: Option<Place>): Response
    requires p.Some? ==> p.value in v.pages
  {
    match p
    case None => NotPresent
    case Some(s) => Present(v.pages[s].pa / 0x1000, s.level == 1)
  }

  lemma SlotAt(mem: Memory, v: View, owner: map<int, Place>, va: VAddr, level: int)
    requires Represents(mem, v, owner)
    requires 0 <= level < ROOT_LEVEL && PlaceOf(va, level + 1) in v.nodes
    ensures var a := v.nodes[PlaceOf(va, level + 1)].addr;
            a in mem &&
            SlotOk(mem[a], PtIdxFromAddr(va, level), PlaceOf(va, level), v)
  {
    PlaceOfParent(va, level);
    ParentChild(PlaceOf(va, level));
    var a := v.nodes[PlaceOf(va, level + 1)].addr;
    assert NodeOk(mem[a], owner[a], v);
  }

  /** The software walk of memory computes the abstract lookup. */
  lemma {:induction false} SwWalkIsDescend(mem: Memory, v: View, owner: map<int, Place>, va: VAddr, level: int)
    requires Represents(mem, v, owner)
    requires 0 <= level < ROOT_LEVEL && PlaceOf(va, level + 1) in v.nodes
    ensures SwWalk(mem, v.nodes[PlaceOf(va, level + 1)].addr, va, level) ==
            match Descend(v, va, level)
            case Hit(s) => Found(v.nodes[Parent(s)].addr, Idx(s), s.level)
            case Miss(l) => Stopped(l)
  {
    SlotAt(mem, v, owner, va, level);
    PlaceOfParent(va, level);
    var s := PlaceOf(va, level);
    if s in v.nodes && level > 0 {
      SwWalkIsDescend(mem, v, owner, va, level - 1);
    }
  }

  lemma {:induction false} HwWalkIsDescend(
    mem: Memory, v: View, owner: map<int, Place>, io: map<int, int>, va: VAddr, level: int)
    requires Represents(mem, v, owner) && DeviceMapped(v, io)
    requires 0 <= level < ROOT_LEVEL && PlaceOf(va, level + 1) in v.nodes
    ensures HwWalk(mem, io, v.nodes[PlaceOf(va, level + 1)].pa, va, level) ==
            match Descend(v, va, level)
            case Hit(s) => HwAnswer(AnswerFor(v, Some(s)))
            case Miss(l) => HwAnswer(NotPresent)
  {
    SlotAt(mem, v, owner, va, level);
    var s := PlaceOf(va, level);
    if s in v.nodes && level > 0 {
      HwWalkIsDescend(mem, v, owner, io, va, level - 1);
    }
  }

  /** The device, walking ptable words by device address, and software, walking vtable
      words by host pointer, hit and miss alike, on words that differ at most in InUse,
      and the device's answer has the page number of that word and marks exactly the
      2MB pages as big. */
  lemma HardwareAgreesWithSoftware(
    mem: Memory, v: View, owner: map<int, Place>, io: map<int, int>, va: VAddr)
    requires Represents(mem, v, owner) && DeviceMapped(v, io)
    ensures var hw := HwWalk(mem, io, v.nodes[Root].pa, va, 3);
            match RootWalk(mem, v.nodes[Root].addr, va)
            case Found(a, i, d) =>
              && a in mem && 0 <= i < FANOUT
              && hw == HwAnswer(Present(mem[a].vtable[i].addr / 0x1000, d == 1))
              && mem[a].vtable[i].addr == mem[a].ptable[i].addr
              && mem[a].vtable[i].flags - {InUse} == mem[a].ptable[i].flags - {InUse}
            case Stopped(_) => hw == HwAnswer(NotPresent)
  {
    PlaceOfParent(va, 3);
    SwWalkIsDescend(mem, v, owner, va, 3);
    HwWalkIsDescend(mem, v, owner, io, va, 3);
    DescendIsLookup(v, va, 3);
    var r := PageAt(v, va);
    if r.Some? {
      HoldsIffPlaceOf(r.value, va);
      PlaceOfParent(va, r.value.level);
      SlotAt(mem, v, owner, va, r.value.level);
    }
  }

  /** Where the FPGA takes a mapped byte by the answer for its page. */
  lemma AnswerRightIff(v: View, va: VAddr)
    requires TreeOk(v) && PageAt(v, va).Some?
    ensures var s := PageAt(v, va).value;
            FpgaAddress(AnswerFor(v, Some(s)), va) == v.pages[s].pa + (va - Lo(s)) <==>
            s.level <= 1 || va % 0x4000_0000 < 0x1000
  {
    var s := PageAt(v, va).value;
    assert PageOk(v.pages[s], s.level);
    HoldsIffPlaceOf(s, va);
    PageStart(va, s.level);
    hide TreeOk, PageAt, Lo, FpgaAddress, Holds, PageNum;
    RightIff(v.pages[s].pa, s.level, va);
  }

  /** `node` is the live node that a walk for `va` visits at depth `level`. */
  ghost predicate OnPath(v: View, node: int, va: VAddr, level: int) {
    && 0 <= level < ROOT_LEVEL
    && PlaceOf(va, level + 1) in v.nodes
    && v.nodes[PlaceOf(va, level + 1)].addr == node
  }

  lemma RootOnPath(mem: Memory, v: View, owner: map<int, Place>, va: VAddr)
    requires Represents(mem, v, owner)
    ensures Root in v.nodes && OnPath(v, v.nodes[Root].addr, va, 3)
  {
    PlaceOfParent(va, 3);
  }

  /** Addresses that agree above the page offset of a level share the nodes down to it. */
  lemma OnPathShared(v: View, node: int, va: VAddr, vb: VAddr, level: int)
    requires OnPath(v, node, va, level)
    requires PlaceOf(va, level) == PlaceOf(vb, level)
    ensures OnPath(v, node, vb, level)
  {
    PlaceOfParent(va, level);
    PlaceOfParent(vb, level);
  }

  /** A walk may start at any node on the path of `va`. */
  lemma SwWalkFromPath(mem: Memory, v: View, owner: map<int, Place>, node: int, va: VAddr, level: int)
    requires Represents(mem, v, owner) && OnPath(v, node, va, level)
    ensures SwWalk(mem, node, va, level) == RootWalk(mem, v.nodes[Root].addr, va)
  {
    PlaceOfParent(va, 3);
    SwWalkIsDescend(mem, v, owner, va, level);
    SwWalkIsDescend(mem, v, owner, va, 3);
    DescendIsLookup(v, va, level);
    DescendIsLookup(v, va, 3);
  }

  /** What software reads at one step of a walk. */
  lemma SwWalkStep(mem: Memory, v: View, owner: map<int, Place>, node: int, va: VAddr, level: int)
    requires Represents(mem, v, owner) && OnPath(v, node, va, level)
    ensures node in mem && node != NULL
    ensures var i, s := PtIdxFromAddr(va, level), PlaceOf(va, level);
            && EntryExists(mem[node], i) == Occupied(v, s)
            && (EntryExists(mem[node], i) ==> EntryIsTerminal(mem[node], i) == (s in v.pages))
            && (s in v.pages ==> level <= 2 && s !in v.nodes)
            && (s in v.nodes ==> level >= 1 && OnPath(v, mem[node].vtable[i].addr, va, level - 1))
  {
    SlotAt(mem, v, owner, va, level);
  }

  /** The software walk from the root finds exactly the mapped pages. */
  lemma SwWalkIsLookup(mem: Memory, v: View, owner: map<int, Place>, va: VAddr)
    requires Represents(mem, v, owner)
    ensures RootWalk(mem, v.nodes[Root].addr, va) ==
            match Lookup(v, va)
            case Hit(s) => Found(v.nodes[Parent(s)].addr, Idx(s), s.level)
            case Miss(l) => Stopped(l)
  {
    PlaceOfParent(va, 3);
    SwWalkIsDescend(mem, v, owner, va, 3);
    DescendIsLookup(v, va, 3);
  }
}
