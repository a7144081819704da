/** The legacy page table: a forward table of physical links that software can only
    walk through a reverse table, with a free list threaded through dead pages. */
module AalTables {
  import opened Addresses
  import opened AalTrees
  import opened AalStates

  class AalPageTable {
    var mem: Memory
    var ptVtoP: int
    var ptPtoV: int
    var pageTablePA: int
    /** First page of the free list, or 0. */
    var pageTableFreeList: int
    /** Numbers of the physical pages that the system has handed out for the table. */
    var sharedPages: set<int>
    /** Addresses that the FPGA was told to forget, oldest first. */
    var invals: seq<int>
    /** Requests that the driver, the device or the operating system has turned down. */
    ghost var faults: nat

    ghost var fwd: Tree
    ghost var rev: Tree
    ghost var owner: map<int, Owner>
    ghost var free: seq<Ref>

    ghost predicate Valid()
      reads this
    {
      && TableOk(mem, owner, fwd, rev, free, pageTableFreeList, sharedPages)
      && fwd.nodes[Root] == ptVtoP && rev.nodes[Root] == ptPtoV
    }

    /** The roots: one page shared with the FPGA, and one private node. */
    constructor (rootVa: int, rootPa: VAddr, reverseRoot: int)
      requires rootVa != 0 && reverseRoot != 0 && rootVa != reverseRoot
      ensures Valid() && Pages(fwd) == map[] && free == [] && pageTablePA == rootPa && invals == []
    {
      mem := map[rootVa := EmptyNode, reverseRoot := EmptyNode];
      ptVtoP, ptPtoV, pageTablePA, pageTableFreeList := rootVa, reverseRoot, rootPa, 0;
      sharedPages := {rootPa / 0x1000};
      fwd, rev := Tree(map[Root := rootVa], map[]), Tree(map[Root := reverseRoot], map[]);
      owner := map[rootVa := Of(Forward, Root), reverseRoot := Of(Reverse, Root)];
      free, invals := [], [];
      faults := 0;
      new;
      assert NodeStored(mem, owner, Forward, fwd, Root) && NodeStored(mem, owner, Reverse, rev, Root);
    }

    // -------------------------------------------------------------------
    //  Memory from outside
    // -------------------------------------------------------------------

    /** Memory shared with the FPGA, or 0.  Its contents are arbitrary. */
    method AllocSharedPage() returns (va: int, pa: int)
      requires Valid()
      modifies this`mem, this`sharedPages, this`faults
      ensures Valid()
      ensures faults == if va != 0 then old(faults) else old(faults) + 1
      ensures va == 0 ==> mem == old(mem) && sharedPages == old(sharedPages)
      ensures va != 0 ==>
                && va !in old(mem) && va in mem && mem == old(mem)[va := mem[va]] && |mem[va]| == FANOUT
                && 0 <= pa < VA_LIMIT && pa % 0x1000 == 0
                && sharedPages == old(sharedPages) + {pa / 0x1000} && PlaceOf(pa, 0) !in rev.links
    {
      Shapes();
      hide FwdOk, RevOk, Stored, FreeOk, PlaceOf;
      va := *;
      pa := *;
      var contents: Node := *;
      if va != 0 && va !in mem && va % 0x1000 == 0 && |contents| == FANOUT
         && 0 <= pa < VA_LIMIT && pa % 0x1000 == 0 && pa / 0x1000 !in sharedPages {
        UnknownPage(rev, sharedPages, pa);
        Unowned(mem, owner, fwd, rev, free, pageTableFreeList, sharedPages, va, contents);
        mem := mem[va := contents];
        sharedPages := sharedPages + {pa / 0x1000};
      } else {
        va := 0;
        faults := faults + 1;
      }
    }

    // -------------------------------------------------------------------
    //  Walks
    // -------------------------------------------------------------------

    /** The virtual address of the table page at `pa`. */
    method TranslatePAtoVA(pa: VAddr) returns (ok: bool, va: int)
      requires Valid()
      ensures ok <==> PlaceOf(pa, 0) in rev.links
      ensures ok ==> va == rev.links[PlaceOf(pa, 0)].addr
    {
      hide PageNum, FwdOk, FreeOk, WfPlace, PlaceOf, PtIdxFromAddr;
      var table := ptPtoV;
      var depth := 4;
      Below(pa, 3);
      va := 0;
      while depth > 0
        invariant 0 <= depth <= 4
        invariant PlaceOf(pa, depth) in rev.nodes && rev.nodes[PlaceOf(pa, depth)] == table
        decreases depth
      {
        depth := depth - 1;
        var idx := PtIdxFromAddr(pa, depth);
        ghost var c := PlaceOf(pa, depth);
        Below(pa, depth);
        assert NodeStored(mem, owner, Reverse, rev, PlaceOf(pa, depth + 1));
        var e := mem[table][idx];
        assert e == LinkAt(rev, c);
        if e == EMPTY {
          if PlaceOf(pa, 0) in rev.links {
            PathDown(rev, pa, depth);
          }
          return false, 0;
        }
        if Terminal in e.flags {
          assert c in Pages(rev);
          assert c.level == depth by { LevelOfPlace(pa, depth); }
          return true, e.addr;
        }
        table := e.addr;
      }
      assert false by { LevelOfPlace(pa, 0); }
    }

    // -------------------------------------------------------------------
    //  Table pages
    // -------------------------------------------------------------------

    /** A node of the reverse table, or 0. */
    method NewPrivateNode() returns (a: int)
      requires Valid()
      modifies this`mem, this`faults
      ensures Valid()
      ensures faults == if a != 0 then old(faults) else old(faults) + 1
      ensures a == 0 ==> mem == old(mem)
      ensures a != 0 ==> a !in old(mem) && a !in owner && mem == old(mem)[a := EmptyNode]
    {
      hide FwdOk, RevOk, Stored, FreeOk;
      a := *;
      if a != 0 && a !in mem && a % 8 == 0 {
        Unowned(mem, owner, fwd, rev, free, pageTableFreeList, sharedPages, a, EmptyNode);
        mem := mem[a := EmptyNode];
      } else {
        a := 0;
        faults := faults + 1;
      }
    }

    /** Record that the table page at `pa` is at `va`, so that it can be walked. */
    method AddPAtoVA(pa: VAddr, va: int) returns (ok: bool)
      requires Valid() && PlaceOf(pa, 0) !in rev.links && pa / 0x1000 in sharedPages
      requires va in mem && va !in owner
      modifies this`mem, this`rev, this`owner, this`faults
      ensures faults >= old(faults) && (ok <==> faults == old(faults))
      ensures Valid()
      ensures va in mem && mem[va] == old(mem[va]) && va !in owner
      ensures ok ==> PlaceOf(pa, 0) in rev.links && rev.links[PlaceOf(pa, 0)] == Entry(va, {Terminal})
    {
      hide TableOk, RevOk, Shape, Pages, WfPlace, PlaceOf, PtIdxFromAddr, Child, Put, WithNode, WithLink, LinkAt;
      Below(pa, 0);
      Shapes();
      var table := ptPtoV;
      var depth := 4;
      while depth > 1
        invariant 1 <= depth <= 4 && Valid()
        invariant PlaceOf(pa, depth) in rev.nodes && rev.nodes[PlaceOf(pa, depth)] == table
        invariant PlaceOf(pa, 0) !in rev.links && faults == old(faults)
        invariant va in mem && mem[va] == old(mem[va]) && va !in owner
        decreases depth
      {
        depth := depth - 1;
        ok, table := StepReverse(pa, depth, table, va);
        if !ok {
          return;
        }
      }
      var idx := PtIdxFromAddr(pa, 0);
      LevelOfPlace(pa, 0);
      LevelOfPlace(pa, 1);
      WfAbove(pa, 0);
      PageNumber(pa);
      Shapes();
      RevNode(PlaceOf(pa, 1));
      PutReverse(mem, owner, fwd, rev, free, pageTableFreeList, sharedPages, PlaceOf(pa, 1), idx, va);
      SameNodes(rev, PlaceOf(pa, 0), Entry(va, {Terminal}));
      OtherWord(mem, table, va, idx, Entry(va, {Terminal}));
      mem := Put(mem, table, idx, Entry(va, {Terminal}));
      rev := WithLink(rev, PlaceOf(pa, 0), Entry(va, {Terminal}));
      ok := true;
    }

    /** One step of the walk for AddPAtoVA, with a new node where there is none. */
    method StepReverse(pa: VAddr, depth: int, table: int, ghost va: int) returns (ok: bool, child: int)
      requires Valid() && 1 <= depth < 4 && PlaceOf(pa, 0) !in rev.links
      requires PlaceOf(pa, depth + 1) in rev.nodes && rev.nodes[PlaceOf(pa, depth + 1)] == table
      requires va in mem && va !in owner
      modifies this`mem, this`rev, this`owner, this`faults
      ensures faults >= old(faults) && (ok <==> faults == old(faults))
      ensures Valid() && PlaceOf(pa, 0) !in rev.links
      ensures va in mem && mem[va] == old(mem[va]) && va !in owner
      ensures ok ==> PlaceOf(pa, depth) in rev.nodes && rev.nodes[PlaceOf(pa, depth)] == child
    {
      hide TableOk, RevOk, Shape, Pages, WfPlace, PlaceOf, PtIdxFromAddr, Child, Put, LinkAt;
      var idx := PtIdxFromAddr(pa, depth);
      ghost var s, c := PlaceOf(pa, depth + 1), PlaceOf(pa, depth);
      Below(pa, depth);
      LevelOfPlace(pa, 0);
      LevelOfPlace(pa, depth);
      LevelOfPlace(pa, depth + 1);
      WfAbove(pa, depth);
      RevNode(s);
      Shapes();
      if mem[table][idx] == EMPTY {
        Unlinked(rev, c);
        var a := NewPrivateNode();
        if a == 0 {
          return false, 0;
        }
        HangPrivate(table, idx, a, s);
        RevNode(s);
        Shapes();
      }
      ReverseLink(rev, c, sharedPages);
      // The reverse table has no terminal entry above its leaves.
      InnerLink(rev, c, mem[table][idx]);
      LinkedHere(rev, c, mem[table][idx]);
      return true, mem[table][idx].addr;
    }

    /** Link the node `a` below slot `s` of the reverse table. */
    method HangPrivate(table: int, idx: int, a: int, ghost s: Place)
      requires Valid() && s in rev.nodes && rev.nodes[s] == table && 2 <= s.level && WfPlace(s)
      requires 0 <= idx < FANOUT && Child(s, idx) !in rev.links
      requires a in mem && mem[a] == EmptyNode && a !in owner
      modifies this`mem, this`rev, this`owner
      ensures Valid()
      ensures rev == WithNode(old(rev), Child(s, idx), a, Entry(a, {})) && Child(s, idx) !in old(rev).nodes
      ensures forall b :: b in old(mem) && b != a && b !in old(owner) ==> b in mem && mem[b] == old(mem)[b] && b !in owner
    {
      hide TableOk, Shape, Pages, Resolves, Child, Put, WfPlace, WithNode;
      var e := Entry(a, {});
      ghost var c := Child(s, idx);
      Shapes();
      NoNodeThere(rev, s, idx);
      MoreNodes(rev, c, a, e);
      GrowReverse(mem, owner, fwd, rev, free, pageTableFreeList, sharedPages, s, idx, a);
      PutElsewhere(mem, owner, table, idx, e);
      mem := Put(mem, table, idx, e);
      owner, rev := owner[a := Of(Reverse, c)], WithNode(rev, c, a, e);
    }

    /** A page for the table: the newest page of the free list, with the physical
        address that was pushed with it, or new memory.  0 ends the process. */
    method AllocTablePage() returns (va: int, pa: int)
      requires Valid()
      modifies this`mem, this`rev, this`owner, this`free, this`pageTableFreeList, this`sharedPages, this`faults
      ensures faults >= old(faults) && (va != 0 <==> faults == old(faults))
      ensures va != 0 ==>
                && Valid() && va in mem && |mem[va]| == FANOUT && va !in owner && Resolves(rev, pa, va)
                && (if old(free) != [] then Ref(va, pa) == old(free)[|old(free)| - 1] && free == old(free)[..|old(free)| - 1]
                    else free == [] && va !in old(mem))
    {
      hide FwdOk, RevOk, Stored;
      if pageTableFreeList != 0 {
        NonEmptyList(mem, owner, rev, free, pageTableFreeList);
        PopFree(mem, owner, fwd, rev, free, pageTableFreeList, sharedPages);
        va := pageTableFreeList;
        var t := mem[va];
        pageTableFreeList := t[0].addr;
        pa := t[1].addr;
        free := free[..|free| - 1];
        owner := owner - {va};
      } else {
        NonEmptyList(mem, owner, rev, free, pageTableFreeList);
        va, pa := AllocSharedPage();
        if va != 0 {
          var known := AddPAtoVA(pa, va);
          if !known {
            va := 0;
          }
        }
      }
    }

    /** Tell the FPGA to forget what it has cached for `va`. */
    method InvalVAMapping(va: int) returns (ok: bool)
      modifies this`invals, this`faults
      ensures invals == old(invals) + [va]
      ensures faults == if ok then old(faults) else old(faults) + 1
    {
      invals := invals + [va];
      ok := *;
      if !ok {
        faults := faults + 1;
      }
    }

    /** Push a dead page on the free list; a failing invalidation ends the process. */
    method FreeTablePage(va: int, pa: int) returns (alive: bool)
      requires va in mem && |mem[va]| == FANOUT
      modifies this`mem, this`pageTableFreeList, this`invals, this`faults
      ensures faults >= old(faults) && (alive <==> faults == old(faults))
      ensures invals == old(invals) + [va]
      ensures pageTableFreeList == va && mem == Push(old(mem), va, pa, old(pageTableFreeList))
    {
      mem := Put(mem, va, 0, Entry(pageTableFreeList, {}));
      mem := Put(mem, va, 1, Entry(pa, {}));
      pageTableFreeList := va;
      alive := InvalVAMapping(va);
    }

    method TableIsEmpty(table: int) returns (empty: bool)
      requires table in mem && |mem[table]| == FANOUT
      ensures empty <==> forall i :: 0 <= i < FANOUT ==> mem[table][i] == EMPTY
    {
      var idx := 0;
      while idx < FANOUT
        invariant 0 <= idx <= FANOUT
        invariant forall i :: 0 <= i < idx ==> mem[table][i] == EMPTY
      {
        if mem[table][idx] != EMPTY {
          return false;
        }
        idx := idx + 1;
      }
      empty := true;
    }

    // -------------------------------------------------------------------
    //  Mappings
    // -------------------------------------------------------------------

    /** Link the table page `va` below slot `s` of the forward table. */
    method HangPage(table: int, idx: int, va: int, pa: int, ghost s: Place)
      requires Valid() && s in fwd.nodes && fwd.nodes[s] == table && 2 <= s.level && WfPlace(s)
      requires 0 <= idx < FANOUT && Child(s, idx) !in fwd.links
      requires va in mem && va !in owner && Resolves(rev, pa, va)
      modifies this`mem, this`fwd, this`owner
      ensures Valid() && Pages(fwd) == Pages(old(fwd)) && Child(s, idx) in fwd.nodes
      ensures forall r :: r in old(fwd).nodes ==> r in fwd.nodes && fwd.nodes[r] == old(fwd).nodes[r]
    {
      hide TableOk, Shape, Pages, Resolves, Child, Put, WfPlace, WithNode;
      ghost var c := Child(s, idx);
      Shapes();
      NoNodeThere(fwd, s, idx);
      MoreNodes(fwd, c, va, Entry(pa, {}));
      Unowned(mem, owner, fwd, rev, free, pageTableFreeList, sharedPages, va, EmptyNode);
      mem := mem[va := EmptyNode];
      GrowForward(mem, owner, fwd, rev, free, pageTableFreeList, sharedPages, s, idx, va, pa);
      mem := Put(mem, table, idx, Entry(pa, {}));
      owner, fwd := owner[va := Of(Forward, c)], WithNode(fwd, c, va, Entry(pa, {}));
    }

    /** Map the page of level `level` (0 for 4KB, 1 for 2MB) at `va` to `pa`: refused
        exactly when it would overlap a page that is mapped already. */
    method AddVAtoPA(va: VAddr, pa: int, level: int, flags: set<MapFlag>) returns (alive: bool, ok: bool)
      requires Valid() && 0 <= level <= 1 && Entry(pa, flags + {Terminal}) != EMPTY
      modifies this`mem, this`fwd, this`rev, this`owner, this`free, this`pageTableFreeList, this`sharedPages,
               this`invals, this`faults
      ensures faults >= old(faults) && (alive <==> faults == old(faults))
      ensures alive ==> Valid()
      ensures alive ==> (ok <==> Free(old(fwd), PlaceOf(va, level)))
      ensures alive ==> Pages(fwd) == if ok then Pages(old(fwd))[PlaceOf(va, level) := Entry(pa, flags + {Terminal})]
                                      else Pages(old(fwd))
      ensures alive ==> Forgotten(old(fwd).nodes, fwd.nodes, old(invals), invals)
    {
      hide TableOk, Shape, Pages, Resolves, WfPlace, PlaceOf, PtIdxFromAddr, Child, Put, WithNode, WithLink, LinkAt, Free,
           Forgotten;
      Below(va, level);
      Shapes();
      var table := ptVtoP;
      var curDepth := 4;
      while curDepth > level + 1
        invariant level + 1 <= curDepth <= 4 && Valid()
        invariant PlaceOf(va, curDepth) in fwd.nodes && fwd.nodes[PlaceOf(va, curDepth)] == table
        invariant Pages(fwd) == Pages(old(fwd)) && faults == old(faults) && invals == old(invals)
        invariant forall r :: r in old(fwd).nodes ==> r in fwd.nodes && fwd.nodes[r] == old(fwd).nodes[r]
        decreases curDepth
      {
        curDepth := curDepth - 1;
        ghost var v := fwd;
        alive, ok, table := StepDown(va, level, curDepth, table);
        SameFree(v, old(fwd), PlaceOf(va, level));
        if !alive || !ok {
          if alive {
            NoneForgotten(old(fwd).nodes, fwd.nodes, invals);
          }
          return;
        }
      }
      SameFree(fwd, old(fwd), PlaceOf(va, level));
      ghost var nodes := fwd.nodes;
      alive, ok := MapLeaf(va, level, table, Entry(pa, flags + {Terminal}));
      if alive {
        ForgottenFrom(old(fwd).nodes, nodes, fwd.nodes, old(invals), invals);
      }
    }

    /** One step of the walk, with a new page where there is none; `ok` is false when a
        larger page is in the way. */
    method StepDown(va: VAddr, level: int, depth: int, table: int) returns (alive: bool, ok: bool, child: int)
      requires Valid() && 0 <= level < depth < 4
      requires PlaceOf(va, depth + 1) in fwd.nodes && fwd.nodes[PlaceOf(va, depth + 1)] == table
      modifies this`mem, this`fwd, this`rev, this`owner, this`free, this`pageTableFreeList, this`sharedPages, this`faults
      ensures faults >= old(faults) && (alive <==> faults == old(faults))
      ensures alive ==> Valid() && Pages(fwd) == Pages(old(fwd))
      ensures alive ==> forall r :: r in old(fwd).nodes ==> r in fwd.nodes && fwd.nodes[r] == old(fwd).nodes[r]
      ensures alive && ok ==> PlaceOf(va, depth) in fwd.nodes && fwd.nodes[PlaceOf(va, depth)] == child
      ensures alive && !ok ==> !Free(old(fwd), PlaceOf(va, level))
    {
      hide TableOk, Shape, Pages, Resolves, WfPlace, PlaceOf, PtIdxFromAddr, Child, Put, WithNode, WithLink, Free;
      var idx := PtIdxFromAddr(va, depth);
      ghost var c := PlaceOf(va, depth);
      Below(va, depth);
      Shapes();
      FwdNode(PlaceOf(va, depth + 1));
      alive := true;
      if mem[table][idx] == EMPTY {
        alive := AddTablePage(va, depth, table);
        if !alive {
          return false, false, 0;
        }
      }
      Shapes();
      FwdNode(PlaceOf(va, depth + 1));
      var e := mem[table][idx];
      LinkedSlot(fwd, c);
      if Terminal in e.flags {
        CoveredAbove(fwd, va, level, depth);
        SameFree(fwd, old(fwd), PlaceOf(va, level));
        return true, false, 0;
      }
      FwdNode(c);
      ok, child := Child0(e.addr, c);
    }

    /** A new, empty page of the table for the slot of `va` at `depth`, which is not in use. */
    method AddTablePage(va: VAddr, depth: int, table: int) returns (alive: bool)
      requires Valid() && 0 < depth < 4
      requires PlaceOf(va, depth + 1) in fwd.nodes && fwd.nodes[PlaceOf(va, depth + 1)] == table
      requires LinkAt(fwd, PlaceOf(va, depth)) == EMPTY
      modifies this`mem, this`fwd, this`rev, this`owner, this`free, this`pageTableFreeList, this`sharedPages, this`faults
      ensures faults >= old(faults) && (alive <==> faults == old(faults))
      ensures alive ==> Valid() && Pages(fwd) == Pages(old(fwd))
      ensures alive ==> forall r :: r in old(fwd).nodes ==> r in fwd.nodes && fwd.nodes[r] == old(fwd).nodes[r]
      ensures alive ==> PlaceOf(va, depth) in fwd.nodes && LinkAt(fwd, PlaceOf(va, depth)) != EMPTY
    {
      hide TableOk, Shape, Pages, Resolves, WfPlace, PlaceOf, PtIdxFromAddr, Child, Put, WithNode, WithLink;
      ghost var c := PlaceOf(va, depth);
      Below(va, depth);
      WfAbove(va, depth);
      LevelOfPlace(va, depth);
      LevelOfPlace(va, depth + 1);
      Shapes();
      Unlinked(fwd, c);
      var pageVa, pagePa := AllocTablePage();
      if pageVa == 0 {
        return false;
      }
      HangPage(table, PtIdxFromAddr(va, depth), pageVa, pagePa, PlaceOf(va, depth + 1));
      Shapes();
      LinkedNode(fwd, c);
      alive := true;
    }

    /** The page that a link of the forward table leads to. */
    method Child0(pa: int, ghost c: Place) returns (ok: bool, va: int)
      requires Valid() && c in fwd.nodes && c in fwd.links && pa == fwd.links[c].addr && c != Root
      ensures ok && va == fwd.nodes[c]
    {
      FwdNode(c);
      ok, va := TranslatePAtoVA(pa);
    }

    /** The end of the walk: a page is mapped where nothing is, or in place of a page of
        the table that holds nothing any more, which goes to the free list. */
    method MapLeaf(va: VAddr, level: int, table: int, entry: Entry) returns (alive: bool, ok: bool)
      requires Valid() && 0 <= level <= 1 && Terminal in entry.flags && entry != EMPTY
      requires PlaceOf(va, level + 1) in fwd.nodes && fwd.nodes[PlaceOf(va, level + 1)] == table
      modifies this`mem, this`fwd, this`owner, this`free, this`pageTableFreeList, this`invals, this`faults
      ensures faults >= old(faults) && (alive <==> faults == old(faults))
      ensures alive ==> Valid()
      ensures alive ==> (ok <==> Free(old(fwd), PlaceOf(va, level)))
      ensures alive ==> Pages(fwd) == if ok then Pages(old(fwd))[PlaceOf(va, level) := entry] else Pages(old(fwd))
      ensures alive ==> Forgotten(old(fwd).nodes, fwd.nodes, old(invals), invals)
    {
      hide TableOk, Shape, Pages, Resolves, WfPlace, PlaceOf, PtIdxFromAddr, Child, Put, Push, WithLink, WithoutNode, Free,
           Forgotten;
      NoneForgotten(fwd.nodes, fwd.nodes, invals);
      var idx := PtIdxFromAddr(va, level);
      ghost var s, c := PlaceOf(va, level + 1), PlaceOf(va, level);
      Below(va, level);
      WfAbove(va, level);
      LevelOfPlace(va, level);
      LevelOfPlace(va, level + 1);
      Shapes();
      FwdNode(s);
      FreeIff(fwd, va, level);
      LeafNode(fwd, c);
      var e := mem[table][idx];
      if e != EMPTY {
        LinkedSlot(fwd, c);
        if level == 1 && Terminal !in e.flags {
          alive, ok := RetireLeaf(table, idx, entry, s);
          return;
        }
        return true, false;
      }
      Unlinked(fwd, c);
      PutForward(mem, owner, fwd, rev, free, pageTableFreeList, sharedPages, s, idx, entry);
      SameNodes(fwd, c, entry);
      mem := Put(mem, table, idx, entry);
      fwd := WithLink(fwd, c, entry);
      return true, true;
    }

    /** Translate `va` to the address of its page: succeeds exactly when a page maps it. */
    method TranslateVAtoPA(va: VAddr) returns (ok: bool, pa: int, flags: set<MapFlag>, ghost s: Place)
      requires Valid()
      ensures ok <==> exists t :: Maps(fwd, t, va)
      ensures ok ==> Maps(fwd, s, va) && Pages(fwd)[s] == Entry(pa, flags)
    {
      hide TableOk, Shape, Pages, Resolves, WfPlace, PlaceOf, PtIdxFromAddr, Child, LinkAt, Holds;
      Shapes();
      Below(va, 3);
      var table := ptVtoP;
      var depth := 4;
      while depth > 0
        invariant 0 <= depth <= 4
        invariant PlaceOf(va, depth) in fwd.nodes && fwd.nodes[PlaceOf(va, depth)] == table
        decreases depth
      {
        depth := depth - 1;
        var idx := PtIdxFromAddr(va, depth);
        s := PlaceOf(va, depth);
        Below(va, depth);
        LevelOfPlace(va, depth);
        FwdNode(PlaceOf(va, depth + 1));
        var e := mem[table][idx];
        if e == EMPTY {
          Missing(fwd, va, depth);
          return false, 0, {}, s;
        }
        LinkedSlot(fwd, s);
        if Terminal in e.flags {
          WalkStops(fwd, va, depth);
          PageHere(fwd, s);
          return true, e.addr, e.flags, s;
        }
        var childOk;
        childOk, table := Child0(e.addr, s);
      }
      LevelOfPlace(va, 0);
      LeafNode(fwd, PlaceOf(va, 0));
      assert false;
    }

    /** Remove the page that maps `va`, if there is one, and report where it led, how
        large it was, and the physical address of its entry. */
    method RemovePageMapping(va: VAddr) returns (ok: bool, pa: int, ptPa: int, is2MB: bool, flags: set<MapFlag>,
                             ghost s: Place)
      requires Valid()
      modifies this`mem, this`fwd
      ensures Valid()
      ensures ok <==> exists t :: Maps(old(fwd), t, va)
      ensures !ok ==> fwd == old(fwd)
      ensures ok ==>
                && Maps(old(fwd), s, va) && Pages(old(fwd))[s] == Entry(pa, flags)
                && Pages(fwd) == Pages(old(fwd)) - {s}
                && (is2MB <==> s.level == 1)
                && Parent(s) in old(fwd).links && ptPa == old(fwd).links[Parent(s)].addr + 8 * Idx(s)
    {
      hide TableOk, Shape, Pages, Resolves, WfPlace, PlaceOf, PtIdxFromAddr, Child, LinkAt, Holds, Put, WithLink,
           Parent, Idx;
      Shapes();
      Below(va, 3);
      var table := ptVtoP;
      var ptDepthPa := 0;
      pa, ptPa, is2MB, flags := 0, 0, false, {};
      var depth := 4;
      while depth > 0
        invariant 0 <= depth <= 4
        invariant Valid() && mem == old(mem) && fwd == old(fwd)
        invariant PlaceOf(va, depth) in fwd.nodes && fwd.nodes[PlaceOf(va, depth)] == table
        invariant depth < 4 ==> PlaceOf(va, depth) in fwd.links && ptDepthPa == fwd.links[PlaceOf(va, depth)].addr
        decreases depth
      {
        depth := depth - 1;
        var idx := PtIdxFromAddr(va, depth);
        s := PlaceOf(va, depth);
        Below(va, depth);
        LevelOfPlace(va, depth);
        FwdNode(PlaceOf(va, depth + 1));
        var e := mem[table][idx];
        if e == EMPTY {
          Missing(fwd, va, depth);
          ok := false;
          return;
        }
        LinkedSlot(fwd, s);
        if Terminal in e.flags {
          WalkStops(fwd, va, depth);
          PageHere(fwd, s);
          PlaceOfParent(va, depth);
          pa, flags, is2MB, ptPa := e.addr, e.flags, depth == 1, ptDepthPa + 8 * idx;
          ClearEntry(table, idx, PlaceOf(va, depth + 1));
          ok := true;
          return;
        }
        var childOk;
        childOk, table := Child0(e.addr, s);
        ptDepthPa := e.addr;
      }
      LevelOfPlace(va, 0);
      LeafNode(fwd, PlaceOf(va, 0));
      assert false;
    }

    method ClearEntry(table: int, idx: int, ghost s: Place)
      requires Valid() && s in fwd.nodes && fwd.nodes[s] == table && 0 <= idx < FANOUT && Child(s, idx) in Pages(fwd)
      modifies this`mem, this`fwd
      ensures Valid() && Pages(fwd) == Pages(old(fwd)) - {Child(s, idx)}
    {
      hide TableOk, Shape, Pages, Resolves, WfPlace, Child, LinkAt, Put, WithLink;
      ghost var c := Child(s, idx);
      Shapes();
      PageNode(fwd, s, idx);
      PutForward(mem, owner, fwd, rev, free, pageTableFreeList, sharedPages, s, idx, EMPTY);
      SameNodes(fwd, c, EMPTY);
      FwdNode(s);
      mem := Put(mem, table, idx, EMPTY);
      fwd := WithLink(fwd, c, EMPTY);
    }

    /** Map a page in the slot of a node, if nothing is mapped below it. */
    method RetireLeaf(table: int, idx: int, entry: Entry, ghost s: Place) returns (alive: bool, ok: bool)
      requires Valid() && Terminal in entry.flags && entry != EMPTY
      requires s in fwd.nodes && fwd.nodes[s] == table && s.level == 2 && WfPlace(s) && 0 <= idx < FANOUT
      requires Child(s, idx) in fwd.nodes && Child(s, idx) != Root
      modifies this`mem, this`fwd, this`owner, this`free, this`pageTableFreeList, this`invals, this`faults
      ensures faults >= old(faults) && (alive <==> faults == old(faults))
      ensures alive ==> Valid()
      ensures alive ==> (ok <==> forall i :: 0 <= i < FANOUT ==> Child(Child(s, idx), i) !in old(fwd).links)
      ensures alive ==> Pages(fwd) == if ok then Pages(old(fwd))[Child(s, idx) := entry] else Pages(old(fwd))
      ensures alive ==> Forgotten(old(fwd).nodes, fwd.nodes, old(invals), invals)
    {
      hide TableOk, Shape, Pages, Resolves, WfPlace, Child, Forgotten;
      NoneForgotten(fwd.nodes, fwd.nodes, invals);
      ghost var c := Child(s, idx);
      Shapes();
      FwdNode(s);
      FwdNode(c);
      LinkedNode(fwd, c);
      var pa := mem[table][idx].addr;
      var childOk, child := Child0(pa, c);
      var empty := TableIsEmpty(child);
      EmptyMeansUnused(fwd, c, mem[child]);
      if !empty {
        return true, false;
      }
      ghost var nodes, log := fwd.nodes, invals;
      alive := ReplaceNode(table, idx, entry, child, pa, s);
      OneForgotten(nodes, c, log);
      ok := true;
    }

    /** Put a page in the slot of the unused node `child`, which is freed. */
    method ReplaceNode(table: int, idx: int, entry: Entry, child: int, pa: int, ghost s: Place) returns (alive: bool)
      requires Valid() && Terminal in entry.flags && entry != EMPTY
      requires s in fwd.nodes && fwd.nodes[s] == table && s.level == 2 && WfPlace(s) && 0 <= idx < FANOUT
      requires var c := Child(s, idx);
               && c in fwd.nodes && c in fwd.links && c != Root && child == fwd.nodes[c] && pa == fwd.links[c].addr
               && forall i :: 0 <= i < FANOUT ==> Child(c, i) !in fwd.links
      modifies this`mem, this`fwd, this`owner, this`free, this`pageTableFreeList, this`invals, this`faults
      ensures faults >= old(faults) && (alive <==> faults == old(faults))
      ensures Valid() && Pages(fwd) == Pages(old(fwd))[Child(s, idx) := entry]
      ensures free == old(free) + [Ref(child, pa)]
      ensures fwd.nodes == old(fwd).nodes - {Child(s, idx)} && invals == old(invals) + [child]
    {
      hide TableOk, Shape, Pages, Resolves, WfPlace, Child, Put, Push, WithoutNode;
      ghost var c := Child(s, idx);
      Shapes();
      RetireNode(mem, owner, fwd, rev, free, pageTableFreeList, sharedPages, s, idx, entry);
      RetiredElsewhere(fwd, c, entry);
      Pushed(mem, child, pa, pageTableFreeList);
      alive := FreeTablePage(child, pa);
      mem := Put(mem, table, idx, entry);
      owner, free := owner[child := OnFreeList(|free|)], free + [Ref(child, pa)];
      fwd := WithoutNode(fwd, c, entry);
    }

    /** What a node of the forward table holds. */
    lemma FwdNode(s: Place)
      requires Valid() && s in fwd.nodes
      ensures var a := fwd.nodes[s];
              && a in mem && |mem[a]| == FANOUT
              && forall i :: 0 <= i < FANOUT ==> mem[a][i] == LinkAt(fwd, Child(s, i))
      ensures s != Root ==> s in fwd.links && Resolves(rev, fwd.links[s].addr, fwd.nodes[s])
    {
      NodeAt(mem, owner, Forward, fwd, s);
    }

    lemma RevNode(s: Place)
      requires Valid() && s in rev.nodes
      ensures var a := rev.nodes[s];
              && a in mem && |mem[a]| == FANOUT
              && forall i :: 0 <= i < FANOUT ==> mem[a][i] == LinkAt(rev, Child(s, i))
    {
      NodeAt(mem, owner, Reverse, rev, s);
    }

    lemma Shapes()
      requires Valid()
      ensures Shape(fwd) && Shape(rev) && Root in fwd.nodes && Root in rev.nodes
      ensures fwd.nodes[Root] == ptVtoP && rev.nodes[Root] == ptPtoV
      ensures forall s :: s in Pages(fwd) ==> s.level <= 1
      ensures RevOk(rev, sharedPages)
    {}
  }

  /** Between two moments the FPGA was told to forget every node that went away. */
  ghost predicate Forgotten(nodes: map<Place, int>, nodes': map<Place, int>, log: seq<int>, log': seq<int>) {
    && log <= log'
    && forall s :: s in nodes && s !in nodes' ==> exists k :: |log| <= k < |log'| && log'[k] == nodes[s]
  }

  lemma NoneForgotten(nodes: map<Place, int>, nodes': map<Place, int>, log: seq<int>)
    requires forall s :: s in nodes ==> s in nodes'
    ensures Forgotten(nodes, nodes', log, log)
  {}

  lemma OneForgotten(nodes: map<Place, int>, c: Place, log: seq<int>)
    requires c in nodes
    ensures Forgotten(nodes, nodes - {c}, log, log + [nodes[c]])
  {
    assert (log + [nodes[c]])[|log|] == nodes[c];
  }

  lemma ForgottenFrom(nodes: map<Place, int>, mid: map<Place, int>, nodes': map<Place, int>, log: seq<int>, log': seq<int>)
    requires Forgotten(mid, nodes', log, log') && forall s :: s in nodes ==> s in mid && mid[s] == nodes[s]
    ensures Forgotten(nodes, nodes', log, log')
  {}

  lemma NoNodeThere(t: Tree, s: Place, i: int)
    requires Shape(t) && s in t.nodes && Child(s, i) !in t.links
    ensures Child(s, i) !in t.nodes && Child(s, i) != Root
  {}

  lemma PageHere(t: Tree, s: Place)
    requires s in Pages(t)
    ensures s in t.links && Pages(t)[s] == t.links[s]
  {}

  lemma PageNode(t: Tree, s: Place, i: int)
    requires Shape(t) && s in t.nodes && 0 <= i < FANOUT && Child(s, i) in Pages(t)
    requires forall c :: c in Pages(t) ==> c.level <= 1
    ensures Child(s, i) !in t.nodes && s.level <= 2 && WfPlace(s)
  {
    ChildInjective(s, i);
  }

  /** No page maps an address whose walk ends at an empty word. */
  lemma Missing(t: Tree, va: VAddr, d: int)
    requires Shape(t) && 0 <= d < ROOT_LEVEL && PlaceOf(va, d + 1) in t.nodes && LinkAt(t, PlaceOf(va, d)) == EMPTY
    ensures forall s :: !Maps(t, s, va)
  {
    LevelOfPlace(va, d);
    WalkStops(t, va, d);
  }

  lemma InnerLink(t: Tree, c: Place, e: Entry)
    requires Shape(t) && c in t.nodes && c != Root && e == LinkAt(t, c)
    ensures Terminal !in e.flags
  {}

  lemma LinkedHere(t: Tree, c: Place, e: Entry)
    requires e == LinkAt(t, c) && Terminal !in e.flags
    ensures e != EMPTY && c in t.links && t.links[c] == e
  {}

  lemma OtherWord(mem: Memory, a: int, b: int, i: int, e: Entry)
    requires a in mem && 0 <= i < |mem[a]| && b in mem && a != b
    ensures b in Put(mem, a, i, e) && Put(mem, a, i, e)[b] == mem[b]
  {}

  /** Slots of level 0 have no nodes. */
  lemma LeafNode(t: Tree, c: Place)
    requires Shape(t)
    ensures c in t.nodes ==> c.level >= 1 && (c != Root ==> c in t.links && Terminal !in t.links[c].flags)
    ensures c in t.nodes && c.level <= 3 ==> c != Root
  {}

  /** A node of empty words is a node with no slot in use. */
  lemma EmptyMeansUnused(t: Tree, c: Place, n: Node)
    requires Shape(t) && |n| == FANOUT && forall i :: 0 <= i < FANOUT ==> n[i] == LinkAt(t, Child(c, i))
    ensures (forall i :: 0 <= i < FANOUT ==> n[i] == EMPTY) <==> forall i :: 0 <= i < FANOUT ==> Child(c, i) !in t.links
  {
    hide Child;
    forall i | 0 <= i < FANOUT ensures n[i] == EMPTY <==> Child(c, i) !in t.links {
      assert n[i] == LinkAt(t, Child(c, i));
    }
  }

  lemma SameNodes(t: Tree, c: Place, e: Entry)
    ensures WithLink(t, c, e).nodes == t.nodes
  {}

  lemma RetiredElsewhere(t: Tree, c: Place, e: Entry)
    ensures WithoutNode(t, c, e).nodes == t.nodes - {c}
    ensures forall s :: s in t.nodes && s != c ==>
              s in WithoutNode(t, c, e).nodes && WithoutNode(t, c, e).nodes[s] == t.nodes[s]
  {}

  lemma LinkedNode(t: Tree, c: Place)
    requires Shape(t) && c in t.nodes && c != Root
    ensures c in t.links && t.links[c] != EMPTY && Terminal !in t.links[c].flags
  {}

  lemma LinkedSlot(t: Tree, c: Place)
    requires Shape(t) && LinkAt(t, c) != EMPTY
    ensures c in t.links && t.links[c] == LinkAt(t, c) && c != Root
    ensures Terminal in t.links[c].flags ==> c in Pages(t) && c !in t.nodes
    ensures Terminal !in t.links[c].flags ==> c in t.nodes
  {}

  lemma SameFree(t: Tree, t': Tree, c: Place)
    requires Pages(t) == Pages(t')
    ensures Free(t, c) <==> Free(t', c)
  {}

  lemma MoreNodes(t: Tree, c: Place, a: int, e: Entry)
    requires c !in t.nodes
    ensures forall r :: r in t.nodes ==> r in WithNode(t, c, a, e).nodes && WithNode(t, c, a, e).nodes[r] == t.nodes[r]
    ensures c in WithNode(t, c, a, e).nodes
  {}

  lemma NonEmptyList(mem: Memory, owner: map<int, Owner>, rev: Tree, free: seq<Ref>, head: int)
    requires FreeOk(mem, owner, rev, free, head)
    ensures head != 0 <==> free != []
  {
    if free != [] {
      assert FreeAt(mem, owner, rev, free, |free| - 1);
    }
  }

  /** Pages that the system has not handed out are not in the reverse table. */
  lemma UnknownPage(rev: Tree, shared: set<int>, pa: VAddr)
    requires RevOk(rev, shared) && pa / 0x1000 !in shared
    ensures PlaceOf(pa, 0) !in rev.links && RevOk(rev, shared + {pa / 0x1000})
  {
    hide WfPlace, Parent;
    var c := PlaceOf(pa, 0);
    PageNumber(pa);
    assert c !in rev.nodes && c !in Pages(rev);
  }

  lemma PageNumber(pa: VAddr)
    ensures PlaceOf(pa, 0).num == pa / 0x1000
  {}

  lemma WfAbove(va: VAddr, d: int)
    requires 0 <= d < ROOT_LEVEL
    ensures WfPlace(PlaceOf(va, d + 1))
  {
    if d + 1 < ROOT_LEVEL {
      PlaceOfParent(va, d + 1);
    } else {
      PlaceOfParent(va, d);
    }
  }

  lemma Unlinked(t: Tree, c: Place)
    requires Shape(t) && LinkAt(t, c) == EMPTY
    ensures c !in t.links
  {}

  /** A link of the reverse table above level 0 leads to a node. */
  lemma ReverseLink(rev: Tree, c: Place, shared: set<int>)
    requires RevOk(rev, shared) && c.level >= 1
    ensures c in rev.links ==> c in rev.nodes && rev.links[c].addr == rev.nodes[c] && c != Root
    ensures LinkAt(rev, c) != EMPTY ==> c in rev.links
  {
    assert c !in Pages(rev);
  }
}
