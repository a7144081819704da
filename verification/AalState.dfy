/** What the legacy page table keeps in memory, and what each write does to it. */
module AalStates {
  import opened Addresses
  import opened AalTrees

  /** A table page: its virtual and its physical address. */
  datatype Ref = Ref(va: int, pa: int)

  /** The reverse table maps physical address `pa` to `va`. */
  ghost predicate Resolves(rev: Tree, pa: int, va: int) {
    && va != 0 && 0 <= pa < VA_LIMIT && pa % 0x1000 == 0
    && PlaceOf(pa, 0) in rev.links && rev.links[PlaceOf(pa, 0)] == Entry(va, {Terminal})
  }

  ghost predicate RevOk(rev: Tree, shared: set<int>) {
    && Shape(rev)
    && (forall s :: s in rev.nodes && s != Root ==> rev.links[s].addr == rev.nodes[s])
    && (forall s :: s in Pages(rev) ==> s.level == 0 && s.num in shared && rev.links[s].flags == {Terminal})
  }

  /** Walks never get stuck: every link to a node resolves to the node. */
  ghost predicate FwdOk(fwd: Tree, rev: Tree) {
    && Shape(fwd)
    && (forall s :: s in fwd.nodes && s != Root ==> Resolves(rev, fwd.links[s].addr, fwd.nodes[s]))
    && (forall s :: s in Pages(fwd) ==> s.level <= 1)
  }

  /** The free list, oldest page first: each page holds the address of the next older
      page and its own physical address in its first two words. */
  ghost predicate FreeOk(mem: Memory, owner: map<int, Owner>, rev: Tree, free: seq<Ref>, head: int) {
    && head == Head(free)
    && forall k :: 0 <= k < |free| ==> FreeAt(mem, owner, rev, free, k)
  }

  function Head(free: seq<Ref>): int {
    if free == [] then 0 else free[|free| - 1].va
  }

  ghost predicate FreeAt(mem: Memory, owner: map<int, Owner>, rev: Tree, free: seq<Ref>, k: nat)
    requires k < |free|
  {
    var va := free[k].va;
    && va != 0 && va in mem && va in owner && owner[va] == OnFreeList(k)
    && |mem[va]| == FANOUT
    && mem[va][0] == Entry(Head(free[..k]), {}) && mem[va][1] == Entry(free[k].pa, {})
    && Resolves(rev, free[k].pa, va)
  }

  /** Everything a run keeps. */
  ghost predicate TableOk(mem: Memory, owner: map<int, Owner>, fwd: Tree, rev: Tree, free: seq<Ref>, head: int,
                          shared: set<int>) {
    && owner.Keys <= mem.Keys
    && Stored(mem, owner, Forward, fwd) && Stored(mem, owner, Reverse, rev)
    && FwdOk(fwd, rev) && RevOk(rev, shared)
    && FreeOk(mem, owner, rev, free, head)
  }

  /** The pages of the free list are all different, and none of them is in use as a node
      of either table. */
  lemma FreePagesApart(mem: Memory, owner: map<int, Owner>, fwd: Tree, rev: Tree, free: seq<Ref>, head: int,
                       shared: set<int>)
    requires TableOk(mem, owner, fwd, rev, free, head, shared)
    ensures forall i, j :: 0 <= i < j < |free| ==> free[i].va != free[j].va
    ensures forall i, s :: 0 <= i < |free| && s in fwd.nodes ==> free[i].va != fwd.nodes[s]
    ensures forall i, s :: 0 <= i < |free| && s in rev.nodes ==> free[i].va != rev.nodes[s]
  {
    forall i | 0 <= i < |free| ensures free[i].va in owner && owner[free[i].va] == OnFreeList(i) {
      assert FreeAt(mem, owner, rev, free, i);
    }
    forall s | s in fwd.nodes ensures fwd.nodes[s] in owner && owner[fwd.nodes[s]].Of? {
      assert NodeStored(mem, owner, Forward, fwd, s);
    }
    forall s | s in rev.nodes ensures rev.nodes[s] in owner && owner[rev.nodes[s]].Of? {
      assert NodeStored(mem, owner, Reverse, rev, s);
    }
  }

  /** The step from a slot to the slot of `va` below it. */
  lemma Below(va: VAddr, d: int)
    requires 0 <= d < ROOT_LEVEL
    ensures Child(PlaceOf(va, d + 1), PtIdxFromAddr(va, d)) == PlaceOf(va, d)
    ensures WfPlace(PlaceOf(va, d)) && PlaceOf(va, ROOT_LEVEL) == Root && WfPlace(Root)
  {
    PlaceOfParent(va, d);
    ParentChild(PlaceOf(va, d));
  }

  /** Only the addresses in `at` change contents or owner. */
  ghost predicate SameElsewhere(mem: Memory, mem': Memory, owner: map<int, Owner>, owner': map<int, Owner>, at: set<int>) {
    && (forall b :: b in mem && b !in at ==> b in mem' && mem'[b] == mem[b])
    && (forall b :: b in owner && b !in at ==> b in owner' && owner'[b] == owner[b])
  }

  lemma TreeKept(mem: Memory, mem': Memory, owner: map<int, Owner>, owner': map<int, Owner>, at: set<int>,
                 kind: Kind, t: Tree)
    requires Stored(mem, owner, kind, t) && SameElsewhere(mem, mem', owner, owner', at)
    requires forall a :: a in at && a in owner ==> !(owner[a].Of? && owner[a].kind == kind)
    ensures Stored(mem', owner', kind, t)
  {
    NotMine(mem, mem', owner, owner', kind, t);
  }

  lemma FreeKept(mem: Memory, mem': Memory, owner: map<int, Owner>, owner': map<int, Owner>, at: set<int>,
                 rev: Tree, free: seq<Ref>, head: int)
    requires FreeOk(mem, owner, rev, free, head) && SameElsewhere(mem, mem', owner, owner', at)
    requires forall a :: a in at && a in owner ==> !owner[a].OnFreeList?
    ensures FreeOk(mem', owner', rev, free, head)
  {
    hide Resolves;
    forall k | 0 <= k < |free| ensures FreeAt(mem', owner', rev, free, k) {
      assert FreeAt(mem, owner, rev, free, k);
    }
  }

  /** Resolution survives growth of the reverse table. */
  lemma ResolvesMore(fwd: Tree, rev: Tree, rev': Tree, mem: Memory, owner: map<int, Owner>, free: seq<Ref>, head: int)
    requires FwdOk(fwd, rev) && FreeOk(mem, owner, rev, free, head)
    requires forall s :: s in Pages(rev) ==> s in rev'.links && rev'.links[s] == rev.links[s]
    ensures FwdOk(fwd, rev') && FreeOk(mem, owner, rev', free, head)
  {
    forall pa, va | Resolves(rev, pa, va) ensures Resolves(rev', pa, va) {
      assert PlaceOf(pa, 0) in Pages(rev);
    }
    forall k | 0 <= k < |free| ensures FreeAt(mem, owner, rev', free, k) {
      assert FreeAt(mem, owner, rev, free, k);
    }
  }

  /** Memory that nobody owns can be written freely. */
  lemma Unowned(mem: Memory, owner: map<int, Owner>, fwd: Tree, rev: Tree, free: seq<Ref>, head: int,
                shared: set<int>, a: int, n: Node)
    requires TableOk(mem, owner, fwd, rev, free, head, shared) && a !in owner
    ensures TableOk(mem[a := n], owner, fwd, rev, free, head, shared)
  {
    hide Stored, FwdOk, RevOk, FreeOk;
    TreeKept(mem, mem[a := n], owner, owner, {a}, Forward, fwd);
    TreeKept(mem, mem[a := n], owner, owner, {a}, Reverse, rev);
    FreeKept(mem, mem[a := n], owner, owner, {a}, rev, free, head);
  }

  /** Where a node is. */
  lemma NodeAt(mem: Memory, owner: map<int, Owner>, kind: Kind, t: Tree, s: Place)
    requires Stored(mem, owner, kind, t) && s in t.nodes
    ensures var a := t.nodes[s];
            && a in mem && |mem[a]| == FANOUT && a in owner && owner[a] == Of(kind, s)
            && forall i :: 0 <= i < FANOUT ==> mem[a][i] == LinkAt(t, Child(s, i))
  {
    assert NodeStored(mem, owner, kind, t, s);
  }

  lemma PutElsewhere(mem: Memory, owner: map<int, Owner>, a: int, i: int, e: Entry)
    requires a in mem && 0 <= i < |mem[a]|
    ensures SameElsewhere(mem, Put(mem, a, i, e), owner, owner, {a}) && Put(mem, a, i, e).Keys == mem.Keys
  {}

  /** A change of the forward table that leaves everything else alone. */
  lemma ForwardChange(mem: Memory, mem': Memory, owner: map<int, Owner>, owner': map<int, Owner>, fwd: Tree, fwd': Tree,
                      rev: Tree, free: seq<Ref>, head: int, shared: set<int>, at: set<int>)
    requires TableOk(mem, owner, fwd, rev, free, head, shared)
    requires Stored(mem', owner', Forward, fwd') && FwdOk(fwd', rev) && owner'.Keys <= mem'.Keys
    requires SameElsewhere(mem, mem', owner, owner', at)
    requires forall a :: a in at && a in owner ==> owner[a].Of? && owner[a].kind == Forward
    ensures TableOk(mem', owner', fwd', rev, free, head, shared)
  {
    hide Stored, FwdOk, RevOk, FreeOk, SameElsewhere;
    TreeKept(mem, mem', owner, owner', at, Reverse, rev);
    FreeKept(mem, mem', owner, owner', at, rev, free, head);
  }

  /** Growth of the reverse table that leaves everything else alone. */
  lemma ReverseChange(mem: Memory, mem': Memory, owner: map<int, Owner>, owner': map<int, Owner>, fwd: Tree,
                      rev: Tree, rev': Tree, free: seq<Ref>, head: int, shared: set<int>, at: set<int>)
    requires TableOk(mem, owner, fwd, rev, free, head, shared)
    requires Stored(mem', owner', Reverse, rev') && RevOk(rev', shared) && owner'.Keys <= mem'.Keys
    requires forall s :: s in Pages(rev) ==> s in rev'.links && rev'.links[s] == rev.links[s]
    requires SameElsewhere(mem, mem', owner, owner', at)
    requires forall a :: a in at && a in owner ==> owner[a].Of? && owner[a].kind == Reverse
    ensures TableOk(mem', owner', fwd, rev', free, head, shared)
  {
    hide Stored, FwdOk, RevOk, FreeOk, SameElsewhere, Pages;
    TreeKept(mem, mem', owner, owner', at, Forward, fwd);
    FreeKept(mem, mem', owner, owner', at, rev, free, head);
    ResolvesMore(fwd, rev, rev', mem', owner', free, head);
  }

  /** The reverse table grows by an empty node. */
  lemma GrowReverse(mem: Memory, owner: map<int, Owner>, fwd: Tree, rev: Tree, free: seq<Ref>, head: int, shared: set<int>,
                    s: Place, i: int, a: int)
    requires TableOk(mem, owner, fwd, rev, free, head, shared)
    requires s in rev.nodes && 2 <= s.level && WfPlace(s) && 0 <= i < FANOUT && Child(s, i) !in rev.links
    requires a in mem && mem[a] == EmptyNode && a !in owner
    ensures rev.nodes[s] in mem && |mem[rev.nodes[s]]| == FANOUT && rev.nodes[s] in owner
    ensures var c := Child(s, i);
            var rev' := WithNode(rev, c, a, Entry(a, {}));
            && TableOk(Put(mem, rev.nodes[s], i, Entry(a, {})), owner[a := Of(Reverse, c)], fwd, rev', free, head, shared)
            && Pages(rev') == Pages(rev)
  {
    var c, e := Child(s, i), Entry(a, {});
    hide Stored, Shape, WfPlace, Child, NodeStored, FreeOk, FwdOk;
    NodeAt(mem, owner, Reverse, rev, s);
    AddNode(mem, owner, Reverse, rev, s, i, a, e);
    MorePages(rev, WithNode(rev, c, a, e));
    ReverseChange(mem, Put(mem, rev.nodes[s], i, e), owner, owner[a := Of(Reverse, c)], fwd,
                  rev, WithNode(rev, c, a, e), free, head, shared, {a, rev.nodes[s]});
  }

  lemma MorePages(t: Tree, t': Tree)
    requires forall s :: s in Pages(t) ==> s in Pages(t') && Pages(t')[s] == Pages(t)[s]
    ensures forall s :: s in Pages(t) ==> s in t'.links && t'.links[s] == t.links[s]
  {}

  /** A page enters the reverse table. */
  lemma PutReverse(mem: Memory, owner: map<int, Owner>, fwd: Tree, rev: Tree, free: seq<Ref>, head: int, shared: set<int>,
                   s: Place, i: int, va: int)
    requires TableOk(mem, owner, fwd, rev, free, head, shared)
    requires s in rev.nodes && s.level == 1 && WfPlace(s) && 0 <= i < FANOUT
    requires Child(s, i) !in rev.links && Child(s, i).num in shared
    ensures rev.nodes[s] in mem && |mem[rev.nodes[s]]| == FANOUT && rev.nodes[s] in owner && owner[rev.nodes[s]].Of?
    ensures var c := Child(s, i);
            var rev' := WithLink(rev, c, Entry(va, {Terminal}));
            && TableOk(Put(mem, rev.nodes[s], i, Entry(va, {Terminal})), owner, fwd, rev', free, head, shared)
            && rev'.links == rev.links[c := Entry(va, {Terminal})]
  {
    var c, e := Child(s, i), Entry(va, {Terminal});
    var rev' := WithLink(rev, c, e);
    assert e != EMPTY && c.level == 0;
    assert rev' == rev.(links := rev.links[c := e]);
    hide Stored, Shape, WfPlace, Child, NodeStored, FreeOk, FwdOk, WithLink, Put, SameElsewhere, Pages, LinkAt;
    NodeUsed(rev, c);
    NodeAt(mem, owner, Reverse, rev, s);
    PutLink(mem, owner, Reverse, rev, s, i, e);
    PutElsewhere(mem, owner, rev.nodes[s], i, e);
    SetPageShape(rev, s, i, e);
    RevKept(rev, rev', shared, c, e);
    hide RevOk;
    ReverseChange(mem, Put(mem, rev.nodes[s], i, e), owner, owner, fwd, rev, rev', free, head, shared, {rev.nodes[s]});
  }

  lemma RevKept(rev: Tree, rev': Tree, shared: set<int>, c: Place, e: Entry)
    requires RevOk(rev, shared) && Shape(rev') && c.level == 0 && c.num in shared && e.flags == {Terminal}
    requires rev' == rev.(links := rev.links[c := e]) && c !in rev.nodes && c !in rev.links
    ensures RevOk(rev', shared)
    ensures forall s :: s in Pages(rev) ==> s in rev'.links && rev'.links[s] == rev.links[s]
  {
    hide Shape;
  }

  lemma NodeUsed(t: Tree, c: Place)
    requires Shape(t)
    ensures c in t.nodes && c != Root ==> c in t.links && c !in Pages(t)
    ensures EMPTY !in t.links.Values
  {}

  /** Setting the word of a slot without a node keeps the shape. */
  lemma SetPageShape(t: Tree, s: Place, i: int, e: Entry)
    requires Shape(t) && s in t.nodes && WfPlace(s) && 0 <= i < FANOUT && Child(s, i) !in t.nodes
    requires e != EMPTY && Terminal in e.flags
    ensures var c := Child(s, i);
            && Shape(WithLink(t, c, e)) && Pages(WithLink(t, c, e)) == Pages(t)[c := e]
  {
    var c := Child(s, i);
    ChildInjective(s, i);
    ChildRange(s, i);
    hide WfPlace, Parent, Child, Idx, Pages;
    assert c != Root;
    PageChanged(t, c, e);
  }

  lemma PageChanged(t: Tree, c: Place, e: Entry)
    requires e == EMPTY || Terminal in e.flags
    ensures Pages(WithLink(t, c, e)) == if e == EMPTY then Pages(t) - {c} else Pages(t)[c := e]
  {}

  /** And so does clearing it. */
  lemma ClearPageShape(t: Tree, c: Place)
    requires Shape(t) && c !in t.nodes
    ensures Shape(WithLink(t, c, EMPTY)) && Pages(WithLink(t, c, EMPTY)) == Pages(t) - {c}
  {
    hide WfPlace, Parent, Pages;
    PageChanged(t, c, EMPTY);
  }

  lemma PageShape(t: Tree, s: Place, i: int, e: Entry)
    requires Shape(t) && s in t.nodes && WfPlace(s) && 0 <= i < FANOUT && Child(s, i) !in t.nodes
    requires e == EMPTY || Terminal in e.flags
    ensures var c := Child(s, i);
            && Shape(WithLink(t, c, e))
            && Pages(WithLink(t, c, e)) == if e == EMPTY then Pages(t) - {c} else Pages(t)[c := e]
  {
    hide Shape, WfPlace, Child, Pages, WithLink;
    if e == EMPTY {
      ClearPageShape(t, Child(s, i));
    } else {
      SetPageShape(t, s, i, e);
    }
  }

  lemma OneDown(s: Place, i: int)
    ensures Child(s, i).level == s.level - 1
  {}

  lemma ForwardShape(fwd: Tree, rev: Tree)
    requires FwdOk(fwd, rev)
    ensures Shape(fwd)
  {}

  /** A page enters or leaves the forward table. */
  lemma PutForward(mem: Memory, owner: map<int, Owner>, fwd: Tree, rev: Tree, free: seq<Ref>, head: int, shared: set<int>,
                   s: Place, i: int, e: Entry)
    requires TableOk(mem, owner, fwd, rev, free, head, shared)
    requires s in fwd.nodes && s.level <= 2 && WfPlace(s) && 0 <= i < FANOUT && Child(s, i) !in fwd.nodes
    requires e == EMPTY || Terminal in e.flags
    ensures fwd.nodes[s] in mem && |mem[fwd.nodes[s]]| == FANOUT
    ensures var c := Child(s, i);
            && TableOk(Put(mem, fwd.nodes[s], i, e), owner, WithLink(fwd, c, e), rev, free, head, shared)
            && Pages(WithLink(fwd, c, e)) == if e == EMPTY then Pages(fwd) - {c} else Pages(fwd)[c := e]
  {
    hide Stored, Shape, WfPlace, Child, NodeStored, FreeOk, RevOk, FwdOk, Resolves, WithLink, Put, SameElsewhere,
         Pages, LinkAt;
    var c := Child(s, i);
    OneDown(s, i);
    ForwardShape(fwd, rev);
    NodeUsed(fwd, c);
    NodeAt(mem, owner, Forward, fwd, s);
    PutLink(mem, owner, Forward, fwd, s, i, e);
    PutElsewhere(mem, owner, fwd.nodes[s], i, e);
    PageShape(fwd, s, i, e);
    FwdLinked(fwd, rev, c, e);
    ForwardChange(mem, Put(mem, fwd.nodes[s], i, e), owner, owner, fwd, WithLink(fwd, c, e),
                  rev, free, head, shared, {fwd.nodes[s]});
  }

  lemma FwdKept(fwd: Tree, fwd': Tree, rev: Tree, c: Place)
    requires FwdOk(fwd, rev) && Shape(fwd') && c.level <= 1
    requires forall s :: s in fwd'.nodes ==> s != c && s in fwd.nodes && fwd'.nodes[s] == fwd.nodes[s]
    requires forall s :: s in fwd'.links && s != c ==> s in fwd.links && fwd'.links[s] == fwd.links[s]
    ensures FwdOk(fwd', rev)
  {
    hide Resolves, WfPlace, Parent;
    assert forall s :: s in Pages(fwd') ==> s == c || s in Pages(fwd);
  }

  lemma FwdLinked(fwd: Tree, rev: Tree, c: Place, e: Entry)
    requires FwdOk(fwd, rev) && Shape(WithLink(fwd, c, e)) && c.level <= 1 && c !in fwd.nodes
    ensures FwdOk(WithLink(fwd, c, e), rev)
  {
    hide Resolves, WfPlace, Parent, Shape;
    FwdKept(fwd, WithLink(fwd, c, e), rev, c);
  }

  lemma FwdRetired(fwd: Tree, rev: Tree, c: Place, e: Entry)
    requires FwdOk(fwd, rev) && Shape(WithoutNode(fwd, c, e)) && c.level <= 1
    ensures FwdOk(WithoutNode(fwd, c, e), rev)
  {
    hide Resolves, WfPlace, Parent, Shape;
    FwdKept(fwd, WithoutNode(fwd, c, e), rev, c);
  }

  /** The forward table grows by an empty page. */
  lemma GrowForward(mem: Memory, owner: map<int, Owner>, fwd: Tree, rev: Tree, free: seq<Ref>, head: int, shared: set<int>,
                    s: Place, i: int, a: int, pa: int)
    requires TableOk(mem, owner, fwd, rev, free, head, shared)
    requires s in fwd.nodes && 2 <= s.level && WfPlace(s) && 0 <= i < FANOUT && Child(s, i) !in fwd.links
    requires a in mem && mem[a] == EmptyNode && a !in owner && Resolves(rev, pa, a)
    ensures fwd.nodes[s] in mem && |mem[fwd.nodes[s]]| == FANOUT && fwd.nodes[s] in owner
    ensures var c := Child(s, i);
            var fwd' := WithNode(fwd, c, a, Entry(pa, {}));
            && TableOk(Put(mem, fwd.nodes[s], i, Entry(pa, {})), owner[a := Of(Forward, c)], fwd', rev, free, head, shared)
            && Pages(fwd') == Pages(fwd)
  {
    var c, e := Child(s, i), Entry(pa, {});
    var fwd' := WithNode(fwd, c, a, e);
    hide Stored, Shape, WfPlace, Child, NodeStored, FreeOk, RevOk, Resolves, Pages;
    NodeAt(mem, owner, Forward, fwd, s);
    AddNode(mem, owner, Forward, fwd, s, i, a, e);
    assert FwdOk(fwd', rev);
    ForwardChange(mem, Put(mem, fwd.nodes[s], i, e), owner, owner[a := Of(Forward, c)], fwd, fwd', rev, free, head, shared,
                  {a, fwd.nodes[s]});
  }

  /** Popping the free list gives back the pair that was pushed. */
  lemma PopFree(mem: Memory, owner: map<int, Owner>, fwd: Tree, rev: Tree, free: seq<Ref>, head: int, shared: set<int>)
    requires TableOk(mem, owner, fwd, rev, free, head, shared) && free != []
    ensures var top, rest := free[|free| - 1], free[..|free| - 1];
            && head == top.va && head in mem && |mem[head]| == FANOUT && Resolves(rev, top.pa, head)
            && mem[head][0] == Entry(Head(rest), {}) && mem[head][1] == Entry(top.pa, {})
            && TableOk(mem, owner - {head}, fwd, rev, rest, Head(rest), shared)
  {
    var top, rest := free[|free| - 1], free[..|free| - 1];
    var owner' := owner - {head};
    hide Stored, FwdOk, RevOk, Resolves;
    assert FreeAt(mem, owner, rev, free, |free| - 1);
    TreeKept(mem, mem, owner, owner', {head}, Forward, fwd);
    TreeKept(mem, mem, owner, owner', {head}, Reverse, rev);
    PoppedFree(mem, owner, rev, free, head);
  }

  lemma PoppedFree(mem: Memory, owner: map<int, Owner>, rev: Tree, free: seq<Ref>, head: int)
    requires FreeOk(mem, owner, rev, free, head) && free != []
    ensures var rest := free[..|free| - 1];
            FreeOk(mem, owner - {head}, rev, rest, Head(rest))
  {
    hide Resolves, Head;
    var rest := free[..|free| - 1];
    assert FreeAt(mem, owner, rev, free, |free| - 1);
    assert head == free[|free| - 1].va by { LastIsHead(free); }
    forall k | 0 <= k < |rest| ensures FreeAt(mem, owner - {head}, rev, rest, k) {
      assert FreeAt(mem, owner, rev, free, k);
      assert rest[..k] == free[..k];
    }
  }

  lemma LastIsHead(free: seq<Ref>)
    requires free != []
    ensures Head(free) == free[|free| - 1].va
  {}

  ghost function WithoutNode(t: Tree, c: Place, e: Entry): Tree {
    Tree(t.nodes - {c}, t.links[c := e])
  }

  /** Memory after the page at `a` is pushed on the free list. */
  function Push(mem: Memory, a: int, pa: int, head: int): Memory
    requires a in mem && |mem[a]| == FANOUT
  {
    Put(Put(mem, a, 0, Entry(head, {})), a, 1, Entry(pa, {}))
  }

  /** A page takes the slot of an empty node, whose memory goes to the free list. */
  lemma RetireNode(mem: Memory, owner: map<int, Owner>, fwd: Tree, rev: Tree, free: seq<Ref>, head: int, shared: set<int>,
                   s: Place, i: int, e: Entry)
    requires TableOk(mem, owner, fwd, rev, free, head, shared)
    requires s in fwd.nodes && s.level <= 2 && WfPlace(s) && 0 <= i < FANOUT && Child(s, i) in fwd.nodes
    requires Terminal in e.flags && e != EMPTY
    requires forall j :: 0 <= j < FANOUT ==> Child(Child(s, i), j) !in fwd.links
    ensures fwd.nodes[Child(s, i)] in mem && |mem[fwd.nodes[Child(s, i)]]| == FANOUT
    ensures fwd.nodes[s] in mem && |mem[fwd.nodes[s]]| == FANOUT && fwd.nodes[s] != fwd.nodes[Child(s, i)]
    ensures var c := Child(s, i);
            var a, pa := fwd.nodes[c], fwd.links[c].addr;
            && TableOk(Put(Push(mem, a, pa, head), fwd.nodes[s], i, e), owner[a := OnFreeList(|free|)],
                       WithoutNode(fwd, c, e), rev, free + [Ref(a, pa)], a, shared)
            && Pages(WithoutNode(fwd, c, e)) == Pages(fwd)[c := e]
  {
    var c := Child(s, i);
    assert c.level <= 1 && c != s && c != Root && Shape(fwd);
    var a, pa := fwd.nodes[c], fwd.links[c].addr;
    assert Resolves(rev, pa, a);
    hide Stored, Shape, WfPlace, Child, NodeStored, Resolves, Push, FwdOk, RevOk, FreeOk, Pages, LinkAt, WithoutNode;
    NodeAt(mem, owner, Forward, fwd, s);
    NodeAt(mem, owner, Forward, fwd, c);
    Pushed(mem, a, pa, head);
    var mem', owner' := Put(Push(mem, a, pa, head), fwd.nodes[s], i, e), owner[a := OnFreeList(|free|)];
    assert SameElsewhere(mem, mem', owner, owner', {a, fwd.nodes[s]}) && owner'.Keys <= mem'.Keys;
    RetiredReverse(mem, mem', owner, owner', rev, a, fwd.nodes[s]);
    RetiredStored(mem, mem', owner, owner', fwd, s, i, e);
    RetiredShape(fwd, c, e);
    FwdRetired(fwd, rev, c, e);
    RetiredFree(mem, mem', owner, owner', rev, free, head, a, pa, fwd.nodes[s]);
  }

  /** A push writes the first two words of the page and nothing else. */
  lemma Pushed(mem: Memory, a: int, pa: int, head: int)
    requires a in mem && |mem[a]| == FANOUT
    ensures var mem' := Push(mem, a, pa, head);
            && mem' == mem[a := mem'[a]] && |mem'[a]| == FANOUT
            && mem'[a][0] == Entry(head, {}) && mem'[a][1] == Entry(pa, {})
            && forall i :: 2 <= i < FANOUT ==> mem'[a][i] == mem[a][i]
  {}

  lemma RetiredStored(mem: Memory, mem': Memory, owner: map<int, Owner>, owner': map<int, Owner>, fwd: Tree,
                      s: Place, i: int, e: Entry)
    requires Stored(mem, owner, Forward, fwd) && s in fwd.nodes && 0 <= i < FANOUT
    requires Child(s, i) in fwd.nodes && Child(s, i) != s
    requires fwd.nodes[s] in mem && |mem[fwd.nodes[s]]| == FANOUT
    requires SameElsewhere(mem, mem', owner, owner', {fwd.nodes[Child(s, i)], fwd.nodes[s]})
    requires fwd.nodes[s] in mem' && mem'[fwd.nodes[s]] == mem[fwd.nodes[s]][i := e]
    requires fwd.nodes[s] in owner && fwd.nodes[s] in owner' && owner'[fwd.nodes[s]] == owner[fwd.nodes[s]]
    ensures Stored(mem', owner', Forward, WithoutNode(fwd, Child(s, i), e))
  {
    var c := Child(s, i);
    var fwd' := WithoutNode(fwd, c, e);
    assert NodeStored(mem, owner, Forward, fwd, c);
    forall r | r in fwd'.nodes ensures NodeStored(mem', owner', Forward, fwd', r) {
      assert NodeStored(mem, owner, Forward, fwd, r);
      forall j | 0 <= j < FANOUT ensures mem'[fwd.nodes[r]][j] == LinkAt(fwd', Child(r, j)) {
        SameChild(r, j, s, i);
      }
    }
  }

  lemma RetiredReverse(mem: Memory, mem': Memory, owner: map<int, Owner>, owner': map<int, Owner>, rev: Tree, a: int, b: int)
    requires Stored(mem, owner, Reverse, rev) && SameElsewhere(mem, mem', owner, owner', {a, b})
    requires a in owner && owner[a].Of? && owner[a].kind == Forward && b in owner && owner[b].Of? && owner[b].kind == Forward
    ensures Stored(mem', owner', Reverse, rev)
  {
    TreeKept(mem, mem', owner, owner', {a, b}, Reverse, rev);
  }

  lemma RetiredShape(t: Tree, c: Place, e: Entry)
    requires Shape(t) && c in t.nodes && c != Root && Terminal in e.flags && e != EMPTY
    requires forall j :: 0 <= j < FANOUT ==> Child(c, j) !in t.links
    ensures Shape(WithoutNode(t, c, e)) && Pages(WithoutNode(t, c, e)) == Pages(t)[c := e]
  {
    hide WfPlace, Parent, Child, Idx;
    NothingHangs(t, c);
    RetiredPages(t, c, e);
    hide Pages;
  }

  lemma NothingHangs(t: Tree, c: Place)
    requires Shape(t) && forall j :: 0 <= j < FANOUT ==> Child(c, j) !in t.links
    ensures forall s :: s in t.links ==> Parent(s) != c
  {
    forall s | s in t.links ensures Parent(s) != c {
      ParentChild(s);
    }
  }

  lemma RetiredPages(t: Tree, c: Place, e: Entry)
    requires Terminal in e.flags
    ensures Pages(WithoutNode(t, c, e)) == Pages(t)[c := e]
  {}

  lemma RetiredFree(mem: Memory, mem': Memory, owner: map<int, Owner>, owner': map<int, Owner>, rev: Tree,
                    free: seq<Ref>, head: int, a: int, pa: int, b: int)
    requires FreeOk(mem, owner, rev, free, head) && Resolves(rev, pa, a)
    requires SameElsewhere(mem, mem', owner, owner', {a, b})
    requires a in owner && owner[a].Of? && b in owner && owner[b].Of?
    requires a in mem' && a in owner' && owner'[a] == OnFreeList(|free|)
    requires |mem'[a]| == FANOUT && mem'[a][0] == Entry(head, {}) && mem'[a][1] == Entry(pa, {})
    ensures FreeOk(mem', owner', rev, free + [Ref(a, pa)], a)
  {
    hide Resolves;
    var free' := free + [Ref(a, pa)];
    forall k | 0 <= k < |free'| ensures FreeAt(mem', owner', rev, free', k) {
      if k < |free| {
        assert FreeAt(mem, owner, rev, free, k);
        assert free'[..k] == free[..k];
      } else {
        assert Resolves(rev, pa, a) && a != 0 by { NotNull(rev, pa, a); }
        assert free'[..k] == free;
      }
    }
  }

  lemma NotNull(rev: Tree, pa: int, va: int)
    requires Resolves(rev, pa, va)
    ensures va != 0
  {}

  lemma LevelOfPlace(va: VAddr, d: int)
    ensures PlaceOf(va, d).level == d
  {}

  /** A used slot at level 0 has used slots above it. */
  lemma PathDown(t: Tree, va: VAddr, d: int)
    requires Shape(t) && PlaceOf(va, 0) in t.links && 0 <= d < ROOT_LEVEL
    ensures PlaceOf(va, d) in t.links && t.links[PlaceOf(va, d)] != EMPTY
  {
    if d > 0 {
      PlaceOfParent(va, 0);
      PathUp(t, va, 1, d);
      LevelOfPlace(va, d);
    }
  }
}
