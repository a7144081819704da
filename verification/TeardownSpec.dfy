/** What remains while the table is torn down, region by region. */
module TeardownSpec {
  import opened Addresses
  import opened Words
  import opened TableView
  import opened TableMemory
  import opened TableSpec
  import opened TableSteps
  import opened TablePins
  import opened RangeSpec
  import opened Driver

  /** Nodes and pages that start in [lo, hi), nodes only up to `level`. */
  predicate InRegion(s: Place, isPage: bool, lo: int, hi: int, level: int) {
    Within(s, lo, hi) && (isPage || s.level <= level)
  }

  ghost predicate NodeIn(owner: map<int, Place>, a: int, lo: int, hi: int, level: int) {
    a in owner && InRegion(owner[a], false, lo, hi, level)
  }

  ghost function MemWithout(m: Memory, owner: map<int, Place>, lo: int, hi: int, level: int): Memory {
    map a | a in m && !NodeIn(owner, a, lo, hi, level) :: m[a]
  }

  /** The pin `w` is recorded by a page or node of the region. */
  ghost predicate PinIn(v: View, owner: map<int, Place>, holder: map<int, Place>, hw: bool, w: int, pin: Pin,
                        lo: int, hi: int, level: int)
  {
    match pin
    case UserPin => w in holder && InRegion(holder[w], true, lo, hi, level)
    case TablePin(_, node) =>
      hw && NodeIn(owner, node, lo, hi, level) && owner[node] in v.nodes && v.nodes[owner[node]].wsid == w
  }

  ghost function PinsWithout(v: View, owner: map<int, Place>, holder: map<int, Place>, hw: bool, pinned: map<int, Pin>,
                             lo: int, hi: int, level: int): map<int, Pin>
  {
    map w | w in pinned && !PinIn(v, owner, holder, hw, w, pinned[w], lo, hi, level) :: pinned[w]
  }

  /** An MPF-allocated page starts exactly at `x`, as a lookup of `x` shows. */
  ghost predicate AllocatedAt(v: View, x: int) {
    && 0 <= x < VA_LIMIT && PageAt(v, x).Some?
    && Lo(PageAt(v, x).value) == x && Alloc in v.pages[PageAt(v, x).value].flags
  }

  /** `gone` lists, in order and once each, the starts of the MPF-allocated pages in [lo, hi). */
  ghost predicate Unmaps(v: View, gone: seq<int>, lo: int, hi: int) {
    && (forall i, j :: 0 <= i < j < |gone| ==> gone[i] < gone[j])
    && (forall x :: x in gone <==> lo <= x < hi && AllocatedAt(v, x))
  }

  lemma MemCompose(m: Memory, owner: map<int, Place>, lo: int, mid: int, hi: int, level: int)
    requires lo <= mid <= hi
    ensures MemWithout(MemWithout(m, owner, lo, mid, level), owner, mid, hi, level) == MemWithout(m, owner, lo, hi, level)
  {}

  lemma PinsCompose(v: View, owner: map<int, Place>, holder: map<int, Place>, hw: bool, pinned: map<int, Pin>,
                    lo: int, mid: int, hi: int, level: int)
    requires lo <= mid <= hi
    ensures PinsWithout(v, owner, holder, hw, PinsWithout(v, owner, holder, hw, pinned, lo, mid, level), mid, hi, level)
         == PinsWithout(v, owner, holder, hw, pinned, lo, hi, level)
  {}

  lemma UnmapsCompose(v: View, g: seq<int>, h: seq<int>, lo: int, mid: int, hi: int)
    requires lo <= mid <= hi && Unmaps(v, g, lo, mid) && Unmaps(v, h, mid, hi)
    ensures Unmaps(v, g + h, lo, hi)
  {
    hide AllocatedAt;
    forall i, j | 0 <= i < j < |g + h| ensures (g + h)[i] < (g + h)[j] {
      if i < |g| && j >= |g| {
        assert g[i] in g && h[j - |g|] in h;
      }
    }
  }

  /** Still to be torn down: the nodes and pins of the subtree of slot `p` are all in place. */
  ghost predicate Standing(v: View, owner: map<int, Place>, holder: map<int, Place>, hw: bool, m0: Memory, p0: map<int, Pin>,
                           m: Memory, pinned: map<int, Pin>, lo: int, hi: int, level: int)
  {
    && (forall a :: a in m0 && NodeIn(owner, a, lo, hi, level) ==> a in m && m[a] == m0[a])
    && (forall w :: w in p0 && PinIn(v, owner, holder, hw, w, p0[w], lo, hi, level) ==> w in pinned && pinned[w] == p0[w])
    && (forall w :: w in pinned ==> w in p0 && pinned[w] == p0[w])
  }

  lemma StandingRest(v: View, owner: map<int, Place>, holder: map<int, Place>, hw: bool, m0: Memory, p0: map<int, Pin>,
                     m: Memory, pinned: map<int, Pin>, lo: int, mid: int, hi: int, level: int)
    requires lo <= mid <= hi && Standing(v, owner, holder, hw, m0, p0, m, pinned, lo, hi, level)
    ensures Standing(v, owner, holder, hw, m0, p0, MemWithout(m, owner, lo, mid, level),
                     PinsWithout(v, owner, holder, hw, pinned, lo, mid, level), mid, hi, level)
  {}

  /** A part of a standing region stands. */
  lemma StandingPart(v: View, owner: map<int, Place>, holder: map<int, Place>, hw: bool, m0: Memory, p0: map<int, Pin>,
                     m: Memory, pinned: map<int, Pin>, lo: int, hi: int, level: int, lo': int, hi': int, level': int)
    requires Standing(v, owner, holder, hw, m0, p0, m, pinned, lo, hi, level) && lo <= lo' && hi' <= hi && level' <= level
    ensures Standing(v, owner, holder, hw, m0, p0, m, pinned, lo', hi', level')
  {}

  // ---------------------------------------------------------------------
  //  One slot of a node
  // ---------------------------------------------------------------------

  lemma TearUnused(v: View, owner: map<int, Place>, holder: map<int, Place>, hw: bool, m0: Memory, p0: map<int, Pin>,
                   t0: map<int, int>, m: Memory, pinned: map<int, Pin>, p: Place, i: int)
    requires Represents(m0, v, owner) && PinsOk(v, holder, p0, t0, hw)
    requires p in v.nodes && 0 <= i < FANOUT && !Occupied(v, Child(p, i))
    ensures var lo, hi := Lo(Child(p, i)), Hi(Child(p, i));
            && MemWithout(m, owner, lo, hi, p.level - 1) == m
            && PinsWithout(v, owner, holder, hw, pinned, lo, hi, p.level - 1) == pinned
            && Unmaps(v, [], lo, hi)
  {
    UnusedSlot(v, p, i);
    hide Lo, Hi;
  }

  lemma TearPage(v: View, owner: map<int, Place>, holder: map<int, Place>, hw: bool, m0: Memory, p0: map<int, Pin>,
                 t0: map<int, int>, m: Memory, pinned: map<int, Pin>, p: Place, i: int)
    requires Represents(m0, v, owner) && PinsOk(v, holder, p0, t0, hw)
    requires p in v.nodes && 0 <= i < FANOUT && Child(p, i) in v.pages
    requires Standing(v, owner, holder, hw, m0, p0, m, pinned, Lo(Child(p, i)), Hi(Child(p, i)), p.level - 1)
    ensures var c := Child(p, i);
            && MemWithout(m, owner, Lo(c), Hi(c), p.level - 1) == m
            && v.pages[c].wsid in pinned
            && PinsWithout(v, owner, holder, hw, pinned, Lo(c), Hi(c), p.level - 1) == pinned - {v.pages[c].wsid}
            && Unmaps(v, if Alloc in v.pages[c].flags then [Lo(c)] else [], Lo(c), Hi(c))
  {
    PageSlotAlone(v, p, i);
    var c := Child(p, i);
    OwnPlace(c);
    PageAtExact(v, c, Lo(c));
    hide Lo, Hi;
    assert Within(c, Lo(c), Hi(c));
    forall x | Lo(c) <= x < Hi(c) && AllocatedAt(v, x) ensures x == Lo(c) && Alloc in v.pages[c].flags {
      assert Within(PageAt(v, x).value, Lo(c), Hi(c));
    }
  }

  /** In the region of a node, the node itself is the only one of its level. */
  lemma TopOfRegion(v: View, p: Place)
    requires TreeOk(v) && p in v.nodes
    ensures Within(p, Lo(p), Hi(p))
    ensures forall s :: s in v.nodes && s.level <= p.level && Within(s, Lo(p), Hi(p)) ==> s == p || s.level < p.level
  {
    OwnPlace(p);
    forall s | s in v.nodes && s.level <= p.level && Within(s, Lo(p), Hi(p)) ensures s == p || s.level < p.level {
      OnlyBelow(v, p, s);
    }
  }

  /** The node itself goes last. */
  lemma TearNode(v: View, owner: map<int, Place>, m0: Memory, m: Memory, p: Place)
    requires Represents(m0, v, owner) && p in v.nodes
    requires forall a :: a in m0 && NodeIn(owner, a, Lo(p), Hi(p), p.level) ==> a in m
    ensures var a, lo, hi := v.nodes[p].addr, Lo(p), Hi(p);
            && a in m
            && MemWithout(m, owner, lo, hi, p.level) == MemWithout(m, owner, lo, hi, p.level - 1) - {a}
            && a in MemWithout(m, owner, lo, hi, p.level - 1)
  {
    TopOfRegion(v, p);
    hide Lo, Hi, NodeOk, PageOk, WfPlace, NodeAddrOk;
  }

  lemma TearNodePin(v: View, owner: map<int, Place>, holder: map<int, Place>, mem: Memory, p0: map<int, Pin>,
                    t0: map<int, int>, pinned: map<int, Pin>, p: Place)
    requires TreeOk(v) && Linked(mem, v, owner) && PinsOk(v, holder, p0, t0, true) && p in v.nodes
    requires forall w :: w in p0 && PinIn(v, owner, holder, true, w, p0[w], Lo(p), Hi(p), p.level) ==>
               w in pinned && pinned[w] == p0[w]
    requires forall w :: w in pinned ==> w in p0 && pinned[w] == p0[w]
    ensures var w, lo, hi := v.nodes[p].wsid, Lo(p), Hi(p);
            var rest := PinsWithout(v, owner, holder, true, pinned, lo, hi, p.level - 1);
            w in rest && PinsWithout(v, owner, holder, true, pinned, lo, hi, p.level) == rest - {w}
  {
    TopOfRegion(v, p);
    hide Lo, Hi, NodeOk, PageOk, WfPlace, TreeOk, DeviceMapped;
    var w, lo, hi := v.nodes[p].wsid, Lo(p), Hi(p);
    assert PinIn(v, owner, holder, true, w, p0[w], lo, hi, p.level);
    assert !PinIn(v, owner, holder, true, w, p0[w], lo, hi, p.level - 1);
  }

  lemma PinsWithoutHost(v: View, owner: map<int, Place>, holder: map<int, Place>, pinned: map<int, Pin>,
                        lo: int, hi: int, level: int)
    ensures PinsWithout(v, owner, holder, false, pinned, lo, hi, level) ==
            PinsWithout(v, owner, holder, false, pinned, lo, hi, level - 1)
  {}

  /** Where slot `i` of the node below `p` begins. */
  function Front(p: Place, i: int): int {
    Lo(p) + i * Span(p.level - 1)
  }

  lemma FrontStep(v: View, p: Place, i: int)
    requires TreeOk(v) && p in v.nodes && 0 <= i < FANOUT
    ensures Front(p, i) == Lo(Child(p, i)) && Front(p, i + 1) == Hi(Child(p, i))
    ensures Lo(p) <= Front(p, i) < Front(p, i + 1) <= Hi(p)
    ensures 0 <= Front(p, i) < VA_LIMIT
    ensures Front(p, FANOUT) == Hi(p) && Child(p, i).level == p.level - 1
    ensures Front(p, i) == Lo(p) + i * Span(p.level - 1)
  {
    ChildRange(p, i);
    OwnPlace(Child(p, i));
  }

  lemma NothingGoneYet(v: View, owner: map<int, Place>, holder: map<int, Place>, hw: bool,
                       m: Memory, pinned: map<int, Pin>, p: Place)
    ensures Front(p, 0) == Lo(p)
    ensures MemWithout(m, owner, Lo(p), Lo(p), p.level - 1) == m
    ensures PinsWithout(v, owner, holder, hw, pinned, Lo(p), Lo(p), p.level - 1) == pinned
    ensures Unmaps(v, [], Lo(p), Lo(p))
  {
    assert Front(p, 0) == Lo(p) + 0 * Span(p.level - 1);
    hide Lo, Hi, Span, AllocatedAt;
  }

  lemma NodeStands(v: View, owner: map<int, Place>, holder: map<int, Place>, hw: bool, m0: Memory, p0: map<int, Pin>,
                   m: Memory, pinned: map<int, Pin>, p: Place)
    requires Represents(m0, v, owner) && p in v.nodes
    requires Standing(v, owner, holder, hw, m0, p0, m, pinned, Lo(p), Hi(p), p.level)
    ensures var a := v.nodes[p].addr; a in m && a in m0 && m[a] == m0[a]
  {
    TopOfRegion(v, p);
    hide Lo, Hi, NodeOk, PageOk;
    assert NodeIn(owner, v.nodes[p].addr, Lo(p), Hi(p), p.level);
  }

  /** The region of slot `i` still stands once the slots before it are gone. */
  lemma StandingAt(v: View, owner: map<int, Place>, holder: map<int, Place>, hw: bool, m0: Memory, p0: map<int, Pin>,
                   m: Memory, pinned: map<int, Pin>, p: Place, i: int)
    requires TreeOk(v) && p in v.nodes && 0 <= i < FANOUT
    requires Standing(v, owner, holder, hw, m0, p0, m, pinned, Lo(p), Hi(p), p.level)
    ensures Standing(v, owner, holder, hw, m0, p0, MemWithout(m, owner, Lo(p), Front(p, i), p.level - 1),
                     PinsWithout(v, owner, holder, hw, pinned, Lo(p), Front(p, i), p.level - 1),
                     Lo(Child(p, i)), Hi(Child(p, i)), p.level - 1)
  {
    hide Standing, MemWithout, PinsWithout, TreeOk, Lo, Hi, Front, Span, WfPlace;
    FrontStep(v, p, i);
    StandingWindow(v, owner, holder, hw, m0, p0, m, pinned, Lo(p), Front(p, i), Front(p, i + 1), Hi(p), p.level);
  }

  lemma StandingWindow(v: View, owner: map<int, Place>, holder: map<int, Place>, hw: bool, m0: Memory,
                       p0: map<int, Pin>, m: Memory, pinned: map<int, Pin>, lo: int, f: int, g: int, hi: int, level: int)
    requires lo <= f <= g <= hi && Standing(v, owner, holder, hw, m0, p0, m, pinned, lo, hi, level)
    ensures Standing(v, owner, holder, hw, m0, p0, MemWithout(m, owner, lo, f, level - 1),
                     PinsWithout(v, owner, holder, hw, pinned, lo, f, level - 1), f, g, level - 1)
  {
    hide Standing, MemWithout, PinsWithout;
    StandingPart(v, owner, holder, hw, m0, p0, m, pinned, lo, hi, level, lo, hi, level - 1);
    StandingRest(v, owner, holder, hw, m0, p0, m, pinned, lo, f, hi, level - 1);
    StandingPart(v, owner, holder, hw, m0, p0, MemWithout(m, owner, lo, f, level - 1),
                 PinsWithout(v, owner, holder, hw, pinned, lo, f, level - 1), f, hi, level - 1, f, g, level - 1);
  }

  /** Tearing down below `p` leaves the node of `p` itself for last. */
  lemma NodeSurvives(v: View, owner: map<int, Place>, m0: Memory, m: Memory, node: int, p: Place, lo: int, hi: int)
    requires Represents(m0, v, owner) && IsNodeAt(m0, v, node, p) && node in m
    ensures var rest := MemWithout(m, owner, lo, hi, p.level - 1);
            node in rest && rest[node] == m[node]
  {}

  lemma FinishTeardown(v: View, owner: map<int, Place>, holder: map<int, Place>, hw: bool, m0: Memory,
                       p0: map<int, Pin>, t0: map<int, int>, m: Memory, pinned: map<int, Pin>, p: Place)
    requires Represents(m0, v, owner) && PinsOk(v, holder, p0, t0, hw) && p in v.nodes
    requires Standing(v, owner, holder, hw, m0, p0, m, pinned, Lo(p), Hi(p), p.level)
    ensures Front(p, FANOUT) == Hi(p)
    ensures var c, lo, hi := v.nodes[p], Lo(p), Hi(p);
            && c.addr in MemWithout(m, owner, lo, hi, p.level - 1)
            && MemWithout(m, owner, lo, hi, p.level) == MemWithout(m, owner, lo, hi, p.level - 1) - {c.addr}
            && (hw ==> c.wsid in PinsWithout(v, owner, holder, hw, pinned, lo, hi, p.level - 1))
            && PinsWithout(v, owner, holder, hw, pinned, lo, hi, p.level) ==
               if hw then PinsWithout(v, owner, holder, hw, pinned, lo, hi, p.level - 1) - {c.wsid}
               else PinsWithout(v, owner, holder, hw, pinned, lo, hi, p.level - 1)
  {
    FrontStep(v, p, FANOUT - 1);
    hide Lo, Hi, Front, MemWithout, PinsWithout, NodeOk, PinsOk;
    TearNode(v, owner, m0, m, p);
    if hw {
      TearNodePin(v, owner, holder, m0, p0, t0, pinned, p);
    } else {
      PinsWithoutHost(v, owner, holder, pinned, Lo(p), Hi(p), p.level);
    }
  }

  lemma AllStanding(m: Memory, v: View, owner: map<int, Place>, holder: map<int, Place>, hw: bool, pinned: map<int, Pin>)
    ensures Standing(v, owner, holder, hw, m, pinned, m, pinned, Lo(Root), Hi(Root), ROOT_LEVEL)
  {}

  /** With the whole address space torn down nothing of the table is left. */
  lemma AllGone(m: Memory, v: View, owner: map<int, Place>, holder: map<int, Place>, pinned: map<int, Pin>,
                tables: map<int, int>, hw: bool)
    requires Represents(m, v, owner) && PinsOk(v, holder, pinned, tables, hw)
    ensures MemWithout(m, owner, Lo(Root), Hi(Root), ROOT_LEVEL) == map[]
    ensures var rest := PinsWithout(v, owner, holder, hw, pinned, Lo(Root), Hi(Root), ROOT_LEVEL);
            && UserPins(rest) == UserPins(pinned) - holder.Keys
            && (hw ==> forall s :: s in v.nodes ==> v.nodes[s].wsid !in rest)
            && (forall w :: w in rest ==> w in pinned && rest[w] == pinned[w])
    ensures Lo(Root) == 0 && Hi(Root) == VA_LIMIT
  {
    forall s | Occupied(v, s) ensures Within(s, Lo(Root), Hi(Root)) && s.level <= ROOT_LEVEL {
      OwnPlace(s);
    }
    hide Lo, Hi, NodeOk, PageOk, DeviceMapped;
    forall a | a in m ensures NodeIn(owner, a, Lo(Root), Hi(Root), ROOT_LEVEL) {
      assert Occupied(v, owner[a]);
    }
    forall w | w in holder ensures Within(holder[w], Lo(Root), Hi(Root)) {
      assert Occupied(v, holder[w]);
    }
    if hw {
      forall s | s in v.nodes
        ensures PinIn(v, owner, holder, hw, v.nodes[s].wsid, pinned[v.nodes[s].wsid], Lo(Root), Hi(Root), ROOT_LEVEL)
      {
        assert Occupied(v, s);
      }
    }
  }
}
