/** Releasing an address range, slot by slot. */
module RangeSpec {
  import opened Addresses
  import opened TableView
  import opened TableSpec

  /** The slots above an occupied slot are nodes. */
  lemma AncestorOccupied(v: View, s: Place, level: int)
    requires TreeOk(v) && Occupied(v, s) && s.level <= level <= ROOT_LEVEL
    ensures 0 <= s.level && WfPlace(s) && 0 <= Lo(s) < VA_LIMIT
    ensures s == PlaceOf(Lo(s), s.level)
    ensures s.level < level ==> PlaceOf(Lo(s), level) in v.nodes
    decreases level - s.level
  {
    hide Lo, Hi, PageNum, PlaceOf, Parent, WfPlace, TreeOk;
    Ancestors(v, s);
    OwnPlace(s);
    if s.level < level {
      AncestorOccupied(v, s, level - 1);
      PlaceOfParent(Lo(s), level - 1);
      Ancestors(v, PlaceOf(Lo(s), level - 1));
      LevelOfPlace(Lo(s), level - 1);
    }
  }

  lemma LevelOfPlace(va: VAddr, level: int)
    ensures PlaceOf(va, level).level == level
  {}

  /** Whatever is occupied within the region of slot `c`, at its level or below,
      hangs below `c` or is `c`. */
  lemma OnlyBelow(v: View, c: Place, s: Place)
    requires TreeOk(v) && Occupied(v, s) && 0 <= c.level <= ROOT_LEVEL && s.level <= c.level
    requires Within(s, Lo(c), Hi(c))
    ensures s == c || (c in v.nodes && s.level < c.level)
    ensures Lo(c) <= Lo(s) && Hi(s) <= Hi(c)
  {
    AncestorOccupied(v, s, c.level);
    HoldsIffPlaceOf(c, Lo(s));
    SubRegion(s, c);
  }

  lemma SubRegion(s: Place, c: Place)
    requires 0 <= s.level <= c.level <= ROOT_LEVEL && WfPlace(s) && Within(s, Lo(c), Hi(c))
    ensures Lo(c) <= Lo(s) && Hi(s) <= Hi(c)
  {
    hide Lo, Hi, PageNum;
    OwnPlace(s);
    HoldsIffPlaceOf(c, Lo(s));
    Nested(Lo(s), s.level, c.level);
  }

  /** A page that starts in the region of a node is smaller than that region. */
  lemma PageBelow(v: View, p: Place, s: Place)
    requires TreeOk(v) && p in v.nodes && s in v.pages && Within(s, Lo(p), Hi(p))
    ensures s.level < p.level
  {
    if s.level >= p.level {
      AncestorOccupied(v, p, s.level);
      LargerSharesStart(p, s);
    }
  }

  lemma LargerSharesStart(p: Place, s: Place)
    requires 0 <= p.level <= s.level <= ROOT_LEVEL && WfPlace(p) && WfPlace(s) && Within(s, Lo(p), Hi(p))
    ensures 0 <= Lo(p) < VA_LIMIT && s == PlaceOf(Lo(p), s.level)
  {
    hide Lo, Hi, PageNum;
    OwnPlace(p);
    OwnPlace(s);
    HoldsIffPlaceOf(p, Lo(s));
    Nested(Lo(s), p.level, s.level);
    HoldsIffPlaceOf(s, Lo(p));
  }

  /** Releasing two adjacent stretches in turn releases their union. */
  lemma ReleaseCompose(pages: map<Place, Page>, min: int, max: int, lo: int, mid: int, hi: int)
    requires lo <= mid <= hi
    ensures ReleasedWithin(ReleasedWithin(pages, min, max, lo, mid), min, max, mid, hi)
         == ReleasedWithin(pages, min, max, lo, hi)
  {}

  lemma ReleaseNothing(pages: map<Place, Page>, min: int, max: int, lo: int, hi: int)
    requires forall s :: s in pages && Within(s, lo, hi) ==> !Touches(s, min, max)
    ensures ReleasedWithin(pages, min, max, lo, hi) == pages
  {}

  /** Nothing is occupied in the region of an unused slot of a node. */
  lemma UnusedSlot(v: View, p: Place, i: int)
    requires TreeOk(v) && p in v.nodes && 0 <= i < FANOUT && !Occupied(v, Child(p, i))
    ensures forall s :: s in v.pages ==> !Within(s, Lo(Child(p, i)), Hi(Child(p, i)))
    ensures forall s :: s in v.nodes && s.level < p.level ==> !Within(s, Lo(Child(p, i)), Hi(Child(p, i)))
  {
    var c := Child(p, i);
    ChildRange(p, i);
    forall s | Occupied(v, s) && Within(s, Lo(c), Hi(c)) && (s in v.pages || s.level < p.level) ensures false {
      if s in v.pages {
        PageBelow(v, p, s);
      }
      OnlyBelow(v, c, s);
    }
  }

  /** The region of a slot that holds a page has no other page and no node. */
  lemma PageSlotAlone(v: View, p: Place, i: int)
    requires TreeOk(v) && p in v.nodes && 0 <= i < FANOUT && Child(p, i) in v.pages
    ensures forall s :: s in v.pages && Within(s, Lo(Child(p, i)), Hi(Child(p, i))) ==> s == Child(p, i)
    ensures forall s :: s in v.nodes && s.level < p.level ==> !Within(s, Lo(Child(p, i)), Hi(Child(p, i)))
  {
    var c := Child(p, i);
    ChildRange(p, i);
    forall s | Occupied(v, s) && Within(s, Lo(c), Hi(c)) && (s in v.pages || s.level < p.level) ensures s == c {
      if s in v.pages {
        PageBelow(v, p, s);
      }
      OnlyBelow(v, c, s);
    }
  }

  /** A slot outside the range keeps everything in its region. */
  lemma OutsideSlot(v: View, p: Place, i: int, min: int, max: int)
    requires TreeOk(v) && p in v.nodes && 0 <= i < FANOUT && !Touches(Child(p, i), min, max)
    ensures forall s :: s in v.pages && Within(s, Lo(Child(p, i)), Hi(Child(p, i))) ==> !Touches(s, min, max)
    ensures forall s :: s in v.nodes && s.level < p.level && Within(s, Lo(Child(p, i)), Hi(Child(p, i))) ==>
              !Touches(s, min, max)
  {
    var c := Child(p, i);
    ChildRange(p, i);
    forall s | Occupied(v, s) && Within(s, Lo(c), Hi(c)) && (s in v.pages || s.level < p.level)
      ensures !Touches(s, min, max)
    {
      if s in v.pages {
        PageBelow(v, p, s);
      }
      OnlyBelow(v, c, s);
    }
  }

  /** Below node `p`, the nodes that start in [Lo(p), front) and touch the range
      were dropped when they became empty; all other nodes are as before. */
  ghost predicate Pruned(v: View, v': View, min: int, max: int, p: Place, front: int) {
    && (forall s :: s in v'.nodes ==> s in v.nodes && v'.nodes[s] == v.nodes[s])
    && (forall s :: s in v.nodes && s !in v'.nodes ==>
          s.level < p.level && Within(s, Lo(p), front) && Touches(s, min, max))
    && (forall s :: s in v'.nodes && s.level < p.level && Within(s, Lo(p), front) && Touches(s, min, max) ==>
          Subdivided(v', s))
  }

  /** Slots `i` and up of node `p` are as yet untouched; the first `i` are done. */
  ghost predicate PartlyReleased(v: View, v': View, min: int, max: int, p: Place, i: int) {
    var front := Lo(p) + i * Span(p.level - 1);
    && v'.pages == ReleasedWithin(v.pages, min, max, Lo(p), front)
    && Pruned(v, v', min, max, p, front)
  }

  lemma NodesKept(v: View, v': View, min: int, max: int, p: Place, i: int)
    requires PartlyReleased(v, v', min, max, p, i)
    ensures forall s :: s in v'.nodes ==> s in v.nodes && v'.nodes[s] == v.nodes[s]
  {}

  ghost predicate AnyOccupied(v: View, p: Place, i: int) {
    exists j :: 0 <= j < i && Occupied(v, Child(p, j))
  }

  /** One slot more: what was done to the region of slot `i` alone. */
  ghost predicate SlotReleased(v: View, v': View, min: int, max: int, p: Place, i: int) {
    var c := Child(p, i);
    && v'.pages == ReleasedWithin(v.pages, min, max, Lo(c), Hi(c))
    && (forall s :: s in v'.nodes ==> s in v.nodes && v'.nodes[s] == v.nodes[s])
    && (forall s :: s in v.nodes && s !in v'.nodes ==>
          s.level < p.level && Within(s, Lo(c), Hi(c)) && Touches(s, min, max))
    && (forall s :: s in v'.nodes && s.level < p.level && Within(s, Lo(c), Hi(c)) && Touches(s, min, max) ==>
          Subdivided(v', s))
  }

  lemma ReleaseStep(v0: View, v: View, v': View, min: int, max: int, p: Place, i: int)
    requires TreeOk(v) && p in v.nodes && 0 <= i < FANOUT
    requires PartlyReleased(v0, v, min, max, p, i)
    requires SlotReleased(v, v', min, max, p, i)
    ensures PartlyReleased(v0, v', min, max, p, i + 1)
    ensures p in v'.nodes
    ensures AnyOccupied(v', p, i + 1) == (AnyOccupied(v, p, i) || Occupied(v', Child(p, i)))
  {
    hide Touches, Span, Subdivided, Lo, Hi, Pruned, SlotReleased, ReleasedWithin;
    ChildRange(p, i);
    var c := Child(p, i);
    SlotReleasedPages(v, v', min, max, p, i);
    ReleaseCompose(v0.pages, min, max, Lo(p), Lo(c), Hi(c));
    PruneStep(v0, v, v', min, max, p, i);
    forall j | 0 <= j < i ensures Occupied(v', Child(p, j)) == Occupied(v, Child(p, j)) {
      StaysOccupied(v, v', min, max, p, i, j);
    }
  }

  lemma SlotReleasedPages(v: View, v': View, min: int, max: int, p: Place, i: int)
    requires TreeOk(v) && p in v.nodes && 0 <= i < FANOUT && SlotReleased(v, v', min, max, p, i)
    ensures v'.pages == ReleasedWithin(v.pages, min, max, Lo(Child(p, i)), Hi(Child(p, i)))
    ensures p in v'.nodes
    ensures Lo(p) <= Lo(Child(p, i)) <= Hi(Child(p, i))
  {
    ChildRange(p, i);
  }

  lemma PruneStep(v0: View, v: View, v': View, min: int, max: int, p: Place, i: int)
    requires TreeOk(v) && p in v.nodes && 0 <= i < FANOUT
    requires Pruned(v0, v, min, max, p, Lo(Child(p, i)))
    requires SlotReleased(v, v', min, max, p, i)
    ensures Pruned(v0, v', min, max, p, Hi(Child(p, i)))
  {
    hide Touches, Span, Subdivided, Lo, Hi, ReleasedWithin;
    SlotReleasedPages(v, v', min, max, p, i);
    var c := Child(p, i);
    forall s | s in v'.nodes && s.level < p.level && Within(s, Lo(p), Lo(c)) && Touches(s, min, max)
      ensures Subdivided(v', s)
    {
      StaysSubdivided(v, v', min, max, p, i, s);
    }
  }

  lemma StaysOccupied(v: View, v': View, min: int, max: int, p: Place, i: int, j: int)
    requires TreeOk(v) && p in v.nodes && 0 <= j < i < FANOUT && SlotReleased(v, v', min, max, p, i)
    ensures Occupied(v', Child(p, j)) == Occupied(v, Child(p, j))
  {
    hide Touches, Span, Subdivided, Lo, Hi;
    SlotsApart(p, j, i);
  }

  lemma SlotsApart(p: Place, j: int, i: int)
    requires 1 <= p.level <= ROOT_LEVEL && 0 <= j < i < FANOUT
    ensures Lo(Child(p, j)) < Lo(Child(p, i)) && Lo(p) <= Lo(Child(p, j))
  {
    ChildRange(p, i);
    ChildRange(p, j);
  }

  /** Work on slot `i` leaves the nodes before it alone. */
  lemma StaysSubdivided(v: View, v': View, min: int, max: int, p: Place, i: int, s: Place)
    requires TreeOk(v) && p in v.nodes && 0 <= i < FANOUT && SlotReleased(v, v', min, max, p, i)
    requires s in v.nodes && s.level < p.level && Within(s, Lo(p), Lo(Child(p, i))) && Subdivided(v, s)
    ensures Subdivided(v', s)
  {
    hide Touches, Lo, Hi, Span;
    var c := Child(p, i);
    var j :| 0 <= j < FANOUT && Occupied(v, Child(s, j));
    BeforeSlot(s, p, i, j);
    assert !Within(Child(s, j), Lo(c), Hi(c));
    assert Occupied(v', Child(s, j));
  }

  lemma BeforeSlot(s: Place, p: Place, i: int, j: int)
    requires 1 <= s.level < p.level <= ROOT_LEVEL && WfPlace(s) && WfPlace(p) && 0 <= i < FANOUT && 0 <= j < FANOUT
    requires Within(s, Lo(p), Lo(Child(p, i)))
    ensures Lo(Child(s, j)) < Lo(Child(p, i))
  {
    var c := Child(p, i);
    ChildRange(p, i);
    Apart(s, c);
    ChildBelow(s, j);
  }

  lemma ChildBelow(s: Place, j: int)
    requires 1 <= s.level <= ROOT_LEVEL && 0 <= j < FANOUT
    ensures Lo(Child(s, j)) < Hi(s)
  {
    ChildRange(s, j);
  }

  /** A slot that starts before a larger one ends before it. */
  lemma Apart(s: Place, c: Place)
    requires 0 <= s.level <= c.level <= ROOT_LEVEL && WfPlace(s) && WfPlace(c) && Lo(s) < Lo(c)
    ensures Hi(s) <= Lo(c)
  {
    hide Lo, Hi, PageNum;
    if Hi(s) > Lo(c) {
      OwnPlace(c);
      HoldsIffPlaceOf(s, Lo(c));
      Nested(Lo(c), s.level, c.level);
    }
  }

  // ---------------------------------------------------------------------
  //  The cases of one slot
  // ---------------------------------------------------------------------

  lemma StartRelease(v: View, min: int, max: int, p: Place)
    requires TreeOk(v) && p in v.nodes
    ensures PartlyReleased(v, v, min, max, p, 0)
    ensures !AnyOccupied(v, p, 0)
  {
    hide Touches, Lo, Hi, Span;
    assert Lo(p) + 0 * Span(p.level - 1) == Lo(p);
    ReleaseNothing(v.pages, min, max, Lo(p), Lo(p));
  }

  lemma UnusedReleased(v: View, min: int, max: int, p: Place, i: int)
    requires TreeOk(v) && p in v.nodes && 0 <= i < FANOUT && !Occupied(v, Child(p, i))
    ensures SlotReleased(v, v, min, max, p, i)
  {
    hide Touches, Lo, Hi, Span;
    UnusedSlot(v, p, i);
    ReleaseNothing(v.pages, min, max, Lo(Child(p, i)), Hi(Child(p, i)));
  }

  lemma OutsideReleased(v: View, min: int, max: int, p: Place, i: int)
    requires TreeOk(v) && p in v.nodes && 0 <= i < FANOUT && !Touches(Child(p, i), min, max)
    ensures SlotReleased(v, v, min, max, p, i)
  {
    OutsideSlot(v, p, i, min, max);
    hide Touches, Lo, Hi, Span;
    ReleaseNothing(v.pages, min, max, Lo(Child(p, i)), Hi(Child(p, i)));
  }

  lemma PageReleased(v: View, min: int, max: int, p: Place, i: int)
    requires TreeOk(v) && p in v.nodes && 0 <= i < FANOUT
    requires Child(p, i) in v.pages && Touches(Child(p, i), min, max)
    ensures var c := Child(p, i);
            SlotReleased(v,
              v.(pages := if v.pages[c].refcnt > 1 then v.pages[c := Unbump(v.pages[c])] else v.pages - {c}),
              min, max, p, i)
  {
    PageSlotAlone(v, p, i);
    var c := Child(p, i);
    assert Within(c, Lo(c), Hi(c)) by { OwnPlace(c); }
  }

  lemma ChildReleased(v: View, v': View, min: int, max: int, p: Place, i: int)
    requires TreeOk(v) && p in v.nodes && 0 <= i < FANOUT && Child(p, i) in v.nodes
    requires PartlyReleased(v, v', min, max, Child(p, i), FANOUT) && Subdivided(v', Child(p, i))
    ensures SlotReleased(v, v', min, max, p, i)
  {
    var c := Child(p, i);
    ChildRange(c, 0);
    hide Touches, Lo, Hi, Span, Subdivided;
    forall s | s in v.nodes && s.level < p.level && Within(s, Lo(c), Hi(c)) ensures s == c || s.level < c.level {
      OnlyBelow(v, c, s);
    }
  }

  lemma ChildDropped(v: View, v': View, min: int, max: int, p: Place, i: int)
    requires TreeOk(v) && TreeOk(v') && p in v.nodes && 0 <= i < FANOUT && Child(p, i) in v.nodes
    requires Touches(Child(p, i), min, max)
    requires PartlyReleased(v, v', min, max, Child(p, i), FANOUT) && !AnyOccupied(v', Child(p, i), FANOUT)
    ensures Child(p, i) in v'.nodes
    ensures SlotReleased(v, v'.(nodes := v'.nodes - {Child(p, i)}), min, max, p, i)
  {
    var c := Child(p, i);
    ChildRange(c, 0);
    hide Touches, Lo, Hi, Span, Subdivided;
    assert Within(c, Lo(c), Hi(c)) by { OwnPlace(c); }
    forall s | s in v'.nodes && s.level < p.level && Within(s, Lo(c), Hi(c)) ensures s == c {
      OnlyBelow(v', c, s);
      if s != c {
        BelowEmpty(v', c, s);
      }
    }
  }

  /** A node without occupied slots has no node below it. */
  lemma BelowEmpty(v: View, c: Place, s: Place)
    requires TreeOk(v) && c in v.nodes && s in v.nodes && s.level < c.level && Within(s, Lo(c), Hi(c))
    ensures AnyOccupied(v, c, FANOUT)
  {
    AncestorOccupied(v, s, c.level - 1);
    HoldsIffPlaceOf(c, Lo(s));
    PlaceOfParent(Lo(s), c.level - 1);
    ParentChild(PlaceOf(Lo(s), c.level - 1));
  }

  lemma RestIsOutside(p: Place, i: int, max: int)
    requires 1 <= p.level <= ROOT_LEVEL && 0 <= i < FANOUT
    ensures Lo(Child(p, i)) == Lo(p) + i * Span(p.level - 1)
    ensures Hi(p) == Lo(p) + FANOUT * Span(p.level - 1)
    ensures Lo(p) <= Lo(Child(p, i)) <= Hi(p)
  {
    ChildRange(p, i);
  }

  /** Every later slot starts beyond the range. */
  lemma RestOutside(v0: View, v: View, min: int, max: int, p: Place, i: int)
    requires TreeOk(v) && p in v.nodes && 0 <= i < FANOUT
    requires PartlyReleased(v0, v, min, max, p, i) && max <= Lo(Child(p, i))
    ensures PartlyReleased(v0, v, min, max, p, FANOUT)
  {
    hide Lo, Hi, Span, Pruned, ReleasedWithin, Subdivided, WfPlace;
    RestIsOutside(p, i, max);
    ReleaseNothing(v.pages, min, max, Lo(Child(p, i)), Hi(p));
    ReleaseCompose(v0.pages, min, max, Lo(p), Lo(Child(p, i)), Hi(p));
    PrunedOutside(v0, v, min, max, p, Lo(Child(p, i)), Hi(p));
  }

  lemma PrunedOutside(v0: View, v: View, min: int, max: int, p: Place, front: int, back: int)
    requires Pruned(v0, v, min, max, p, front) && max <= front <= back
    ensures Pruned(v0, v, min, max, p, back)
  {
    hide Lo, Hi, Subdivided;
  }

  /** The address arithmetic of one entry. */
  lemma EntryRange(p: Place, idx: int, min: int, max: int)
    requires 1 <= p.level <= ROOT_LEVEL && WfPlace(p) && 0 <= idx < FANOUT
    ensures var va := Lo(p) + idx * Span(p.level - 1);
            && va == Lo(Child(p, idx)) && 0 <= va < VA_LIMIT
            && (min < va + Span(p.level - 1) && va < max <==> Touches(Child(p, idx), min, max))
  {
    ChildRange(p, idx);
    OwnPlace(Child(p, idx));
  }

  lemma SomeOccupied(v: View, p: Place, idx: int)
    requires 0 <= idx < FANOUT && Occupied(v, Child(p, idx))
    ensures AnyOccupied(v, p, FANOUT)
  {}

  lemma KeepsUpperNodes(v: View, v': View, min: int, max: int, c: Place, p: Place)
    requires PartlyReleased(v, v', min, max, c, FANOUT) && p in v.nodes && p.level >= c.level
    ensures p in v'.nodes && v'.nodes[p] == v.nodes[p]
  {}
}
