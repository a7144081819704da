/** Address arithmetic of the four-level table.

    A 48-bit virtual address is cut into a 12-bit page offset and four 9-bit
    indices.  Right shifts by 12 + 9 * depth are written as divisions by
    Span(depth) and masks of 9 bits as remainders modulo 512.  */
module Addresses {

  const FANOUT: int := 512
  const VA_LIMIT: int := 0x1_0000_0000_0000
  const ROOT_LEVEL: int := 4

  type VAddr = va: int | 0 <= va < VA_LIMIT

  /** Bytes covered by one slot of a node at depth `level`; level 4 is the whole table. */
  function Span(level: int): (s: int)
    ensures s > 0
  {
    if level == 0 then 0x1000
    else if level == 1 then 0x20_0000
    else if level == 2 then 0x4000_0000
    else if level == 3 then 0x80_0000_0000
    else VA_LIMIT
  }

  /** One slot position of the tree: the `num`-th aligned region of size Span(level).
      A slot can hold a page, or it can point to the table node that
      subdivides its region.  Place(4, 0) stands for the root itself.  */
  datatype Place = Place(level: int, num: int)

  const Root: Place := Place(ROOT_LEVEL, 0)

  predicate WfPlace(s: Place) {
    0 <= s.level <= ROOT_LEVEL && 0 <= s.num * Span(s.level) < VA_LIMIT
  }

  /** The slot whose table node contains slot `s`. */
  function Parent(s: Place): Place {
    Place(s.level + 1, s.num / FANOUT)
  }

  function Idx(s: Place): (i: int)
    ensures 0 <= i < FANOUT
  {
    s.num % FANOUT
  }

  /** The `i`-th slot of the table node hanging below `p`. */
  function Child(p: Place, i: int): Place {
    Place(p.level - 1, p.num * FANOUT + i)
  }

  /** Drop the 4KB page offset, then 9 bits for each level. */
  function PageNum(addr: int, level: int): int
    decreases level
  {
    if level <= 0 then addr / 0x1000 else PageNum(addr, level - 1) / FANOUT
  }

  function PtIdxFromAddr(addr: int, depth: int): (i: int)
    ensures 0 <= i < FANOUT
  {
    PageNum(addr, depth) % FANOUT
  }

  /** The slot of depth `level` that `va` falls in. */
  function PlaceOf(va: VAddr, level: int): Place {
    Place(level, PageNum(va, level))
  }

  function Lo(s: Place): int
  {
    s.num * Span(s.level)
  }

  function Hi(s: Place): int
  {
    (s.num + 1) * Span(s.level)
  }

  /** Does `va` lie in the region of slot `s`? */
  predicate Holds(s: Place, va: int)
  {
    Lo(s) <= va < Hi(s)
  }

  lemma ChildInjective(p: Place, i: int)
    requires 0 <= i < FANOUT
    ensures Parent(Child(p, i)) == p && Idx(Child(p, i)) == i
  {}

  lemma ParentChild(s: Place)
    ensures Child(Parent(s), Idx(s)) == s
  {}

  /** Dropping bits level by level is one division by the span of the level. */
  lemma PageNumIsDiv(addr: int, level: int)
    requires 0 <= level <= ROOT_LEVEL
    ensures PageNum(addr, level) == addr / Span(level)
  {
    assert PageNum(addr, 0) == addr / Span(0);
    assert PageNum(addr, 1) == addr / Span(1);
    assert PageNum(addr, 2) == addr / Span(2);
    assert PageNum(addr, 3) == addr / Span(3);
    assert PageNum(addr, 4) == addr / Span(4);
  }

  lemma PlaceOfParent(va: VAddr, level: int)
    requires 0 <= level < ROOT_LEVEL
    ensures Parent(PlaceOf(va, level)) == PlaceOf(va, level + 1)
    ensures Idx(PlaceOf(va, level)) == PtIdxFromAddr(va, level)
    ensures PlaceOf(va, ROOT_LEVEL) == Root
    ensures WfPlace(PlaceOf(va, level))
  {
    PageNumIsDiv(va, level);
    PageNumIsDiv(va, ROOT_LEVEL);
  }

  /** Walking down the indices of `va` reaches exactly the slots that contain `va`. */
  lemma HoldsIffPlaceOf(s: Place, va: VAddr)
    requires 0 <= s.level <= ROOT_LEVEL
    ensures Holds(s, va) <==> s == PlaceOf(va, s.level)
  {
    PageNumIsDiv(va, s.level);
  }

  lemma ChildRange(p: Place, i: int)
    requires 1 <= p.level <= ROOT_LEVEL && 0 <= i < FANOUT
    ensures Lo(Child(p, i)) == Lo(p) + i * Span(p.level - 1)
    ensures Hi(Child(p, i)) == Lo(Child(p, i)) + Span(p.level - 1)
    ensures Hi(p) == Lo(p) + FANOUT * Span(p.level - 1)
    ensures WfPlace(p) ==> WfPlace(Child(p, i))
  {}

  /** Masking the page offset out of `va` gives the start of its slot. */
  lemma PageStart(va: VAddr, level: int)
    requires 0 <= level <= ROOT_LEVEL
    ensures va - va % Span(level) == Lo(PlaceOf(va, level))
  {
    PageNumIsDiv(va, level);
  }

  lemma RegionInParent(s: Place)
    requires 0 <= s.level < ROOT_LEVEL
    ensures Lo(Parent(s)) <= Lo(s) && Hi(s) <= Hi(Parent(s))
  {}

  /** The slots of `va` at growing levels cover growing regions. */
  lemma Nested(va: VAddr, l: int, m: int)
    requires 0 <= l <= m <= ROOT_LEVEL
    ensures Lo(PlaceOf(va, m)) <= Lo(PlaceOf(va, l)) && Hi(PlaceOf(va, l)) <= Hi(PlaceOf(va, m))
    decreases m - l
  {
    hide Lo, Hi, PageNum;
    if l < m {
      Nested(va, l + 1, m);
      PlaceOfParent(va, l);
      RegionInParent(PlaceOf(va, l));
    }
  }

  lemma OwnPlace(s: Place)
    requires 0 <= s.level <= ROOT_LEVEL && WfPlace(s)
    ensures 0 <= Lo(s) < VA_LIMIT && Lo(s) < Hi(s)
    ensures PlaceOf(Lo(s), s.level) == s
  {
    HoldsIffPlaceOf(s, Lo(s));
  }

  /** Division with remainder has one answer. */
  lemma Remainder(x: int, m: int, q: int, r: int)
    requires 0 <= r < m && x == q * m + r
    ensures x % m == r
  {
    var d := x / m - q;
    assert d * m == x / m * m - q * m;
    NoMultiple(d, m);
  }

  /** The only multiple of `m` between -m and m is 0. */
  lemma NoMultiple(d: int, m: int)
    requires m > 0 && -m < d * m < m
    ensures d == 0
  {
    if d >= 1 {
      AtLeast(d, m);
    } else if d <= -1 {
      AtLeast(-d, m);
    }
  }

  lemma AtLeast(d: int, m: int)
    requires d >= 1 && m > 0
    ensures d * m >= m && -d * m == -(d * m)
  {
    assert d * m == (d - 1) * m + m && (d - 1) * m >= 0;
  }

  lemma RoundDown(x: int, m: int)
    requires m > 0
    ensures (x - x % m) % m == 0 && x - m < x - x % m <= x
  {
    Remainder(x - x % m, m, x / m, 0);
  }
}
