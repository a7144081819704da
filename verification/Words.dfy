/** 64-bit table words.

    A table word is an address whose six low bits are flags.  It is kept here as
    the address part together with the set of flag bits that are 1, so that
    ORing flags in is a union, masking them out is a difference, and the address
    mask is a projection.  Bits gives back the 64-bit number.  */
module Words {

  datatype Flag = Terminal | Alloc | Prealloc | Invalid | InUse | ReadOnly

  datatype Word = Word(addr: int, flags: set<Flag>)

  const AllFlags: set<Flag> := {Terminal, Alloc, Prealloc, Invalid, InUse, ReadOnly}

  /** All 64 bits set: the marker of an empty entry.  Note that the Terminal and
      Invalid bits are set in it too. */
  const EMPTY: Word := Word(0xFFFF_FFFF_FFFF_FFC0, AllFlags)

  /** The null pointer. */
  const NULL: int := 0

  function Bit(f: Flag): int {
    match f
    case Terminal => 1
    case Alloc => 2
    case Prealloc => 4
    case Invalid => 8
    case InUse => 16
    case ReadOnly => 32
  }

  function BitIf(flags: set<Flag>, f: Flag): int {
    if f in flags then Bit(f) else 0
  }

  /** The number formed by the flag bits. */
  function FlagBits(flags: set<Flag>): (n: int)
    ensures 0 <= n < 64
  {
    BitIf(flags, Terminal) + BitIf(flags, Alloc) + BitIf(flags, Prealloc) +
    BitIf(flags, Invalid) + BitIf(flags, InUse) + BitIf(flags, ReadOnly)
  }

  predicate IsWord(w: Word) {
    0 <= w.addr < 0x1_0000_0000_0000_0000 && w.addr % 64 == 0
  }

  /** The 64-bit number a word stands for. */
  function Bits(w: Word): (n: int)
    requires IsWord(w)
    ensures 0 <= n < 0x1_0000_0000_0000_0000
  {
    w.addr + FlagBits(w.flags)
  }

  lemma FlagBitsInjective(f: set<Flag>, g: set<Flag>)
    requires FlagBits(f) == FlagBits(g)
    ensures f == g
  {
    assert Terminal in f <==> Terminal in g;
    assert Alloc in f <==> Alloc in g;
    assert Prealloc in f <==> Prealloc in g;
    assert Invalid in f <==> Invalid in g;
    assert InUse in f <==> InUse in g;
    assert ReadOnly in f <==> ReadOnly in g;
    forall x: Flag ensures x in f <==> x in g {
      if x != Terminal && x != Alloc && x != Prealloc && x != Invalid && x != InUse {
        assert x == ReadOnly;
      }
    }
  }

  lemma SplitUnique(a: int, x: int, b: int, y: int)
    requires a % 64 == b % 64 == 0 && 0 <= x < 64 && 0 <= y < 64
    requires a + x == b + y
    ensures a == b
  {}

  /** Different words are different 64-bit numbers. */
  lemma BitsInjective(v: Word, w: Word)
    requires IsWord(v) && IsWord(w)
    ensures Bits(v) == Bits(w) <==> v == w
  {
    if Bits(v) == Bits(w) {
      SplitUnique(v.addr, FlagBits(v.flags), w.addr, FlagBits(w.flags));
      FlagBitsInjective(v.flags, w.flags);
    }
  }

  /** EMPTY is minus one, and no other word is. */
  lemma EmptyIsMinusOne(w: Word)
    requires IsWord(w)
    ensures Bits(w) == 0xFFFF_FFFF_FFFF_FFFF <==> w == EMPTY
  {
    BitsInjective(w, EMPTY);
  }

  /** Addresses stored in the table are at least 4KB aligned. */
  predicate PageAligned(a: int) {
    0 <= a < 0x1_0000_0000_0000_0000 && a % 0x1000 == 0
  }
}
