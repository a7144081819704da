/** The table of tracked buffers: a hash table of linked lists. */
module BufferTables {
  import opened TableSpec

  const TABLE_SIZE: int := 1021

  /** Hash buffer address to a bucket in the table. */
  function TableHash(vaddr: int): (h: int)
    requires 0 <= vaddr
    ensures 0 <= h < TABLE_SIZE
  {
    vaddr % 17659 % TABLE_SIZE
  }

  /** A tracked buffer: the address and size given by the user, and the start of
      the page that holds the address. */
  datatype Buffer = Buffer(vaddr: int, size: int, page: int)

  class BufferDesc {
    const vaddr: int
    const size: int
    const pageVaddr: int
    var next: BufferDesc?

    constructor (vaddr: int, size: int, pageVaddr: int, next: BufferDesc?)
      ensures this.vaddr == vaddr && this.size == size && this.pageVaddr == pageVaddr && this.next == next
    {
      this.vaddr, this.size, this.pageVaddr, this.next := vaddr, size, pageVaddr, next;
    }

    function Content(): Buffer {
      Buffer(vaddr, size, pageVaddr)
    }
  }

  /** The contents of the descriptors of a list, in order. */
  ghost function Entries(list: seq<BufferDesc>): seq<Buffer> {
    seq(|list|, i requires 0 <= i < |list| => list[i].Content())
  }

  /** The smallest tracked size at `vaddr`. */
  ghost predicate IsSmallest(m: multiset<Buffer>, e: Buffer) {
    e in m && forall f :: f in m && f.vaddr == e.vaddr ==> e.size <= f.size
  }

  /** All entries of all buckets. */
  ghost function Bag(buckets: seq<seq<Buffer>>): multiset<Buffer> {
    if buckets == [] then multiset{} else multiset(buckets[0]) + Bag(buckets[1..])
  }

  lemma {:induction false} BagUpdate(buckets: seq<seq<Buffer>>, b: nat, list: seq<Buffer>)
    requires b < |buckets|
    ensures Bag(buckets[b := list]) + multiset(buckets[b]) == Bag(buckets) + multiset(list)
  {
    if b == 0 {
      assert buckets[0 := list][1..] == buckets[1..];
    } else {
      var rest := buckets[1..];
      assert buckets[b := list][1..] == rest[b - 1 := list] && rest[b - 1] == buckets[b];
      BagUpdate(rest, b - 1, list);
      var first, after, before := multiset(buckets[0]), Bag(rest[b - 1 := list]), Bag(rest);
      assert Bag(buckets[b := list]) == first + after && Bag(buckets) == first + before;
      assert (first + after) + multiset(buckets[b]) == first + (after + multiset(buckets[b]));
    }
  }

  lemma {:induction false} InBag(buckets: seq<seq<Buffer>>, e: Buffer)
    ensures e in Bag(buckets) <==> exists b :: 0 <= b < |buckets| && e in buckets[b]
  {
    if buckets != [] {
      InBag(buckets[1..], e);
      if b :| 0 <= b < |buckets[1..]| && e in buckets[1..][b] {
        assert e in buckets[b + 1];
      }
      if b :| 0 <= b < |buckets| && e in buckets[b] {
        assert b > 0 ==> e in buckets[1..][b - 1];
      }
    }
  }

  ghost function At(list: seq<BufferDesc>, i: int): BufferDesc? {
    if 0 <= i < |list| then list[i] else null
  }

  lemma Cancel(a: multiset<Buffer>, b: multiset<Buffer>, e: multiset<Buffer>, x: multiset<Buffer>)
    ensures a + x == b + (e + x) ==> a == b + e
    ensures a + (e + x) == b + x ==> a == b - e
  {
    if a + x == b + (e + x) {
      assert (a + x) - x == a && (b + (e + x)) - x == b + e;
    }
    if a + (e + x) == b + x {
      assert (a + (e + x)) - x == a + e && (b + x) - x == b;
      assert (a + e) - e == a;
    }
  }

  /** `list` is the chain that starts at `head`. */
  ghost predicate IsChain(head: BufferDesc?, list: seq<BufferDesc>)
    reads list
  {
    && head == At(list, 0)
    && (forall i :: 0 <= i < |list| ==> list[i].next == At(list, i + 1))
    && (forall i, j :: 0 <= i < j < |list| ==> list[i] != list[j])
  }

  /** Every descriptor of bucket `b` hashes to `b`. */
  ghost predicate Hashed(list: seq<BufferDesc>, b: int) {
    forall i :: 0 <= i < |list| ==> 0 < list[i].vaddr && 0 < list[i].size && TableHash(list[i].vaddr) == b
  }

  lemma Prepended(desc: BufferDesc, head: BufferDesc?, tail: seq<BufferDesc>, b: int)
    requires IsChain(head, tail) && desc !in tail && desc.next == head && Hashed(tail, b)
    requires 0 < desc.vaddr && 0 < desc.size && TableHash(desc.vaddr) == b
    ensures IsChain(desc, [desc] + tail) && Hashed([desc] + tail, b)
  {
    var list := [desc] + tail;
    forall i | 0 <= i < |list| ensures list[i].next == At(list, i + 1) {
      if i > 0 {
        assert tail[i - 1].next == At(tail, i);
      }
    }
  }

  lemma PrependedEntries(desc: BufferDesc, tail: seq<BufferDesc>)
    ensures multiset(Entries([desc] + tail)) == multiset{desc.Content()} + multiset(Entries(tail))
  {
    assert Entries([desc] + tail) == [desc.Content()] + Entries(tail);
  }

  lemma CutEntries(list: seq<BufferDesc>, m: nat)
    requires m < |list|
    ensures multiset(Entries(list)) == multiset{list[m].Content()} + multiset(Entries(list[..m] + list[m + 1..]))
    ensures list[m].Content() in Entries(list)
  {
    assert Entries(list) == Entries(list[..m]) + [list[m].Content()] + Entries(list[m + 1..]);
    assert Entries(list[..m] + list[m + 1..]) == Entries(list[..m]) + Entries(list[m + 1..]);
    assert Entries(list)[m] == list[m].Content();
  }

  class BufferTable {
    const buckets: array<BufferDesc?>
    ghost var lists: seq<seq<BufferDesc>>
    ghost var descs: set<BufferDesc>

    ghost predicate Valid()
      reads this, buckets, descs
    {
      && buckets.Length == TABLE_SIZE == |lists|
      && (forall b, i :: 0 <= b < TABLE_SIZE && 0 <= i < |lists[b]| ==> lists[b][i] in descs)
      && (forall b :: 0 <= b < TABLE_SIZE ==> IsChain(buckets[b], lists[b]) && Hashed(lists[b], b))
    }

    ghost function BucketEntries(): seq<seq<Buffer>>
      reads this
    {
      seq(|lists|, b requires 0 <= b < |lists| reads this => Entries(lists[b]))
    }

    /** The tracked buffers. */
    ghost function Contents(): multiset<Buffer>
      reads this
    {
      Bag(BucketEntries())
    }

    constructor ()
      ensures Valid() && fresh(buckets) && fresh(descs) && Contents() == multiset{}
    {
      buckets := new BufferDesc?[TABLE_SIZE](_ => null);
      lists := seq(TABLE_SIZE, _ => []);
      descs := {};
      new;
      EmptyBag(BucketEntries());
    }

    lemma {:induction false} EmptyBag(buckets: seq<seq<Buffer>>)
      requires forall b :: 0 <= b < |buckets| ==> buckets[b] == []
      ensures Bag(buckets) == multiset{}
    {
      if buckets != [] {
        EmptyBag(buckets[1..]);
      }
    }

    /** Track a buffer.  The descriptor goes to the head of its bucket.  `granted` is
        the outcome of allocating it. */
    method Insert(vaddr: int, size: int, pageVaddr: int, granted: bool) returns (r: FpgaResult)
      requires Valid() && 0 <= vaddr && 0 <= size
      modifies this, buckets
      ensures Valid() && fresh(descs - old(descs))
      ensures r == if vaddr == 0 || size == 0 then Exception else if granted then OK else NoMemory
      ensures Contents() == if r == OK then old(Contents()) + multiset{Buffer(vaddr, size, pageVaddr)} else old(Contents())
    {
      hide IsChain, Hashed, Entries, Bag, TableHash;
      if vaddr == 0 || size == 0 {
        return Exception;
      }
      var idx := TableHash(vaddr);
      if !granted {
        return NoMemory;
      }
      ghost var tail0 := buckets[idx];
      var desc := new BufferDesc(vaddr, size, pageVaddr, buckets[idx]);
      ghost var before, tail := BucketEntries(), lists[idx];
      assert IsChain(buckets[idx], tail) && Hashed(tail, idx);
      assert desc !in tail;
      buckets[idx] := desc;
      lists := lists[idx := [desc] + tail];
      descs := descs + {desc};
      Prepended(desc, tail0, tail, idx);
      Updated(before, idx, [desc] + tail);
      PrependedEntries(desc, tail);
      assert before[idx] == Entries(tail);
      Cancel(Contents(), Bag(before), multiset{desc.Content()}, multiset(Entries(tail)));
      r := OK;
    }

    /** Stop tracking the smallest buffer that starts at `vaddr`; size 0 means there is none. */
    method Remove(vaddr: int) returns (size: int, pageVaddr: int)
      requires Valid() && 0 <= vaddr
      modifies this, descs, buckets
      ensures Valid() && descs == old(descs)
      ensures size == 0 ==> Contents() == old(Contents()) &&
                            forall e :: e in old(Contents()) ==> e.vaddr != vaddr
      ensures size != 0 ==>
                var e := Buffer(vaddr, size, pageVaddr);
                IsSmallest(old(Contents()), e) && Contents() == old(Contents()) - multiset{e}
    {
      hide IsChain, Hashed, Entries, Bag, TableHash, At;
      var idx := TableHash(vaddr);
      size, pageVaddr := 0, 0;
      var matchPrev, found;
      ghost var m;
      PositiveSizes(lists[idx], idx);
      matchPrev, found, m := FindSmallest(buckets[idx], lists[idx], vaddr);
      SearchedBucket(idx, vaddr);
      if found != null {
        size := found.size;
        pageVaddr := found.pageVaddr;
        Unlink(idx, m, matchPrev, found);
      }
    }

    static lemma ChainAt(head: BufferDesc?, list: seq<BufferDesc>, i: int)
      requires IsChain(head, list) && 0 <= i
      ensures head == At(list, 0) && At(list, -1) == null
      ensures i <= |list| ==> (At(list, i) == null <==> i == |list|)
      ensures i < |list| ==> At(list, i) == list[i] && list[i].next == At(list, i + 1)
      ensures 0 < i <= |list| ==> At(list, i - 1) == list[i - 1]
    {}

    lemma PositiveSizes(list: seq<BufferDesc>, b: int)
      requires Hashed(list, b)
      ensures forall i :: 0 <= i < |list| ==> list[i].size > 0
    {}

    /** Search a whole list for the smallest buffer at `vaddr`, the first one among
        equals, and the descriptor before it. */
    static method FindSmallest(head: BufferDesc?, ghost list: seq<BufferDesc>, vaddr: int)
      returns (matchPrev: BufferDesc?, found: BufferDesc?, ghost m: int)
      requires IsChain(head, list) && forall i :: 0 <= i < |list| ==> list[i].size > 0
      ensures found == null ==> forall j :: 0 <= j < |list| ==> list[j].vaddr != vaddr
      ensures found != null ==>
                && 0 <= m < |list| && found == list[m] && found.vaddr == vaddr && matchPrev == At(list, m - 1)
                && (forall j :: 0 <= j < |list| && list[j].vaddr == vaddr ==> found.size <= list[j].size)
                && forall j :: 0 <= j < m && list[j].vaddr == vaddr ==> found.size < list[j].size
    {
      hide IsChain, At;
      ChainAt(head, list, 0);
      matchPrev, found, m := null, null, 0;
      var size := 0;
      var cur: BufferDesc? := null;
      var next := head;
      ghost var i := 0;
      while next != null
        invariant 0 <= i <= |list|
        invariant next == At(list, i) && cur == At(list, i - 1)
        invariant found == null ==> size == 0 && forall j :: 0 <= j < i ==> list[j].vaddr != vaddr
        invariant found != null ==>
                    && 0 <= m < i && found == list[m] && size == found.size && found.vaddr == vaddr
                    && matchPrev == At(list, m - 1)
                    && (forall j :: 0 <= j < i && list[j].vaddr == vaddr ==> size <= list[j].size)
                    && forall j :: 0 <= j < m && list[j].vaddr == vaddr ==> size < list[j].size
        decreases |list| - i
      {
        ChainAt(head, list, i);
        ChainAt(head, list, i + 1);
        if next.vaddr == vaddr && (size == 0 || next.size < size) {
          size := next.size;
          found := next;
          matchPrev := cur;
          m := i;
        }
        cur := next;
        next := cur.next;
        i := i + 1;
      }
      ChainAt(head, list, i);
    }

    /** Take the `m`-th descriptor out of the list of bucket `idx`. */
    method Unlink(idx: int, ghost m: int, matchPrev: BufferDesc?, found: BufferDesc)
      requires Valid() && 0 <= idx < TABLE_SIZE && 0 <= m < |lists[idx]| && found == lists[idx][m]
      requires matchPrev == At(lists[idx], m - 1)
      modifies this, descs, buckets
      ensures Valid() && descs == old(descs)
      ensures Contents() == old(Contents()) - multiset{found.Content()}
      ensures found.Content() in old(Contents())
    {
      hide Hashed, Entries, Bag, TableHash, IsChain;
      ghost var list := lists[idx];
      ghost var rest := list[..m] + list[m + 1..];
      ghost var before := BucketEntries();
      ghost var head := buckets[idx];
      assert IsChain(head, list) && Hashed(list, idx);
      ElsewhereHashed(idx, m - 1);
      CutHashed(list, m, idx);
      CutEntries(list, m);
      InBag(before, found.Content());
      head := CutChain(head, list, m, matchPrev, found);
      if matchPrev == null {
        buckets[idx] := found.next;
      }
      lists := lists[idx := rest];
      Updated(before, idx, rest);
      assert before[idx] == Entries(list);
      Cancel(Contents(), Bag(before), multiset{found.Content()}, multiset(Entries(rest)));
    }

    /** A descriptor is in the list of no other bucket. */
    lemma ElsewhereHashed(idx: int, k: int)
      requires Valid() && 0 <= idx < TABLE_SIZE && k < |lists[idx]|
      ensures 0 <= k ==> forall b :: 0 <= b < TABLE_SIZE && b != idx ==> lists[idx][k] !in lists[b]
    {
      hide IsChain;
      if 0 <= k {
        forall b | 0 <= b < TABLE_SIZE && b != idx ensures lists[idx][k] !in lists[b] {
          assert Hashed(lists[b], b) && Hashed(lists[idx], idx);
        }
      }
    }

    lemma CutHashed(list: seq<BufferDesc>, m: nat, b: int)
      requires m < |list| && Hashed(list, b)
      ensures Hashed(list[..m] + list[m + 1..], b)
    {}

    /** Redirect the descriptor before `found`, if there is one, past it. */
    static method CutChain(ghost head: BufferDesc?, ghost list: seq<BufferDesc>, ghost m: int,
                           matchPrev: BufferDesc?, found: BufferDesc) returns (ghost head': BufferDesc?)
      requires IsChain(head, list) && 0 <= m < |list| && found == list[m] && matchPrev == At(list, m - 1)
      modifies if matchPrev == null then {} else {matchPrev}
      ensures IsChain(head', list[..m] + list[m + 1..])
      ensures head' == if matchPrev == null then found.next else head
    {
      ghost var rest := list[..m] + list[m + 1..];
      if matchPrev != null {
        matchPrev.next := found.next;
      }
      head' := if matchPrev == null then found.next else head;
      forall i | 0 <= i < |rest| ensures rest[i].next == At(rest, i + 1) {
        if i >= m {
          assert list[i + 1].next == At(list, i + 2);
        }
      }
    }

    /** Replacing one list changes the bag by that list alone. */
    lemma Updated(before: seq<seq<Buffer>>, idx: int, list: seq<BufferDesc>)
      requires 0 <= idx < |before| == |lists| && lists[idx] == list
      requires forall b :: 0 <= b < |lists| && b != idx ==> before[b] == Entries(lists[b])
      ensures Contents() + multiset(before[idx]) == Bag(before) + multiset(Entries(list))
    {
      assert BucketEntries() == before[idx := Entries(list)];
      BagUpdate(before, idx, Entries(list));
    }

    /** All entries at `vaddr` are in its bucket. */
    lemma SearchedBucket(idx: int, vaddr: int)
      requires Valid() && 0 <= vaddr && idx == TableHash(vaddr)
      ensures forall e :: e in Contents() && e.vaddr == vaddr ==>
                exists j :: 0 <= j < |lists[idx]| && lists[idx][j].Content() == e
    {
      forall e | e in Contents() && e.vaddr == vaddr
        ensures exists j :: 0 <= j < |lists[idx]| && lists[idx][j].Content() == e
      {
        InBag(BucketEntries(), e);
        var b :| 0 <= b < |BucketEntries()| && e in BucketEntries()[b];
        assert e in Entries(lists[b]);
        var j :| 0 <= j < |lists[b]| && Entries(lists[b])[j] == e;
        assert Hashed(lists[b], b);
      }
    }
  }
}
