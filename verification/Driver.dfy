/** What the table needs from the driver and the operating system.

    Outcomes the model cannot know (success, handles, addresses) are arbitrary
    values; the contracts say what the callers rely on.  */
module Driver {
  import opened Words
  import opened TableMemory
  import opened TableSpec

  /** A live pin: user memory, or a table node with the address the device uses for it. */
  datatype Pin = UserPin | TablePin(pa: int, node: int)

  /** A request to pin user memory, and the answer: a handle and where the pin is. */
  datatype PinRequest = PinRequest(va: int, bytes: int, readOnly: bool, answer: PinAnswer)
  datatype PinAnswer = Refused | Granted(wsid: int, at: int)

  /** The device address that the driver reports for the pin `wsid` at `va`, and the size
      of the physical page there, PageNone when it is not known. */
  datatype AddressAnswer = AddressAnswer(wsid: int, va: int, base: int, size: PageSize)

  /** The page size that the operating system reports for an address, PageNone for a failure. */
  datatype SizeAnswer = SizeAnswer(va: int, size: PageSize)

  /** What has been asked about user memory so far, oldest first. */
  class Requests {
    ghost var pins: seq<PinRequest>
    ghost var addresses: seq<AddressAnswer>
    ghost var sizes: seq<SizeAnswer>

    constructor ()
      ensures pins == [] && addresses == [] && sizes == []
    {
      pins, addresses, sizes := [], [], [];
    }
  }

  class Fpga {
    const asked: Requests
    /** Pins handed out and not yet released, by driver handle. */
    var pinned: map<int, Pin>
    /** Memory of pinned table nodes as the device sees it: device address to host address. */
    var tables: map<int, int>
    /** Pages whose cached translations the FPGA was told to drop, oldest first. */
    var shootdowns: seq<int>
    /** Requests that the driver, the device or the operating system has turned down. */
    ghost var faults: nat

    constructor ()
      ensures pinned == map[] && tables == map[] && shootdowns == [] && fresh(asked)
    {
      asked := new Requests();
      pinned, tables, shootdowns := map[], map[], [];
      faults := 0;
    }

    /** Pin user memory.  A successful call returns a handle that is not in use, and the
        address of the pin, which should be the one asked for. */
    method PrepareBuffer(va: int, bytes: int, readOnly: bool) returns (ok: bool, wsid: int, at: int)
      modifies this`pinned, this`faults, asked`pins
      ensures asked.pins ==
              old(asked.pins) + [PinRequest(va, bytes, readOnly, if ok then Granted(wsid, at) else Refused)]
      ensures ok ==> wsid !in old(pinned) && pinned == old(pinned)[wsid := UserPin]
      ensures !ok ==> pinned == old(pinned)
      ensures faults == if ok && at == va then old(faults) else old(faults) + 1
    {
      wsid, at := *, *;
      var granted: bool := *;
      ok := granted && wsid !in pinned;
      if ok {
        pinned := pinned[wsid := UserPin];
      }
      if !ok || at != va {
        faults := faults + 1;
      }
      asked.pins := asked.pins + [PinRequest(va, bytes, readOnly, if ok then Granted(wsid, at) else Refused)];
    }

    /** Pin one table node.  Its device address is not that of another pinned node. */
    method PrepareTable(node: int) returns (ok: bool, wsid: int, pa: int)
      modifies this`pinned, this`tables, this`faults
      ensures faults == if ok then old(faults) else old(faults) + 1
      ensures ok ==> wsid !in old(pinned) && pa !in old(tables) && PageAligned(pa)
      ensures ok ==> pinned == old(pinned)[wsid := TablePin(pa, node)] && tables == old(tables)[pa := node]
      ensures !ok ==> pinned == old(pinned) && tables == old(tables)
    {
      wsid := *;
      pa := *;
      var granted: bool := *;
      ok := granted && wsid !in pinned && pa !in tables && PageAligned(pa);
      if ok {
        pinned := pinned[wsid := TablePin(pa, node)];
        tables := tables[pa := node];
      } else {
        faults := faults + 1;
      }
    }

    /** Release a live pin; the precondition rules out releasing a handle twice. */
    method ReleaseBuffer(wsid: int)
      requires wsid in pinned
      modifies this`pinned, this`tables
      ensures pinned == old(pinned) - {wsid}
      ensures tables == match old(pinned)[wsid]
                        case UserPin => old(tables)
                        case TablePin(pa, _) => old(tables) - {pa}
    {
      match pinned[wsid] {
        case UserPin =>
        case TablePin(pa, _) => tables := tables - {pa};
      }
      pinned := pinned - {wsid};
    }

    /** Write the shootdown register. */
    method InvalidatePage(va: int) returns (ok: bool)
      modifies this`shootdowns, this`faults
      ensures shootdowns == old(shootdowns) + [va]
      ensures faults == if ok then old(faults) else old(faults) + 1
    {
      shootdowns := shootdowns + [va];
      ok := *;
      if !ok {
        faults := faults + 1;
      }
    }

    /** Map memory for a new node: an aligned user address not in use, or failure. */
    method MapNodeMemory(mem: Memory) returns (ok: bool, node: int)
      modifies this`faults
      ensures faults == if ok then old(faults) else old(faults) + 1
      ensures ok ==> NodeAddrOk(node) && node !in mem
    {
      node := *;
      ok := NodeAddrOk(node) && node !in mem;
      if !ok {
        faults := faults + 1;
      }
    }

    /** The device address of the pin `wsid` at `va`, which should suit a page of `pageSize`. */
    method GetDMAAddress(wsid: int, va: int, pageSize: PageSize) returns (ok: bool, base: int, size: PageSize)
      modifies this`faults, asked`addresses
      ensures 0 <= base && base + SizeToBytes(size) <= 0x1_0000_0000_0000_0000
      ensures base % SizeToBytes(size) == 0
      ensures asked.addresses ==
              if ok then old(asked.addresses) + [AddressAnswer(wsid, va, base, size)] else old(asked.addresses)
      ensures faults == if ok && Suits(base, size, pageSize) then old(faults) else old(faults) + 1
    {
      base, size := *, *;
      ok := 0 <= base && base + SizeToBytes(size) <= 0x1_0000_0000_0000_0000 && base % SizeToBytes(size) == 0;
      if ok {
        asked.addresses := asked.addresses + [AddressAnswer(wsid, va, base, size)];
      } else {
        base, size := 0, PageNone;
      }
      if !ok || !Suits(base, size, pageSize) {
        faults := faults + 1;
      }
    }

    /** The page size that the operating system reports for an address. */
    method OsGetPageSize(va: int) returns (ok: bool, size: PageSize)
      modifies this`faults, asked`sizes
      ensures asked.sizes == old(asked.sizes) + [SizeAnswer(va, size)] && (ok <==> size != PageNone)
      ensures faults == if ok then old(faults) else old(faults) + 1
    {
      size := *;
      ok := size != PageNone;
      asked.sizes := asked.sizes + [SizeAnswer(va, size)];
      if !ok {
        faults := faults + 1;
      }
    }

    /** Memory for a data structure of the library. */
    method Malloc() returns (granted: bool)
      modifies this`faults
      ensures faults == if granted then old(faults) else old(faults) + 1
    {
      granted := *;
      if !granted {
        faults := faults + 1;
      }
    }
  }

  /** A page of `pageSize` can be at the device address `base`, or in the larger physical
      page of `size` that starts there. */
  predicate Suits(base: int, size: PageSize, pageSize: PageSize) {
    SizeToBytes(size) > SizeToBytes(pageSize) || base % AlignmentOf(pageSize) == 0
  }

  /** The alignment that the page table insists on. */
  function AlignmentOf(size: PageSize): (n: int)
    ensures n > 0
  {
    if size == Page4KB then 0x1000 else 0x20_0000
  }
}
