# Address translation of the MPF VTP service

A Dafny model of the virtual-to-physical translation service of the MPF building
blocks: the reference-counted page table that software and FPGA share, the buffer
and pin layer above it, the kernel monitor that keeps it coherent with the process's
memory, the translation server, and the legacy AAL table with its allocator.

`dafny verify dfyconfig.toml` checks everything.

## How the model is built

| files | what they hold |
|---|---|
| `Addresses`, `Words` | 9-bit index arithmetic; 64-bit words with flag bits |
| `TableView`, `TableMemory` | the table as a map of pages, and the 512-entry nodes that represent it; software and hardware walks |
| `FpgaTlb` | what the FPGA keeps of a translation, and where it takes a byte by it |
| `TableSpec`, `RangeSpec`, `TeardownSpec` | what insertion, removal, translation, range release and teardown mean |
| `TableSteps`, `TablePins` | effect of each node primitive on the table and on the pins |
| `Driver` | pins, device mappings and shootdowns, as the driver keeps them |
| `PageTable`, `TableTheorems` | the page table class with its search cache, and laws across operations |
| `BufferTable`, `ReleaseWalk`, `PinSpec`, `BufferRuns`, `Vtp` | hash table of tracked buffers, the release walk, pin loops, runs of prepares and releases, and the service class |
| `MmuMonitor`, `MonitorProtocol`, `MonitorRuns` | the kernel's event queue and filter; the protocol as a state machine over all interleavings, with the history of what was pinned, reported, refused and applied; runs that leave a stale byte, and the code's operations as steps |
| `VtpServer` | the request ring, both ends |
| `AalTree`, `AalState`, `AalTable` | the legacy forward and reverse tables and the free list of table pages |
| `AalTiling`, `AalAllocator` | the legacy allocator and its inverse |

Each class is proved against values: a ghost view says which pages are mapped, an
invariant ties the node memory to it, and every method states the new view.  Facts
about runs are lemmas over the views.

## Assumptions

* Virtual addresses are below 2^48; the root index masks higher bits.  Physical
  addresses used by the legacy reverse table are below 2^48 too.
* A table word is kept as its address part and its set of flags; `Words` proves that
  nothing of the 64-bit number is lost.  Legacy entries are kept alike.
* Node memory is a map from host addresses to nodes, because the entries are host
  addresses; update in place is a reassignment of that map.
* The driver and the operating system answer with arbitrary values.  Only this is
  relied on: handles and new memory are not in use already, table pages are 4KB
  aligned, a larger physical page is aligned to its size, regions of a process are
  sorted and disjoint, newly mapped memory overlaps no page of the table, and a
  reservation of address space is not resized to nothing.
* Requests that the outside turns down, or answers with something that does not fit (a
  pin elsewhere, a device address that is not aligned), are counted, so that contracts
  can say that an operation fails only for such a request or for a reason visible in its
  inputs.  What was asked about user memory, and the answers, are kept in a log, so that
  contracts can say what was asked for and that the answer was used.
* The page table mutex makes each table operation atomic, and the driver's list lock
  each kernel step.  A byte inside an invalidation under way is not mapped before the
  invalidation ends, and a byte that is unmapped and mapped again counts as a new mapping.
* Counters, among them reference counts, are unbounded integers.

## What turned out not to hold

* Releasing a buffer advances by page size from the recorded start without aligning to
  the page: `ReleaseWalks.WalkExactIff` says exactly when that is right, and
  `BufferRuns.MisalignedWalkLeaks` is a run of two buffers that leaves a page behind.
* A buffer allocated with its length rounded up is tracked with the length asked for,
  so pages in the padding outlive it: `BufferRuns.AllocatedReleaseIff` says exactly
  when, and `Vtps.PaddingOutlivesBuffer` is a request of 200KB that leaves 462 pages.
* A settled table can hold stale translations.  `MonitorProtocol.SettledStaleIff` says
  exactly when, and there are two causes: the event queue refused a range, as
  `MonitorRuns.RefusedRangeStaysStale` shows with 101 events queued, or the page had more
  references than ranges that touched it, as `MonitorRuns.SharedPageStaysStale` shows.
* The FPGA's page table walker takes a 1GB page for a 4KB page, and the comment at
  shim_vtp.c:618 says that VTP hardware cannot deal with 1GB pages; but pinning on demand
  inserts a page of the size that the system reports, whatever that limit is:
  `PageTables.PageTable.HardwareAddressRightIff` and `TableTheorems.OneGigabyteMisread`.
* Responses of the translation server cannot tell 1GB pages from 4KB pages either:
  `VtpServers.ResponseRightIff`.
* 1GB insertions are checked for 2MB alignment only, so a page can map the address asked
  for to another than the one given: `TableTheorems.MapsToItsAddressIff`.
* A 1GB insertion can be refused on a table that maps nothing:
  `TableTheorems.OneGigabyteRefusedOnEmptyTable`.
* A legacy buffer of less than 2MB cannot be allocated when the address space reserved
  for it happens to start on a 2MB boundary, because the reservation would have to be
  resized to nothing: `AalAllocators.Mpfvtp.SmallPages`.
* The legacy allocator leaves memory with the driver when the table refuses to map it:
  `AalAllocators.Mpfvtp.Allocate`.
* The START mark of the legacy allocator is not unique:
  `AalTilings.SecondStartFreesTail`.
* The search cache is documented as serving addresses on the same node; the code
  accepts only addresses on the same page, and the model follows the code.

## Model

| member | source | states |
|---|---|---|
| Addresses.HoldsIffPlaceOf | BBB_cci_mpf/sw/src/libmpf/shim_vtp_pt.c:336-351 | the slot reached by the four 9-bit indices of an address is the one aligned region of its level that contains the address, and no other |
| Words.BitsInjective | BBB_cci_mpf/sw/src/libmpf/shim_vtp_pt.c:158-248 | a table word determines its address part and every flag bit: two words are equal exactly when their 64-bit numbers are |
| Words.EmptyIsMinusOne | BBB_cci_mpf/sw/src/libmpf/shim_vtp_pt.c:75-141 | the empty marker is the number with all 64 bits set, so its terminal bit is set too and existence has to be asked first |
| TableView.PagesDisjoint | BBB_cci_mpf/sw/src/libmpf/shim_vtp_pt.c:476-564 | no address is mapped by two pages, whatever their sizes |
| TableView.PageAtExact | BBB_cci_mpf/sw/src/libmpf/shim_vtp_pt.c:571-638 | looking up an address yields a page exactly when that page is in the table and its region holds the address |
| TableMemory.SwWalkIsLookup | BBB_cci_mpf/sw/src/libmpf/shim_vtp_pt.c:571-638 | the pointer walk of the software vectors from the root ends in the slot of the page that maps the address, or at the depth where the path stops |
| TableMemory.SwWalkFromPath | BBB_cci_mpf/sw/src/libmpf/shim_vtp_pt.c:571-612 | a walk started at any live node on the path of an address ends as the walk from the root does |
| TableMemory.HardwareAgreesWithSoftware | BBB_cci_mpf/hw/rtl/mpf-services/vtp/mpf-vtp-pt/mpf_svc_vtp_pt_walk.sv:720-737 | the FPGA, walking the hardware vectors by physical address, and software, walking the software vectors by pointer, hit and miss alike, on words equal up to the in-use bit; the FPGA's answer is the page number of that word with the big bit set exactly for 2MB pages, and it never leaves the nodes |
| PageTables.PageTable.HardwareWalk | BBB_cci_mpf/hw/rtl/mpf-services/vtp/mpf-vtp-pt/mpf_svc_vtp_pt_walk.sv:720-737 | in every valid state with a hardware walker, its walk from the root address answers with the page that maps the address, marked big exactly for a 2MB page, or that none does |
| PageTables.PageTable.HardwareAddressRightIff | BBB_cci_mpf/hw/rtl/mpf-services/vtp/mpf-vtp-pt/mpf_svc_vtp_pt_walk.sv:729-733 | in every such state the address that the FPGA uses for a mapped byte is the page table's if and only if the page is 4KB or 2MB, or the byte is in the first 4KB of a 1GB page |
| FpgaTlb.RightIff | BBB_cci_mpf/hw/rtl/mpf-services/vtp/mpf-vtp-pt/mpf_svc_vtp_pt_walk.sv:729-733 | one size bit places a byte of a page rightly exactly when the page is 4KB or 2MB or the byte is in the first 4KB of a 1GB page |
| TableSteps.InsertSlot | BBB_cci_mpf/sw/src/libmpf/shim_vtp_pt.c:227-248 | storing a translation in an unused slot adds exactly that page with count 1 to what memory represents |
| TableSteps.RemoveSlot | BBB_cci_mpf/sw/src/libmpf/shim_vtp_pt.c:306-316 | removing a translation takes exactly that page away |
| TableSteps.BumpSlot | BBB_cci_mpf/sw/src/libmpf/shim_vtp_pt.c:275-304 | counting a reference changes one count, and the flags only as preallocation demands, in both vectors alike |
| TableSteps.UnbumpSlot | BBB_cci_mpf/sw/src/libmpf/shim_vtp_pt.c:263-273 | dropping a reference changes one count and nothing else |
| TableSteps.LinkNode | BBB_cci_mpf/sw/src/libmpf/shim_vtp_pt.c:210-225 | hanging an empty node in an unused slot keeps the tree and all its pages |
| TableSteps.UnlinkNode | BBB_cci_mpf/sw/src/libmpf/shim_vtp_pt.c:82-93 | resetting the link of a node without occupied slots keeps the tree and all its pages |
| TableSteps.MarkInUse | BBB_cci_mpf/sw/src/libmpf/shim_vtp_pt.c:186-208 | setting or clearing the in-use bit changes nothing that the table means |
| PageTables.NodeIsEmpty | BBB_cci_mpf/sw/src/libmpf/shim_vtp_pt.c:95-112 | true exactly when none of the 512 entries is used |
| PageTables.PageTable.constructor | BBB_cci_mpf/sw/src/libmpf/shim_vtp_pt.c:894-934 | a new table is valid and maps nothing; the root is missing exactly when a request to the outside was turned down, and then no pin is left behind |
| PageTables.PageTable.AllocTableNode | BBB_cci_mpf/sw/src/libmpf/shim_vtp_pt.c:375-431 | a new node is fresh, empty and, with a hardware walker, pinned under a fresh handle and address; failure comes from outside and leaves memory and pins as they were |
| PageTables.Walk | BBB_cci_mpf/sw/src/libmpf/shim_vtp_pt.c:601-638 | the descending loop computes the recursive walk from its start node, with the same stopping depth |
| PageTables.PageTable.FindTerminalNodeAndIndex | BBB_cci_mpf/sw/src/libmpf/shim_vtp_pt.c:571-638 | with or without a cached node the result, node, index and depth are those of the uncached walk from the root, and the cache is right afterwards |
| PageTables.PageTable.FreeTableNode | BBB_cci_mpf/sw/src/libmpf/shim_vtp_pt.c:434-473 | the node's memory and pin are given back and no cached node remains, so a freed node is never searched; with a hardware walker the FPGA is told first to forget the node, when asked to |
| PageTables.PageTable.LinkNewNode | BBB_cci_mpf/sw/src/libmpf/shim_vtp_pt.c:496-508 | one empty node is added in the unused slot, or nothing changes |
| PageTables.PageTable.DropEmptyNode | BBB_cci_mpf/sw/src/libmpf/shim_vtp_pt.c:532-545 | exactly the empty node disappears; pages and user pins stay; the FPGA that walks the table is told to forget it |
| PageTables.PageTable.InsertAtLeaf | BBB_cci_mpf/sw/src/libmpf/shim_vtp_pt.c:523-563 | the leaf cases of an insertion: count, refuse, replace an empty node, or store |
| PageTables.PageTable.AddVAtoTable | BBB_cci_mpf/sw/src/libmpf/shim_vtp_pt.c:476-564 | the page covering the address at that size or larger gets one more reference; or a page with count 1 is added; or, with the pages unchanged, a subdivided slot is refused or a node cannot be allocated, which only the outside can cause; the FPGA is told to forget an empty node that gives way |
| PageTables.PageTable.InsertPageMapping | BBB_cci_mpf/sw/src/libmpf/shim_vtp_pt.c:969-1002 | misaligned requests are refused with nothing changed, others are AddVAtoTable at the level of the size; the handle is recorded exactly when a page is added |
| PageTables.PageTable.ClearInUseFlag | BBB_cci_mpf/sw/src/libmpf/shim_vtp_pt.c:1005-1024 | one bit of one software word is cleared, if the address is mapped, and nothing else in memory changes |
| PageTables.PageTable.RemovePageMapping | BBB_cci_mpf/sw/src/libmpf/shim_vtp_pt.c:1027-1092 | not found, decremented with busy, or deleted with the last reference; reports address, handle, flags and size of that page; all other pages and all nodes stay |
| PageTables.PageTable.TranslateVAtoPA | BBB_cci_mpf/sw/src/libmpf/shim_vtp_pt.c:1112-1162 | succeeds exactly on mapped addresses with start, address, size and flags of the page; a failure reports the size of the level where the search stopped; memory changes at most in the in-use bit of that page |
| PageTables.PageTable.ExtendVecVAtoPA | BBB_cci_mpf/sw/src/libmpf/shim_vtp_pt.c:1165-1208 | the results translate the pages that follow the last one found, stay in its node and under the limit, and end only at the limit, at the node's end or at a slot without a page |
| PageTables.PageTable.ReleasePage | BBB_cci_mpf/sw/src/libmpf/shim_vtp_pt.c:755-759 | one page leaves the table, its pin is returned and, with hardware VTP, its address is shot down on the FPGA |
| PageTables.PageTable.ReleaseRangeNode | BBB_cci_mpf/sw/src/libmpf/shim_vtp_pt.c:707-808 | the recursive release of one subtree: its pages lose what the range takes, emptied nodes that the range touches are unlinked and freed, and the result is true exactly when a slot is still in use |
| PageTables.PageTable.ReleaseRange | BBB_cci_mpf/sw/src/libmpf/shim_vtp_pt.c:1095-1109 | pages apart from the range keep everything, the others lose one reference and vanish with the last; only nodes touching the range go, and those left there are not empty; with hardware VTP every page that vanishes was shot down; pins of other pages are untouched; the same holds for the nodes, when the hardware walks the table |
| PageTables.PageTable.FreeTableAndPinnedPages | BBB_cci_mpf/sw/src/libmpf/shim_vtp_pt.c:644-701 | teardown of a subtree removes exactly its nodes from memory and exactly the pins of its pages and nodes, and unmaps each page that VTP allocated at the start that a lookup resolves to it |
| PageTables.PageTable.Term | BBB_cci_mpf/sw/src/libmpf/shim_vtp_pt.c:937-958 | after teardown no node is left, the only user pins left are those no page recorded, no node pin is left, and each allocated page was unmapped once |
| TableTheorems.TwoMegabyteRefusedIff | BBB_cci_mpf/sw/src/libmpf/shim_vtp_pt.c:532-542 | a 2MB insertion that does not run out of memory is refused exactly when a 4KB page is mapped in its region |
| TableTheorems.OneGigabyteRefusedIff | BBB_cci_mpf/sw/src/libmpf/shim_vtp_pt.c:532-542 | a 1GB insertion that does not run out of memory is refused exactly when a smaller page, or a possibly empty node for 4KB pages, is in its region |
| TableTheorems.OneGigabyteRefusedOnEmptyTable | BBB_cci_mpf/sw/src/libmpf/shim_vtp_pt.c:532-542 | a sequence of one insertion and one removal leaves a table that maps nothing and yet refuses a 1GB page |
| TableTheorems.OneGigabyteMisread | BBB_cci_mpf/hw/rtl/mpf-services/vtp/mpf-vtp-pt/mpf_svc_vtp_pt_walk.sv:729-733 | an insertion of a 1GB page into an empty table, the node memory that holds it, and an address on it for which the FPGA uses the first byte of the page |
| TableTheorems.CountedOnceMore | BBB_cci_mpf/sw/src/libmpf/shim_vtp_pt.c:275-304 | counting a mapped page again keeps its address, handle and every mark but two: it becomes preallocated, and no longer MPF-allocated, exactly when the request is preallocated; every other page stays |
| TableTheorems.AddedAsAsked | BBB_cci_mpf/sw/src/libmpf/shim_vtp_pt.c:227-248 | a new page has the address, handle and marks of the request, but for the in-use mark, and count 1; every other page stays |
| TableTheorems.ReferenceDropped | BBB_cci_mpf/sw/src/libmpf/shim_vtp_pt.c:1027-1092 | a removal takes one reference from the page that holds the address, or the page with the last one; of a page that stays only the count changes |
| TableTheorems.ReleasedByByte | BBB_cci_mpf/sw/src/libmpf/shim_vtp_pt.c:707-808 | a range release takes a reference from a page exactly when a byte of the page is in the range, and nothing else of it |
| TableTheorems.MapsToItsAddressIff | BBB_cci_mpf/sw/src/libmpf/shim_vtp_pt.c:983-986 | a new page takes the virtual address it was inserted for to the physical address it was inserted with if and only if the virtual address is aligned to the page's size, which the insertion does not check for 1GB pages |
| TableTheorems.InsertThenRemove | BBB_cci_mpf/sw/src/libmpf/shim_vtp_pt.c:1027-1092 | removing what was just inserted restores the pages, or the count of the page that covered it |
| TableTheorems.InsertIsLocal | BBB_cci_mpf/sw/src/libmpf/shim_vtp_pt.c:476-564 | a new page changes the lookup of the addresses it holds and of no others |
| TableTheorems.BatchIsSingle | BBB_cci_mpf/sw/src/libmpf/shim_vtp_pt.c:1165-1208 | the k-th batched result is what a single translation of page start plus k times page size gives |
| TableTheorems.ReleasesCommute | BBB_cci_mpf/sw/src/libmpf/shim_vtp_pt.c:707-808 | two range releases can be applied in either order |
| TableTheorems.ReleaseSeenByLookup | BBB_cci_mpf/sw/src/libmpf/shim_vtp_pt.c:707-808 | what a lookup of any address gives after a range release, from what it gave before |
| BufferTables.BufferTable.constructor | BBB_cci_mpf/sw/src/libmpf/shim_vtp_buffers.c:64-94 | a new table tracks nothing |
| BufferTables.BufferTable.Insert | BBB_cci_mpf/sw/src/libmpf/shim_vtp_buffers.c:126-162 | exactly one descriptor is added to the multiset of tracked buffers, or none, exactly on a null address, zero size or failed allocation |
| BufferTables.BufferTable.Remove | BBB_cci_mpf/sw/src/libmpf/shim_vtp_buffers.c:165-240 | one descriptor of smallest size at the address leaves the multiset and its size and page are returned; 0 exactly when none is tracked there, with nothing changed |
| BufferTables.BufferTable.Unlink | BBB_cci_mpf/sw/src/libmpf/shim_vtp_buffers.c:213-230 | unlinking a list entry removes exactly that descriptor, at the head or behind another |
| BufferTables.BagUpdate | BBB_cci_mpf/sw/src/libmpf/shim_vtp_buffers.c:126-240 | changing one bucket changes the contents of the whole table by the difference of that bucket |
| Vtps.Vtp.PinAndInsertPage | BBB_cci_mpf/sw/src/libmpf/shim_vtp.c:441-562 | one request to pin goes out, read-only exactly when asked for; success maps the pinned page, at the address asked for, to the device address reported for it, and tells the FPGA to drop old translations; every failure leaves the pages and the set of unrecorded pins as they were, and has a reason: a request turned down, a misfit of size and address, or smaller pages in the region |
| Vtps.Vtp.DevicePa | BBB_cci_mpf/sw/src/libmpf/shim_vtp.c:504-529 | the device address mapped is the driver's answer, or the part of a larger physical page in which every byte of the page lies where the larger page has it |
| Vtps.RecoveredByte | BBB_cci_mpf/sw/src/libmpf/shim_vtp.c:512-529 | the address computed for a small page inside a larger physical page places every byte where the larger page has it |
| Vtps.Vtp.CountExisting | BBB_cci_mpf/sw/src/libmpf/shim_vtp.c:117-140 | counting a mapped page again cannot fail and changes one count, so the source's return from this point with its mutex held never happens |
| Vtps.Vtp.PinNewPage | BBB_cci_mpf/sw/src/libmpf/shim_vtp.c:143-174 | one new page of the asked size with the flags asked for, at the device address reported for its pin, or the pages unchanged; it fails only when the outside turns a request down or smaller pages divide a 2MB region |
| Vtps.Vtp.PinPageAt | BBB_cci_mpf/sw/src/libmpf/shim_vtp.c:108-187 | one turn of the pin loop counts the page there without a request, or asks for a 2MB page where one fits and for a 4KB page otherwise or when that was not possible, and ends at the end of the page |
| Vtps.Vtp.PinRegion | BBB_cci_mpf/sw/src/libmpf/shim_vtp.c:95-196 | on success every byte of the region is mapped, each page touching it has one more reference, new pages start with one and the flags asked for and other pages are unchanged; it fails only when the outside turns a request down, and has then done this up to the address reached; all requests to pin are read-only exactly when the buffer is |
| Vtps.Vtp.PreallocBuffer | BBB_cci_mpf/sw/src/libmpf/shim_vtp.c:202-268 | the buffer is pinned from its start rounded down to the page size that the system reports for it; null address or zero length is refused with nothing changed, and there is no other failure but from outside |
| Vtps.Vtp.AllocBuffer | BBB_cci_mpf/sw/src/libmpf/shim_vtp.c:274-350 | freshly mapped memory of the length rounded to its page size is pinned, the first page starting where the buffer does, without a pin to spare |
| Vtps.RoundedLengthIs | BBB_cci_mpf/sw/src/libmpf/shim_vtp.c:279-301 | the length allocated is the least multiple of the page size that holds the request, which is 1GB above 768MB and 2MB above 128KB where the platform has such pages, else 4KB |
| Vtps.Vtp.PrepareBuffer | BBB_cci_mpf/sw/src/libmpf/shim_vtp.c:771-810 | a successful prepare pins the extent and tracks exactly the buffer; a failed one tracks nothing, and has a reason: the outside, a zero length, a null address or no memory; the pages added are read-only, preallocated and MPF-allocated exactly as the request says |
| Vtps.Vtp.DropPageAt | BBB_cci_mpf/sw/src/libmpf/shim_vtp.c:868-913 | one reference to the page at the address goes; with the last, the page leaves, is shot down with hardware VTP, and is unpinned; if the shootdown fails its pin, and no other, is lost |
| Vtps.Vtp.ReleaseBuffer | BBB_cci_mpf/sw/src/libmpf/shim_vtp.c:823-950 | the smallest buffer tracked at the address is forgotten and the table is what the page-by-page walk leaves; no pin is lost unless the FPGA write fails, and then exactly one; with hardware VTP every page that leaves was shot down; the memory is given back if and only if no lookup failed, no page visited stays mapped, and one of them is marked as allocated by MPF |
| Vtps.PaddingOutlivesBuffer | BBB_cci_mpf/sw/src/libmpf/shim_vtp.c:274-350 | a request of 200KB is rounded to 2MB and pinned as 512 pages of 4KB; its release takes 50 of them and leaves 462 |
| Vtps.Vtp.PinOnDemand | BBB_cci_mpf/sw/src/libmpf/shim_vtp.c:1029-1117 | an unmapped address gets one new page with count 1 that holds it, of 4KB where a node for 4KB pages is and else of the size that the system reports, at the device address reported for its pin; or the pages stay because the outside turned a request down or smaller pages divide the region; the page is asked for read-only exactly when that will do and the request for writing was refused |
| Vtps.Vtp.PinAndGetIOAddressVec | BBB_cci_mpf/sw/src/libmpf/shim_vtp.c:980-1121 | mapped addresses give the addresses and read-only marks of consecutive pages, up to the limit, the node's end or the first gap, and change nothing; unmapped ones are pinned unless only a lookup was asked for, and the mark tells how; no pin is lost on any path; a mapped address needs no request, and a read-only page means that writing was refused |
| ReleaseWalks.WalkExactIff | BBB_cci_mpf/sw/src/libmpf/shim_vtp.c:859-932 | releasing page by page takes one reference from exactly the pages the buffer touches if and only if every later page, at the distance from its start that the buffer begins in the first page, is still inside page and buffer |
| ReleaseWalks.AlignedWalkExact | BBB_cci_mpf/sw/src/libmpf/shim_vtp.c:859-932 | a release that starts at a page start is always exact |
| ReleaseWalks.UnreferencedIsReleased | BBB_cci_mpf/sw/src/libmpf/shim_vtp.c:859-932 | the exact effect of releasing a buffer is that of releasing its range |
| BufferRuns.PrepareExact | BBB_cci_mpf/sw/src/libmpf/shim_vtp.c:95-196 | a successful prepare keeps every page's count equal to the number of live buffers that touch it |
| BufferRuns.ReleaseExact | BBB_cci_mpf/sw/src/libmpf/shim_vtp.c:823-950 | so does a release, which also runs to the end of the buffer |
| BufferRuns.RunExact | BBB_cci_mpf/sw/src/libmpf/shim_vtp.c:771-950 | after any run of prepares and releases every page's count is the number of live buffers that touch it |
| BufferRuns.RunDrains | BBB_cci_mpf/sw/src/libmpf/shim_vtp.c:771-950 | a run that has released all its buffers leaves no page mapped |
| BufferRuns.HonestPageSize | BBB_cci_mpf/sw/src/libmpf/shim_vtp.c:239-266 | if the reported page size is at least the table's page size at the buffer's start, the recorded start is a page start |
| BufferRuns.PreparedIsStep | BBB_cci_mpf/sw/src/libmpf/shim_vtp.c:239-266 | a successful preparation of a user buffer is a step of such runs when the reported page size is honest |
| BufferRuns.ReleasedIsStep | BBB_cci_mpf/sw/src/libmpf/shim_vtp.c:845-932 | the release of a tracked buffer is a step of such runs and takes one such buffer from the live ones |
| BufferRuns.MisalignedWalkLeaks | BBB_cci_mpf/sw/src/libmpf/shim_vtp.c:859-932 | a run: one buffer gets a 2MB page, a second begins inside that page and ends in a 4KB page of its own, both are released; the second release reports success and the 4KB page stays counted |
| BufferRuns.FirstStartsThere | BBB_cci_mpf/sw/src/libmpf/shim_vtp.c:95-196 | where nothing was mapped, the first page pinned starts at the start of the region |
| BufferRuns.AllocatedReleaseIff | BBB_cci_mpf/sw/src/libmpf/shim_vtp.c:274-350 | an allocated buffer is undone by its release if and only if no page starts in the padding after the requested length |
| BufferRuns.PreparedIsUserMemory | BBB_cci_mpf/sw/src/libmpf/shim_vtp.c:202-268 | once a preallocated buffer is prepared no page under it is marked as allocated by MPF |
| BufferRuns.RunKeepsUserMemory | BBB_cci_mpf/sw/src/libmpf/shim_vtp.c:771-950 | this stays so in every run as long as the buffer is live, whatever else is prepared and released |
| BufferRuns.UserMemoryIsNotUnmapped | BBB_cci_mpf/sw/src/libmpf/shim_vtp.c:935-943 | so the release of such a buffer does not give its memory back |
| BufferRuns.AllocatedIsUnmapped | BBB_cci_mpf/sw/src/libmpf/shim_vtp.c:935-943 | the release of an unshared buffer that MPF allocated visits its pages to the end, keeps none and finds the mark, so its memory is given back |
| MmuMonitors.MmuMonitor.QueueEvent | drivers/mmu_monitor/mmu_monitor.c:111-135 | one event is appended exactly when the queue is within its limit and memory is granted; otherwise the queue is unchanged |
| MmuMonitors.MmuMonitor.FetchEvent | drivers/mmu_monitor/mmu_monitor.c:138-151 | the oldest event leaves the queue, and none exactly when it is empty |
| MmuMonitors.MmuMonitor.InvalidateRangeEnd | drivers/mmu_monitor/mmu_monitor.c:244-286 | one invalidation less is under way; each range emitted is queued and signalled once, in order, exactly when memory for it is granted and the ranges before it have left room; unfiltered it emits the range itself, filtered the unmapped parts |
| MmuMonitors.SortIsPartition | drivers/mmu_monitor/mmu_monitor.c:111-135 | every range emitted is either accepted or refused, and the queue keeps its limit |
| MmuMonitors.SortAllGranted | drivers/mmu_monitor/mmu_monitor.c:117-118 | when no allocation fails, the ranges accepted are the first ones, as many as the queue has room for, and the others are refused |
| MmuMonitors.MmuMonitor.EmitUnmapped | drivers/mmu_monitor/mmu_monitor.c:254-283 | for any sorted, disjoint regions the ranges emitted are non-empty, ordered, apart, inside the range, and cover exactly its unmapped bytes |
| MmuMonitors.MmuMonitor.GetState | drivers/mmu_monitor/mmu_monitor.c:453-477 | the count reported is queued events plus invalidations under way |
| MonitorProtocol.CountsKept | BBB_cci_mpf/sw/src/libmpf/shim_vtp_monitor.c:62-101 | every step of kernel, monitor thread and other threads keeps: eventfd count plus read and unfetched count is the queue length, within its limit; start count is the invalidations under way; accepted is applied, then the one being applied, then the queue |
| MonitorProtocol.OkKept | BBB_cci_mpf/sw/src/libmpf/shim_vtp_monitor.c:62-101 | every step keeps: each reference count is the references taken less the ranges applied that touch the page, a page leaves when nothing is left, each stale byte was unmapped by an invalidation that is reported since or still under way, and whatever a report since has unmapped is stale |
| MonitorProtocol.ZeroMeansSettled | BBB_cci_mpf/sw/src/libmpf/shim_vtp_monitor.c:245-258 | in any reachable state, a thread that holds the page table lock and reads a zero count knows that nothing is under way or queued and all accepted ranges were applied in order |
| MonitorProtocol.InTableIff | BBB_cci_mpf/sw/src/libmpf/shim_vtp_pt.c:733-759 | in any reachable state a page that was ever pinned is in the table if and only if more references to it were taken than ranges applied that touch it |
| MonitorProtocol.SettledStaleIff | BBB_cci_mpf/sw/src/libmpf/shim_vtp_monitor.c:245-258 | in such a settled state the table holds a stale translation of a byte if and only if an invalidation since the pin unmapped the byte, its range refused or accepted by the queue, and the page has had more references than ranges applied that touch it |
| MonitorProtocol.PinnedOnceStaleIff | BBB_cci_mpf/sw/src/libmpf/shim_vtp_monitor.c:245-258 | in a settled state a byte of a page that was referenced once is stale if and only if the queue refused a range that unmapped it |
| MonitorProtocol.AcceptedHits | BBB_cci_mpf/sw/src/libmpf/shim_vtp_pt.c:733-759 | an accepted range that unmapped a byte of a page has by then taken a reference from that page |
| MonitorProtocol.FetchNeverFails | drivers/mmu_monitor/mmu_monitor.c:413-445 | in no reachable state does the monitor thread fetch from an empty queue, the case in which the driver would return with its mutex held |
| MonitorRuns.UnlockedSampleIsTooEarly | BBB_cci_mpf/sw/src/libmpf/shim_vtp_monitor.c:250-255 | a reachable state in which the count is zero without the lock while a fetched range is not yet applied and its page is stale |
| MonitorRuns.SharedPageStaysStale | BBB_cci_mpf/sw/src/libmpf/shim_vtp_pt.c:733-759 | a run in which nothing is refused, the range of a page with two references is applied, and a waiter then holds the lock and reads zero with that page stale |
| MonitorRuns.RefusedRangeStaysStale | drivers/mmu_monitor/mmu_monitor.c:117-118 | a run in which the queue holds 101 events, memory for the next is granted and its range is refused; after all events are applied a waiter holds the lock and reads zero with a stale page in the table |
| MonitorRuns.Drains | BBB_cci_mpf/sw/src/libmpf/shim_vtp_monitor.c:62-101 | from any quiet reachable state the monitor thread can fetch and apply all that is queued |
| MonitorRuns.EndIsStep | drivers/mmu_monitor/mmu_monitor.c:244-286 | what the kernel code promises at the end of an invalidation is a step of the protocol with the same queue and eventfd count, filtered or not |
| MonitorRuns.InsertedIsStep | BBB_cci_mpf/sw/src/libmpf/shim_vtp_pt.c:476-564 | a successful insertion is the protocol's step that pins a page or the one that counts it |
| MonitorRuns.RemovedIsStep | BBB_cci_mpf/sw/src/libmpf/shim_vtp_pt.c:1027-1092 | a removal is the step that gives up one reference |
| MonitorRuns.ReleasedIsStep | BBB_cci_mpf/sw/src/libmpf/shim_vtp_pt.c:1095-1109 | a range release is the application of the fetched range |
| VtpServers.RequestRoundTrip | BBB_cci_mpf/hw/rtl/mpf-services/vtp/mpf-vtp-pt/mpf_svc_vtp_pt_sw.sv:189-198 | a request word is never 0 and gives back its address and its speculative bit |
| VtpServers.ResponseRightIff | BBB_cci_mpf/sw/src/libmpf/shim_vtp_srv.c:110-145 | a failure is never read as a translation, and the address the FPGA computes for a byte is the page table's if and only if the page is 4KB or 2MB, or the byte is in the first 4KB of a 1GB page |
| VtpServers.VtpSrv.constructor | BBB_cci_mpf/sw/src/libmpf/shim_vtp_srv.c:45-60 | an idle channel with an empty ring |
| VtpServers.VtpSrv.SendRequest | BBB_cci_mpf/hw/rtl/mpf-services/vtp/mpf-vtp-pt/mpf_svc_vtp_pt_sw.sv:182-212 | a request enters the next ring line when fewer than eight are outstanding, and never overwrites one that is not cleared |
| VtpServers.VtpSrv.Poll | BBB_cci_mpf/sw/src/libmpf/shim_vtp_srv.c:63-89 | the server sees a request exactly when one is sent and not yet cleared |
| VtpServers.VtpSrv.Respond | BBB_cci_mpf/sw/src/libmpf/shim_vtp_srv.c:91-159 | the oldest request is answered once, with the table's translation of its own address, or with a failure when the outside turned a request down or smaller pages divide the region; the process goes on unless a failing request was not speculative; a page that is not mapped is asked for with write access first and read-only only if that is refused |
| VtpServers.VtpSrv.ClearRequest | BBB_cci_mpf/sw/src/libmpf/shim_vtp_srv.c:162-169 | the served line is cleared and the server moves to the next, wrapping at the end of the page |
| VtpServers.VtpSrv.ReceiveResponse | BBB_cci_mpf/hw/rtl/mpf-services/vtp/mpf-vtp-pt/mpf_svc_vtp_pt_sw.sv:225-256 | the k-th response is matched with the k-th request sent |
| AalTrees.WalkStops | BBB_cci_mpf/sw/src_aal/cci_mpf_shim_vtp_pt.cpp:224-259 | where a walk from the root stops decides the mapping of an address: it is that slot's page or none |
| AalTrees.FreeIff | BBB_cci_mpf/sw/src_aal/cci_mpf_shim_vtp_pt.cpp:385-408 | a slot reached by a walk overlaps no page exactly when it is unused or holds a node in which nothing is used |
| AalStates.PopFree | BBB_cci_mpf/sw/src_aal/cci_mpf_shim_vtp_pt.cpp:309-317 | popping the free list yields the pair of addresses that was pushed last and leaves a valid list |
| AalStates.FreePagesApart | BBB_cci_mpf/sw/src_aal/cci_mpf_shim_vtp_pt.cpp:309-345 | pages on the free list are all different and none is a node of either table |
| AalStates.RetireNode | BBB_cci_mpf/sw/src_aal/cci_mpf_shim_vtp_pt.cpp:386-408 | a page put in the slot of an empty node, whose page goes to the free list, changes no other mapping and keeps both tables and the list sound |
| AalTables.AalPageTable.constructor | BBB_cci_mpf/sw/src_aal/cci_mpf_shim_vtp_pt.cpp:110-126 | a new table maps nothing and its free list is empty |
| AalTables.AalPageTable.TranslatePAtoVA | BBB_cci_mpf/sw/src_aal/cci_mpf_shim_vtp_pt.cpp:277-300 | the walk of the reverse table finds the address recorded for a physical page, exactly when one is |
| AalTables.AalPageTable.AddPAtoVA | BBB_cci_mpf/sw/src_aal/cci_mpf_shim_vtp_pt.cpp:428-462 | a new page is recorded in the reverse table and everything recorded before stays |
| AalTables.AalPageTable.AllocTablePage | BBB_cci_mpf/sw/src_aal/cci_mpf_shim_vtp_pt.cpp:303-331 | a table page is detached, resolvable by its physical address, and is the newest page of the free list with the address it was freed with, or new memory when the list is empty; it fails only when the outside does |
| AalTables.AalPageTable.Child0 | BBB_cci_mpf/sw/src_aal/cci_mpf_shim_vtp_pt.cpp:378-382 | following a link of the forward table always succeeds and reaches its node |
| AalTables.AalPageTable.AddVAtoPA | BBB_cci_mpf/sw/src_aal/cci_mpf_shim_vtp_pt.cpp:349-424 | a mapping is added exactly when it would overlap no existing page, and otherwise nothing changes; both tables and the free list stay sound, and the process stops only when the outside turns a request down; the FPGA is told to forget a table page that gives way |
| AalTables.AalPageTable.ReplaceNode | BBB_cci_mpf/sw/src_aal/cci_mpf_shim_vtp_pt.cpp:386-408 | a 2MB page takes the slot of an unused node, which becomes the newest page of the free list with its own two addresses |
| AalTables.AalPageTable.RemovePageMapping | BBB_cci_mpf/sw/src_aal/cci_mpf_shim_vtp_pt.cpp:155-221 | succeeds exactly on mapped addresses, removes that page and no other, and reports its address, size, flags and the physical address of its entry |
| AalTables.AalPageTable.TranslateVAtoPA | BBB_cci_mpf/sw/src_aal/cci_mpf_shim_vtp_pt.cpp:225-259 | succeeds exactly on mapped addresses, with the address and flags of the page; walks never get stuck |
| AalAllocators.Mpfvtp.Allocate | BBB_cci_mpf/sw/src_aal/cci_mpf_shim_vtp.cpp:344-384 | one page is mapped at the address to the device address of the driver's memory there, or the table is unchanged, with a reason from outside or a page in the way; the driver keeps memory whose mapping was refused; the reserved address space makes room first |
| AalAllocators.Mpfvtp.SmallPages | BBB_cci_mpf/sw/src_aal/cci_mpf_shim_vtp.cpp:226-258 | small pages fill the buffer from its top down to a 2MB boundary, each in a hole made for it, END on the highest only, with the reservation ending where the pages begin; for less than 2MB this cannot succeed when the reservation starts on a 2MB boundary |
| AalAllocators.Mpfvtp.LargePages | BBB_cci_mpf/sw/src_aal/cci_mpf_shim_vtp.cpp:264-325 | the rest is filled without gap under any pattern of failures, first with large pages, after a failure with small ones; the loop ends; which pages carry START is stated exactly; it gives up only when address space is denied or a small page cannot be had |
| AalAllocators.Mpfvtp.BufferAllocate | BBB_cci_mpf/sw/src_aal/cci_mpf_shim_vtp.cpp:154-338 | on success the new pages are a row that fills the padded length from the 2MB-aligned start, each mapped to the driver's memory at its address, nothing else in the table changes, END is on the last page only, START on the first and, after a fallback in the lowest 2MB, on the 512th, and no address space stays reserved; on failure the row made so far stays, from some address up to the padded end, with no START on it but that of the fallback; it fails only when the outside turns a request down or an earlier page is in the way |
| AalAllocators.PaddedLengthIs | BBB_cci_mpf/sw/src_aal/cci_mpf_shim_vtp.cpp:170-183 | the length allocated is the least multiple of 2MB that holds the request when more than 128KB would be left over, else the least multiple of 4KB |
| AalAllocators.Mpfvtp.BufferFree | BBB_cci_mpf/sw/src_aal/cci_mpf_shim_vtp.cpp:389-426 | refused with nothing changed unless the page there carries START; otherwise the table is what removing pages up to the END mark leaves, and the FPGA is told to forget each of them and the driver takes its memory back, in that order; when an invalidation fails, one or more of these pages are gone |
| AalAllocators.AllocateThenFree | BBB_cci_mpf/sw/src_aal/cci_mpf_shim_vtp.cpp:389-426 | freeing an allocated buffer at its start is accepted and restores the table's pages |
| AalTilings.RowCovers | BBB_cci_mpf/sw/src_aal/cci_mpf_shim_vtp.cpp:208-324 | a row of pages holds each byte of its extent in exactly one page and no other byte |
| AalTilings.FreeUndoesAllocate | BBB_cci_mpf/sw/src_aal/cci_mpf_shim_vtp.cpp:408-426 | freeing from the start of a row finds each of its pages once, at its start and in order, up to the END mark, and removes the row and nothing else |
| AalTilings.StoppedFreeLeavesTail | BBB_cci_mpf/sw/src_aal/cci_mpf_shim_vtp.cpp:408-426 | when freeing a buffer stops early, its pages from some point on stay and everything that is not the buffer's is untouched |
| AalTilings.SecondStartFreesTail | BBB_cci_mpf/sw/src_aal/cci_mpf_shim_vtp.cpp:287-312 | after a fallback in the lowest 2MB, freeing at the second START mark is accepted, frees the upper part and leaves the lower pages mapped |

## Left out

- PageTables.PageTable.Term: the lengths passed when node and page memory is unmapped are not modelled, only the addresses.
- Vtps.Vtp.ReleaseBuffer: the length unmapped at the end is not modelled, only whether memory is given back.
- Vtps.Vtp.PinRegion: pages pinned before a failure stay counted, as in the source; the contract says how far it came, and the run theorems are about successful prepares.
- Vtps.Vtp.PinAndGetIOAddressVec: the wait for the monitor before the page table is locked is not part of this method; the protocol models it as a thread that reads the count with the lock held.
- MonitorRuns.InsertedIsStep: that a page pinned is mapped by the operating system at that moment is a hypothesis, because the driver's pinning is outside the model.
- Vtps.Vtp.PrepareBuffer: the failure return of the shootdown that keeps the mutex locked (shim_vtp.c:719) is an ordinary failure here, because mutexes are not part of the sequential model.
- AalTables.AalPageTable.AddPAtoVA: the reverse table is filled inside an assertion of the source, so a build without assertions would not fill it; assertions are taken to be active.
- AalAllocators.Mpfvtp.BufferAllocate: wrap-around of lengths near 2^64 is not modelled; pages allocated before a failure stay mapped, as in the source.
- TableMemory.HardwareAgreesWithSoftware: the in-use bit is excluded, because only the software words carry it; it is not modelled as an exact record of what the FPGA caches.
- VtpServers.ResponseRightIff: physical addresses wider than the FPGA's line address, which the hardware truncates, are not modelled.
- The monitor mode that does not wait: its loop in shim_vtp_monitor.c:256 has no exit.
- Event queue cleanup and registration of processes with the kernel monitor, and the driver's query of a memory region.
- Freeing the buffer table at shutdown, statistics, debug output and table dumps.
- Control registers other than the translation response, the legacy bufferGetIOVA and the reset sequence.
- Parsing of memory maps to find page sizes, NUMA binding and near-memory maps: they are answers of the operating system here.
- The check whether the driver is too old to pin memory that exists already.
- Virtual channel mapping, write ordering, partial writes, device discovery and the C++ wrappers: thin layers without shared state.
- The FPGA side apart from its page table walk, the size bit of its translations, request ring and response decoding.
