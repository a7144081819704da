/** Translation on behalf of the FPGA: requests in a ring of memory lines, responses
    in a control register. */
module VtpServers {
  import opened Addresses
  import opened FpgaTlb
  import opened TableView
  import opened TableSpec
  import opened Driver
  import opened PageTables
  import opened Vtps

  /** A request of the FPGA: the number of a 4KB page, and whether it is a guess. */
  datatype Request = Request(page: int, speculative: bool)

  predicate RequestOk(r: Request) {
    0 <= r.page * 0x1000 < VA_LIMIT
  }

  function Address(r: Request): int {
    r.page * 0x1000
  }

  /** The request as it is written to the ring: bit 0 tells it from an empty slot. */
  function RequestWord(r: Request): int {
    r.page * 0x1000 + (if r.speculative then 2 else 0) + 1
  }

  /** What the server finds out about an address. */
  datatype Answer = NoTranslation | Translated(pa: int, size: PageSize)

  /** The response: the number of a 64-byte line, with bit 0 set for a failure and
      bit 1 ORed in for a 2MB page. */
  function ResponseWord(a: Answer): int {
    match a
    case NoTranslation => 1
    case Translated(pa, size) =>
      var line := pa / 64;
      if size == Page2MB && line / 2 % 2 == 0 then line + 2 else line
  }

  /** What the FPGA takes from a response word. */
  function Decode(rsp: int): Response {
    if rsp % 2 == 1 then NotPresent else Present(rsp / 64, rsp / 2 % 2 == 1)
  }

  /** Requests survive the trip through the ring, and never look like an empty slot. */
  lemma RequestRoundTrip(r: Request)
    ensures var w := RequestWord(r);
            w != 0 && w - w % 4 == Address(r) && (w / 2 % 2 == 1 <==> r.speculative)
  {
    var n := r.page * 0x400;
    assert RequestWord(r) == 4 * n + (if r.speculative then 3 else 1) && Address(r) == 4 * n;
    hide RequestWord, Address;
    LowBits(n, RequestWord(r));
  }

  lemma LowBits(n: int, w: int)
    requires w == 4 * n + 3 || w == 4 * n + 1
    ensures w - w % 4 == 4 * n && (w / 2 % 2 == 1 <==> w == 4 * n + 3) && w != 0
  {}

  /** A failure is never taken for a translation, and the FPGA computes the address of
      every byte of a page as the page table does, exactly for 4KB and 2MB pages: a
      response has no room for 1GB, which the FPGA takes for 4KB. */
  lemma ResponseRightIff(pa: int, size: PageSize, va: int)
    requires size != PageNone && pa >= 0 && pa % 0x1000 == 0 && (size == Page2MB ==> pa % 0x20_0000 == 0)
    ensures Decode(ResponseWord(NoTranslation)) == NotPresent
    ensures var d := Decode(ResponseWord(Translated(pa, size)));
            && d.Present? && d.pageIndex * 0x1000 == pa
            && (FpgaAddress(d, va) == pa + va % SizeToBytes(size) <==>
                  size != Page1GB || va % 0x4000_0000 < 0x1000)
  {
    var n := pa / 0x1000;
    assert pa == n * 0x1000;
    LineBits(n);
    OffsetIn1GB(va);
    assert Decode(1) == NotPresent;
    hide Decode;
  }

  /** The line number of a 4KB page leaves the six low bits free. */
  lemma LineBits(n: int)
    ensures var pa := n * 0x1000;
            pa / 64 == n * 64 && (n * 64) / 2 % 2 == 0
    ensures Decode(n * 64) == Present(n, false) && Decode(n * 64 + 2) == Present(n, true)
  {
    Parts(n, 0);
    Parts(n, 1);
    assert n * 0x1000 == 64 * (n * 64);
  }

  lemma Parts(n: int, b: int)
    requires b == 0 || b == 1
    ensures var w := n * 64 + 2 * b;
            w % 2 == 0 && w / 2 % 2 == b && w / 64 == n
  {
    var w := n * 64 + 2 * b;
    assert w / 2 == n * 32 + b;
    assert n * 32 + b == 2 * (n * 16) + b;
  }

  /** Why there is no translation: the page is not mapped, and a request to the driver
      was turned down or smaller pages divide the region of the page that was tried. */
  ghost predicate Unavailable(v: View, va: VAddr, faults: nat, faults': nat) {
    && PageAt(v, va) == None
    && (faults' > faults || exists level :: 1 <= level <= 2 && Subdivided(v, PlaceOf(va, level)))
  }

  lemma WhyUnavailable(v: View, va: VAddr, size: PageSize, faults: nat, faults': nat)
    requires PageAt(v, va) == None
    requires faults' > faults || ((size == Page2MB || size == Page1GB) && Subdivided(v, PlaceOf(va, LevelOf(size))))
    ensures Unavailable(v, va, faults, faults')
  {
    ghost var level := LevelOf(size);
    assert faults' > faults || (1 <= level <= 2 && Subdivided(v, PlaceOf(va, level)));
  }

  /** For an address that is not mapped, its page was asked for, for reading and writing
      first and for reading only if that was refused; for a mapped one, nothing was. */
  ghost predicate WroteIfPossible(v: View, va: VAddr, log: seq<PinRequest>, log': seq<PinRequest>) {
    if PageAt(v, va).Some? then log' == log
    else exists size, readOnly :: AskedOnDemand(log, log', va, size, true, readOnly)
  }

  const RING_LINES: int := 64
  const LINE_WORDS: int := 8
  const FIFO_DEPTH: int := 8

  /** The word of the ring that the `k`-th request uses. */
  function Slot(k: nat): (i: int)
    ensures 0 <= i < RING_LINES * LINE_WORDS
  {
    k % RING_LINES * LINE_WORDS
  }

  /** The server thread of a handle together with the FPGA's side of the channel.
      Each method is one step; the two sides take their steps in any order. */
  class VtpSrv {
    const vtp: Vtp
    /** One page of memory, 512 words, shared with the FPGA. */
    const ring: array<int>
    var nextReq: int
    /** Has the response to the request at `nextReq` been written? */
    var responded: bool
    var alive: bool

    // FPGA side: next line, outstanding requests, and responses on their way
    var reqRingIdx: int
    var reqFifo: seq<Request>
    var responses: seq<int>

    ghost var sent: seq<Request>
    /** For each request served: the address looked up and what was found. */
    ghost var lookups: seq<(int, Answer)>
    ghost var cleared: nat
    /** For each response received: the request it was matched with, and its meaning. */
    ghost var completed: seq<(Request, Response)>

    ghost predicate RingOk()
      reads this`nextReq, this`reqRingIdx, this`sent, this`cleared, ring
    {
      && ring.Length == RING_LINES * LINE_WORDS
      && 0 <= |sent| - cleared <= FIFO_DEPTH + 1
      && nextReq == Slot(cleared)
      && reqRingIdx * LINE_WORDS == Slot(|sent|)
      && (forall k :: cleared <= k < |sent| ==> ring[Slot(k)] == RequestWord(sent[k]))
      && (forall k :: |sent| <= k < cleared + RING_LINES ==> ring[Slot(k)] == 0)
    }

    ghost predicate Valid()
      reads this, ring
    {
      RingOk() && ChannelOk()
    }

    ghost predicate ChannelOk()
      reads this
    {
      && |lookups| == cleared + (if responded then 1 else 0) <= |sent|
      && (forall k :: 0 <= k < |sent| ==> RequestOk(sent[k]))
      && |completed| <= |lookups|
      && reqFifo == sent[|completed|..] && |reqFifo| <= FIFO_DEPTH
      && |responses| == |lookups| - |completed|
      && (forall k :: 0 <= k < |responses| ==> responses[k] == ResponseWord(lookups[|completed| + k].1))
      // the k-th request is looked up k-th, at its own address
      && (forall k :: 0 <= k < |lookups| ==> lookups[k].0 == Address(sent[k]))
      // and the k-th response is matched with the k-th request
      && (forall k :: 0 <= k < |completed| ==> completed[k] == (sent[k], Decode(ResponseWord(lookups[k].1))))
    }

    constructor (vtp: Vtp)
      ensures Valid() && fresh(ring) && ring.Length == 512 && this.vtp == vtp && sent == [] && alive
    {
      this.vtp := vtp;
      ring := new int[512](_ => 0);
      nextReq, responded, alive := 0, false, true;
      reqRingIdx, reqFifo, responses := 0, [], [];
      sent, lookups, cleared, completed := [], [], 0, [];
    }

    /** The FPGA writes a request to the next line, unless too many are outstanding. */
    method SendRequest(r: Request) returns (ok: bool)
      requires Valid() && RequestOk(r)
      modifies this`reqRingIdx, this`reqFifo, this`sent, ring
      ensures Valid()
      ensures ok <==> |old(reqFifo)| < 8
      ensures sent == if ok then old(sent) + [r] else old(sent)
    {
      hide Slot, RequestWord, ResponseWord, Decode, Address;
      if |reqFifo| == FIFO_DEPTH {
        return false;
      }
      ring[reqRingIdx * LINE_WORDS] := RequestWord(r);
      SlotsApart(cleared, |sent|);
      reqRingIdx := if reqRingIdx + 1 == RING_LINES then 0 else reqRingIdx + 1;
      reqFifo := reqFifo + [r];
      sent := sent + [r];
      ok := true;
    }

    /** Is there a request to serve?  The word is 0 exactly while the oldest request
        not yet cleared has not been written. */
    method Poll() returns (ready: bool)
      requires Valid()
      ensures ready <==> cleared < |sent|
    {
      ready := ring[nextReq] != 0;
      if cleared < |sent| {
        RequestRoundTrip(sent[cleared]);
        assert ring[Slot(cleared)] == RequestWord(sent[cleared]);
      } else {
        assert ring[Slot(cleared)] == 0;
      }
    }

    /** Serve the oldest request: translate its address, pinning the page if necessary,
        and write the response.  A failure that is not speculative ends the process. */
    method Respond()
      requires Valid() && vtp.pt.Valid() && alive && !responded && cleared < |sent|
      modifies this`responded, this`alive, this`responses, this`lookups, vtp.pt, vtp.pt.fpga,
               vtp.pt.fpga.asked
      ensures Valid() && vtp.pt.Valid() && responded
      ensures |lookups| == |old(lookups)| + 1 && lookups[..|old(lookups)|] == old(lookups)
      ensures var va, a := lookups[|old(lookups)|].0, lookups[|old(lookups)|].1;
              && 0 <= va < VA_LIMIT
              && alive == (a.Translated? || sent[cleared].speculative)
              && (a.Translated? ==>
                    && PageAt(vtp.pt.view, va).Some?
                    && var s := PageAt(vtp.pt.view, va).value;
                       a == Translated(vtp.pt.view.pages[s].pa, DepthToSize(s.level)))
              && (a == NoTranslation ==> Unavailable(old(vtp.pt.view), va, old(vtp.pt.fpga.faults), vtp.pt.fpga.faults))
              && WroteIfPossible(old(vtp.pt.view), va, old(vtp.pt.fpga.asked.pins), vtp.pt.fpga.asked.pins)
    {
      hide RingOk, Unavailable, PageTable.Valid, PageTable.LoosePins, PageAt, DepthToSize, Slot, ResponseWord,
           RequestWord, Decode, WroteIfPossible;
      NextRequest();
      RequestRoundTrip(sent[cleared]);
      var word := ring[nextReq];
      var va := word - word % 4;
      var a := LookUp(va);
      if a == NoTranslation && word / 2 % 2 != 1 {
        alive := false;
      }
      responses := responses + [ResponseWord(a)];
      lookups := lookups + [(va, a)];
      responded := true;
    }

    lemma NextRequest()
      requires Valid() && cleared < |sent|
      ensures 0 <= nextReq < ring.Length && ring[nextReq] == RequestWord(sent[cleared])
    {
      assert ring[Slot(cleared)] == RequestWord(sent[cleared]);
    }

    /** Translate an address, pinning its page if necessary, read-only if it must be. */
    method LookUp(va: VAddr) returns (a: Answer)
      requires vtp.pt.Valid()
      modifies vtp.pt, vtp.pt.fpga, vtp.pt.fpga.asked
      ensures vtp.pt.Valid()
      ensures WroteIfPossible(old(vtp.pt.view), va, old(vtp.pt.fpga.asked.pins), vtp.pt.fpga.asked.pins)
      ensures a.Translated? ==>
                && PageAt(vtp.pt.view, va).Some?
                && var s := PageAt(vtp.pt.view, va).value;
                   a == Translated(vtp.pt.view.pages[s].pa, DepthToSize(s.level))
      ensures a == NoTranslation ==> Unavailable(old(vtp.pt.view), va, old(vtp.pt.fpga.faults), vtp.pt.fpga.faults)
    {
      hide PageTable.Valid, PageTable.LoosePins, PageAt, DepthToSize, AskedOnDemand, SizeChosen, PinnedThere;
      var r, ioaddr, size, readOnly := vtp.PinAndGetIOAddressVec(TryReadOnly, va, 1);
      a := if r == OK then Translated(ioaddr[0], size) else NoTranslation;
      ghost var unmapped := PageAt(old(vtp.pt.view), va) == None;
      assert unmapped ==> AskedOnDemand(old(vtp.pt.fpga.asked.pins), vtp.pt.fpga.asked.pins, va, size, true, readOnly[0]);
      if r == OK {
        FirstOf(vtp.pt.view, va, ioaddr, size);
      } else {
        WhyUnavailable(old(vtp.pt.view), va, size, old(vtp.pt.fpga.faults), vtp.pt.fpga.faults);
      }
    }

    /** Done with the request: clear its word and move on to the next line. */
    method ClearRequest()
      requires Valid() && responded
      modifies this`responded, this`nextReq, this`cleared, ring
      ensures Valid() && !responded && cleared == old(cleared) + 1
    {
      hide Slot, RequestWord, ResponseWord, Decode, Address;
      ring[nextReq] := 0;
      SlotsApart(cleared, cleared);
      nextReq := nextReq + LINE_WORDS;
      if nextReq == ring.Length {
        nextReq := 0;
      }
      cleared := cleared + 1;
      responded := false;
    }

    /** The FPGA takes the oldest response and matches it with its oldest request. */
    method ReceiveResponse() returns (req: Request, d: Response)
      requires Valid() && responses != []
      modifies this`responses, this`reqFifo, this`completed
      ensures Valid() && completed == old(completed) + [(req, d)] && req == sent[|old(completed)|]
    {
      hide Slot, RequestWord, ResponseWord, Decode, Address;
      d := Decode(responses[0]);
      req := reqFifo[0];
      responses := responses[1..];
      reqFifo := reqFifo[1..];
      completed := completed + [(req, d)];
    }
  }

  /** Requests fewer than 64 apart have different slots, and a step of one line wraps
      around the ring as the request numbers do. */
  lemma SlotsApart(lo: nat, n: nat)
    requires lo <= n < lo + RING_LINES
    ensures forall k :: lo <= k < lo + RING_LINES && k != n ==> Slot(k) != Slot(n)
    ensures Slot(lo + RING_LINES) == Slot(lo)
    ensures Slot(n + 1) == if Slot(n) + LINE_WORDS == RING_LINES * LINE_WORDS then 0 else Slot(n) + LINE_WORDS
  {
    hide Slot;
    forall k | lo <= k < lo + RING_LINES && k != n ensures Slot(k) != Slot(n) {
      DifferentLines(k, n);
    }
    NextLine(lo);
    NextLine(n);
  }

  lemma DifferentLines(k: nat, n: nat)
    requires k != n && -RING_LINES < k - n < RING_LINES
    ensures Slot(k) != Slot(n)
  {}

  lemma NextLine(n: nat)
    ensures Slot(n + RING_LINES) == Slot(n)
    ensures Slot(n + 1) == if Slot(n) + LINE_WORDS == RING_LINES * LINE_WORDS then 0 else Slot(n) + LINE_WORDS
  {
    Remainder(n + RING_LINES, RING_LINES, n / RING_LINES + 1, n % RING_LINES);
    if n % RING_LINES == RING_LINES - 1 {
      Remainder(n + 1, RING_LINES, n / RING_LINES + 1, 0);
    } else {
      Remainder(n + 1, RING_LINES, n / RING_LINES, n % RING_LINES + 1);
    }
  }

  lemma FirstOf(v: View, va: VAddr, ioaddr: seq<int>, size: PageSize)
    requires PageAt(v, va).Some? && |ioaddr| > 0
    ensures After(PageAt(v, va).value, 0) == PageAt(v, va).value
  {}
}
