/** What the FPGA keeps of a translation: the number of a 4KB page and one size bit. */
module FpgaTlb {
  import opened Addresses

  /** An answer to a translation request.  There is no third page size. */
  datatype Response = NotPresent | Present(pageIndex: int, bigPage: bool)

  /** The physical address that the FPGA uses for `va`: it replaces the offset within
      a 4KB or a 2MB page. */
  function FpgaAddress(d: Response, va: int): int
    requires d.Present?
  {
    var pa := d.pageIndex * 0x1000;
    if d.bigPage then pa - pa % 0x20_0000 + va % 0x20_0000 else pa + va % 0x1000
  }

  /** An answer that marks 2MB pages only places a byte of the page where the table has
      it exactly when the page is 4KB or 2MB, or the byte is in the first 4KB of a 1GB
      page. */
  lemma RightIff(pa: int, level: int, va: int)
    requires 0 <= level <= 2 && pa % 0x1000 == 0 && (level == 1 ==> pa % 0x20_0000 == 0)
    ensures FpgaAddress(Present(pa / 0x1000, level == 1), va) == pa + va % Span(level) <==>
            level <= 1 || va % 0x4000_0000 < 0x1000
  {
    assert pa == pa / 0x1000 * 0x1000;
    OffsetIn1GB(va);
  }

  lemma OffsetIn1GB(va: int)
    ensures va % 0x1000 == va % 0x4000_0000 <==> va % 0x4000_0000 < 0x1000
  {}
}
