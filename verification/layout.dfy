/** The geometry of a partition file: page size, header capacity and the closed-form
    file offsets of the master page, the header (bitmap) pages and the data pages.

    The file is laid out as one master page followed by `MAX_HEADER_PAGES` groups,
    each one header page and then the `DATA_PAGES_PER_HEADER` data pages it tracks. */
module Layout {

  const PAGE_SIZE: nat := 4096
  const MAX_HEADER_PAGES: nat := PAGE_SIZE / 2
  const DATA_PAGES_PER_HEADER: nat := PAGE_SIZE * 8
  const U8_PER_U16: nat := 2

  /** Number of data pages one partition can hold. */
  const CAPACITY: nat := MAX_HEADER_PAGES * DATA_PAGES_PER_HEADER

  /** The master page is the first page of the file. */
  const MASTER_PAGE_OFFSET: nat := 0

  /** Length of a partition file once every data page has been written: the master page,
      then each header page followed by its data pages. A freshly created file holds only
      the master and header pages, so it is shorter. */
  const FILE_SIZE: nat := PAGE_SIZE * (1 + MAX_HEADER_PAGES * (DATA_PAGES_PER_HEADER + 1))

  /** Radix of the combined partition-and-page address. */
  const GLOBAL_ADDRESS_RADIX: nat := 10_000_000_000

  const U64_LIMIT: nat := 0x1_0000_0000_0000_0000

  /** Header page `h` sits after the master page and after `h` whole groups. */
  function HeaderPageOffset(h: nat): (off: nat)
    ensures off % PAGE_SIZE == 0
    ensures off >= MASTER_PAGE_OFFSET + PAGE_SIZE
  {
    PAGE_SIZE * (h * (DATA_PAGES_PER_HEADER + 1) + 1)
  }

  /** Data page `p` sits after the master page, after the `p / DATA_PAGES_PER_HEADER + 1`
      header pages up to and including its own, and after the `p` data pages before it. */
  function DataPageOffset(p: nat): (off: nat)
    ensures off % PAGE_SIZE == 0
    ensures off >= MASTER_PAGE_OFFSET + 2 * PAGE_SIZE
  {
    (2 + p / DATA_PAGES_PER_HEADER + p) * PAGE_SIZE
  }

  /** Header offsets are strictly increasing, and header pages never overlap. */
  lemma HeaderOffsetsIncrease(g: nat, h: nat)
    requires g < h
    ensures HeaderPageOffset(g) + PAGE_SIZE <= HeaderPageOffset(h)
  {
  }

  /** The data pages of header `h` lie strictly between header page `h` and header page `h + 1`,
      page regions included. */
  lemma DataPageBetweenHeaders(p: nat)
    ensures HeaderPageOffset(p / DATA_PAGES_PER_HEADER) + PAGE_SIZE <= DataPageOffset(p)
    ensures DataPageOffset(p) + PAGE_SIZE <= HeaderPageOffset(p / DATA_PAGES_PER_HEADER + 1)
  {
    var h, r := p / DATA_PAGES_PER_HEADER, p % DATA_PAGES_PER_HEADER;
    assert p == h * DATA_PAGES_PER_HEADER + r;
    assert DataPageOffset(p) == PAGE_SIZE * (h * (DATA_PAGES_PER_HEADER + 1) + 2 + r);
  }

  lemma DivMonotone(p: nat, q: nat)
    requires p <= q
    ensures p / DATA_PAGES_PER_HEADER <= q / DATA_PAGES_PER_HEADER
  {
  }

  /** A page number is its header index times `DATA_PAGES_PER_HEADER` plus its bit index. */
  lemma PageSplit(p: nat)
    ensures p == (p / DATA_PAGES_PER_HEADER) * DATA_PAGES_PER_HEADER + p % DATA_PAGES_PER_HEADER
    ensures p % DATA_PAGES_PER_HEADER < DATA_PAGES_PER_HEADER
  {
  }

  /** Page `h * DATA_PAGES_PER_HEADER + d` has header index `h` and bit index `d`. */
  lemma PageJoin(h: nat, d: nat)
    requires d < DATA_PAGES_PER_HEADER
    ensures (h * DATA_PAGES_PER_HEADER + d) / DATA_PAGES_PER_HEADER == h
    ensures (h * DATA_PAGES_PER_HEADER + d) % DATA_PAGES_PER_HEADER == d
  {
  }

  /** A page below page `h * DATA_PAGES_PER_HEADER + d` lies under an earlier header, or under
      header `h` at a lower bit. */
  lemma BelowPage(h: nat, d: nat, q: nat)
    requires d < DATA_PAGES_PER_HEADER && q < h * DATA_PAGES_PER_HEADER + d
    ensures q / DATA_PAGES_PER_HEADER < h
         || (q / DATA_PAGES_PER_HEADER == h && q % DATA_PAGES_PER_HEADER < d)
  {
    PageSplit(q);
  }

  /** Data-page offsets are strictly increasing in the page number, so two data pages never
      share a byte of the file. */
  lemma DataOffsetsIncrease(p: nat, q: nat)
    requires p < q
    ensures DataPageOffset(p) + PAGE_SIZE <= DataPageOffset(q)
  {
    DivMonotone(p, q);
  }

  lemma DataOffsetsInjective(p: nat, q: nat)
    requires DataPageOffset(p) == DataPageOffset(q)
    ensures p == q
  {
    if p < q {
      DataOffsetsIncrease(p, q);
    } else if q < p {
      DataOffsetsIncrease(q, p);
    }
  }

  /** No data page overlaps any header page. */
  lemma DataAndHeaderPagesDisjoint(p: nat, g: nat)
    ensures DataPageOffset(p) + PAGE_SIZE <= HeaderPageOffset(g)
         || HeaderPageOffset(g) + PAGE_SIZE <= DataPageOffset(p)
  {
    var h := p / DATA_PAGES_PER_HEADER;
    DataPageBetweenHeaders(p);
    if g < h {
      HeaderOffsetsIncrease(g, h);
    } else if g > h + 1 {
      HeaderOffsetsIncrease(h + 1, g);
    }
  }

  /** Every data page of a partition lies within `FILE_SIZE`, and the last one ends exactly
      at `FILE_SIZE`. */
  lemma DataPagesInsideFile(p: nat)
    requires p < CAPACITY
    ensures DataPageOffset(p) + PAGE_SIZE <= FILE_SIZE
    ensures p == CAPACITY - 1 ==> DataPageOffset(p) + PAGE_SIZE == FILE_SIZE
    ensures FILE_SIZE < U64_LIMIT
  {
    DataPageBetweenHeaders(p);
    var h := p / DATA_PAGES_PER_HEADER;
    assert h < MAX_HEADER_PAGES;
    assert HeaderPageOffset(h + 1) <= FILE_SIZE;
    if p == CAPACITY - 1 {
      assert h == MAX_HEADER_PAGES - 1;
    }
  }

  /** A freshly created file holds the master page and every header page, so it ends where
      the last header page ends. A data page lies within it exactly when it is not one of the
      last header's data pages; those start at or past the end of the file. */
  lemma {:induction false} WithinCreatedFile(p: nat)
    requires p < CAPACITY
    ensures DataPageOffset(p) + PAGE_SIZE <= HeaderPageOffset(MAX_HEADER_PAGES - 1) + PAGE_SIZE
            <==> p < (MAX_HEADER_PAGES - 1) * DATA_PAGES_PER_HEADER
    ensures p >= (MAX_HEADER_PAGES - 1) * DATA_PAGES_PER_HEADER
            ==> DataPageOffset(p) >= HeaderPageOffset(MAX_HEADER_PAGES - 1) + PAGE_SIZE
  {
    var h := p / DATA_PAGES_PER_HEADER;
    DataPageBetweenHeaders(p);
    if p < (MAX_HEADER_PAGES - 1) * DATA_PAGES_PER_HEADER {
      assert h < MAX_HEADER_PAGES - 1;
      if h + 1 < MAX_HEADER_PAGES - 1 {
        HeaderOffsetsIncrease(h + 1, MAX_HEADER_PAGES - 1);
      }
    } else {
      assert h == MAX_HEADER_PAGES - 1;
    }
  }

  /** The combined identifier of page `page` in partition `part`. Because a partition holds
      fewer pages than the radix, it splits back into its partition and page numbers. */
  function GlobalPageAddress(part: nat, page: nat): (a: nat)
    ensures page < CAPACITY ==> a / GLOBAL_ADDRESS_RADIX == part && a % GLOBAL_ADDRESS_RADIX == page
  {
    GlobalAddressDecomposes(part, page);
    part * GLOBAL_ADDRESS_RADIX + page
  }

  lemma GlobalAddressDecomposes(part: nat, page: nat)
    ensures page < CAPACITY ==> (part * GLOBAL_ADDRESS_RADIX + page) / GLOBAL_ADDRESS_RADIX == part
    ensures page < CAPACITY ==> (part * GLOBAL_ADDRESS_RADIX + page) % GLOBAL_ADDRESS_RADIX == page
  {
    if page < CAPACITY {
      DivModUnique(part * GLOBAL_ADDRESS_RADIX + page, part, page);
    }
  }

  lemma DivModUnique(a: nat, q: nat, r: nat)
    requires r < GLOBAL_ADDRESS_RADIX && a == q * GLOBAL_ADDRESS_RADIX + r
    ensures a / GLOBAL_ADDRESS_RADIX == q && a % GLOBAL_ADDRESS_RADIX == r
  {
  }
}
