/** The in-memory bookkeeping of one partition: the master page's counters and the header
    bitmaps, with first-fit page allocation, freeing, bulk reset and the allocated-bit guard
    in front of page reads and writes. File writes are not modelled; the read and write of a
    data page are returned as the request they would issue. */
module PartitionHandle {
  import opened Results
  import opened Layout
  import opened Bitmap
  import opened MasterPage

  /** Counter `h` of `master` counts the set bits of `headers[h]`. */
  datatype Partition = Partition(master: seq<Counter>, headers: seq<seq<bv8>>)

  /** A successful allocation: the updated partition and the page it handed out. */
  datatype PageGrant = PageGrant(next: Partition, page: nat)

  /** A data-page access: seek to `offset`, then read `length` bytes or write `bytes`. */
  datatype PageIo = ReadAt(offset: nat, length: nat) | WriteAt(offset: nat, bytes: seq<bv8>)

  /** The shape every partition has: one counter and one page-sized bitmap per header. */
  predicate WellFormed(s: Partition)
  {
    && |s.master| == MAX_HEADER_PAGES
    && |s.headers| == MAX_HEADER_PAGES
    && forall h :: 0 <= h < |s.headers| ==> |s.headers[h]| == PAGE_SIZE
  }

  /** The master-page invariant: every counter equals the population count of its header. */
  predicate Consistent(s: Partition)
  {
    && WellFormed(s)
    && forall h :: 0 <= h < MAX_HEADER_PAGES ==> s.master[h] == PopCount(s.headers[h])
  }

  /** Data page `p` is allocated when bit `p % DATA_PAGES_PER_HEADER` of header
      `p / DATA_PAGES_PER_HEADER` is set. */
  predicate Allocated(s: Partition, p: nat)
    requires WellFormed(s) && p < CAPACITY
  {
    HeaderBit(s.headers[p / DATA_PAGES_PER_HEADER], p % DATA_PAGES_PER_HEADER)
  }

  /** A freshly created partition: every counter and every bitmap byte is zero. */
  function New(): (s: Partition)
    ensures Consistent(s)
    ensures forall p :: 0 <= p < CAPACITY ==> !Allocated(s, p)
  {
    var zero := seq(PAGE_SIZE, _ => 0 as bv8);
    PopCountZero(zero);
    var s := Partition(seq(MAX_HEADER_PAGES, _ => 0), seq(MAX_HEADER_PAGES, _ => zero));
    assert forall h :: 0 <= h < MAX_HEADER_PAGES ==> s.headers[h] == zero && s.master[h] == 0;
    s
  }

  /** The lowest header index, from `i` on, whose counter says it still has a free page. */
  function FirstFreeHeaderFrom(master: seq<Counter>, i: nat): (r: Option<nat>)
    requires i <= |master|
    ensures r.Some? ==> i <= r.value < |master|
    decreases |master| - i
  {
    if i == |master| then None
    else if master[i] < DATA_PAGES_PER_HEADER then Some(i)
    else FirstFreeHeaderFrom(master, i + 1)
  }

  /** The header `FirstFreeHeaderFrom` finds has room, and every header it passes over is
      full; when it finds none, every header from `i` on is full. */
  lemma {:induction false} FirstFreeHeaderFromSpec(master: seq<Counter>, i: nat)
    requires i <= |master|
    ensures var r := FirstFreeHeaderFrom(master, i);
            && (r.Some? ==> master[r.value] < DATA_PAGES_PER_HEADER
                            && forall g :: i <= g < r.value ==> master[g] >= DATA_PAGES_PER_HEADER)
            && (r.None? ==> forall g :: i <= g < |master| ==> master[g] >= DATA_PAGES_PER_HEADER)
    decreases |master| - i
  {
    if i < |master| && master[i] >= DATA_PAGES_PER_HEADER {
      FirstFreeHeaderFromSpec(master, i + 1);
    }
  }

  /** First step of allocation: the first header, by counter, with room left. */
  function FirstFreeHeader(master: seq<Counter>): (r: Option<nat>)
    ensures r.Some? ==> r.value < |master| && master[r.value] < DATA_PAGES_PER_HEADER
                        && forall g :: 0 <= g < r.value ==> master[g] >= DATA_PAGES_PER_HEADER
    ensures r.None? <==> forall g :: 0 <= g < |master| ==> master[g] >= DATA_PAGES_PER_HEADER
  {
    FirstFreeHeaderFromSpec(master, 0);
    FirstFreeHeaderFrom(master, 0)
  }

  /** Setting or clearing bit `d` of header `h` changes the allocation state of page
      `h * DATA_PAGES_PER_HEADER + d` only; the counters play no part in it. */
  lemma OnlyPageChanges(s: Partition, h: nat, d: nat, bits: seq<bv8>, master: seq<Counter>)
    requires WellFormed(s) && h < MAX_HEADER_PAGES && d < DATA_PAGES_PER_HEADER
    requires |master| == MAX_HEADER_PAGES
    requires bits == SetHeaderBit(s.headers[h], d) || bits == ClearHeaderBit(s.headers[h], d)
    ensures WellFormed(Partition(master, s.headers[h := bits]))
    ensures forall q :: 0 <= q < CAPACITY && q != h * DATA_PAGES_PER_HEADER + d
              ==> (Allocated(Partition(master, s.headers[h := bits]), q) <==> Allocated(s, q))
  {
    var t := Partition(master, s.headers[h := bits]);
    forall q | 0 <= q < CAPACITY && q != h * DATA_PAGES_PER_HEADER + d
      ensures Allocated(t, q) <==> Allocated(s, q)
    {
      PageSplit(q);
    }
  }

  /** Marks bit `d` of header `h` allocated, counts it in the master page and returns the
      page number `h * DATA_PAGES_PER_HEADER + d`: exactly one bit and one counter change. */
  function MarkAllocated(s: Partition, h: nat, d: nat): (g: PageGrant)
    requires WellFormed(s) && h < MAX_HEADER_PAGES && d < DATA_PAGES_PER_HEADER
    requires s.master[h] + 1 < U16_LIMIT
    ensures WellFormed(g.next)
    ensures g.page < CAPACITY
    ensures g.page / DATA_PAGES_PER_HEADER == h && g.page % DATA_PAGES_PER_HEADER == d
    ensures Allocated(g.next, g.page)
    ensures forall q :: 0 <= q < CAPACITY && q != g.page ==> (Allocated(g.next, q) <==> Allocated(s, q))
    ensures g.next.master[h] == s.master[h] + 1
    ensures forall i :: 0 <= i < MAX_HEADER_PAGES && i != h ==> g.next.master[i] == s.master[i]
    ensures forall i :: 0 <= i < MAX_HEADER_PAGES && i != h ==> g.next.headers[i] == s.headers[i]
  {
    var page := h * DATA_PAGES_PER_HEADER + d;
    var bits := SetHeaderBit(s.headers[h], d);
    PageJoin(h, d);
    OnlyPageChanges(s, h, d, bits, Up(s.master, h));
    PageGrant(Partition(Up(s.master, h), s.headers[h := bits]), page)
  }

  /** First-fit allocation: the first header with room by its counter, then the lowest clear
      bit of its bitmap. Fails with `OutOfSpace` when no counter has room, and also when the
      chosen bitmap has no clear bit (which the invariant rules out). */
  function AllocPage(s: Partition): (r: Result<PageGrant>)
    requires WellFormed(s)
    ensures r.Err? ==> r.error == OutOfSpace
    ensures r.Ok? ==> WellFormed(r.value.next) && r.value.page < CAPACITY
                      && !Allocated(s, r.value.page) && Allocated(r.value.next, r.value.page)
    ensures r.Ok? ==> forall q :: 0 <= q < CAPACITY && q != r.value.page
                        ==> (Allocated(r.value.next, q) <==> Allocated(s, q))
  {
    match FirstFreeHeader(s.master)
    case None => Err(OutOfSpace)
    case Some(h) =>
      match FirstClearBit(s.headers[h])
      case None => Err(OutOfSpace)
      case Some(d) => Ok(MarkAllocated(s, h, d))
  }

  /** Frees data page `p`. A page number past the partition's capacity is out of range; a
      page whose bit is already clear is a double free; a set bit under a zero counter (an
      inconsistent partition) would underflow the counter. Otherwise exactly that bit is
      cleared and that header's counter drops by one. */
  function FreePage(s: Partition, p: nat): (r: Result<Partition>)
    requires WellFormed(s)
    ensures r == Err(PageOutOfRange) <==> p >= CAPACITY
    ensures r == Err(DoubleFree) <==> p < CAPACITY && !Allocated(s, p)
    ensures r.Ok? ==> WellFormed(r.value) && p < CAPACITY && Allocated(s, p) && !Allocated(r.value, p)
    ensures r.Ok? ==> forall q :: 0 <= q < CAPACITY && q != p ==> (Allocated(r.value, q) <==> Allocated(s, q))
    ensures r.Ok? ==> var h := p / DATA_PAGES_PER_HEADER;
                      && r.value.master[h] as int + 1 == s.master[h]
                      && forall i :: 0 <= i < MAX_HEADER_PAGES && i != h ==> r.value.master[i] == s.master[i]
  {
    var h, d := p / DATA_PAGES_PER_HEADER, p % DATA_PAGES_PER_HEADER;
    if h >= MAX_HEADER_PAGES then Err(PageOutOfRange)
    else if !HeaderBit(s.headers[h], d) then Err(DoubleFree)
    else if s.master[h] == 0 then Err(ArithmeticOverflow)
    else
      var bits := ClearHeaderBit(s.headers[h], d);
      PageSplit(p);
      OnlyPageChanges(s, h, d, bits, Down(s.master, h));
      Ok(Partition(Down(s.master, h), s.headers[h := bits]))
  }

  /** Resets every bitmap byte and every counter to zero. */
  function FreeAll(s: Partition): (r: Partition)
    requires WellFormed(s)
    ensures Consistent(r)
    ensures forall p :: 0 <= p < CAPACITY ==> !Allocated(r, p)
  {
    New()
  }

  /** Whether page `p` is free; a page number past the capacity is out of range. */
  function IsNotAllocated(s: Partition, p: nat): (r: Result<bool>)
    requires WellFormed(s)
    ensures r.Err? <==> p >= CAPACITY
    ensures r.Err? ==> r.error == PageOutOfRange
    ensures r.Ok? ==> (r.value <==> !Allocated(s, p))
  {
    var h, d := p / DATA_PAGES_PER_HEADER, p % DATA_PAGES_PER_HEADER;
    if h >= MAX_HEADER_PAGES then Err(PageOutOfRange)
    else Ok(!HeaderBit(s.headers[h], d))
  }

  /** The guard and seek of `read_page`: an unallocated page fails before any I/O; an
      allocated one is read whole from its data-page offset. */
  function ReadPage(s: Partition, p: nat): (r: Result<PageIo>)
    requires WellFormed(s)
    ensures r.Err? ==> r.error == (if p >= CAPACITY then PageOutOfRange else PageNotAllocated)
    ensures r.Ok? <==> p < CAPACITY && Allocated(s, p)
    ensures r.Ok? ==> r.value == ReadAt(DataPageOffset(p), PAGE_SIZE)
                      && r.value.offset + PAGE_SIZE <= FILE_SIZE
  {
    match IsNotAllocated(s, p)
    case Err(e) => Err(e)
    case Ok(free) =>
      if free then Err(PageNotAllocated)
      else
        DataPagesInsideFile(p);
        Ok(ReadAt(DataPageOffset(p), PAGE_SIZE))
  }

  /** The guard and seek of `write_page`: an unallocated page fails before any I/O; an
      allocated one is written, from its data-page offset, with the caller's buffer. */
  function WritePage(s: Partition, p: nat, buf: seq<bv8>): (r: Result<PageIo>)
    requires WellFormed(s)
    ensures r.Err? ==> r.error == (if p >= CAPACITY then PageOutOfRange else PageNotAllocated)
    ensures r.Ok? <==> p < CAPACITY && Allocated(s, p)
    ensures r.Ok? ==> r.value == WriteAt(DataPageOffset(p), buf)
                      && r.value.offset + PAGE_SIZE <= FILE_SIZE
  {
    match IsNotAllocated(s, p)
    case Err(e) => Err(e)
    case Ok(free) =>
      if free then Err(PageNotAllocated)
      else
        DataPagesInsideFile(p);
        Ok(WriteAt(DataPageOffset(p), buf))
  }
}
