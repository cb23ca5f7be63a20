/** Properties of the partition allocator that relate its operations to each other and to
    the master-page invariant: preservation of the invariant, first-fit minimality, that an
    allocation is undone by freeing its page, reuse of freed pages, reset, exhaustion and the
    deterministic order of allocations from an empty partition. */
module AllocatorProperties {
  import opened Results
  import opened Layout
  import opened Bitmap
  import opened MasterPage
  import opened PartitionHandle

  /** Under the invariant, a header whose counter has reached capacity has every bit set. */
  lemma FullCounterMeansFullHeader(s: Partition, g: nat)
    requires Consistent(s) && g < MAX_HEADER_PAGES && s.master[g] >= DATA_PAGES_PER_HEADER
    ensures forall k :: 0 <= k < DATA_PAGES_PER_HEADER ==> HeaderBit(s.headers[g], k)
  {
    PopCountFull(s.headers[g]);
  }

  /** Under the invariant, a header whose counter is below capacity has a clear bit, so the
      second "no more space" failure of allocation can never happen. */
  lemma SecondScanNeverFails(s: Partition)
    requires Consistent(s)
    ensures FirstFreeHeader(s.master).Some? ==> FirstClearBit(s.headers[FirstFreeHeader(s.master).value]).Some?
  {
    if FirstFreeHeader(s.master).Some? {
      PopCountFull(s.headers[FirstFreeHeader(s.master).value]);
    }
  }

  /** Allocation keeps every counter equal to its header's population count, and no counter
      leaves the 16-bit range. */
  lemma AllocPreservesInvariant(s: Partition)
    requires Consistent(s) && AllocPage(s).Ok?
    ensures Consistent(AllocPage(s).value.next)
  {
    var h := FirstFreeHeader(s.master).value;
    var d := FirstClearBit(s.headers[h]).value;
    var next := AllocPage(s).value.next;
    assert next.headers[h] == SetHeaderBit(s.headers[h], d);
    assert PopCount(next.headers[h]) == PopCount(s.headers[h]) + 1;
  }

  /** First fit: an allocation returns the lowest-numbered free page, and fails exactly when
      every page of the partition is allocated. */
  lemma AllocIsFirstFit(s: Partition)
    requires Consistent(s)
    ensures AllocPage(s).Ok? ==> forall q :: 0 <= q < AllocPage(s).value.page ==> Allocated(s, q)
    ensures AllocPage(s).Err? <==> forall q :: 0 <= q < CAPACITY ==> Allocated(s, q)
  {
    SecondScanNeverFails(s);
    match FirstFreeHeader(s.master)
    case None =>
      forall q | 0 <= q < CAPACITY
        ensures Allocated(s, q)
      {
        FullCounterMeansFullHeader(s, q / DATA_PAGES_PER_HEADER);
      }
    case Some(h) =>
      var d := FirstClearBit(s.headers[h]).value;
      forall q | 0 <= q < h * DATA_PAGES_PER_HEADER + d
        ensures q < CAPACITY && Allocated(s, q)
      {
        BelowFirstFitIsAllocated(s, h, d, q);
      }
  }

  /** Every page below the one first fit picks is allocated: the headers before `h` are full,
      and the bits of header `h` before `d` are set. */
  lemma BelowFirstFitIsAllocated(s: Partition, h: nat, d: nat, q: nat)
    requires Consistent(s)
    requires FirstFreeHeader(s.master) == Some(h) && FirstClearBit(s.headers[h]) == Some(d)
    requires q < h * DATA_PAGES_PER_HEADER + d
    ensures q < CAPACITY && Allocated(s, q)
  {
    BelowPage(h, d, q);
    var g := q / DATA_PAGES_PER_HEADER;
    if g < h {
      FullCounterMeansFullHeader(s, g);
    }
  }

  /** Under the invariant, freeing an allocated page always succeeds: the counter cannot
      underflow. */
  lemma FreeOfAllocatedSucceeds(s: Partition, p: nat)
    requires Consistent(s)
    ensures FreePage(s, p).Ok? <==> p < CAPACITY && Allocated(s, p)
  {
    if p < CAPACITY && Allocated(s, p) {
      var h := p / DATA_PAGES_PER_HEADER;
      assert HeaderBit(s.headers[h], p % DATA_PAGES_PER_HEADER);
      PopCountFull(s.headers[h]);
      if s.master[h] == 0 {
        assert PopCount(s.headers[h]) == 0;
        PopCountEmpty(s.headers[h], p % DATA_PAGES_PER_HEADER);
      }
    }
  }

  /** A bitmap with a set bit has a positive population count. */
  lemma {:induction false} PopCountEmpty(bytes: seq<bv8>, k: nat)
    requires k < 8 * |bytes| && HeaderBit(bytes, k)
    ensures PopCount(bytes) > 0
  {
    if k < 8 {
      CountBitsPositive(bytes[0], k, 8);
    } else {
      assert HeaderBit(bytes[1..], k - 8) by {
        assert (k - 8) / 8 == k / 8 - 1 && (k - 8) % 8 == k % 8;
      }
      PopCountEmpty(bytes[1..], k - 8);
    }
  }

  lemma {:induction false} CountBitsPositive(b: bv8, j: nat, n: nat)
    requires j < n <= 8 && BitOf(b, j)
    ensures CountBits(b, n) > 0
  {
    if j < n - 1 {
      CountBitsPositive(b, j, n - 1);
    }
  }

  /** Freeing keeps the invariant. */
  lemma FreePreservesInvariant(s: Partition, p: nat)
    requires Consistent(s) && FreePage(s, p).Ok?
    ensures Consistent(FreePage(s, p).value)
  {
    var h, d := p / DATA_PAGES_PER_HEADER, p % DATA_PAGES_PER_HEADER;
    var next := FreePage(s, p).value;
    assert next.headers[h] == ClearHeaderBit(s.headers[h], d);
    assert PopCount(next.headers[h]) + 1 == PopCount(s.headers[h]);
  }

  /** Freeing the page an allocation just returned restores the partition exactly. */
  lemma AllocThenFreeRestores(s: Partition)
    requires WellFormed(s) && AllocPage(s).Ok?
    ensures FreePage(AllocPage(s).value.next, AllocPage(s).value.page) == Ok(s)
  {
    var h := FirstFreeHeader(s.master).value;
    var d := FirstClearBit(s.headers[h]).value;
    var g := AllocPage(s).value;
    assert g.page / DATA_PAGES_PER_HEADER == h && g.page % DATA_PAGES_PER_HEADER == d;
    ClearUndoesSet(s.headers[h], d);
    DownUndoesUp(s.master, h);
    assert g.next.headers[h := ClearHeaderBit(g.next.headers[h], d)] == s.headers;
  }

  /** Freeing page `p` and allocating again hands out `p` exactly when every page below `p`
      is allocated. */
  lemma FreeThenAllocReuses(s: Partition, p: nat)
    requires Consistent(s) && FreePage(s, p).Ok?
    ensures AllocPage(FreePage(s, p).value).Ok?
    ensures AllocPage(FreePage(s, p).value).value.page == p
            <==> forall q :: 0 <= q < p ==> Allocated(s, q)
  {
    var t := FreePage(s, p).value;
    FreePreservesInvariant(s, p);
    AllocIsFirstFit(t);
    assert !Allocated(t, p);
  }

  /** After a reset every counter matches its (empty) header and the next allocation
      returns page 0. */
  lemma FreeAllThenAllocReturnsZero(s: Partition)
    requires WellFormed(s)
    ensures AllocPage(FreeAll(s)).Ok? && AllocPage(FreeAll(s)).value.page == 0
  {
    AllocIsFirstFit(FreeAll(s));
    assert !Allocated(FreeAll(s), 0);
  }

  /** The pages below `k`, and only those, are allocated. */
  predicate AllocatedExactlyBelow(s: Partition, k: nat)
    requires WellFormed(s)
  {
    forall q :: 0 <= q < CAPACITY ==> (Allocated(s, q) <==> q < k)
  }

  /** `n` successive `alloc_page` calls, collecting the pages they return. */
  function AllocMany(s: Partition, n: nat): (r: Result<(Partition, seq<nat>)>)
    requires WellFormed(s)
    ensures r.Ok? ==> WellFormed(r.value.0) && |r.value.1| == n
    decreases n
  {
    if n == 0 then Ok((s, []))
    else
      match AllocPage(s)
      case Err(e) => Err(e)
      case Ok(g) =>
        match AllocMany(g.next, n - 1)
        case Err(e) => Err(e)
        case Ok(rest) => Ok((rest.0, [g.page] + rest.1))
  }

  /** One step of `AllocMany`: the first page, then the pages of the remaining calls. */
  lemma AllocManyStep(s: Partition, n: nat, g: PageGrant, rest: (Partition, seq<nat>))
    requires WellFormed(s) && n > 0
    ensures AllocPage(s) == Ok(g) && AllocMany(g.next, n - 1) == Ok(rest)
            ==> AllocMany(s, n) == Ok((rest.0, [g.page] + rest.1))
  {
  }

  /** One allocation on a partition holding exactly the pages below `k` returns `k`. */
  lemma AllocAfterPrefix(s: Partition, k: nat)
    requires Consistent(s) && AllocatedExactlyBelow(s, k) && k < CAPACITY
    ensures AllocPage(s).Ok? && AllocPage(s).value.page == k
    ensures Consistent(AllocPage(s).value.next) && AllocatedExactlyBelow(AllocPage(s).value.next, k + 1)
  {
    assert !Allocated(s, k);
    AllocIsFirstFit(s);
    AllocPreservesInvariant(s);
  }

  /** Allocating `n` pages from a partition holding exactly the pages below `k` succeeds,
      the `i`-th call returns `k + i`, and afterwards exactly the pages below `k + n` are
      allocated, with the invariant intact. */
  lemma {:induction false} AllocManyAfterPrefix(s: Partition, k: nat, n: nat)
    requires Consistent(s) && AllocatedExactlyBelow(s, k) && k + n <= CAPACITY
    ensures AllocMany(s, n).Ok?
    ensures forall i :: 0 <= i < n ==> AllocMany(s, n).value.1[i] == k + i
    ensures Consistent(AllocMany(s, n).value.0) && AllocatedExactlyBelow(AllocMany(s, n).value.0, k + n)
    decreases n
  {
    if n > 0 {
      AllocAfterPrefix(s, k);
      var g := AllocPage(s).value;
      AllocManyAfterPrefix(g.next, k + 1, n - 1);
      var r := AllocMany(g.next, n - 1).value;
      AllocManyStep(s, n, g, r);
      assert AllocMany(s, n) == Ok((r.0, [k] + r.1));
      forall i | 0 <= i < n
        ensures AllocMany(s, n).value.1[i] == k + i
      {
        if i > 0 {
          assert ([k] + r.1)[i] == r.1[i - 1];
        }
      }
    }
  }

  /** Allocation determinism: an empty partition hands out pages `0, 1, 2, ...` in order. */
  lemma AllocationDeterminism(n: nat)
    requires n <= CAPACITY
    ensures AllocMany(New(), n).Ok?
    ensures forall i :: 0 <= i < n ==> AllocMany(New(), n).value.1[i] == i
  {
    AllocManyAfterPrefix(New(), 0, n);
  }

  /** Exhaustion: once every page of an empty partition has been handed out, the next
      allocation fails with `OutOfSpace`. */
  lemma Exhaustion()
    ensures AllocMany(New(), CAPACITY).Ok?
    ensures AllocPage(AllocMany(New(), CAPACITY).value.0) == Err(OutOfSpace)
  {
    AllocManyAfterPrefix(New(), 0, CAPACITY);
    AllocIsFirstFit(AllocMany(New(), CAPACITY).value.0);
  }

  /** An allocated page passes the read and write guards; a freed one fails them. */
  lemma GuardsFollowAllocation(s: Partition, p: nat, buf: seq<bv8>)
    requires WellFormed(s)
    ensures AllocPage(s).Ok? ==>
              var g := AllocPage(s).value;
              && IsNotAllocated(g.next, g.page) == Ok(false)
              && ReadPage(g.next, g.page) == Ok(ReadAt(DataPageOffset(g.page), PAGE_SIZE))
              && WritePage(g.next, g.page, buf) == Ok(WriteAt(DataPageOffset(g.page), buf))
    ensures FreePage(s, p).Ok? ==>
              && IsNotAllocated(FreePage(s, p).value, p) == Ok(true)
              && ReadPage(FreePage(s, p).value, p) == Err(PageNotAllocated)
              && WritePage(FreePage(s, p).value, p, buf) == Err(PageNotAllocated)
  {
  }

  /** The walk-through of a partition's life: allocate 0, allocate 1, free 0, allocate 0
      again, reset, allocate 0. */
  lemma Scenario()
    ensures var a1 := AllocPage(New());
            && a1.Ok? && a1.value.page == 0
            && var a2 := AllocPage(a1.value.next);
            && a2.Ok? && a2.value.page == 1
            && var f := FreePage(a2.value.next, 0);
            && f.Ok?
            && var a3 := AllocPage(f.value);
            && a3.Ok? && a3.value.page == 0
            && var a4 := AllocPage(FreeAll(a3.value.next));
            && a4.Ok? && a4.value.page == 0
  {
    var s0 := New();
    AllocAfterPrefix(s0, 0);
    var s1 := AllocPage(s0).value.next;
    AllocAfterPrefix(s1, 1);
    var s2 := AllocPage(s1).value.next;
    FreeOfAllocatedSucceeds(s2, 0);
    FreeThenAllocReuses(s2, 0);
    var s3 := FreePage(s2, 0).value;
    FreeAllThenAllocReturnsZero(AllocPage(s3).value.next);
  }
}
