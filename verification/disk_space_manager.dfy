/** The disk space manager: the map from partition number to open partition handle, and the
    counter that mints fresh partition numbers. Directory enumeration and file opening are
    not modelled: the directory arrives as the outcome of listing it, entry by entry. */
module DiskSpaceManager {
  import opened Results
  import opened Layout

  const ISIZE_MIN: int := -0x8000_0000_0000_0000
  const ISIZE_MAX: int := 0x7FFF_FFFF_FFFF_FFFF

  /** A signed 64-bit integer, the type partition file names are parsed as. */
  type ISize = x: int | ISIZE_MIN <= x <= ISIZE_MAX

  /** An unsigned 64-bit integer: the partition numbers and the counter. */
  type U64 = x: int | 0 <= x < 0x1_0000_0000_0000_0000

  /** One directory entry: a name that parsed as an `isize`, or one that did not. */
  datatype DirEntry = Parsed(num: ISize) | Unparsable(name: string)

  /** An open partition handle, known by the partition number it was created with. */
  datatype Handle = Handle(partNum: U64)

  datatype Manager = Manager(partInfo: map<U64, Handle>, dbDir: string, counter: U64)

  /** A new partition number together with the manager that registered it. */
  datatype PartitionGrant = PartitionGrant(next: Manager, partNum: U64)

  /** `DiskSpaceManager::new`'s `as usize` / `as u64` on an `isize`: a two's-complement
      reinterpretation: the result is congruent to the name modulo 2^64 (it differs from it by
      0 or 2^64), and a negative name wraps to a number at or above 2^63. */
  function AsUnsigned(n: ISize): (u: U64)
    ensures u == n || u == n + U64_LIMIT
    ensures n < 0 <==> u >= -ISIZE_MIN
  {
    if n >= 0 then n else n + U64_LIMIT
  }

  /** Some entry parsed to a number that reinterprets as `k`. */
  predicate NamesPartition(entries: seq<DirEntry>, k: U64)
  {
    exists i :: 0 <= i < |entries| && entries[i].Parsed? && AsUnsigned(entries[i].num) == k
  }

  /** The names of a listing are those of all but its last entry, plus the last one's. */
  lemma NamesPartitionSnoc(entries: seq<DirEntry>, k: U64)
    requires |entries| > 0 && entries[|entries| - 1].Parsed? && AsUnsigned(entries[|entries| - 1].num) == k
    ensures forall j :: NamesPartition(entries, j) <==> NamesPartition(entries[..|entries| - 1], j) || j == k
  {
    var init := entries[..|entries| - 1];
    forall j | NamesPartition(entries, j)
      ensures NamesPartition(init, j) || j == k
    {
      var i :| 0 <= i < |entries| && entries[i].Parsed? && AsUnsigned(entries[i].num) == j;
      if i < |init| {
        assert init[i] == entries[i];
      }
    }
    forall j | NamesPartition(init, j)
      ensures NamesPartition(entries, j)
    {
      var i :| 0 <= i < |init| && init[i].Parsed? && AsUnsigned(init[i].num) == j;
      assert entries[i] == init[i];
    }
    assert NamesPartition(entries, k) by {
      assert entries[|entries| - 1].Parsed?;
    }
  }

  /** Every name of the listing parsed. */
  predicate AllParsed(entries: seq<DirEntry>)
  {
    forall i :: 0 <= i < |entries| ==> entries[i].Parsed?
  }

  /** Entry `i` is the first whose name did not parse. */
  predicate FirstUnparsable(entries: seq<DirEntry>, i: nat)
  {
    && i < |entries| && entries[i].Unparsable?
    && forall j :: 0 <= j < i ==> entries[j].Parsed?
  }

  /** `mx` is the largest parsed number of the listing, or -1 when all are smaller. */
  predicate IsMaxFileNum(entries: seq<DirEntry>, mx: ISize)
    requires AllParsed(entries)
  {
    && mx >= -1
    && (forall i :: 0 <= i < |entries| ==> entries[i].num <= mx)
    && (mx == -1 || exists i :: 0 <= i < |entries| && entries[i].num == mx)
  }

  /** `partInfo` holds one handle per parsed number, and nothing else. */
  predicate RegistersAll(partInfo: map<U64, Handle>, entries: seq<DirEntry>)
  {
    && (forall k :: k in partInfo <==> NamesPartition(entries, k))
    && (forall k :: k in partInfo ==> partInfo[k] == Handle(k))
  }

  lemma AllParsedSnoc(entries: seq<DirEntry>)
    requires |entries| > 0
    ensures AllParsed(entries) <==> AllParsed(entries[..|entries| - 1]) && entries[|entries| - 1].Parsed?
  {
    var init := entries[..|entries| - 1];
    assert forall i :: 0 <= i < |init| ==> init[i] == entries[i];
  }

  lemma FirstUnparsableSnoc(entries: seq<DirEntry>, i: nat)
    requires |entries| > 0 && FirstUnparsable(entries[..|entries| - 1], i)
    ensures FirstUnparsable(entries, i)
  {
    var init := entries[..|entries| - 1];
    assert forall j :: 0 <= j <= i ==> init[j] == entries[j];
  }

  lemma IsMaxFileNumSnoc(entries: seq<DirEntry>, mx: ISize)
    requires |entries| > 0 && AllParsed(entries)
    requires AllParsed(entries[..|entries| - 1]) && IsMaxFileNum(entries[..|entries| - 1], mx)
    ensures var n := entries[|entries| - 1].num;
            IsMaxFileNum(entries, if n > mx then n else mx)
  {
    var init := entries[..|entries| - 1];
    assert forall i :: 0 <= i < |init| ==> init[i] == entries[i];
    if mx != -1 {
      var i :| 0 <= i < |init| && init[i].num == mx;
      assert entries[i].num == mx;
    }
  }

  /** The scan of the directory listing, in listing order: the first name that does not
      parse is an error; otherwise every parsed number is registered under its unsigned
      reinterpretation and the largest parsed number (starting from -1) is kept. */
  function Scan(entries: seq<DirEntry>): (r: Result<(map<U64, Handle>, ISize)>)
    ensures r.Ok? <==> AllParsed(entries)
    ensures r.Err? ==> exists i: nat :: FirstUnparsable(entries, i) && r.error == CorruptDirectory(entries[i].name)
    ensures r.Ok? ==> RegistersAll(r.value.0, entries) && IsMaxFileNum(entries, r.value.1)
    decreases |entries|
  {
    if |entries| == 0 then Ok((map[], -1))
    else
      var init := entries[..|entries| - 1];
      var last := entries[|entries| - 1];
      AllParsedSnoc(entries);
      match Scan(init)
      case Err(e) =>
        var i: nat :| FirstUnparsable(init, i) && e == CorruptDirectory(init[i].name);
        FirstUnparsableSnoc(entries, i);
        assert init[i] == entries[i];
        Err(e)
      case Ok(acc) =>
        match last
        case Unparsable(name) =>
          assert FirstUnparsable(entries, |entries| - 1);
          Err(CorruptDirectory(name))
        case Parsed(n) =>
          var k := AsUnsigned(n);
          ScanParsedSnoc(entries, acc.0, acc.1);
          Ok((acc.0[k := Handle(k)], if n > acc.1 then n else acc.1))
  }

  /** One more parsed name: registering it and raising the maximum to it keeps the scan's
      result describing the longer listing. */
  lemma ScanParsedSnoc(entries: seq<DirEntry>, found: map<U64, Handle>, mx: ISize)
    requires |entries| > 0 && entries[|entries| - 1].Parsed?
    requires AllParsed(entries[..|entries| - 1])
    requires RegistersAll(found, entries[..|entries| - 1]) && IsMaxFileNum(entries[..|entries| - 1], mx)
    ensures var n := entries[|entries| - 1].num;
            && AllParsed(entries)
            && RegistersAll(found[AsUnsigned(n) := Handle(AsUnsigned(n))], entries)
            && IsMaxFileNum(entries, if n > mx then n else mx)
  {
    var k := AsUnsigned(entries[|entries| - 1].num);
    AllParsedSnoc(entries);
    NamesPartitionSnoc(entries, k);
    IsMaxFileNumSnoc(entries, mx);
    var m := found[k := Handle(k)];
    forall j
      ensures j in m <==> NamesPartition(entries, j)
    {
      assert j in m <==> j in found || j == k;
    }
  }

  /** The counter start as `DiskSpaceManager::new` computes it: the largest parsed number
      reinterpreted as a `u64`, plus one, with the overflow check of a debug build. */
  function InitialCounterAsWritten(maxFileNum: ISize): (r: Result<U64>)
    requires maxFileNum >= -1
    ensures r.Ok? ==> r.value == AsUnsigned(maxFileNum) + 1
    ensures r.Err? <==> AsUnsigned(maxFileNum) + 1 == U64_LIMIT
  {
    var widened := AsUnsigned(maxFileNum);
    if widened + 1 >= U64_LIMIT then Err(ArithmeticOverflow) else Ok(widened + 1)
  }

  /** The counter start as intended: one past the largest parsed number, 0 when no name is
      non-negative (the maximum then stays at -1). */
  function InitialCounter(maxFileNum: ISize): (c: U64)
    requires maxFileNum >= -1
    ensures c > maxFileNum
    ensures maxFileNum == -1 <==> c == 0
  {
    maxFileNum + 1
  }

  /** When no name is non-negative (a missing or empty directory, or only negative names),
      `new`'s counter start overflows in a debug build, while the intended start is 0; the two
      agree whenever some non-negative name was found. */
  lemma InitialCounterOverflowsWhenEmpty()
    ensures InitialCounterAsWritten(-1) == Err(ArithmeticOverflow)
    ensures InitialCounter(-1) == 0
    ensures forall m: ISize :: m >= 0 ==> InitialCounterAsWritten(m) == Ok(InitialCounter(m))
  {
  }

  /** Builds the manager. `listing` is `None` when the directory does not exist (it is
      created, empty); otherwise it lists the directory's entries. */
  function New(dbDir: string, listing: Option<seq<DirEntry>>): (r: Result<Manager>)
    ensures listing.None? ==> r == Ok(Manager(map[], dbDir, 0))
    ensures listing.Some? ==> (r.Ok? <==> AllParsed(listing.value))
    ensures r.Err? ==> r.error.CorruptDirectory?
    ensures r.Ok? ==> r.value.dbDir == dbDir
  {
    match listing
    case None => Ok(Manager(map[], dbDir, InitialCounter(-1)))
    case Some(entries) =>
      match Scan(entries)
      case Err(e) => Err(e)
      case Ok(found) => Ok(Manager(found.0, dbDir, InitialCounter(found.1)))
  }

  /** Hands out the counter's value, registers a handle for it and advances the counter;
      the atomic `fetch_add` wraps at 2^64. */
  function AllocPartition(m: Manager): (g: PartitionGrant)
    ensures g.partNum == m.counter
    ensures g.next.partInfo.Keys == m.partInfo.Keys + {g.partNum}
    ensures g.next.partInfo[g.partNum] == Handle(g.partNum)
    ensures forall k :: k in m.partInfo && k != g.partNum ==> g.next.partInfo[k] == m.partInfo[k]
    ensures g.next.counter == (m.counter + 1) % U64_LIMIT
    ensures g.next.dbDir == m.dbDir
  {
    var n := m.counter;
    PartitionGrant(Manager(m.partInfo[n := Handle(n)], m.dbDir, (n + 1) % U64_LIMIT), n)
  }

  /** Registers (or re-registers) a handle for a caller-chosen number; the counter is not
      consulted and not advanced. */
  function AllocPartitionWithNum(m: Manager, n: U64): (g: PartitionGrant)
    ensures g.partNum == n
    ensures g.next.partInfo.Keys == m.partInfo.Keys + {n}
    ensures g.next.partInfo[n] == Handle(n)
    ensures forall k :: k in m.partInfo && k != n ==> g.next.partInfo[k] == m.partInfo[k]
    ensures g.next.counter == m.counter && g.next.dbDir == m.dbDir
  {
    PartitionGrant(Manager(m.partInfo[n := Handle(n)], m.dbDir, m.counter), n)
  }

  /** The manager's counter starts one past the largest partition number found, and at 0
      when the directory is missing or holds no non-negative name. */
  lemma NewCounterIsOnePastMax(dbDir: string, entries: seq<DirEntry>)
    requires New(dbDir, Some(entries)).Ok?
    ensures var c := New(dbDir, Some(entries)).value.counter;
            && (forall i :: 0 <= i < |entries| ==> entries[i].num < c)
            && (c == 0 || exists i :: 0 <= i < |entries| && entries[i].num + 1 == c)
    ensures forall k :: k in New(dbDir, Some(entries)).value.partInfo <==> NamesPartition(entries, k)
  {
  }

  /** When every name is non-negative, a partition allocated after start-up gets a number no
      existing partition file has. */
  lemma AllocAfterNewIsFresh(dbDir: string, entries: seq<DirEntry>)
    requires New(dbDir, Some(entries)).Ok?
    requires forall i :: 0 <= i < |entries| ==> entries[i].num >= 0
    ensures AllocPartition(New(dbDir, Some(entries)).value).partNum !in New(dbDir, Some(entries)).value.partInfo
  {
  }

  /** `n` successive `alloc_partition` calls, collecting the numbers they return. */
  function AllocPartitions(m: Manager, n: nat): (r: (Manager, seq<U64>))
    ensures |r.1| == n
    decreases n
  {
    if n == 0 then (m, [])
    else
      var g := AllocPartition(m);
      var rest := AllocPartitions(g.next, n - 1);
      (rest.0, [g.partNum] + rest.1)
  }

  /** Numbers handed out by successive calls are consecutive from the counter, hence never
      reused, as long as the counter does not wrap. */
  lemma {:induction false} AllocPartitionsConsecutive(m: Manager, n: nat)
    requires m.counter + n <= U64_LIMIT
    ensures forall i :: 0 <= i < n ==> AllocPartitions(m, n).1[i] == m.counter + i
    ensures n > 0 ==> AllocPartitions(m, n).0.counter == (m.counter + n) % U64_LIMIT
    decreases n
  {
    if n > 0 {
      var g := AllocPartition(m);
      var rest := AllocPartitions(g.next, n - 1);
      var nums := AllocPartitions(m, n).1;
      assert nums == [m.counter] + rest.1;
      assert g.next.counter == m.counter + 1 || n == 1;
      if n > 1 {
        AllocPartitionsConsecutive(g.next, n - 1);
        forall i | 0 <= i < n
          ensures nums[i] == m.counter + i
        {
          if i > 0 {
            assert nums[i] == rest.1[i - 1];
          }
        }
      }
    }
  }

  /** Every number handed out by successive calls ends up registered. */
  lemma {:induction false} AllocPartitionsRegistered(m: Manager, n: nat)
    ensures forall i :: 0 <= i < n ==> AllocPartitions(m, n).1[i] in AllocPartitions(m, n).0.partInfo
    decreases n
  {
    if n > 0 {
      var g := AllocPartition(m);
      var rest := AllocPartitions(g.next, n - 1);
      assert AllocPartitions(m, n) == (rest.0, [g.partNum] + rest.1);
      AllocPartitionsRegistered(g.next, n - 1);
      AllocPartitionsKeep(g.next, n - 1, g.partNum);
    }
  }

  /** Allocation never unregisters a partition. */
  lemma {:induction false} AllocPartitionsKeep(m: Manager, n: nat, k: U64)
    requires k in m.partInfo
    ensures k in AllocPartitions(m, n).0.partInfo
    decreases n
  {
    if n > 0 {
      AllocPartitionsKeep(AllocPartition(m).next, n - 1, k);
    }
  }

  /** A fresh manager, over a missing or an empty directory, allocates partitions 0 then 1. */
  lemma FreshManagerAllocatesZeroThenOne(dbDir: string)
    ensures New(dbDir, None).Ok? && New(dbDir, Some([])).Ok?
    ensures New(dbDir, None) == New(dbDir, Some([]))
    ensures var g1 := AllocPartition(New(dbDir, None).value);
            && g1.partNum == 0
            && AllocPartition(g1.next).partNum == 1
  {
  }

  /** A caller-chosen number is returned as given and leaves the counter alone. */
  lemma AllocWithNumReturnsNumber(dbDir: string)
    ensures New(dbDir, None).Ok?
    ensures var m := New(dbDir, None).value;
            && AllocPartitionWithNum(m, 3).partNum == 3
            && AllocPartition(AllocPartitionWithNum(m, 3).next).partNum == 0
  {
  }

  /** Reopening over a directory holding partitions 0 and 3 resumes numbering at 4. */
  lemma ResumesAfterLargest(dbDir: string)
    ensures New(dbDir, Some([Parsed(0), Parsed(3)])).Ok?
    ensures AllocPartition(New(dbDir, Some([Parsed(0), Parsed(3)])).value).partNum == 4
  {
    var entries := [Parsed(0), Parsed(3)];
    assert Scan(entries[..1]).value.1 == 0;
  }

  /** A negative file name is registered under its wrapped unsigned number and leaves the
      maximum at -1. The intended counter start is then 0, the value a release build wraps to;
      a debug build panics on this listing, because `max_file_num as u64 + 1` overflows. */
  lemma NegativeNameWraps(dbDir: string)
    ensures New(dbDir, Some([Parsed(-1)])).Ok?
    ensures var m := New(dbDir, Some([Parsed(-1)])).value;
            && m.partInfo.Keys == {U64_LIMIT - 1}
            && m.counter == 0
    ensures Scan([Parsed(-1)]).Ok? && Scan([Parsed(-1)]).value.1 == -1
    ensures InitialCounterAsWritten(Scan([Parsed(-1)]).value.1) == Err(ArithmeticOverflow)
  {
    var entries: seq<DirEntry> := [Parsed(-1)];
    assert entries[0].Parsed? && AsUnsigned(entries[0].num) == U64_LIMIT - 1;
    assert NamesPartition(entries, U64_LIMIT - 1);
  }

  /** A negative name can wrap onto the number the counter starts at: with files named
      `isize::MAX` and `isize::MIN` the counter starts at 2^63, which the wrapped `isize::MIN`
      already holds, so the first `alloc_partition` replaces that partition's handle. */
  lemma WrappedNameCollides(dbDir: string)
    ensures New(dbDir, Some([Parsed(ISIZE_MAX), Parsed(ISIZE_MIN)])).Ok?
    ensures var m := New(dbDir, Some([Parsed(ISIZE_MAX), Parsed(ISIZE_MIN)])).value;
            && m.counter == -ISIZE_MIN
            && AllocPartition(m).partNum in m.partInfo
  {
    var entries: seq<DirEntry> := [Parsed(ISIZE_MAX), Parsed(ISIZE_MIN)];
    assert entries[1].Parsed? && AsUnsigned(entries[1].num) == -ISIZE_MIN;
    assert NamesPartition(entries, -ISIZE_MIN);
    assert AllParsed(entries);
    NewCounterIsOnePastMax(dbDir, entries);
    var c := New(dbDir, Some(entries)).value.counter;
    assert c > entries[0].num;
    var i :| 0 <= i < |entries| && entries[i].num + 1 == c;
    assert i == 0;
  }
}
