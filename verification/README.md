# Partition allocator and partition numbering of starlightSQL's storage layer

This project models the page-oriented storage layer of starlightSQL in Dafny. It has two parts.

- **The partition allocator** (`src/io/partition_handle.rs`). A partition is one file. The file holds a
  *master page* with one 16-bit counter per header, then `MAX_HEADER_PAGES` groups. Each group is one
  *header page* (a bitmap of `PAGE_SIZE` bytes, one bit per data page) followed by the
  `DATA_PAGES_PER_HEADER` data pages that bitmap tracks. The model keeps the in-memory bookkeeping as
  an immutable value, `Partition(master, headers)`. It covers:
  - first-fit `alloc_page` and `_alloc_page`;
  - `free_page` with double-free detection;
  - `free_all`;
  - the allocated-bit guard in front of `read_page` and `write_page`;
  - the little-endian master-page codec;
  - the closed-form file offsets of header and data pages.

  The central invariant is `Consistent`: every counter equals the population count of its header's
  bitmap.
- **Partition numbering** (`src/io/disk_space_manager.rs`). A manager maps partition numbers to handles.
  At start-up it scans the directory. The largest partition number it finds decides where the counter
  starts. `alloc_partition` hands out the counter's value and advances it.
  `alloc_partition_with_num` registers a number the caller chooses.

Panics become `Err` values of `Results.Error`:
- `OutOfSpace`: no free page.
- `DoubleFree`: freeing a page that is already free.
- `PageNotAllocated`: reading or writing a page that is not allocated.
- `PageOutOfRange`: the slice-index panic for a page number past the capacity.
- `ArithmeticOverflow`: a debug-build overflow panic.
- `CorruptDirectory`: a file name that does not parse.
- `IoError`: a short read.

The model splits `partition_handle.rs` into five modules and keeps `disk_space_manager.rs` as one:
- `Layout` holds the constants and offsets.
- `Bitmap` holds bit tests, population counts and the first-clear-bit scan.
- `MasterPage` holds the counters and their codec.
- `PartitionHandle` holds the allocator.
- `AllocatorProperties` holds the lemmas relating allocator operations to each other.
- `DiskSpaceManager` holds partition numbering.

Three behaviours of the code are worth stating on their own:
- Freeing a page that is already free panics with "Page already free" (partition_handle.rs:126-128),
  modelled as `DoubleFree`.
- A file name that parses as a negative `isize` is accepted and registered under its wrapped
  `as usize` value, at or above 2^63 (disk_space_manager.rs:23-30). Such a name can coincide with the
  number the counter starts at. With files named `9223372036854775807` and `-9223372036854775808`,
  the counter starts at 2^63, which is already registered, so the first `alloc_partition` replaces
  that partition's handle (`DiskSpaceManager.WrappedNameCollides`). This is why
  `DiskSpaceManager.AllocAfterNewIsFresh` is stated for non-negative names only.
- The counter start for an empty directory overflows in a debug build (see Findings).

## Model

| member | source | states |
|---|---|---|
| Layout.HeaderPageOffset | src/io/partition_handle.rs:185-187 | every header page starts on a page boundary, after the master page |
| Layout.DataPageOffset | src/io/partition_handle.rs:169-172 | every data page starts on a page boundary, after the master page and the first header page |
| Layout.HeaderOffsetsIncrease | src/io/partition_handle.rs:185-187 | a lower header index has a lower offset, and two header pages never overlap |
| Layout.DataPageBetweenHeaders | src/io/partition_handle.rs:169-172 | a data page lies after its own header page and ends before the next header page |
| Layout.DataOffsetsIncrease | src/io/partition_handle.rs:169-172 | a lower page number has a lower offset, and two data pages never share a byte |
| Layout.DataOffsetsInjective | src/io/partition_handle.rs:169-172 | two page numbers with the same data-page offset are equal |
| Layout.DataAndHeaderPagesDisjoint | src/io/partition_handle.rs:169-187 | no data page overlaps any header page |
| Layout.DataPagesInsideFile | src/io/partition_handle.rs:169-172 | every data page of the capacity lies within `FILE_SIZE`, the file length once every data page has been written; the last one ends exactly there, and `FILE_SIZE` fits a `u64` seek |
| Layout.WithinCreatedFile | src/io/partition_handle.rs:67-74 | a freshly created file ends with the last header page, so a data page lies within it exactly when it is not under the last header, whose data pages start at or past its end |
| Layout.GlobalPageAddress | src/io/partition_handle.rs:117 | `part * 10^10 + page` splits back into `part` and `page` by division and remainder, because a partition holds fewer than 10^10 pages |
| Bitmap.MaskIsShift | src/io/partition_handle.rs:97 | the mask table equals `1 << j` for each bit position of a byte |
| Bitmap.SetBit | src/io/partition_handle.rs:114 | `b \| (1 << j)` sets bit `j` and keeps every other bit |
| Bitmap.ClearBit | src/io/partition_handle.rs:130 | `b & !(1 << j)` clears bit `j` and keeps every other bit |
| Bitmap.PopCountFull | src/io/partition_handle.rs:86 | a bitmap's population count reaches `8 * length` exactly when every bit is set |
| Bitmap.FirstClearInByteFrom | src/io/partition_handle.rs:96-102 | the inner scan over the bits of one byte, from bit `j`, returns a bit position in `j..7`; its lemma below states which one |
| Bitmap.FirstClearInByteFromSpec | src/io/partition_handle.rs:96-102 | the inner scan stops at a clear bit after only set bits, and finds nothing only when all remaining bits are set |
| Bitmap.FirstClearFrom | src/io/partition_handle.rs:94-106 | the outer scan over the bytes of a header, from byte `i`, returns a bit number between `8 * i` and the bitmap's end; its lemma below states which one |
| Bitmap.FirstClearFromSpec | src/io/partition_handle.rs:94-106 | the byte-then-bit scan returns `i * 8 + j` for a clear bit with only set bits before it, and finds nothing only when all later bits are set |
| Bitmap.FirstClearBit | src/io/partition_handle.rs:94-109 | the scan of one header gives its lowest clear bit, and fails exactly when every bit is set |
| Bitmap.SetHeaderBit | src/io/partition_handle.rs:114 | only bit `k` of the header changes, it becomes set, and the population count grows by one when it was clear |
| Bitmap.ClearHeaderBit | src/io/partition_handle.rs:130 | only bit `k` of the header changes, it becomes clear, and the population count drops by one when it was set |
| Bitmap.ClearUndoesSet | src/io/partition_handle.rs:114 | clearing a bit that was just set from clear gives back the original bitmap |
| MasterPage.FromLeBytes | src/io/partition_handle.rs:39 | `u16::from_le_bytes` of a byte pair is the counter whose low byte is the first byte and whose high byte is the second |
| MasterPage.Counters | src/io/partition_handle.rs:37-40 | the decode loop yields `n` counters, counter `i` having low byte `2i` and high byte `2i+1` of the page |
| MasterPage.ToLeBytes | src/io/partition_handle.rs:23 | a counter becomes two bytes that decode back to it |
| MasterPage.LeBytesDetermined | src/io/partition_handle.rs:39 | every byte pair is the encoding of the counter it decodes to |
| MasterPage.ToBytes | src/io/partition_handle.rs:20-27 | the encoding is two bytes per counter, and bytes `2i` and `2i+1` decode to counter `i` |
| MasterPage.EncodedSizeIsOnePage | src/io/partition_handle.rs:20-27 | the encoded master page is exactly `PAGE_SIZE` bytes |
| MasterPage.ReadFromFile | src/io/partition_handle.rs:33-42 | reading fails with an I/O error exactly when the file is shorter than a page, and otherwise yields `MAX_HEADER_PAGES` counters |
| MasterPage.RoundTrip | src/io/partition_handle.rs:33-42 | reading back the encoded master page, whatever follows it in the file, gives the original counters |
| MasterPage.EncodeDecoded | src/io/partition_handle.rs:33-42 | re-encoding what was read reproduces the first page of the file byte for byte |
| MasterPage.Up | src/io/partition_handle.rs:43-45 | exactly counter `h` grows by one |
| MasterPage.Down | src/io/partition_handle.rs:46-48 | exactly counter `h` drops by one |
| MasterPage.DownUndoesUp | src/io/partition_handle.rs:43-48 | `down` after `up` on the same header restores the counters |
| PartitionHandle.New | src/io/partition_handle.rs:59-66 | a new partition satisfies the invariant and has no page allocated |
| PartitionHandle.FirstFreeHeaderFrom | src/io/partition_handle.rs:85-90 | the scan over the counters, from header `i`, returns a header index in `i..MAX_HEADER_PAGES - 1`; its lemma below states which one |
| PartitionHandle.FirstFreeHeaderFromSpec | src/io/partition_handle.rs:85-90 | the header scan stops at a counter below capacity after only full counters, and finds nothing only when all remaining counters are full |
| PartitionHandle.FirstFreeHeader | src/io/partition_handle.rs:85-93 | allocation picks the lowest header whose counter is below `DATA_PAGES_PER_HEADER`, and finds none exactly when all counters are full |
| PartitionHandle.OnlyPageChanges | src/io/partition_handle.rs:113-131 | setting or clearing bit `d` of header `h` changes the allocation state of page `h * DATA_PAGES_PER_HEADER + d` only |
| PartitionHandle.MarkAllocated | src/io/partition_handle.rs:113-121 | the returned page splits back into the chosen header and bit, that page becomes allocated, no other page changes, and only that header's counter changes, by exactly one |
| PartitionHandle.AllocPage | src/io/partition_handle.rs:82-112 | a successful allocation returns a page that was free and is now allocated, with every other page unchanged; a failure is `OutOfSpace` |
| PartitionHandle.FreePage | src/io/partition_handle.rs:122-134 | out of range exactly when the page is past the capacity; `DoubleFree` exactly when the page is in range and free; on success only that page becomes free and only its header's counter drops, by one |
| PartitionHandle.FreeAll | src/io/partition_handle.rs:135-146 | after a reset the invariant holds and no page is allocated |
| PartitionHandle.IsNotAllocated | src/io/partition_handle.rs:147-152 | the test reports free exactly when the page's bit is clear, and is out of range past the capacity |
| PartitionHandle.ReadPage | src/io/partition_handle.rs:153-161 | the read goes ahead exactly when the page is allocated, as one whole page at its data-page offset, within `FILE_SIZE`; otherwise it fails before any I/O with `PageNotAllocated` |
| PartitionHandle.WritePage | src/io/partition_handle.rs:162-168 | the write goes ahead exactly when the page is allocated, at its data-page offset, within `FILE_SIZE`; otherwise it fails before any I/O with `PageNotAllocated` |
| AllocatorProperties.FullCounterMeansFullHeader | src/io/partition_handle.rs:86 | under the invariant, a counter at capacity means every bit of its header is set |
| AllocatorProperties.SecondScanNeverFails | src/io/partition_handle.rs:107-109 | under the invariant, the header chosen by its counter always has a clear bit, so the second "no more space" panic is unreachable |
| AllocatorProperties.AllocPreservesInvariant | src/io/partition_handle.rs:113-116 | allocation keeps every counter equal to its header's population count |
| AllocatorProperties.AllocIsFirstFit | src/io/partition_handle.rs:82-111 | allocation returns the lowest free page number of the whole partition, and fails exactly when every page is allocated |
| AllocatorProperties.BelowFirstFitIsAllocated | src/io/partition_handle.rs:85-106 | every page below the one first fit picks is allocated |
| AllocatorProperties.FreeOfAllocatedSucceeds | src/io/partition_handle.rs:122-131 | under the invariant, freeing succeeds exactly when the page is in range and allocated, so the counter never underflows |
| AllocatorProperties.FreePreservesInvariant | src/io/partition_handle.rs:122-131 | freeing keeps every counter equal to its header's population count |
| AllocatorProperties.AllocThenFreeRestores | src/io/partition_handle.rs:113-131 | freeing the page just allocated restores the partition exactly |
| AllocatorProperties.FreeThenAllocReuses | src/io/partition_handle.rs:82-131 | after a free the next allocation succeeds, and it returns the freed page exactly when every lower page is allocated |
| AllocatorProperties.FreeAllThenAllocReturnsZero | src/io/partition_handle.rs:135-141 | after a reset the next allocation returns page 0 |
| AllocatorProperties.AllocAfterPrefix | src/io/partition_handle.rs:82-121 | when exactly the pages below `k` are allocated, allocation returns `k` and leaves exactly the pages below `k + 1` allocated |
| AllocatorProperties.AllocManyAfterPrefix | src/io/partition_handle.rs:82-121 | starting from exactly the pages below `k`, `n` allocations return `k, ..., k + n - 1` in order and leave exactly the pages below `k + n` allocated, with the invariant intact |
| AllocatorProperties.AllocationDeterminism | src/io/partition_handle.rs:82-121 | a new partition hands out pages `0, 1, 2, ...` in order |
| AllocatorProperties.Exhaustion | src/io/partition_handle.rs:91-93 | after `CAPACITY` allocations from a new partition, the next one fails with `OutOfSpace` |
| AllocatorProperties.GuardsFollowAllocation | src/io/partition_handle.rs:147-167 | a freshly allocated page passes the read and write guards, and a freshly freed page fails them with `PageNotAllocated` |
| AllocatorProperties.Scenario | src/io/partition_handle.rs:82-146 | allocate 0, allocate 1, free 0, allocate 0 again, reset, allocate 0 |
| DiskSpaceManager.AsUnsigned | src/io/disk_space_manager.rs:27 | `as usize` is congruent to the name modulo `2^64`, and lands at or above `2^63` exactly when the name is negative |
| DiskSpaceManager.Scan | src/io/disk_space_manager.rs:19-31 | the scan succeeds exactly when every name parses; it fails on the first unparsable name, reporting that name; on success it registers exactly the parsed numbers and finds the larger of -1 and their maximum |
| DiskSpaceManager.InitialCounterAsWritten | src/io/disk_space_manager.rs:36 | `max_file_num as u64 + 1` overflows exactly when the reinterpreted maximum is `2^64 - 1` |
| DiskSpaceManager.InitialCounter | src/io/disk_space_manager.rs:36 | the counter starts above every parsed number, and at 0 exactly when no name is non-negative |
| DiskSpaceManager.InitialCounterOverflowsWhenEmpty | src/io/disk_space_manager.rs:15-36 | with no non-negative name found (maximum -1), the code as written overflows while the intended start is 0; with any non-negative maximum the two agree |
| DiskSpaceManager.New | src/io/disk_space_manager.rs:13-38 | a missing directory gives an empty map and counter 0; a listing succeeds exactly when every name parses, and any failure is `CorruptDirectory` |
| DiskSpaceManager.NewCounterIsOnePastMax | src/io/disk_space_manager.rs:19-36 | after start-up the counter is above every parsed number and is one past one of them, or 0; the map holds exactly the parsed numbers |
| DiskSpaceManager.AllocAfterNewIsFresh | src/io/disk_space_manager.rs:36-44 | with only non-negative names, the first partition allocated after start-up gets a number no existing partition has |
| DiskSpaceManager.AllocPartition | src/io/disk_space_manager.rs:39-45 | returns the counter's value, registers it, keeps the other entries, and advances the counter by one modulo `2^64` |
| DiskSpaceManager.AllocPartitionWithNum | src/io/disk_space_manager.rs:46-51 | returns the given number, registers or replaces it, keeps the other entries, and leaves the counter alone |
| DiskSpaceManager.AllocPartitionsConsecutive | src/io/disk_space_manager.rs:39-45 | successive allocations return consecutive numbers from the counter, so none repeats before the counter wraps |
| DiskSpaceManager.AllocPartitionsRegistered | src/io/disk_space_manager.rs:39-45 | every number handed out by successive allocations ends up in the map |
| DiskSpaceManager.AllocPartitionsKeep | src/io/disk_space_manager.rs:43 | allocation never removes a registered partition |
| DiskSpaceManager.FreshManagerAllocatesZeroThenOne | src/io/disk_space_manager.rs:58-65 | a fresh manager, over a missing or an empty directory, allocates 0 and then 1 |
| DiskSpaceManager.AllocWithNumReturnsNumber | src/io/disk_space_manager.rs:67-72 | choosing number 3 returns 3, and the counter still hands out 0 next |
| DiskSpaceManager.ResumesAfterLargest | src/io/disk_space_manager.rs:19-36 | over partitions 0 and 3, numbering resumes at 4 |
| DiskSpaceManager.WrappedNameCollides | src/io/disk_space_manager.rs:23-45 | over files `isize::MAX` and `isize::MIN`, the counter starts at `2^63`, a number already registered, so `alloc_partition` hands out a number in use |
| DiskSpaceManager.NegativeNameWraps | src/io/disk_space_manager.rs:23-30 | a file named `-1` is registered as `2^64 - 1`; the maximum stays -1, so the intended (release-build) counter start is 0, while the expression at line 36 overflows and a debug build panics on this listing |

## Left out

- File I/O is not modelled, for partitions and for the directory: `open`, `File::create`, seeks, `read_exact`, `write` and `write_all`. This includes persisting the master and header pages after each change, the order of those writes, and crash consistency. Only the request a data-page read or write would issue is returned (`PageIo`).
- `open` and `read_header_page` are not modelled. Reading the master page back is modelled as `MasterPage.ReadFromFile` on a file image.
- `MasterPage::write_to_file` uses `write` rather than `write_all`, so a short write could persist part of the master page. The model has no file, so this is not represented.
- `write_header_page` is not modelled. Its offset is `Layout.HeaderPageOffset`.
- The bytes of data pages are not modelled. Only the guard and the offset of `read_page` and `write_page` are modelled.
- PartitionHandle.WritePage: the length of the caller's buffer is not checked, in the source or the model. A longer buffer would run into the next page, so only the page's start is bounded by the file size.
- `println!`, `print_master_page` and `print_header_page` are left out, because they are output only.
- `AtomicU64` ordering and concurrent access to the `HashMap` are left out. The counter is a plain number and the map is a Dafny `map`.
- A handle is represented by its partition number only (`Handle(partNum)`).
- Directory enumeration and the `isize` parse of names are not modelled. The input is each entry's parse outcome, `Parsed(n)` or `Unparsable(name)`. A non-UTF-8 name, which also panics, counts as unparsable.
- The `_vpn` value in `_alloc_page` is computed and discarded. Only its decomposition is stated (`Layout.GlobalPageAddress`).
- PartitionHandle.AllocPage: the model's partition has no partition number, so it always succeeds where the source's `_alloc_page` computes `part_num * 10000000000`. That product overflows `usize` for partition numbers above 1,844,674,407, so in a debug build every `alloc_page` on such a partition panics. This includes every partition registered under a negative name, whose number is at least 2^63.
- PartitionHandle.ReadPage: only bounds the offset by `FILE_SIZE`. A freshly created file stops at the last header page (`Layout.WithinCreatedFile`). So reading a data page of the last header before it, or any later data page of the last header, has been written makes the source's `read_exact` hit end-of-file and panic. Once a later page of that group has been written, `write_all` has extended the file past the earlier ones, and they read back as zeros. The model still returns the read request.
- MasterPage.Up: requires the counter below `u16::MAX`. The source's `+= 1` would panic there in a debug build. Allocation only raises a counter that is below `DATA_PAGES_PER_HEADER`.
- MasterPage.Down: requires a positive counter. The source's `-= 1` would panic at zero in a debug build. `PartitionHandle.FreePage` returns `ArithmeticOverflow` in that case before calling it.
- PartitionHandle.MarkAllocated: requires the counter to be below `u16::MAX`, where the source would panic in a debug build. Its only caller, `AllocPage`, calls it only for a counter below `DATA_PAGES_PER_HEADER`.
- DiskSpaceManager.New: uses the intended counter start, `DiskSpaceManager.InitialCounter`, not the overflowing expression of the source (see Findings).
- `src/main.rs` is a demonstration entry point and is not part of this model.

## Findings

| source | as written | input that shows it | evidently intended | confidence | as-written member | corrected member |
|---|---|---|---|---|---|---|
| src/io/disk_space_manager.rs:36 | `max_file_num as u64 + 1` with `max_file_num` starting at -1: `(-1isize) as u64` is `u64::MAX`, and adding 1 overflows | a missing or empty database directory, or a directory whose names are all negative, e.g. `-1` (`max_file_num == -1`); a debug build, including `cargo test`, panics with an overflow; a release build wraps to 0 | the counter starts at 0 when no name is non-negative | not executed; high | DiskSpaceManager.InitialCounterAsWritten (exhibited by DiskSpaceManager.InitialCounterOverflowsWhenEmpty) | DiskSpaceManager.InitialCounter |
