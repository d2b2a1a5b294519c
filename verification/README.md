# NOR flash read-modify-write storage, modelled in Dafny

This project models the NOR flash layer of the `embedded-storage` crate
(`src/nor_flash.rs`).

**Device contract.** A NOR flash device reads, erases and writes its
storage. Every operation first runs a validator:

- `check_slice`, `check_read` and `check_write` test bounds first, then
  alignment to `READ_SIZE` / `WRITE_SIZE`;
- `check_erase` tests bounds, then alignment to `ERASE_SIZE`.

An erase sets every bit of its range to 1 (`ERASE_BYTE`, `0xFF`). A write
can only clear bits: each cell keeps the AND of its old value and the
written byte.

**Two adapters** turn such a device into byte-addressed storage:

- `RmwNorFlashStorage` handles every erase page a write touches, in
  ascending order: it reads the page into a caller-supplied merge buffer,
  erases the page, copies the new bytes in, and writes the whole page back.
- `RmwMultiwriteNorFlashStorage` first tests whether the new bytes only clear
  bits of the stored ones. If they do, it skips the erase and programs the
  bytes directly, padded with erased bytes. The padded length computed at
  src/nor_flash.rs:373 is not in general a whole number of write units (see
  "Findings"). The model's adapter has a `roundUp` flag: `false` pads as the
  code does, `true` rounds up to whole write units as evidently intended.
  Every contract of the adapter holds in both modes.

**Modules.**

| module | file | contents |
|---|---|---|
| `NorFlash` | `nor_flash.dfy` | error kinds and the four validators |
| `Paging` | `paging.dfy` | `Page` and the decomposition of a request over the device's pages |
| `Device` | `device.dfy` | cell semantics; `MockFlash`; `MultiwriteFlash`, a device that keeps exactly the `MultiwriteNorFlash` contract |
| `RmwSpec` | `rmw_spec.dfy` | what a read-modify-write is meant to do, stated on values |
| `Rmw` | `rmw.dfy` | `RmwNorFlashStorage` |
| `RmwMultiwrite` | `rmw_multiwrite.dfy` | `RmwMultiwriteNorFlashStorage` |

**Call logs.** Both device classes keep a ghost log of the calls they
receive. The adapters' contracts state this log page by page, so the proved
properties include:

- exactly one read, one erase and one write per touched page;
- no erase when the subset test passes;
- the first failing call ends the write.

**Overlap decomposition.** The adapters walk the pages with an `overlaps`
iterator. The crate::iter module, which defines it, is not part of this
model. Here it is the pure function `Paging.Overlaps`, defined by the
contract the adapters' comments give for it:

- one triple `(data, page, addr)` per page that shares a byte with the
  request;
- the triples come in page order;
- `data` is the part of the request inside the page, and `addr` is that
  part's address.

## Model

| member | source | states |
|---|---|---|
| NorFlash.CheckSlice | src/nor_flash.rs:145-159 | `OutOfBounds` exactly when the request ends past the capacity, with no overflow; otherwise `NotAligned` exactly when the offset or the length is not a multiple of the alignment; otherwise `Ok` |
| NorFlash.CheckRead | src/nor_flash.rs:79-86 | `Ok` iff the read lies inside the device and is `READ_SIZE`-aligned; an error is `OutOfBounds` exactly for out-of-range reads, and `NotAligned` otherwise |
| NorFlash.CheckWrite | src/nor_flash.rs:136-143 | the same as `CheckRead`, against `WRITE_SIZE` |
| NorFlash.CheckErase | src/nor_flash.rs:124-134 | `OutOfBounds` iff `from > to` or `to > capacity`; otherwise `NotAligned` iff either end is not a multiple of `ERASE_SIZE`; `Ok` only for an in-bounds, aligned range |
| Paging.Page.End | src/nor_flash.rs:217-219 | a page ends `size` bytes after its start (exclusive) |
| Paging.Page.Contains | src/nor_flash.rs:224-226 | an address lies in a page iff `start <= address < end` |
| Paging.NewPage | src/nor_flash.rs:209-219 | page `i` has the given size and ends at `(i + 1) * size` |
| Paging.PageContainsIndex | src/nor_flash.rs:222-226 | page `i` contains address `a` exactly when `a / size == i` |
| Paging.PagesAdjacent | src/nor_flash.rs:209-226 | each page ends where the next one starts; two distinct pages never contain the same address |
| Paging.EraseRangeIsWholePages | src/nor_flash.rs:124-134 | `check_erase` accepts a range iff it runs forwards inside the device and both of its ends are page starts |
| Paging.PagesTile | src/nor_flash.rs:277-282 | the pages `0 .. capacity / ERASE_SIZE` are contiguous; they start at 0 and end at `count * size` |
| Paging.Clip | src/nor_flash.rs:279-280 | the item cut from one page describes that page's part of the request and its address |
| Paging.Overlaps | src/nor_flash.rs:281-283 | the decomposition the adapters loop over (also at :356-358): at most one item per page; its items are stated by the lemmas below |
| Paging.OverlapItem | src/nor_flash.rs:279-283 | every item of the decomposition comes from one of the pages, shares a byte with the request, and describes its part of the request |
| Paging.OverlapsComplete | src/nor_flash.rs:279-283 | every page that shares a byte with the request yields an item |
| Paging.OverlapsBeyond | src/nor_flash.rs:279-283 | a request that ends before the first page yields no item |
| Paging.OverlapsEmpty | src/nor_flash.rs:279-283 | no item means the request is empty or lies wholly outside the pages |
| Paging.OverlapsChain | src/nor_flash.rs:279-283 | consecutive items come from adjacent pages; each item's data starts where the previous item's data ended |
| Paging.OverlapsFirst | src/nor_flash.rs:279-283 | the first item starts at the request's offset |
| Paging.OverlapsLast | src/nor_flash.rs:279-283 | the last item ends where the request ends, or at the last page's end if that comes first |
| Paging.JoinedChain | src/nor_flash.rs:279-280 | consecutive items that describe the request reassemble one slice of it |
| Paging.DecompositionComplete | src/nor_flash.rs:277-283 | over the device's pages, the items' data in order is exactly the part of the request inside `[0, count * size)` |
| Paging.DevicePagesEnds | src/nor_flash.rs:277-283 | over the device's pages, the items run from the offset to the request's end or the pages' end; there are none only for an empty or out-of-range request |
| Paging.DevicePagesChain | src/nor_flash.rs:277-283 | over the device's pages, each item starts where the one before it stopped |
| Paging.OverlapOnDevicePage | src/nor_flash.rs:277-283 | every item lies on one page `Page::new(i, ERASE_SIZE)` with `i < count`, inside the device, and its data lies inside that page |
| Device.AcceptedPrefixMeaning | src/nor_flash.rs:601-608 | the scan stops at the first cell that refuses its byte; every cell before it accepts |
| Device.ProgrammingOnlyClears | src/nor_flash.rs:191-194 | after programming, every cell is a bitwise subset of its old value |
| Device.ProgramIsOverwriteIff | src/nor_flash.rs:191-194 | programming stores exactly the written bytes iff they only clear bits the cells still have set |
| Device.ProgramErased | src/nor_flash.rs:101-102 | programming erased cells stores the written bytes unchanged |
| Device.EraseIdempotent | src/nor_flash.rs:613-617 | erasing twice equals erasing once; erasing blank cells changes nothing |
| Device.ProgramFromAgrees | src/nor_flash.rs:599-611 | the cell loop succeeds iff every cell accepts its byte, and it programs exactly the cells before the refusing one, plus that one when only the AND test fails |
| Device.AcceptedOnBlank | src/nor_flash.rs:601-608 | erased cells accept any byte, in either mode |
| Device.MockFlash.Default | src/nor_flash.rs:513-517 | a new device is fully erased, with the given geometry |
| Device.MockFlash.Capacity | src/nor_flash.rs:581-583 | the capacity is the storage size |
| Device.MockFlash.Read | src/nor_flash.rs:575-579 | the result is `check_read`'s; on `Ok` the buffer holds `data[offset .. offset + len)` and the rest of it is unchanged; on error nothing changes |
| Device.MockFlash.Erase | src/nor_flash.rs:613-617 | the result is `check_erase`'s; on `Ok` exactly `[from, to)` becomes `ERASE_BYTE`; on error the storage is unchanged |
| Device.MockFlash.Write | src/nor_flash.rs:599-611 | the outcome and the new storage are those of `MockWrite`: `check_write` first; then `DirtyWrite` at the first cell that is not erased (plain mode) or whose AND differs from the source byte |
| Device.MockFlash.Program | src/nor_flash.rs:601-610 | the in-place loop yields what `ProgramFrom` gives from cell 0 |
| Device.MultiwriteFlash.constructor | src/nor_flash.rs:191-201 | a new multiwrite device is fully erased |
| Device.MultiwriteFlash.Capacity | src/nor_flash.rs:75-76 | the capacity is the storage size |
| Device.MultiwriteFlash.Read | src/nor_flash.rs:66-73 | as `MockFlash.Read` |
| Device.MultiwriteFlash.Erase | src/nor_flash.rs:101-111 | as `MockFlash.Erase` |
| Device.MultiwriteFlash.Write | src/nor_flash.rs:191-194 | the result is `check_write`'s; on `Ok` every written cell keeps the AND of its old value and the written byte, however often it was written before; on error nothing changes |
| RmwSpec.CoveredBounds | src/nor_flash.rs:277 | the whole pages end at the largest multiple of `ERASE_SIZE` within the capacity, which is the capacity itself when it is a multiple |
| RmwSpec.TouchedInDevice | src/nor_flash.rs:279-283 | every touched item lies inside its page, and its page inside the device |
| RmwSpec.TouchedOnPage | src/nor_flash.rs:281-283 | every touched item lies on an aligned erase page of `ERASE_SIZE` bytes and describes its part of the request |
| RmwSpec.TouchedReached | src/nor_flash.rs:279-283 | item `k` starts where the items before it stopped storing the request |
| RmwSpec.TouchedEnd | src/nor_flash.rs:277-283 | after the last item, the request is stored exactly up to the end of the last whole page |
| RmwSpec.SpliceStep | src/nor_flash.rs:292-296 | copying one item into the contents spliced so far extends the splice past that item |
| RmwSpec.MergedPageSoFar | src/nor_flash.rs:287-288 | the page read at the start of a step still holds the old contents |
| RmwSpec.RewritePage | src/nor_flash.rs:291-298 | erasing the page and programming the merged image leaves the old contents with the item copied in |
| RmwSpec.WriteMergedOnErased | src/nor_flash.rs:291-298 | on a just-erased page, `MockFlash` accepts the merged image whenever `check_write` passes, and the page then holds the old contents with the item copied in |
| RmwSpec.MergedPageLocal | src/nor_flash.rs:285-296 | the merged image is the old page with the item's data at `addr - page.start` |
| RmwSpec.SplicedReadBack | src/nor_flash.rs:275-301 | a spliced write stores the request at its addresses below the limit; every other byte keeps its value |
| RmwSpec.WholePagesReadBack | src/nor_flash.rs:799-825 | on a device made of whole pages, a write of any in-range request, aligned or not and including the empty one, reads back as the request; no other byte changes |
| Rmw.PlainPageCounts | src/nor_flash.rs:285-298 | one page step makes three calls: one read, one erase, one write |
| Rmw.PlainTraceCounts | src/nor_flash.rs:281-299 | a write makes `3n` calls for `n` touched pages: `n` reads, `n` erases, `n` writes |
| Rmw.PlainStep | src/nor_flash.rs:284-299 | one loop turn: the item lies on an aligned page; its page still holds the old contents; rewriting it extends both the splice and the call trace by one item |
| Rmw.RmwNorFlashStorage.constructor | src/nor_flash.rs:243-252 | the adapter holds the device and a merge buffer of at least one erase page |
| Rmw.RmwNorFlashStorage.Capacity | src/nor_flash.rs:266-268 | the device's capacity |
| Rmw.RmwNorFlashStorage.Read | src/nor_flash.rs:261-264 | a read passes straight through to the device, with the device's checks and errors |
| Rmw.RmwNorFlashStorage.CopyIn | src/nor_flash.rs:292-296 | the item's data lands at its offset in the buffer's first page; nothing else in the buffer changes |
| Rmw.RmwNorFlashStorage.Rewrite | src/nor_flash.rs:291-298 | erases the page, then writes the merged image: the calls are exactly these two; on `Ok` the page holds the old contents with the item copied in; the write fails, leaving the page erased, iff `ERASE_SIZE` is not a multiple of `WRITE_SIZE` |
| Rmw.RmwNorFlashStorage.MergePage | src/nor_flash.rs:285-298 | one page step: a failed page read leaves the storage unchanged; otherwise exactly read, erase, write of the merged image; `Ok` iff the page is `READ_SIZE`- and `WRITE_SIZE`-aligned; errors are `NotAligned` |
| Rmw.RmwNorFlashStorage.Write | src/nor_flash.rs:275-301 | on `Ok`: the device holds the old contents with the request stored up to the last whole page; the calls are read, erase, write per touched page, in ascending order; only `merge_buffer[..ERASE_SIZE]` changes. `Ok` iff nothing is touched or the pages are aligned. On error: the failure is at the first page; the calls and the contents left (unchanged, or the first page erased) are stated exactly |
| RmwMultiwrite.IsSubset | src/nor_flash.rs:365-366 | `is_subset` over the zip of the item and the page bytes from `addr` on; its meaning is `IsSubsetMeaning` |
| RmwMultiwrite.IsSubsetMeaning | src/nor_flash.rs:365-366 | `is_subset` holds iff `data[i] & existing[i] == data[i]` for every pair the zip forms |
| RmwMultiwrite.AlignedEndAsWritten | src/nor_flash.rs:372-373 | `aligned_end` as written: it covers the item from the start of its write unit, with less than one unit to spare, but it need not be a multiple of `WRITE_SIZE` |
| RmwMultiwrite.AlignedEndAsWrittenRejected | src/nor_flash.rs:372-377 | the as-written `aligned_end` gives a length that `check_write` refuses for an in-bounds item; the corrected one passes |
| RmwMultiwrite.AlignedEnd | src/nor_flash.rs:372-373 | the padded length is a multiple of `WRITE_SIZE` and covers the item from its write unit, with less than one unit of padding |
| RmwMultiwrite.AsWrittenWhenAligned | src/nor_flash.rs:372-373 | where the as-written length is a multiple of `WRITE_SIZE`, it equals the intended one |
| RmwMultiwrite.PadEnd | src/nor_flash.rs:372-373 | the padded length of either mode covers the item from the start of its write unit, with less than one unit to spare |
| RmwMultiwrite.PaddedWindow | src/nor_flash.rs:372-377 | the padded write starts on a write unit inside the item's page and ends inside that page |
| RmwMultiwrite.SubsetCells | src/nor_flash.rs:365-366 | a passing `is_subset` means each new byte only clears bits of the cell it goes to |
| RmwMultiwrite.PaddedProgram | src/nor_flash.rs:370-377 | programming the padded buffer over such cells stores exactly the item; the erased padding leaves its cells as they were |
| RmwMultiwrite.DirectWriteEffect | src/nor_flash.rs:370-377 | the direct write starts at `addr - addr % WRITE_SIZE`, holds the padded item, and once the device accepts it leaves exactly the item in the cells |
| RmwMultiwrite.Committed | src/nor_flash.rs:356-389 | the index of the first item whose step fails lies between the starting index and the number of items |
| RmwMultiwrite.CommittedAt | src/nor_flash.rs:356-389 | an item's step succeeds iff it comes before the first failing one; this is where the loop's `?` stops |
| RmwMultiwrite.CorrectedStep | src/nor_flash.rs:362-387 | with intended padding, on an aligned page whose size is a multiple of `READ_SIZE` and `WRITE_SIZE`, the step succeeds and its padded write ends inside the page |
| RmwMultiwrite.CorrectedWriteCommits | src/nor_flash.rs:350-390 | with intended padding and `ERASE_SIZE` a multiple of `READ_SIZE` and `WRITE_SIZE`, every touched page commits and no padded write overruns a merge buffer of one page |
| RmwMultiwrite.AsWrittenStep | src/nor_flash.rs:370-377 | as written, a direct write whose length is not a multiple of `WRITE_SIZE` fails; where it is, the step equals the intended one |
| RmwMultiwrite.AsWrittenWriteFails | src/nor_flash.rs:350-390 | a concrete write (erased 4-byte device, `WRITE_SIZE` 2, two zero bytes at 1) that fits the stored bits: as written it fails with `NotAligned` and changes nothing; with intended padding it commits |
| RmwMultiwrite.StepSame | src/nor_flash.rs:362-387 | a step depends only on the item's page from `addr` on and on its merged image |
| RmwMultiwrite.StepOk | src/nor_flash.rs:362-387 | a step that succeeds makes the calls of its branch and leaves the item copied in |
| RmwMultiwrite.MultiPageCounts | src/nor_flash.rs:362-387 | one page step makes one read and one write, and an erase only when the subset test fails |
| RmwMultiwrite.MultiTraceCounts | src/nor_flash.rs:356-389 | a write makes one read and one write per touched page, and exactly as many erases as there are pages whose bytes fail the subset test |
| RmwMultiwrite.MultiStep | src/nor_flash.rs:359-388 | one loop turn: the item lies on an aligned page; its subset test, outcome and calls are those on the old contents; copying it in extends the splice by one item, and a successful step extends the call trace by its branch's calls |
| RmwMultiwrite.RmwMultiwriteNorFlashStorage.constructor | src/nor_flash.rs:318-327 | the adapter holds the device, a merge buffer of at least one erase page, and the padding mode |
| RmwMultiwrite.RmwMultiwriteNorFlashStorage.Capacity | src/nor_flash.rs:341-343 | the device's capacity |
| RmwMultiwrite.RmwMultiwriteNorFlashStorage.Read | src/nor_flash.rs:336-339 | a read passes straight through to the device |
| RmwMultiwrite.RmwMultiwriteNorFlashStorage.CopyIn | src/nor_flash.rs:380-384 | the item's data lands at its offset in the buffer's first page; nothing else in the buffer changes |
| RmwMultiwrite.RmwMultiwriteNorFlashStorage.PadIn | src/nor_flash.rs:374-375 | `merge_buffer[..aligned_end]` is erased bytes with the item at `addr % WRITE_SIZE`; the buffer past `aligned_end` is unchanged |
| RmwMultiwrite.RmwMultiwriteNorFlashStorage.WriteDirect | src/nor_flash.rs:370-377 | the subset branch makes one write, of the padded item at `addr - addr % WRITE_SIZE`, and no erase; the result is `check_write`'s for that write's length; on `Ok` exactly the item is copied in, on error nothing changes |
| RmwMultiwrite.RmwMultiwriteNorFlashStorage.Rewrite | src/nor_flash.rs:378-387 | the other branch makes one erase and one write of the merged page; the result is `check_write`'s for the page; on `Ok` exactly the item is copied in, on error the page is left erased |
| RmwMultiwrite.RmwMultiwriteNorFlashStorage.MergePage | src/nor_flash.rs:362-387 | one page step: the outcome, the calls up to the first failing one, and the contents left are `StepOutcome`, `StepCalls` and `StepState` of the old contents: a failed read or direct write changes nothing, a failed page write leaves the page erased, success copies the item in |
| RmwMultiwrite.RmwMultiwriteNorFlashStorage.Write | src/nor_flash.rs:350-390 | `Ok` iff no touched page's step fails; then the device holds the old contents with the request stored up to the last whole page, and the calls are per touched page, in order, with no erase where the subset test passes. On error the failure is at the first failing page `n`: the pages before it are committed, the calls are theirs followed by page `n`'s up to the failing call, and page `n` is left as `StepState` says |

## Left out

- The `overlaps` iterator of crate::iter is not part of this model. `Paging.Overlaps` is defined by the contract that the adapters' comments state for it (src/nor_flash.rs:279-280, :354-355); it makes no claim about that iterator's code.
- `u32`/`usize` widths: addresses are `nat`. The devices require a capacity below 2^32, so that no cast in the source loses information. The checks are stated without the overflow that `offset + length` could have.
- `ERASE_BYTE` is fixed to `0xFF`, the trait's default and the "all 1s" that an erase gives. A device with another erase byte is not modelled.
- Power loss during erase or write (src/nor_flash.rs:104, :113-114, :196-200): the model is sequential.
- The adapters are modelled over concrete device classes, not a generic `S`:
  - `RmwNorFlashStorage` over `MockFlash`, in either mode;
  - `RmwMultiwriteNorFlashStorage` over `MultiwriteFlash`. `MockFlash` does not implement `MultiwriteNorFlash`, and its multiwrite mode is stricter than that trait's AND semantics.
- Device errors of kind `Other`, which only a real device would return, are not produced.
- The constructors' panic on a short merge buffer (src/nor_flash.rs:244-246, :319-321) is modelled as a precondition.
- The `Infallible` impl, the `Display` strings, the `&mut T` forwarding impls (src/nor_flash.rs:12-16, :50-59, :161-189), `NorFlashStats` (:393-489), the `Deref` impls of `MockFlash` (:527-550) and the async variant of the traits (embedded-storage-async/src/nor_flash.rs): delegation, formatting and counters only.
- The test range generator (src/nor_flash.rs:629-703). The test at :745-758 expects unaligned reads through the adapter to succeed. The adapter's `read` passes straight to the device's `check_read`, which refuses them, so `Read` is modelled as the code does it.
- `RmwMultiwrite.RmwMultiwriteNorFlashStorage.Write`: the slice `merge_buffer[..aligned_end]` at src/nor_flash.rs:374 panics when `aligned_end` exceeds the buffer. The panic is not modelled; the precondition `PaddingFits` excludes exactly the writes whose loop reaches such a slice.
- `RmwMultiwrite.RmwMultiwriteNorFlashStorage.Write`: does not state what happens to the merge buffer, because a padded write may fill it past the first page.
- A write reaching past the last whole page is not refused: its bytes beyond `capacity / ERASE_SIZE * ERASE_SIZE` are dropped and the result is `Ok`, as the code does. `Spliced` up to `Covered` states this.

## Findings

| source | as written | input that shows it | evidently intended | confidence | as-written member | corrected member |
|---|---|---|---|---|---|---|
| src/nor_flash.rs:373 | `aligned_end = data.len() % WRITE_SIZE + offset + data.len()` is not a multiple of `WRITE_SIZE` in general | an erased 4-byte device with `READ_SIZE` 1, `WRITE_SIZE` 2, `ERASE_SIZE` 4, and `write(1, [0, 0])`: the bytes fit, `aligned_end` is 3, and the padded write of 3 bytes at 0 is refused with `NotAligned`, so nothing is written although the request is in bounds. On larger requests a later page can fail after earlier ones were committed, and `aligned_end` can exceed an `ERASE_SIZE` merge buffer and panic | the padded length `addr % WRITE_SIZE + len` rounded up to a multiple of `WRITE_SIZE` (here 4) | not executed | RmwMultiwrite.AsWrittenWriteFails | RmwMultiwrite.CorrectedWriteCommits |
