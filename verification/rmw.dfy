/**
 * `RmwNorFlashStorage` of src/nor_flash.rs: byte-addressed storage on top of
 * a NOR flash device that needs an erase before every write. Each page a
 * write touches is read into the merge buffer, erased, patched with the new
 * bytes and written back whole.
 */
module Rmw {
  import opened NorFlash
  import opened Paging
  import opened Device
  import opened RmwSpec

  /** The calls the adapter makes for item `t`: read the page, erase it, write the merged image. */
  function PlainPageCalls(mem: seq<byte>, t: Overlap): seq<Call>
    requires InDevice(t, |mem|)
  {
    [ReadCall(t.page.start, t.page.size), EraseCall(t.page.start, t.page.End()),
     WriteCall(t.page.start, MergedPage(mem, t))]
  }

  lemma PlainPageCounts(mem: seq<byte>, t: Overlap)
    requires InDevice(t, |mem|)
    ensures var calls := PlainPageCalls(mem, t);
            |calls| == 3 && Erases(calls) == 1 && Writes(calls) == 1 && Reads(calls) == 1
  {
    var calls := PlainPageCalls(mem, t);
    var rest := calls[1..];
    assert rest[1..][1..] == [];
    assert Erases(rest[1..]) == 0 && Writes(rest[1..]) == 1 && Reads(rest[1..]) == 0;
    assert Erases(rest) == 1 && Writes(rest) == 1 && Reads(rest) == 0;
  }

  /** The calls for the items of `ov`, in order. */
  function PlainTrace(mem: seq<byte>, ov: seq<Overlap>): seq<Call>
    requires forall t :: t in ov ==> InDevice(t, |mem|)
  {
    if ov == [] then [] else PlainTrace(mem, ov[..|ov| - 1]) + PlainPageCalls(mem, ov[|ov| - 1])
  }

  lemma PlainTraceStep(mem: seq<byte>, ov: seq<Overlap>, k: nat)
    requires k < |ov| && forall t :: t in ov ==> InDevice(t, |mem|)
    ensures PlainTrace(mem, ov[..k + 1]) == PlainTrace(mem, ov[..k]) + PlainPageCalls(mem, ov[k])
  {
    assert ov[..k + 1][..k] == ov[..k];
  }

  /** One read, one erase and one write per touched page. */
  lemma {:induction false} PlainTraceCounts(mem: seq<byte>, ov: seq<Overlap>)
    requires forall t :: t in ov ==> InDevice(t, |mem|)
    ensures |PlainTrace(mem, ov)| == 3 * |ov|
    ensures Erases(PlainTrace(mem, ov)) == |ov|
    ensures Writes(PlainTrace(mem, ov)) == |ov|
    ensures Reads(PlainTrace(mem, ov)) == |ov|
    decreases |ov|
  {
    if ov != [] {
      var init := ov[..|ov| - 1];
      PlainTraceCounts(mem, init);
      CountsAppend(PlainTrace(mem, init), PlainPageCalls(mem, ov[|ov| - 1]));
      PlainPageCounts(mem, ov[|ov| - 1]);
    }
  }

  /**
   * What one turn of the adapter's loop needs: item `k` lies on an aligned
   * erase page of the device, its page still holds the old contents, and
   * rewriting it extends both the splice and the call trace by one item.
   */
  lemma PlainStep(capacity: nat, eraseSize: nat, bytes: seq<byte>, offset: nat, mem: seq<byte>, k: nat)
    requires eraseSize > 0 && |mem| == capacity
    requires k < |Touched(capacity, eraseSize, bytes, offset)|
    ensures var ov := Touched(capacity, eraseSize, bytes, offset);
            var t := ov[k];
            var sofar := Spliced(mem, offset, bytes, Reached(ov, offset, k));
            && (forall u :: u in ov ==> InDevice(u, capacity))
            && InDevice(t, capacity) && t.page.size == eraseSize && t.page.start % eraseSize == 0
            && MergedPage(sofar, t) == MergedPage(mem, t)
            && Overwritten(sofar, t.addr, t.data) == Spliced(mem, offset, bytes, Reached(ov, offset, k + 1))
            && PlainPageCalls(sofar, t) == PlainPageCalls(mem, t)
            && PlainTrace(mem, ov[..k + 1]) == PlainTrace(mem, ov[..k]) + PlainPageCalls(mem, t)
  {
    var ov := Touched(capacity, eraseSize, bytes, offset);
    var t := ov[k];
    TouchedInDevice(capacity, eraseSize, bytes, offset);
    TouchedOnPage(capacity, eraseSize, bytes, offset, k);
    TouchedReached(capacity, eraseSize, bytes, offset, k);
    MergedPageSoFar(mem, offset, bytes, t);
    SpliceStep(mem, offset, bytes, t);
    PlainTraceStep(mem, ov, k);
  }

  /** The adapter of src/nor_flash.rs:230-301, over the device `MockFlash`. */
  class RmwNorFlashStorage {
    const storage: MockFlash
    const mergeBuffer: array<byte>

    ghost predicate Valid()
      reads this, storage
    {
      storage.Valid() && mergeBuffer.Length >= storage.eraseSize && mergeBuffer != storage.data
    }

    /** `new`: the merge buffer must hold one erase page (the source panics otherwise). */
    constructor (norFlash: MockFlash, mergeBuffer: array<byte>)
      requires norFlash.Valid() && mergeBuffer != norFlash.data
      requires mergeBuffer.Length >= norFlash.eraseSize
      ensures Valid() && storage == norFlash && this.mergeBuffer == mergeBuffer
    {
      storage := norFlash;
      this.mergeBuffer := mergeBuffer;
    }

    /** `capacity`: the device's. */
    function Capacity(): (c: nat)
      reads this, storage
      ensures c == storage.data.Length
    {
      storage.Capacity()
    }

    /** `read`: passed straight to the device, with the device's checks. */
    method Read(offset: nat, bytes: array<byte>) returns (r: Outcome)
      requires Valid() && bytes != storage.data
      modifies storage, bytes
      ensures Valid()
      ensures storage.calls == old(storage.calls) + [ReadCall(offset, bytes.Length)]
      ensures r == CheckRead(storage.data.Length, storage.readSize, offset, bytes.Length)
      ensures r.Ok? ==> bytes[..] == storage.data[offset..offset + bytes.Length]
      ensures r.Err? ==> bytes[..] == old(bytes[..])
    {
      r := storage.Read(offset, bytes, bytes.Length);
    }

    /** Copies `data` into the merge buffer's first page from offset `at` on. */
    method CopyIn(at: nat, data: seq<byte>)
      requires Valid() && at + |data| <= storage.eraseSize
      modifies mergeBuffer
      ensures mergeBuffer[..storage.eraseSize] == Overwritten(old(mergeBuffer[..storage.eraseSize]), at, data)
      ensures mergeBuffer[storage.eraseSize..] == old(mergeBuffer[storage.eraseSize..])
    {
      forall i | at <= i < at + |data| {
        mergeBuffer[i] := data[i - at];
      }
    }

    /**
     * The loop body of `write` for one item: read its page into the merge
     * buffer, erase the page, copy the item's data in at its offset into
     * the page, write the whole page back. The page read fails unless
     * `ERASE_SIZE` is a multiple of `READ_SIZE`, the page write unless it
     * is a multiple of `WRITE_SIZE`; the erase of a whole page inside the
     * device never fails.
     */
    method MergePage(t: Overlap) returns (r: Outcome)
      requires Valid() && InDevice(t, storage.data.Length)
      requires t.page.size == storage.eraseSize && t.page.start % storage.eraseSize == 0
      modifies storage, storage.data, mergeBuffer
      ensures Valid()
      ensures mergeBuffer[storage.eraseSize..] == old(mergeBuffer[storage.eraseSize..])
      ensures r.Ok? <==> storage.eraseSize % storage.readSize == 0 && storage.eraseSize % storage.writeSize == 0
      ensures r.Err? ==> r.kind == NotAligned
      ensures storage.eraseSize % storage.readSize != 0 ==>
                storage.calls == old(storage.calls) + [ReadCall(t.page.start, storage.eraseSize)] &&
                storage.data[..] == old(storage.data[..])
      ensures storage.eraseSize % storage.readSize == 0 ==>
                storage.calls == old(storage.calls) + PlainPageCalls(old(storage.data[..]), t)
      ensures storage.eraseSize % storage.readSize == 0 ==>
                storage.data[..] == if r.Ok? then Overwritten(old(storage.data[..]), t.addr, t.data)
                                    else Erased(old(storage.data[..]), t.page.start, t.page.End())
    {
      ghost var cur := storage.data[..];
      var size := storage.eraseSize;
      PageAligned(t.page.start, size, storage.readSize);
      r := storage.Read(t.page.start, mergeBuffer, size);
      if r.Ok? {
        r := Rewrite(t);
        assert PlainPageCalls(cur, t) ==
               [ReadCall(t.page.start, size)] + [EraseCall(t.page.start, t.page.End()), WriteCall(t.page.start, MergedPage(cur, t))];
      }
    }

    /**
     * The rest of the loop body once the page is in the merge buffer: erase
     * the page, copy the item's data in, write the whole page back.
     */
    method Rewrite(t: Overlap) returns (r: Outcome)
      requires Valid() && InDevice(t, storage.data.Length)
      requires t.page.size == storage.eraseSize && t.page.start % storage.eraseSize == 0
      requires mergeBuffer[..storage.eraseSize] == storage.data[t.page.start..t.page.End()]
      modifies storage, storage.data, mergeBuffer
      ensures Valid()
      ensures mergeBuffer[storage.eraseSize..] == old(mergeBuffer[storage.eraseSize..])
      ensures r.Ok? <==> storage.eraseSize % storage.writeSize == 0
      ensures r.Err? ==> r.kind == NotAligned
      ensures storage.calls == old(storage.calls) +
                [EraseCall(t.page.start, t.page.End()), WriteCall(t.page.start, MergedPage(old(storage.data[..]), t))]
      ensures storage.data[..] == if r.Ok? then Overwritten(old(storage.data[..]), t.addr, t.data)
                                  else Erased(old(storage.data[..]), t.page.start, t.page.End())
    {
      ghost var cur := storage.data[..];
      var size := storage.eraseSize;
      PageAligned(t.page.start, size, storage.writeSize);
      ghost var tail := mergeBuffer[size..];
      r := storage.Erase(t.page.start, t.page.End());
      if r.Ok? {
        CopyIn(t.addr - t.page.start, t.data);
        MergedPageLocal(cur, t);
        var image := mergeBuffer[..size];
        assert image == MergedPage(cur, t);
        WriteMergedOnErased(storage.multiWrite, storage.writeSize, cur, t);
        r := storage.Write(t.page.start, image);
      }
      assert mergeBuffer[size..] == tail;
    }

    /**
     * `write`: every page the request touches, in ascending order, is
     * rewritten with the request's bytes spliced in; bytes past the last
     * whole page are dropped. The first failing device call ends the write.
     */
    method Write(offset: nat, bytes: seq<byte>) returns (r: Outcome)
      requires Valid()
      modifies storage, storage.data, mergeBuffer
      ensures Valid()
      ensures mergeBuffer[storage.eraseSize..] == old(mergeBuffer[storage.eraseSize..])
      ensures var ov := Touched(storage.data.Length, storage.eraseSize, bytes, offset);
              && (r.Ok? <==>
                    (ov == [] || (storage.eraseSize % storage.readSize == 0 && storage.eraseSize % storage.writeSize == 0)))
              && (r.Err? ==> r.kind == NotAligned)
      ensures var ov := Touched(storage.data.Length, storage.eraseSize, bytes, offset);
              r.Ok? ==>
                && storage.data[..] == Spliced(old(storage.data[..]), offset, bytes,
                                               Covered(storage.data.Length, storage.eraseSize))
                && (forall t :: t in ov ==> InDevice(t, storage.data.Length))
                && storage.calls == old(storage.calls) + PlainTrace(old(storage.data[..]), ov)
      ensures var ov := Touched(storage.data.Length, storage.eraseSize, bytes, offset);
              r.Err? && storage.eraseSize % storage.readSize != 0 ==>
                && storage.calls == old(storage.calls) + [ReadCall(ov[0].page.start, storage.eraseSize)]
                && storage.data[..] == old(storage.data[..])
      ensures var ov := Touched(storage.data.Length, storage.eraseSize, bytes, offset);
              r.Err? && storage.eraseSize % storage.readSize == 0 ==>
                && InDevice(ov[0], storage.data.Length)
                && storage.calls == old(storage.calls) + PlainPageCalls(old(storage.data[..]), ov[0])
                && storage.data[..] == Erased(old(storage.data[..]), ov[0].page.start, ov[0].page.End())
    {
      var capacity := storage.data.Length;
      var size := storage.eraseSize;
      var ov := Touched(capacity, size, bytes, offset);
      ghost var mem := storage.data[..];
      ghost var log := storage.calls;
      TouchedInDevice(capacity, size, bytes, offset);
      SplicedNothing(mem, offset, bytes);
      var k := 0;
      while k < |ov|
        invariant k <= |ov|
        invariant Valid()
        invariant mergeBuffer[size..] == old(mergeBuffer[size..])
        invariant storage.data[..] == Spliced(mem, offset, bytes, Reached(ov, offset, k))
        invariant storage.calls == log + PlainTrace(mem, ov[..k])
        invariant k > 0 ==> size % storage.readSize == 0 && size % storage.writeSize == 0
      {
        var t := ov[k];
        PlainStep(capacity, size, bytes, offset, mem, k);
        r := MergePage(t);
        if r.Err? {
          return;
        }
        k := k + 1;
      }
      assert ov[..k] == ov;
      TouchedEnd(capacity, size, bytes, offset, mem);
      r := Ok;
    }
  }
}
