/**
 * What a read-modify-write `Storage::write` of src/nor_flash.rs is meant to
 * do to a device, stated on values: the request's bytes are spliced into the
 * device contents, page by page, in the order of the decomposition.
 */
module RmwSpec {
  import opened NorFlash
  import opened Paging
  import opened Device

  /** The bytes of the device that lie on whole erase pages: `[0, Covered)`. */
  function Covered(capacity: nat, eraseSize: nat): nat
    requires eraseSize > 0
  {
    capacity / eraseSize * eraseSize
  }

  /** The decomposition of a write over the device's `capacity / eraseSize` pages. */
  function Touched(capacity: nat, eraseSize: nat, bytes: seq<byte>, offset: nat): seq<Overlap>
    requires eraseSize > 0
  {
    Overlaps(Pages(capacity / eraseSize, eraseSize), bytes, offset)
  }

  /** `mem` with the request's bytes stored at every one of their addresses below `limit`. */
  function Spliced(mem: seq<byte>, offset: nat, bytes: seq<byte>, limit: nat): seq<byte>
  {
    seq(|mem|, a requires 0 <= a < |mem| =>
      if offset <= a < offset + |bytes| && a < limit then bytes[a - offset] else mem[a])
  }

  /** The address up to which the first `k` items of `ov` have stored the request. */
  function Reached(ov: seq<Overlap>, offset: nat, k: nat): nat
    requires k <= |ov|
  {
    if k == 0 then offset else ov[k - 1].addr + |ov[k - 1].data|
  }

  /** Whether item `t` lies inside its page, and its page inside a device of `capacity` bytes. */
  predicate InDevice(t: Overlap, capacity: nat)
  {
    t.page.start <= t.addr && t.addr + |t.data| <= t.page.End() <= capacity
  }

  /** The page image the merge buffer holds: the page of `mem` with `t.data` copied in at `t.addr`. */
  function MergedPage(mem: seq<byte>, t: Overlap): seq<byte>
    requires InDevice(t, |mem|)
  {
    Overwritten(mem, t.addr, t.data)[t.page.start..t.page.End()]
  }

  /** The number of erase calls in a log. */
  function Erases(calls: seq<Call>): nat
  {
    if calls == [] then 0 else (if calls[0].EraseCall? then 1 else 0) + Erases(calls[1..])
  }

  /** The number of write calls in a log. */
  function Writes(calls: seq<Call>): nat
  {
    if calls == [] then 0 else (if calls[0].WriteCall? then 1 else 0) + Writes(calls[1..])
  }

  /** The number of read calls in a log. */
  function Reads(calls: seq<Call>): nat
  {
    if calls == [] then 0 else (if calls[0].ReadCall? then 1 else 0) + Reads(calls[1..])
  }

  /** Counting calls distributes over concatenation of logs. */
  lemma {:induction false} CountsAppend(a: seq<Call>, b: seq<Call>)
    ensures Erases(a + b) == Erases(a) + Erases(b)
    ensures Writes(a + b) == Writes(a) + Writes(b)
    ensures Reads(a + b) == Reads(a) + Reads(b)
    decreases |a|
  {
    if a == [] {
      assert a + b == b;
    } else {
      CountsAppend(a[1..], b);
      assert (a + b)[1..] == a[1..] + b;
    }
  }

  lemma DivMul(a: nat, m: nat)
    requires m > 0
    ensures a == a / m * m + a % m
  {
  }

  /** `Covered` is the largest multiple of the erase size within the capacity. */
  lemma CoveredBounds(capacity: nat, eraseSize: nat)
    requires eraseSize > 0
    ensures Covered(capacity, eraseSize) <= capacity < Covered(capacity, eraseSize) + eraseSize
    ensures Covered(capacity, eraseSize) % eraseSize == 0
    ensures capacity % eraseSize == 0 ==> Covered(capacity, eraseSize) == capacity
  {
    DivMul(capacity, eraseSize);
    ModOfMultiple(capacity / eraseSize, eraseSize);
  }

  /** A multiple of the erase size is a multiple of every divisor of it, and so is the next one. */
  lemma PageAligned(start: nat, eraseSize: nat, align: nat)
    requires eraseSize > 0 && align > 0 && start % eraseSize == 0
    ensures (start + eraseSize) % eraseSize == 0
    ensures eraseSize % align == 0 ==> start % align == 0
  {
    DivMul(start, eraseSize);
    if eraseSize % align == 0 {
      MulMod(start / eraseSize, eraseSize, align);
    }
    assert start + eraseSize == (start / eraseSize + 1) * eraseSize;
    ModOfMultiple(start / eraseSize + 1, eraseSize);
  }

  /** Every item of the decomposition lies inside the device. */
  lemma TouchedInDevice(capacity: nat, eraseSize: nat, bytes: seq<byte>, offset: nat)
    requires eraseSize > 0
    ensures forall t :: t in Touched(capacity, eraseSize, bytes, offset) ==> InDevice(t, capacity)
  {
    var ov := Touched(capacity, eraseSize, bytes, offset);
    forall t | t in ov
      ensures InDevice(t, capacity)
    {
      var k :| 0 <= k < |ov| && ov[k] == t;
      OverlapOnDevicePage(capacity / eraseSize, eraseSize, bytes, offset, k);
      CoveredBounds(capacity, eraseSize);
    }
  }

  /** Every item of the decomposition lies on one erase page of the device and describes its part of the request. */
  lemma TouchedOnPage(capacity: nat, eraseSize: nat, bytes: seq<byte>, offset: nat, k: nat)
    requires eraseSize > 0
    requires k < |Touched(capacity, eraseSize, bytes, offset)|
    ensures var t := Touched(capacity, eraseSize, bytes, offset)[k];
            && InDevice(t, capacity)
            && t.page.size == eraseSize
            && t.page.start % eraseSize == 0
            && Describes(t, bytes, offset)
  {
    OverlapOnDevicePage(capacity / eraseSize, eraseSize, bytes, offset, k);
    CoveredBounds(capacity, eraseSize);
  }

  /** Each item starts where the items before it stopped; the first one at the request's offset. */
  lemma TouchedReached(capacity: nat, eraseSize: nat, bytes: seq<byte>, offset: nat, k: nat)
    requires eraseSize > 0
    requires k < |Touched(capacity, eraseSize, bytes, offset)|
    ensures var ov := Touched(capacity, eraseSize, bytes, offset);
            ov[k].addr == Reached(ov, offset, k)
  {
    if k == 0 {
      TouchedFirst(capacity, eraseSize, bytes, offset);
    } else {
      TouchedNext(capacity, eraseSize, bytes, offset, k);
    }
  }

  lemma TouchedFirst(capacity: nat, eraseSize: nat, bytes: seq<byte>, offset: nat)
    requires eraseSize > 0
    requires 0 < |Touched(capacity, eraseSize, bytes, offset)|
    ensures Touched(capacity, eraseSize, bytes, offset)[0].addr == offset
  {
    DevicePagesEnds(capacity / eraseSize, eraseSize, bytes, offset);
  }

  lemma TouchedNext(capacity: nat, eraseSize: nat, bytes: seq<byte>, offset: nat, k: nat)
    requires eraseSize > 0
    requires 0 < k < |Touched(capacity, eraseSize, bytes, offset)|
    ensures var ov := Touched(capacity, eraseSize, bytes, offset);
            ov[k].addr == ov[k - 1].addr + |ov[k - 1].data|
  {
    DevicePagesChain(capacity / eraseSize, eraseSize, bytes, offset, k - 1);
  }

  /**
   * After the last item the request is stored exactly up to `Covered`: the
   * bytes that fall past the last whole page are dropped.
   */
  lemma TouchedEnd(capacity: nat, eraseSize: nat, bytes: seq<byte>, offset: nat, mem: seq<byte>)
    requires eraseSize > 0 && |mem| == capacity
    ensures var ov := Touched(capacity, eraseSize, bytes, offset);
            Spliced(mem, offset, bytes, Reached(ov, offset, |ov|)) ==
              Spliced(mem, offset, bytes, Covered(capacity, eraseSize))
  {
    if Touched(capacity, eraseSize, bytes, offset) == [] {
      TouchedNone(capacity, eraseSize, bytes, offset, mem);
    } else {
      TouchedLast(capacity, eraseSize, bytes, offset, mem);
    }
  }

  lemma TouchedNone(capacity: nat, eraseSize: nat, bytes: seq<byte>, offset: nat, mem: seq<byte>)
    requires eraseSize > 0 && |mem| == capacity
    requires Touched(capacity, eraseSize, bytes, offset) == []
    ensures Spliced(mem, offset, bytes, offset) == Spliced(mem, offset, bytes, Covered(capacity, eraseSize))
  {
    DevicePagesEnds(capacity / eraseSize, eraseSize, bytes, offset);
    SplicedLimits(mem, offset, bytes, offset, Covered(capacity, eraseSize));
  }

  lemma TouchedLast(capacity: nat, eraseSize: nat, bytes: seq<byte>, offset: nat, mem: seq<byte>)
    requires eraseSize > 0 && |mem| == capacity
    requires Touched(capacity, eraseSize, bytes, offset) != []
    ensures var ov := Touched(capacity, eraseSize, bytes, offset);
            Spliced(mem, offset, bytes, ov[|ov| - 1].addr + |ov[|ov| - 1].data|) ==
              Spliced(mem, offset, bytes, Covered(capacity, eraseSize))
  {
    DevicePagesEnds(capacity / eraseSize, eraseSize, bytes, offset);
    SplicedClamp(mem, offset, bytes, Covered(capacity, eraseSize));
  }

  /** Cutting the request at its own end changes nothing. */
  lemma SplicedClamp(mem: seq<byte>, offset: nat, bytes: seq<byte>, limit: nat)
    ensures Spliced(mem, offset, bytes, Min(offset + |bytes|, limit)) == Spliced(mem, offset, bytes, limit)
  {
    SplicedLimits(mem, offset, bytes, Min(offset + |bytes|, limit), limit);
  }

  /** Two limits that cut the request at the same place give the same splice. */
  lemma SplicedLimits(mem: seq<byte>, offset: nat, bytes: seq<byte>, l1: nat, l2: nat)
    requires Min(Max(l1, offset), offset + |bytes|) == Min(Max(l2, offset), offset + |bytes|)
    ensures Spliced(mem, offset, bytes, l1) == Spliced(mem, offset, bytes, l2)
  {
  }

  /** Copying one item into the contents spliced so far extends the splice past that item. */
  lemma SpliceStep(mem: seq<byte>, offset: nat, bytes: seq<byte>, t: Overlap)
    requires Describes(t, bytes, offset) && t.addr + |t.data| <= |mem|
    ensures Overwritten(Spliced(mem, offset, bytes, t.addr), t.addr, t.data) ==
              Spliced(mem, offset, bytes, t.addr + |t.data|)
  {
  }

  /** The splice so far has not touched the page of the next item, apart from its data's cells. */
  lemma MergedPageSoFar(mem: seq<byte>, offset: nat, bytes: seq<byte>, t: Overlap)
    requires Describes(t, bytes, offset) && InDevice(t, |mem|)
    ensures MergedPage(Spliced(mem, offset, bytes, t.addr), t) == MergedPage(mem, t)
  {
  }

  /**
   * Erasing the item's page and programming the merged page image leaves
   * exactly the item's data copied over the old contents.
   */
  lemma RewritePage(mem: seq<byte>, t: Overlap)
    requires InDevice(t, |mem|)
    ensures Programmed(Erased(mem, t.page.start, t.page.End()), t.page.start, MergedPage(mem, t)) ==
              Overwritten(mem, t.addr, t.data)
  {
    var erased := Erased(mem, t.page.start, t.page.End());
    ProgramErased(erased, t.page.start, MergedPage(mem, t));
  }

  /**
   * On a page just erased, the mock device accepts the merged page image
   * whenever its write check passes, and the page then holds the old
   * contents with the item's data copied in.
   */
  lemma WriteMergedOnErased(multiWrite: bool, writeSize: nat, mem: seq<byte>, t: Overlap)
    requires writeSize > 0 && InDevice(t, |mem|)
    ensures var erased := Erased(mem, t.page.start, t.page.End());
            var check := CheckWrite(|mem|, writeSize, t.page.start, t.page.size);
            MockWrite(multiWrite, writeSize, erased, t.page.start, MergedPage(mem, t)) ==
              (check, if check.Ok? then Overwritten(mem, t.addr, t.data) else erased)
  {
    var erased := Erased(mem, t.page.start, t.page.End());
    var image := MergedPage(mem, t);
    ErasedBlank(mem, t.page.start, t.page.End());
    AcceptedOnBlank(multiWrite, erased, t.page.start, image);
    assert image[..|image|] == image;
    RewritePage(mem, t);
  }

  /** An erased range is blank. */
  lemma ErasedBlank(mem: seq<byte>, from: nat, to: nat)
    requires from <= to
    ensures Blank(Erased(mem, from, to), from, to - from)
  {
  }

  /** Splicing up to the request's own offset stores nothing. */
  lemma SplicedNothing(mem: seq<byte>, offset: nat, bytes: seq<byte>)
    ensures Spliced(mem, offset, bytes, offset) == mem
  {
  }

  /** The merged page image is the old page with the item's data copied in at its offset into the page. */
  lemma MergedPageLocal(mem: seq<byte>, t: Overlap)
    requires InDevice(t, |mem|)
    ensures MergedPage(mem, t) ==
              Overwritten(mem[t.page.start..t.page.End()], t.addr - t.page.start, t.data)
  {
  }

  /**
   * Read-back: a spliced write stores the request at its addresses below
   * the limit, and nothing else changes.
   */
  lemma SplicedReadBack(mem: seq<byte>, offset: nat, bytes: seq<byte>, limit: nat)
    ensures |Spliced(mem, offset, bytes, limit)| == |mem|
    ensures offset + |bytes| <= limit && limit <= |mem| ==>
              Spliced(mem, offset, bytes, limit)[offset..offset + |bytes|] == bytes
    ensures forall a :: 0 <= a < |mem| && !(offset <= a < offset + |bytes| && a < limit) ==>
              Spliced(mem, offset, bytes, limit)[a] == mem[a]
  {
  }

  /**
   * On a device made of whole erase pages, the contents a successful write
   * leaves hold the request at its addresses, whether or not it is aligned
   * and including the empty request, and every other byte as it was.
   */
  lemma WholePagesReadBack(capacity: nat, eraseSize: nat, mem: seq<byte>, offset: nat, bytes: seq<byte>)
    requires eraseSize > 0 && |mem| == capacity && capacity % eraseSize == 0
    requires offset + |bytes| <= capacity
    ensures var after := Spliced(mem, offset, bytes, Covered(capacity, eraseSize));
            && |after| == capacity
            && after[offset..offset + |bytes|] == bytes
            && forall a :: 0 <= a < capacity && !(offset <= a < offset + |bytes|) ==> after[a] == mem[a]
  {
    CoveredBounds(capacity, eraseSize);
    SplicedReadBack(mem, offset, bytes, capacity);
  }
}
