/**
 * The page model of src/nor_flash.rs (`Page`, its end and containment) and
 * the decomposition of a write request over the device's pages, which the
 * adapters obtain from `.overlaps(bytes, offset)`.
 *
 * The code of that iterator (crate::iter) is not part of this model: here it
 * is the pure function `Overlaps`, defined by the contract the adapters rely
 * on, and the lemmas below state what the adapters need of it.
 */
module Paging {
  import opened NorFlash

  /** One erase page, `size` bytes from `start`. */
  datatype Page = Page(start: nat, size: nat) {
    /** The end address of the page (exclusive). */
    function End(): nat { start + size }

    /** Whether an address lies in the page. */
    predicate Contains(address: nat) { start <= address && End() > address }
  }

  /** `Page::new`: the page with index `index` of a device with pages of `size` bytes. */
  function NewPage(index: nat, size: nat): (p: Page)
    ensures p.size == size
    ensures p.End() == (index + 1) * size
  {
    Page(index * size, size)
  }

  /** The pages `0 .. count` that the adapters walk, in ascending order. */
  function Pages(count: nat, size: nat): seq<Page>
  {
    seq(count, i requires 0 <= i < count => NewPage(i, size))
  }

  function Max(a: nat, b: nat): nat { if a < b then b else a }
  function Min(a: nat, b: nat): nat { if a < b then a else b }

  lemma MulLe(a: nat, b: nat, s: nat)
    requires a <= b
    ensures a * s <= b * s
  {
  }

  lemma MulPos(a: int, m: nat)
    requires a >= 1
    ensures a * m >= m
  {
  }

  /** A multiple of `m` leaves no remainder. */
  lemma ModOfMultiple(k: nat, m: nat)
    requires m > 0
    ensures (k * m) % m == 0
  {
    var q, r := (k * m) / m, (k * m) % m;
    assert k * m == q * m + r;
    assert (k - q) * m == r;
    if k - q >= 1 {
      MulPos(k - q, m);
    } else if q - k >= 1 {
      MulPos(q - k, m);
    }
  }

  /** A multiple of a multiple of `m` is a multiple of `m`. */
  lemma MulMod(i: nat, size: nat, m: nat)
    requires m > 0 && size % m == 0
    ensures (i * size) % m == 0
  {
    var c := size / m;
    assert size == c * m;
    assert i * size == (i * c) * m;
    ModOfMultiple(i * c, m);
  }

  /** Address `address` lies in page `index` exactly when `index` is `address / size`. */
  lemma {:induction false} PageContainsIndex(index: nat, size: nat, address: nat)
    requires size > 0
    ensures NewPage(index, size).Contains(address) <==> address / size == index
  {
    var q := address / size;
    assert address == q * size + address % size;
    if q < index {
      MulLe(q + 1, index, size);
    } else if q > index {
      MulLe(index + 1, q, size);
    }
  }

  /** Consecutive indices give adjacent pages, and distinct indices disjoint ones. */
  lemma PagesAdjacent(i: nat, j: nat, size: nat, address: nat)
    requires size > 0
    ensures NewPage(i, size).End() == NewPage(i + 1, size).start
    ensures i != j ==> !(NewPage(i, size).Contains(address) && NewPage(j, size).Contains(address))
  {
    PageContainsIndex(i, size, address);
    PageContainsIndex(j, size, address);
  }

  /**
   * `check_erase` accepts a range exactly when it runs forwards inside the
   * device and both of its ends are page boundaries.
   */
  lemma EraseRangeIsWholePages(capacity: nat, eraseSize: nat, from: nat, to: nat)
    requires eraseSize > 0
    ensures CheckErase(capacity, eraseSize, from, to) == Ok <==>
              && from <= to <= capacity
              && NewPage(from / eraseSize, eraseSize).start == from
              && NewPage(to / eraseSize, eraseSize).start == to
  {
    assert from == (from / eraseSize) * eraseSize + from % eraseSize;
    assert to == (to / eraseSize) * eraseSize + to % eraseSize;
  }

  /** Pages that follow each other without gap or overlap, none of them empty. */
  ghost predicate Contiguous(pages: seq<Page>)
  {
    && (forall j :: 0 <= j < |pages| ==> pages[j].size > 0)
    && (forall j, k :: 0 <= j < k < |pages| && k == j + 1 ==> pages[j].End() == pages[k].start)
  }

  /** The device's pages tile `[0, count * size)`. */
  lemma PagesTile(count: nat, size: nat)
    requires size > 0
    ensures Contiguous(Pages(count, size))
    ensures count > 0 ==> Pages(count, size)[0].start == 0
    ensures count > 0 ==> Pages(count, size)[count - 1].End() == count * size
  {
  }

  lemma ContiguousTail(pages: seq<Page>)
    requires Contiguous(pages) && |pages| > 0
    ensures Contiguous(pages[1..])
  {
    assert forall j :: 0 <= j < |pages| - 1 ==> pages[1..][j] == pages[j + 1];
    forall j, k | 0 <= j < k < |pages| - 1 && k == j + 1
      ensures pages[1..][j].End() == pages[1..][k].start
    {
      assert pages[1..][j] == pages[j + 1] && pages[1..][k] == pages[k + 1];
    }
  }

  lemma {:induction false} ContiguousAscending(pages: seq<Page>, i: nat, j: nat)
    requires Contiguous(pages) && i < j < |pages|
    ensures pages[i].End() <= pages[j].start
    decreases j - i
  {
    if i + 1 < j {
      ContiguousAscending(pages, i + 1, j);
    }
  }

  /** One item of the decomposition: part of the request, its page, its absolute address. */
  datatype Overlap = Overlap(data: seq<byte>, page: Page, addr: nat)

  /** Whether page `p` shares at least one byte with `[offset, offset + length)`. */
  predicate Intersects(p: Page, offset: nat, length: nat)
  {
    length > 0 && p.size > 0 && p.start < offset + length && offset < p.End()
  }

  /**
   * `t.data` is the part of `bytes` (written at `offset`) that lies inside
   * `t.page`, and `t.addr` is the address of its first byte.
   */
  predicate Describes(t: Overlap, bytes: seq<byte>, offset: nat)
  {
    && t.addr == Max(offset, t.page.start)
    && t.addr + |t.data| == Min(offset + |bytes|, t.page.End())
    && t.data == bytes[t.addr - offset .. t.addr - offset + |t.data|]
  }

  /** The part of a request that lies in page `p`, as an item of the decomposition. */
  function Clip(p: Page, bytes: seq<byte>, offset: nat): (t: Overlap)
    requires Intersects(p, offset, |bytes|)
    ensures t.page == p && Describes(t, bytes, offset)
  {
    var lo := Max(offset, p.start);
    var hi := Min(offset + |bytes|, p.End());
    Overlap(bytes[lo - offset .. hi - offset], p, lo)
  }

  /**
   * The decomposition of a write of `bytes` at `offset` over `pages`: one
   * item per page that shares a byte with the request, in the order of
   * `pages`.
   */
  function Overlaps(pages: seq<Page>, bytes: seq<byte>, offset: nat): (r: seq<Overlap>)
    ensures |r| <= |pages|
    decreases |pages|
  {
    if pages == [] then []
    else if Intersects(pages[0], offset, |bytes|) then
      [Clip(pages[0], bytes, offset)] + Overlaps(pages[1..], bytes, offset)
    else
      Overlaps(pages[1..], bytes, offset)
  }

  /** Each item comes from one of the pages, which shares a byte with the request, and describes its part. */
  lemma {:induction false} OverlapItem(pages: seq<Page>, bytes: seq<byte>, offset: nat, i: nat)
    requires i < |Overlaps(pages, bytes, offset)|
    ensures var t := Overlaps(pages, bytes, offset)[i];
            t.page in pages && Intersects(t.page, offset, |bytes|) && Describes(t, bytes, offset)
    decreases |pages|
  {
    var r := Overlaps(pages, bytes, offset);
    var rest := Overlaps(pages[1..], bytes, offset);
    if !Intersects(pages[0], offset, |bytes|) {
      assert r == rest;
      OverlapItem(pages[1..], bytes, offset, i);
      assert r[i].page in pages[1..];
    } else if i > 0 {
      assert r[i] == rest[i - 1];
      OverlapItem(pages[1..], bytes, offset, i - 1);
      assert r[i].page in pages[1..];
    } else {
      assert r[0] == Clip(pages[0], bytes, offset);
    }
  }

  /** Every page that shares a byte with the request has its item. */
  lemma {:induction false} OverlapsComplete(pages: seq<Page>, bytes: seq<byte>, offset: nat, p: Page)
    requires p in pages && Intersects(p, offset, |bytes|)
    ensures Clip(p, bytes, offset) in Overlaps(pages, bytes, offset)
    decreases |pages|
  {
    if p != pages[0] {
      OverlapsComplete(pages[1..], bytes, offset, p);
    }
  }

  /** A request that ends before the first page touches none. */
  lemma {:induction false} OverlapsBeyond(pages: seq<Page>, bytes: seq<byte>, offset: nat)
    requires Contiguous(pages)
    requires |pages| > 0 ==> offset + |bytes| <= pages[0].start
    ensures Overlaps(pages, bytes, offset) == []
    decreases |pages|
  {
    if |pages| > 0 {
      ContiguousTail(pages);
      OverlapsBeyond(pages[1..], bytes, offset);
    }
  }

  /** An empty decomposition means the request misses the pages altogether. */
  lemma {:induction false} OverlapsEmpty(pages: seq<Page>, bytes: seq<byte>, offset: nat)
    requires Contiguous(pages) && |pages| > 0
    requires Overlaps(pages, bytes, offset) == []
    ensures |bytes| == 0 || offset >= pages[|pages| - 1].End() || offset + |bytes| <= pages[0].start
    decreases |pages|
  {
    if |pages| > 1 {
      ContiguousTail(pages);
      OverlapsEmpty(pages[1..], bytes, offset);
    }
  }

  /**
   * Consecutive items come from adjacent pages, and each item's data starts
   * where the previous one's ended: no gap, no overlap, ascending order.
   */
  lemma {:induction false} OverlapsChain(pages: seq<Page>, bytes: seq<byte>, offset: nat, j: nat)
    requires Contiguous(pages)
    requires j + 1 < |Overlaps(pages, bytes, offset)|
    ensures var r := Overlaps(pages, bytes, offset);
            && r[j].page.End() == r[j + 1].page.start
            && r[j].addr < r[j].addr + |r[j].data| == r[j + 1].addr
    decreases |pages|
  {
    var r := Overlaps(pages, bytes, offset);
    var rest := Overlaps(pages[1..], bytes, offset);
    ContiguousTail(pages);
    OverlapItem(pages, bytes, offset, j);
    OverlapItem(pages, bytes, offset, j + 1);
    if !Intersects(pages[0], offset, |bytes|) {
      OverlapsChain(pages[1..], bytes, offset, j);
    } else if j > 0 {
      OverlapsChain(pages[1..], bytes, offset, j - 1);
    } else {
      assert |pages| > 1;
      if offset + |bytes| <= pages[1].start {
        OverlapsBeyond(pages[1..], bytes, offset);
      }
      assert pages[1..][0] == pages[1];
      assert Intersects(pages[1], offset, |bytes|);
    }
  }

  /** When the pages start at or before the request, the first item starts at `offset`. */
  lemma {:induction false} OverlapsFirst(pages: seq<Page>, bytes: seq<byte>, offset: nat)
    requires Contiguous(pages) && |pages| > 0 && pages[0].start <= offset
    requires Overlaps(pages, bytes, offset) != []
    ensures Overlaps(pages, bytes, offset)[0].addr == offset
    decreases |pages|
  {
    OverlapItem(pages, bytes, offset, 0);
    if !Intersects(pages[0], offset, |bytes|) {
      ContiguousTail(pages);
      OverlapsFirst(pages[1..], bytes, offset);
    }
  }

  /** The last item ends where the request ends, or where the pages end if that is sooner. */
  lemma {:induction false} OverlapsLast(pages: seq<Page>, bytes: seq<byte>, offset: nat)
    requires Contiguous(pages)
    requires Overlaps(pages, bytes, offset) != []
    ensures var r := Overlaps(pages, bytes, offset);
            r[|r| - 1].addr + |r[|r| - 1].data| == Min(offset + |bytes|, pages[|pages| - 1].End())
    decreases |pages|
  {
    ContiguousTail(pages);
    if Overlaps(pages[1..], bytes, offset) != [] {
      OverlapsLast(pages[1..], bytes, offset);
      LastOfRest(pages, bytes, offset);
    } else {
      LastIsFirst(pages, bytes, offset);
    }
  }

  /** When later pages have items, the last item is the last of theirs. */
  lemma LastOfRest(pages: seq<Page>, bytes: seq<byte>, offset: nat)
    requires |pages| > 0 && Overlaps(pages[1..], bytes, offset) != []
    ensures |pages| > 1 && pages[1..][|pages| - 2] == pages[|pages| - 1]
    ensures var r := Overlaps(pages, bytes, offset);
            var rest := Overlaps(pages[1..], bytes, offset);
            r[|r| - 1] == rest[|rest| - 1]
  {
  }

  /** When no later page has an item, the only item is the first page's, and the request ends inside it. */
  lemma LastIsFirst(pages: seq<Page>, bytes: seq<byte>, offset: nat)
    requires Contiguous(pages) && Overlaps(pages, bytes, offset) != []
    requires Overlaps(pages[1..], bytes, offset) == []
    ensures var r := Overlaps(pages, bytes, offset);
            r[|r| - 1].addr + |r[|r| - 1].data| == Min(offset + |bytes|, pages[|pages| - 1].End())
  {
    var r := Overlaps(pages, bytes, offset);
    assert Intersects(pages[0], offset, |bytes|) && r == [Clip(pages[0], bytes, offset)];
    if |pages| > 1 {
      ContiguousTail(pages);
      OverlapsEmpty(pages[1..], bytes, offset);
      ContiguousAscending(pages, 0, |pages| - 1);
      assert pages[1..][0] == pages[1] && pages[1..][|pages| - 2] == pages[|pages| - 1];
      assert offset + |bytes| <= pages[0].End() <= pages[|pages| - 1].End();
    }
  }

  /** The data of the items, concatenated in order. */
  function Joined(r: seq<Overlap>): seq<byte>
  {
    if r == [] then [] else r[0].data + Joined(r[1..])
  }

  /** Items that describe `bytes` and follow each other reassemble a slice of `bytes`. */
  lemma {:induction false} JoinedChain(r: seq<Overlap>, bytes: seq<byte>, offset: nat)
    requires r != []
    requires forall i :: 0 <= i < |r| ==> Describes(r[i], bytes, offset)
    requires forall j :: 0 <= j < |r| - 1 ==> r[j].addr + |r[j].data| == r[j + 1].addr
    ensures offset <= r[0].addr <= r[|r| - 1].addr + |r[|r| - 1].data| <= offset + |bytes|
    ensures Joined(r) == bytes[r[0].addr - offset .. r[|r| - 1].addr + |r[|r| - 1].data| - offset]
    decreases |r|
  {
    assert Describes(r[0], bytes, offset) && Describes(r[|r| - 1], bytes, offset);
    if |r| == 1 {
      assert Joined(r[1..]) == [];
      assert Joined(r) == r[0].data;
    } else {
      JoinedTail(r, bytes, offset);
      JoinedChain(r[1..], bytes, offset);
      JoinedStep(r, bytes, offset);
    }
  }

  /** The items after the first still describe `bytes` and follow each other. */
  lemma JoinedTail(r: seq<Overlap>, bytes: seq<byte>, offset: nat)
    requires |r| > 1
    requires forall i :: 0 <= i < |r| ==> Describes(r[i], bytes, offset)
    requires forall j :: 0 <= j < |r| - 1 ==> r[j].addr + |r[j].data| == r[j + 1].addr
    ensures var tail := r[1..];
            && tail[0] == r[1] && tail[|tail| - 1] == r[|r| - 1]
            && (forall i :: 0 <= i < |tail| ==> Describes(tail[i], bytes, offset))
            && (forall j :: 0 <= j < |tail| - 1 ==> tail[j].addr + |tail[j].data| == tail[j + 1].addr)
  {
    var tail := r[1..];
    forall i | 0 <= i < |tail|
      ensures Describes(tail[i], bytes, offset)
    {
      assert tail[i] == r[i + 1];
    }
    forall j | 0 <= j < |tail| - 1
      ensures tail[j].addr + |tail[j].data| == tail[j + 1].addr
    {
      assert tail[j] == r[j + 1] && tail[j + 1] == r[j + 2];
    }
  }

  /** The first item's data, followed by the rest reassembled, is one slice of `bytes`. */
  lemma JoinedStep(r: seq<Overlap>, bytes: seq<byte>, offset: nat)
    requires |r| > 1 && Describes(r[0], bytes, offset)
    requires r[0].addr + |r[0].data| == r[1].addr
    requires offset <= r[1].addr <= r[|r| - 1].addr + |r[|r| - 1].data| <= offset + |bytes|
    requires Joined(r[1..]) == bytes[r[1].addr - offset .. r[|r| - 1].addr + |r[|r| - 1].data| - offset]
    ensures offset <= r[0].addr <= r[|r| - 1].addr + |r[|r| - 1].data|
    ensures Joined(r) == bytes[r[0].addr - offset .. r[|r| - 1].addr + |r[|r| - 1].data| - offset]
  {
    var a, b, c := r[0].addr - offset, r[1].addr - offset, r[|r| - 1].addr + |r[|r| - 1].data| - offset;
    assert Joined(r) == r[0].data + Joined(r[1..]);
    assert r[0].data == bytes[a..b];
    assert bytes[a..b] + bytes[b..c] == bytes[a..c];
  }

  /**
   * Decomposition completeness: over the device's pages, the items' data,
   * in order, is exactly the part of `bytes` that falls inside
   * `[0, count * size)`.
   */
  lemma DecompositionComplete(count: nat, size: nat, bytes: seq<byte>, offset: nat)
    requires size > 0
    ensures Joined(Overlaps(Pages(count, size), bytes, offset)) ==
              if offset >= count * size then [] else bytes[..Min(|bytes|, count * size - offset)]
  {
    var pages := Pages(count, size);
    var r := Overlaps(pages, bytes, offset);
    PagesTile(count, size);
    if r == [] {
      if count > 0 {
        OverlapsEmpty(pages, bytes, offset);
      }
    } else {
      OverlapsFirst(pages, bytes, offset);
      OverlapsLast(pages, bytes, offset);
      forall j | 0 <= j < |r| - 1
        ensures r[j].addr + |r[j].data| == r[j + 1].addr
      {
        OverlapsChain(pages, bytes, offset, j);
      }
      forall i | 0 <= i < |r|
        ensures Describes(r[i], bytes, offset)
      {
        OverlapItem(pages, bytes, offset, i);
      }
      JoinedChain(r, bytes, offset);
    }
  }

  /**
   * Over the device's pages the decomposition starts at the request's offset
   * and stops where the request ends or the pages end, whichever is sooner;
   * it is empty only for an empty request or one past the pages.
   */
  lemma DevicePagesEnds(count: nat, size: nat, bytes: seq<byte>, offset: nat)
    requires size > 0
    ensures var r := Overlaps(Pages(count, size), bytes, offset);
            && (r == [] ==> |bytes| == 0 || offset >= count * size)
            && (r != [] ==> r[0].addr == offset)
            && (r != [] ==> r[|r| - 1].addr + |r[|r| - 1].data| == Min(offset + |bytes|, count * size))
  {
    var pages := Pages(count, size);
    var r := Overlaps(pages, bytes, offset);
    PagesTile(count, size);
    if r == [] {
      if count > 0 {
        OverlapsEmpty(pages, bytes, offset);
      }
    } else {
      OverlapsFirst(pages, bytes, offset);
      OverlapsLast(pages, bytes, offset);
    }
  }

  /** Over the device's pages each item starts where the one before it stopped. */
  lemma DevicePagesChain(count: nat, size: nat, bytes: seq<byte>, offset: nat, j: nat)
    requires size > 0
    requires j + 1 < |Overlaps(Pages(count, size), bytes, offset)|
    ensures var r := Overlaps(Pages(count, size), bytes, offset);
            r[j].addr + |r[j].data| == r[j + 1].addr
  {
    PagesTile(count, size);
    OverlapsChain(Pages(count, size), bytes, offset, j);
  }

  /** Every item of the device's decomposition lies on one of its pages, inside the device. */
  lemma OverlapOnDevicePage(count: nat, size: nat, bytes: seq<byte>, offset: nat, k: nat)
    requires size > 0
    requires k < |Overlaps(Pages(count, size), bytes, offset)|
    ensures var t := Overlaps(Pages(count, size), bytes, offset)[k];
            && (exists i :: 0 <= i < count && t.page == NewPage(i, size))
            && t.page.size == size && t.page.start % size == 0 && t.page.End() <= count * size
            && t.page.start <= t.addr < t.addr + |t.data| <= t.page.End()
            && Describes(t, bytes, offset)
  {
    var t := Overlaps(Pages(count, size), bytes, offset)[k];
    OverlapItem(Pages(count, size), bytes, offset, k);
    var i :| 0 <= i < count && Pages(count, size)[i] == t.page;
    MulLe(i + 1, count, size);
    MulMod(i, size, size);
  }
}
