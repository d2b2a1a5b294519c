/**
 * `RmwMultiwriteNorFlashStorage` of src/nor_flash.rs: the read-modify-write
 * adapter for devices that may program a cell again without erasing it.
 * A page whose new bytes only clear bits of the stored ones is not erased:
 * the new bytes, padded with erased bytes to whole write units, are
 * programmed over it directly. Any other page is rewritten as by
 * `RmwNorFlashStorage`.
 */
module RmwMultiwrite {
  import opened NorFlash
  import opened Paging
  import opened Device
  import opened RmwSpec
  import opened Rmw

  /**
   * `is_subset`: every byte of `data` has only bits that the matching byte
   * of `existing` has too, over the pairs `zip` forms.
   */
  function IsSubset(data: seq<byte>, existing: seq<byte>): bool
  {
    data == [] || existing == [] ||
    (data[0] & existing[0] == data[0] && IsSubset(data[1..], existing[1..]))
  }

  /** `IsSubset` holds exactly when every pair the zip forms passes the bit test. */
  lemma {:induction false} IsSubsetMeaning(data: seq<byte>, existing: seq<byte>)
    ensures IsSubset(data, existing) <==>
              forall i :: 0 <= i < |data| && i < |existing| ==> data[i] & existing[i] == data[i]
    decreases |data|
  {
    if data != [] && existing != [] {
      IsSubsetMeaning(data[1..], existing[1..]);
      if IsSubset(data, existing) {
        forall i | 0 <= i < |data| && i < |existing|
          ensures data[i] & existing[i] == data[i]
        {
          if i > 0 {
            assert data[1..][i - 1] == data[i] && existing[1..][i - 1] == existing[i];
          }
        }
      }
      if forall i :: 0 <= i < |data| && i < |existing| ==> data[i] & existing[i] == data[i] {
        forall j | 0 <= j < |data[1..]| && j < |existing[1..]|
          ensures data[1..][j] & existing[1..][j] == data[1..][j]
        {
          assert data[1..][j] == data[j + 1] && existing[1..][j] == existing[j + 1];
        }
      }
    }
  }

  /** The smallest multiple of `m` that is at least `n`. */
  function RoundUp(n: nat, m: nat): (e: nat)
    requires m > 0
    ensures e % m == 0 && n <= e < n + m
  {
    DivMul(n, m);
    if n % m == 0 then n
    else
      ModOfMultiple(n / m + 1, m);
      (n / m + 1) * m
  }

  /**
   * `aligned_end` as written at src/nor_flash.rs:373: `data.len() %
   * WRITE_SIZE + offset + data.len()`, where `offset` is `addr % WRITE_SIZE`.
   */
  function AlignedEndAsWritten(addr: nat, len: nat, writeSize: nat): (e: nat)
    requires writeSize > 0
    ensures addr % writeSize + len <= e < addr % writeSize + len + writeSize
  {
    len % writeSize + addr % writeSize + len
  }

  /**
   * With `WRITE_SIZE` 2, a 2-byte item at address 1 of a 4-byte page: the
   * padded write starts at 0 and, as written, is 3 bytes long, which the
   * device's `check_write` refuses although the request is in bounds. The
   * intended length, 4, passes.
   */
  lemma AlignedEndAsWrittenRejected()
    ensures AlignedEndAsWritten(1, 2, 2) == 3
    ensures CheckWrite(4, 2, 1 - 1 % 2, AlignedEndAsWritten(1, 2, 2)) == Err(NotAligned)
    ensures AlignedEnd(1, 2, 2) == 4
    ensures CheckWrite(4, 2, 1 - 1 % 2, AlignedEnd(1, 2, 2)) == Ok
  {
  }

  /**
   * The length of the padded direct write: from the write unit holding
   * `addr` up to the end of the write unit holding the item's last byte.
   */
  function AlignedEnd(addr: nat, len: nat, writeSize: nat): (e: nat)
    requires writeSize > 0
    ensures e % writeSize == 0
    ensures addr % writeSize + len <= e < addr % writeSize + len + writeSize
  {
    RoundUp(addr % writeSize + len, writeSize)
  }

  /** The padded buffer: erased bytes, with `data` at `lead`. */
  function Padded(lead: nat, data: seq<byte>, end: nat): seq<byte>
    requires lead + |data| <= end
  {
    seq(end, i requires 0 <= i < end => if lead <= i < lead + |data| then data[i - lead] else ERASE_BYTE)
  }

  lemma MulLtCancel(x: nat, y: nat, m: nat)
    requires x * m < y * m
    ensures x < y
  {
    if x >= y {
      MulLe(y, x, m);
    }
  }

  /** A multiple of `m` at or below `addr` is at or below `addr` rounded down to a multiple of `m`. */
  lemma RoundDownAbove(low: nat, addr: nat, m: nat)
    requires m > 0 && low % m == 0 && low <= addr
    ensures low <= addr - addr % m
    ensures (addr - addr % m) % m == 0
  {
    var a := addr / m;
    DivMul(addr, m);
    ModOfMultiple(a, m);
    var s := low / m;
    DivMul(low, m);
    assert s * m < (a + 1) * m;
    MulLtCancel(s, a + 1, m);
    MulLe(s, a, m);
  }

  /** Rounding up a length that ends by a multiple of `m`, from a multiple of `m`, still ends by it. */
  lemma RoundUpBelow(base: nat, n: nat, high: nat, m: nat)
    requires m > 0 && base % m == 0 && high % m == 0 && base + n <= high
    ensures base + RoundUp(n, m) <= high
  {
    var e := RoundUp(n, m);
    var b, c, h := base / m, e / m, high / m;
    DivMul(base, m);
    DivMul(e, m);
    DivMul(high, m);
    assert (b + c) * m < (h + 1) * m;
    MulLtCancel(b + c, h + 1, m);
    MulLe(b + c, h, m);
  }

  /**
   * When the erase size is a multiple of the write size, the padded write
   * starts on a write unit inside the item's page and ends inside it too.
   */
  lemma PaddedWindow(start: nat, eraseSize: nat, writeSize: nat, addr: nat, len: nat)
    requires eraseSize > 0 && writeSize > 0 && eraseSize % writeSize == 0 && start % eraseSize == 0
    requires start <= addr && addr + len <= start + eraseSize
    ensures start <= addr - addr % writeSize
    ensures (addr - addr % writeSize) % writeSize == 0
    ensures addr - addr % writeSize + AlignedEnd(addr, len, writeSize) <= start + eraseSize
  {
    PageAligned(start, eraseSize, writeSize);
    RoundDownAbove(start, addr, writeSize);
    EndAligned(start, eraseSize, writeSize);
    RoundUpBelow(addr - addr % writeSize, addr % writeSize + len, start + eraseSize, writeSize);
  }

  lemma EndAligned(start: nat, eraseSize: nat, writeSize: nat)
    requires writeSize > 0 && eraseSize % writeSize == 0 && start % writeSize == 0
    ensures (start + eraseSize) % writeSize == 0
  {
    DivMul(start, writeSize);
    DivMul(eraseSize, writeSize);
    assert start + eraseSize == (start / writeSize + eraseSize / writeSize) * writeSize;
    ModOfMultiple(start / writeSize + eraseSize / writeSize, writeSize);
  }

  /** The bit test `IsSubset` performs, read off cell by cell from `addr` on. */
  lemma SubsetCells(mem: seq<byte>, addr: nat, data: seq<byte>, limit: nat)
    requires addr + |data| <= limit <= |mem|
    requires IsSubset(data, mem[addr..limit])
    ensures forall i :: 0 <= i < |data| ==> mem[addr + i] & data[i] == data[i]
  {
    IsSubsetMeaning(data, mem[addr..limit]);
    forall i | 0 <= i < |data|
      ensures mem[addr + i] & data[i] == data[i]
    {
      assert mem[addr..limit][i] == mem[addr + i];
    }
  }

  /**
   * Programming the padded buffer at `base` over cells whose bits cover the
   * item's bytes stores exactly the item at `base + lead`: erased padding
   * leaves a cell as it was, and a byte that only clears bits comes out as
   * itself.
   */
  lemma PaddedProgram(mem: seq<byte>, base: nat, lead: nat, data: seq<byte>, end: nat, limit: nat)
    requires lead + |data| <= end && base + end <= |mem|
    requires base + lead + |data| <= limit <= |mem|
    requires IsSubset(data, mem[base + lead..limit])
    ensures Programmed(mem, base, Padded(lead, data, end)) == Overwritten(mem, base + lead, data)
  {
    var addr := base + lead;
    SubsetCells(mem, addr, data, limit);
    var p, o := Programmed(mem, base, Padded(lead, data, end)), Overwritten(mem, addr, data);
    forall a | 0 <= a < |mem|
      ensures p[a] == o[a]
    {
      if addr <= a < addr + |data| {
        assert mem[addr + (a - addr)] & data[a - addr] == data[a - addr];
      }
      PaddedCell(mem, base, lead, data, end, a);
    }
  }

  /** One cell of `PaddedProgram`. */
  lemma PaddedCell(mem: seq<byte>, base: nat, lead: nat, data: seq<byte>, end: nat, a: nat)
    requires lead + |data| <= end && base + end <= |mem| && a < |mem|
    requires base + lead <= a < base + lead + |data| ==>
               mem[a] & data[a - base - lead] == data[a - base - lead]
    ensures Programmed(mem, base, Padded(lead, data, end))[a] == Overwritten(mem, base + lead, data)[a]
  {
    var padded := Padded(lead, data, end);
    if base <= a < base + end && !(base + lead <= a < base + lead + |data|) {
      assert padded[a - base] == ERASE_BYTE;
      assert mem[a] & ERASE_BYTE == mem[a];
    }
  }

  /** Whether the item's bytes only clear bits of the page's bytes from `addr` on. */
  /**
   * The length of the padded direct write: the one line 373 computes or,
   * with `roundUp`, the evidently intended round-up to whole write units.
   * Either way the item fits, with less than one write unit to spare.
   */
  function PadEnd(roundUp: bool, addr: nat, len: nat, writeSize: nat): (e: nat)
    requires writeSize > 0
    ensures addr % writeSize + len <= e < addr % writeSize + len + writeSize
  {
    if roundUp then AlignedEnd(addr, len, writeSize) else AlignedEndAsWritten(addr, len, writeSize)
  }

  /** Two multiples of `m` among `m` consecutive numbers are the same number. */
  lemma MultiplesInWindow(a: nat, b: nat, n: nat, m: nat)
    requires m > 0 && a % m == 0 && b % m == 0
    requires n <= a < n + m && n <= b < n + m
    ensures a == b
  {
    var qa, qb := a / m, b / m;
    DivMul(a, m);
    DivMul(b, m);
    if qa < qb {
      MulLe(qa + 1, qb, m);
    } else if qb < qa {
      MulLe(qb + 1, qa, m);
    }
  }

  /** Where the length of line 373 happens to be a whole number of write units, it is the intended length. */
  lemma AsWrittenWhenAligned(addr: nat, len: nat, writeSize: nat)
    requires writeSize > 0 && AlignedEndAsWritten(addr, len, writeSize) % writeSize == 0
    ensures AlignedEndAsWritten(addr, len, writeSize) == AlignedEnd(addr, len, writeSize)
  {
    MultiplesInWindow(AlignedEndAsWritten(addr, len, writeSize), AlignedEnd(addr, len, writeSize),
                      addr % writeSize + len, writeSize);
  }

  /**
   * `is_subset` on the page just read: the item lies in its page inside the
   * device, and its bytes only clear bits of the page's bytes from `addr` on.
   */
  predicate FitsBits(mem: seq<byte>, t: Overlap)
  {
    InDevice(t, |mem|) && IsSubset(t.data, mem[t.addr..t.page.End()])
  }

  /** The direct write for item `t`: the padded buffer at the write unit holding `t.addr`. */
  function DirectWrite(t: Overlap, writeSize: nat, roundUp: bool): Call
    requires writeSize > 0
  {
    var lead := t.addr % writeSize;
    WriteCall(t.addr - lead, Padded(lead, t.data, PadEnd(roundUp, t.addr, |t.data|, writeSize)))
  }

  /**
   * The direct write for an item that fits the stored bits starts at the
   * write unit holding the item, is as long as the padding says, and, once
   * the device accepts it, leaves exactly the item in the cells.
   */
  lemma DirectWriteEffect(mem: seq<byte>, t: Overlap, writeSize: nat, roundUp: bool)
    requires writeSize > 0 && FitsBits(mem, t)
    ensures var c := DirectWrite(t, writeSize, roundUp);
            && c.offset == t.addr - t.addr % writeSize
            && c.bytes == Padded(t.addr % writeSize, t.data, |c.bytes|)
            && |c.bytes| == PadEnd(roundUp, t.addr, |t.data|, writeSize)
            && (CheckWrite(|mem|, writeSize, c.offset, |c.bytes|) == Ok ==>
                  Programmed(mem, c.offset, c.bytes) == Overwritten(mem, t.addr, t.data))
  {
    var lead := t.addr % writeSize;
    var end := PadEnd(roundUp, t.addr, |t.data|, writeSize);
    if CheckWrite(|mem|, writeSize, t.addr - lead, end) == Ok {
      PaddedProgram(mem, t.addr - lead, lead, t.data, end, t.page.End());
    }
  }

  /** The calls for item `t` once its page is read: no erase when the bytes fit the page's bits. */
  function MultiPageCalls(mem: seq<byte>, t: Overlap, writeSize: nat, roundUp: bool): seq<Call>
    requires InDevice(t, |mem|) && writeSize > 0
  {
    if FitsBits(mem, t) then [ReadCall(t.page.start, t.page.size), DirectWrite(t, writeSize, roundUp)]
    else PlainPageCalls(mem, t)
  }

  /**
   * The outcome of the adapter's step for item `t` over contents `mem`: the
   * page read; then the direct write if the bytes fit, or else the erase
   * and the page write. The first call that fails gives the error.
   */
  function StepOutcome(mem: seq<byte>, t: Overlap, readSize: nat, writeSize: nat, eraseSize: nat,
                       roundUp: bool): Outcome
    requires readSize > 0 && writeSize > 0 && eraseSize > 0
  {
    var read := CheckRead(|mem|, readSize, t.page.start, t.page.size);
    var erase := CheckErase(|mem|, eraseSize, t.page.start, t.page.End());
    if read.Err? then read
    else if FitsBits(mem, t) then
      CheckWrite(|mem|, writeSize, t.addr - t.addr % writeSize, PadEnd(roundUp, t.addr, |t.data|, writeSize))
    else if erase.Err? then erase
    else CheckWrite(|mem|, writeSize, t.page.start, t.page.size)
  }

  /** The calls the adapter makes for item `t`, up to and including the first one that fails. */
  function StepCalls(mem: seq<byte>, t: Overlap, readSize: nat, writeSize: nat, eraseSize: nat,
                     roundUp: bool): seq<Call>
    requires InDevice(t, |mem|) && readSize > 0 && writeSize > 0 && eraseSize > 0
  {
    if CheckRead(|mem|, readSize, t.page.start, t.page.size).Err? then [ReadCall(t.page.start, t.page.size)]
    else if !FitsBits(mem, t) && CheckErase(|mem|, eraseSize, t.page.start, t.page.End()).Err? then
      [ReadCall(t.page.start, t.page.size), EraseCall(t.page.start, t.page.End())]
    else MultiPageCalls(mem, t, writeSize, roundUp)
  }

  /**
   * The contents the step for item `t` leaves: the item copied in when the
   * step succeeds; the page erased when only the page write failed; the
   * contents unchanged when the read, the erase or the direct write failed.
   */
  function StepState(mem: seq<byte>, t: Overlap, readSize: nat, writeSize: nat, eraseSize: nat,
                     roundUp: bool): seq<byte>
    requires readSize > 0 && writeSize > 0 && eraseSize > 0
  {
    if StepOutcome(mem, t, readSize, writeSize, eraseSize, roundUp).Ok? then Overwritten(mem, t.addr, t.data)
    else if CheckRead(|mem|, readSize, t.page.start, t.page.size).Err? || FitsBits(mem, t) ||
            CheckErase(|mem|, eraseSize, t.page.start, t.page.End()).Err? then mem
    else Erased(mem, t.page.start, t.page.End())
  }

  /**
   * A whole write that the adapter as written refuses: on an erased 4-byte
   * device with `READ_SIZE` 1, `WRITE_SIZE` 2 and `ERASE_SIZE` 4, writing
   * two zero bytes at address 1 touches one page, and the bytes fit its
   * bits. The direct write of line 373's 3 bytes is refused and nothing is
   * written; the intended 4-byte write commits the request.
   */
  lemma AsWrittenWriteFails()
    ensures var mem := [ERASE_BYTE, ERASE_BYTE, ERASE_BYTE, ERASE_BYTE];
            var ov := Touched(4, 4, [0, 0], 1);
            && ov == [Overlap([0, 0], Page(0, 4), 1)]
            && FitsBits(mem, ov[0])
            && StepOutcome(mem, ov[0], 1, 2, 4, false) == Err(NotAligned)
            && StepState(mem, ov[0], 1, 2, 4, false) == mem
            && Committed(mem, ov, 1, 2, 4, false, 0) == 0
            && StepOutcome(mem, ov[0], 1, 2, 4, true) == Ok
            && Committed(mem, ov, 1, 2, 4, true, 0) == 1
  {
    var mem := [ERASE_BYTE, ERASE_BYTE, ERASE_BYTE, ERASE_BYTE];
    var t := Overlap([0, 0], Page(0, 4), 1);
    ExampleTouched();
    assert mem[1..4] == [ERASE_BYTE, ERASE_BYTE, ERASE_BYTE];
    assert IsSubset([0, 0], mem[1..4]);
  }

  /** The request of `AsWrittenWriteFails` touches the device's one page. */
  lemma ExampleTouched()
    ensures Touched(4, 4, [0, 0], 1) == [Overlap([0, 0], Page(0, 4), 1)]
  {
    var bytes: seq<byte> := [0, 0];
    assert Pages(1, 4) == [Page(0, 4)];
    assert Intersects(Page(0, 4), 1, 2);
    assert bytes[0..2] == bytes;
    assert Overlaps([Page(0, 4)], bytes, 1) == [Clip(Page(0, 4), bytes, 1)] + Overlaps([], bytes, 1);
  }

  /** The index of the first item, from the `k`-th on, whose step fails; `|ov|` when none does. */
  function Committed(mem: seq<byte>, ov: seq<Overlap>, readSize: nat, writeSize: nat, eraseSize: nat,
                     roundUp: bool, k: nat): (n: nat)
    requires readSize > 0 && writeSize > 0 && eraseSize > 0 && k <= |ov|
    ensures k <= n <= |ov|
    decreases |ov| - k
  {
    if k == |ov| || StepOutcome(mem, ov[k], readSize, writeSize, eraseSize, roundUp).Err? then k
    else Committed(mem, ov, readSize, writeSize, eraseSize, roundUp, k + 1)
  }

  /** An item's step succeeds exactly when it comes before the first failing one. */
  lemma {:induction false} CommittedAt(mem: seq<byte>, ov: seq<Overlap>, readSize: nat, writeSize: nat,
                                       eraseSize: nat, roundUp: bool, k: nat, j: nat)
    requires readSize > 0 && writeSize > 0 && eraseSize > 0
    requires k <= j < |ov| && j <= Committed(mem, ov, readSize, writeSize, eraseSize, roundUp, k)
    ensures StepOutcome(mem, ov[j], readSize, writeSize, eraseSize, roundUp) == Ok <==>
              j < Committed(mem, ov, readSize, writeSize, eraseSize, roundUp, k)
    decreases j - k
  {
    if j > k {
      CommittedAt(mem, ov, readSize, writeSize, eraseSize, roundUp, k + 1, j);
    }
  }

  /** When every step from the `k`-th on succeeds, none fails. */
  lemma {:induction false} AllCommitted(mem: seq<byte>, ov: seq<Overlap>, readSize: nat, writeSize: nat,
                                        eraseSize: nat, roundUp: bool, k: nat)
    requires readSize > 0 && writeSize > 0 && eraseSize > 0 && k <= |ov|
    requires forall j :: k <= j < |ov| ==> StepOutcome(mem, ov[j], readSize, writeSize, eraseSize, roundUp) == Ok
    ensures Committed(mem, ov, readSize, writeSize, eraseSize, roundUp, k) == |ov|
    decreases |ov| - k
  {
    if k < |ov| {
      AllCommitted(mem, ov, readSize, writeSize, eraseSize, roundUp, k + 1);
    }
  }

  /**
   * Whether the slice at src/nor_flash.rs:374 stays inside the merge buffer
   * for every item whose direct write the loop reaches; the source panics
   * otherwise.
   */
  predicate PaddingFits(mem: seq<byte>, ov: seq<Overlap>, readSize: nat, writeSize: nat, eraseSize: nat,
                        roundUp: bool, bufferLength: nat)
    requires readSize > 0 && writeSize > 0 && eraseSize > 0
  {
    forall j :: 0 <= j < |ov| && j <= Committed(mem, ov, readSize, writeSize, eraseSize, roundUp, 0) &&
                CheckRead(|mem|, readSize, ov[j].page.start, ov[j].page.size).Ok? && FitsBits(mem, ov[j]) ==>
                  PadEnd(roundUp, ov[j].addr, |ov[j].data|, writeSize) <= bufferLength
  }

  /**
   * With the intended padding, on pages whose size is a multiple of both
   * the read and the write size, every step succeeds and its padded write
   * ends inside the item's page.
   */
  lemma CorrectedStep(mem: seq<byte>, t: Overlap, readSize: nat, writeSize: nat, eraseSize: nat)
    requires readSize > 0 && writeSize > 0 && eraseSize > 0
    requires InDevice(t, |mem|) && t.page.size == eraseSize && t.page.start % eraseSize == 0
    requires eraseSize % readSize == 0 && eraseSize % writeSize == 0
    ensures StepOutcome(mem, t, readSize, writeSize, eraseSize, true) == Ok
    ensures PadEnd(true, t.addr, |t.data|, writeSize) <= eraseSize
  {
    PageAligned(t.page.start, eraseSize, readSize);
    PageAligned(t.page.start, eraseSize, writeSize);
    PaddedWindow(t.page.start, eraseSize, writeSize, t.addr, |t.data|);
  }

  /**
   * With the intended padding, on a device whose erase size is a multiple
   * of its read and write sizes, a write commits every touched page, and
   * no padded write overruns a merge buffer of one erase page.
   */
  lemma CorrectedWriteCommits(mem: seq<byte>, bytes: seq<byte>, offset: nat, readSize: nat, writeSize: nat,
                              eraseSize: nat, bufferLength: nat)
    requires readSize > 0 && writeSize > 0 && eraseSize > 0
    requires eraseSize % readSize == 0 && eraseSize % writeSize == 0 && eraseSize <= bufferLength
    ensures var ov := Touched(|mem|, eraseSize, bytes, offset);
            && Committed(mem, ov, readSize, writeSize, eraseSize, true, 0) == |ov|
            && PaddingFits(mem, ov, readSize, writeSize, eraseSize, true, bufferLength)
  {
    var ov := Touched(|mem|, eraseSize, bytes, offset);
    forall j | 0 <= j < |ov|
      ensures StepOutcome(mem, ov[j], readSize, writeSize, eraseSize, true) == Ok
      ensures PadEnd(true, ov[j].addr, |ov[j].data|, writeSize) <= bufferLength
    {
      TouchedOnPage(|mem|, eraseSize, bytes, offset, j);
      CorrectedStep(mem, ov[j], readSize, writeSize, eraseSize);
    }
    AllCommitted(mem, ov, readSize, writeSize, eraseSize, true, 0);
  }

  /**
   * With the padding of line 373, a direct write fails wherever that length
   * is not a whole number of write units; where it is, the step is the
   * intended one.
   */
  lemma AsWrittenStep(mem: seq<byte>, t: Overlap, readSize: nat, writeSize: nat, eraseSize: nat)
    requires readSize > 0 && writeSize > 0 && eraseSize > 0
    requires FitsBits(mem, t) && CheckRead(|mem|, readSize, t.page.start, t.page.size).Ok?
    ensures AlignedEndAsWritten(t.addr, |t.data|, writeSize) % writeSize != 0 ==>
              StepOutcome(mem, t, readSize, writeSize, eraseSize, false).Err?
    ensures AlignedEndAsWritten(t.addr, |t.data|, writeSize) % writeSize == 0 ==>
              && StepOutcome(mem, t, readSize, writeSize, eraseSize, false) ==
                 StepOutcome(mem, t, readSize, writeSize, eraseSize, true)
              && DirectWrite(t, writeSize, false) == DirectWrite(t, writeSize, true)
  {
    if AlignedEndAsWritten(t.addr, |t.data|, writeSize) % writeSize == 0 {
      AsWrittenWhenAligned(t.addr, |t.data|, writeSize);
    }
  }

  /** The calls for the items of `ov`, in order, when every step succeeds. */
  function MultiTrace(mem: seq<byte>, ov: seq<Overlap>, writeSize: nat, roundUp: bool): seq<Call>
    requires writeSize > 0 && forall t :: t in ov ==> InDevice(t, |mem|)
  {
    if ov == [] then []
    else MultiTrace(mem, ov[..|ov| - 1], writeSize, roundUp) + MultiPageCalls(mem, ov[|ov| - 1], writeSize, roundUp)
  }

  /** The number of items whose bytes do not fit the stored bits. */
  function Dirty(mem: seq<byte>, ov: seq<Overlap>): nat
  {
    if ov == [] then 0
    else Dirty(mem, ov[..|ov| - 1]) + (if FitsBits(mem, ov[|ov| - 1]) then 0 else 1)
  }

  lemma MultiPageCounts(mem: seq<byte>, t: Overlap, writeSize: nat, roundUp: bool)
    requires InDevice(t, |mem|) && writeSize > 0
    ensures var calls := MultiPageCalls(mem, t, writeSize, roundUp);
            && Erases(calls) == (if FitsBits(mem, t) then 0 else 1)
            && Writes(calls) == 1 && Reads(calls) == 1
  {
    var calls := MultiPageCalls(mem, t, writeSize, roundUp);
    if FitsBits(mem, t) {
      var rest := calls[1..];
      assert rest[1..] == [];
      assert Erases(rest) == 0 && Writes(rest) == 1 && Reads(rest) == 0;
    } else {
      PlainPageCounts(mem, t);
    }
  }

  /**
   * One read and one write per committed page, and an erase only for the
   * pages whose new bytes would set a cleared bit.
   */
  lemma {:induction false} MultiTraceCounts(mem: seq<byte>, ov: seq<Overlap>, writeSize: nat, roundUp: bool)
    requires writeSize > 0 && forall t :: t in ov ==> InDevice(t, |mem|)
    ensures Erases(MultiTrace(mem, ov, writeSize, roundUp)) == Dirty(mem, ov) <= |ov|
    ensures Writes(MultiTrace(mem, ov, writeSize, roundUp)) == |ov|
    ensures Reads(MultiTrace(mem, ov, writeSize, roundUp)) == |ov|
    decreases |ov|
  {
    if ov != [] {
      var init := ov[..|ov| - 1];
      MultiTraceCounts(mem, init, writeSize, roundUp);
      CountsAppend(MultiTrace(mem, init, writeSize, roundUp), MultiPageCalls(mem, ov[|ov| - 1], writeSize, roundUp));
      MultiPageCounts(mem, ov[|ov| - 1], writeSize, roundUp);
    }
  }

  lemma MultiTraceStep(mem: seq<byte>, ov: seq<Overlap>, writeSize: nat, roundUp: bool, k: nat)
    requires k < |ov| && writeSize > 0 && forall t :: t in ov ==> InDevice(t, |mem|)
    ensures MultiTrace(mem, ov[..k + 1], writeSize, roundUp) ==
              MultiTrace(mem, ov[..k], writeSize, roundUp) + MultiPageCalls(mem, ov[k], writeSize, roundUp)
  {
    assert ov[..k + 1][..k] == ov[..k];
  }

  /** The splice up to `limit` has not touched the cells from `limit` on. */
  lemma SplicedBeyond(mem: seq<byte>, offset: nat, bytes: seq<byte>, limit: nat, hi: nat)
    requires limit <= hi <= |mem|
    ensures Spliced(mem, offset, bytes, limit)[limit..hi] == mem[limit..hi]
  {
  }

  /**
   * What one turn of the adapter's loop needs; see `Rmw.PlainStep`. The
   * items before `k` leave item `k`'s step as it would be on the old
   * contents: same subset test, same outcome, same calls.
   */
  lemma MultiStep(capacity: nat, readSize: nat, writeSize: nat, eraseSize: nat, roundUp: bool,
                  bytes: seq<byte>, offset: nat, mem: seq<byte>, k: nat)
    requires readSize > 0 && writeSize > 0 && eraseSize > 0 && |mem| == capacity
    requires k < |Touched(capacity, eraseSize, bytes, offset)|
    ensures var ov := Touched(capacity, eraseSize, bytes, offset);
            var t := ov[k];
            var sofar := Spliced(mem, offset, bytes, Reached(ov, offset, k));
            && (forall u :: u in ov ==> InDevice(u, capacity))
            && InDevice(t, capacity) && t.page.size == eraseSize && t.page.start % eraseSize == 0
            && Overwritten(sofar, t.addr, t.data) == Spliced(mem, offset, bytes, Reached(ov, offset, k + 1))
            && FitsBits(sofar, t) == FitsBits(mem, t)
            && StepOutcome(sofar, t, readSize, writeSize, eraseSize, roundUp) ==
                 StepOutcome(mem, t, readSize, writeSize, eraseSize, roundUp)
            && StepCalls(sofar, t, readSize, writeSize, eraseSize, roundUp) ==
                 StepCalls(mem, t, readSize, writeSize, eraseSize, roundUp)
            && MultiTrace(mem, ov[..k + 1], writeSize, roundUp) ==
                 MultiTrace(mem, ov[..k], writeSize, roundUp) + MultiPageCalls(mem, t, writeSize, roundUp)
  {
    var ov := Touched(capacity, eraseSize, bytes, offset);
    var t := ov[k];
    PlainStep(capacity, eraseSize, bytes, offset, mem, k);
    var sofar := Spliced(mem, offset, bytes, Reached(ov, offset, k));
    TouchedReached(capacity, eraseSize, bytes, offset, k);
    SplicedBeyond(mem, offset, bytes, t.addr, t.page.End());
    StepSame(mem, sofar, t, readSize, writeSize, eraseSize, roundUp);
    MultiTraceStep(mem, ov, writeSize, roundUp, k);
  }

  /**
   * Two contents of the same size that agree on the item's page from its
   * address on, and on its merged image, give the same step.
   */
  lemma StepSame(mem: seq<byte>, other: seq<byte>, t: Overlap, readSize: nat, writeSize: nat, eraseSize: nat,
                 roundUp: bool)
    requires readSize > 0 && writeSize > 0 && eraseSize > 0 && InDevice(t, |mem|) && |other| == |mem|
    requires other[t.addr..t.page.End()] == mem[t.addr..t.page.End()]
    requires MergedPage(other, t) == MergedPage(mem, t)
    ensures FitsBits(other, t) == FitsBits(mem, t)
    ensures StepOutcome(other, t, readSize, writeSize, eraseSize, roundUp) ==
              StepOutcome(mem, t, readSize, writeSize, eraseSize, roundUp)
    ensures StepCalls(other, t, readSize, writeSize, eraseSize, roundUp) ==
              StepCalls(mem, t, readSize, writeSize, eraseSize, roundUp)
  {
  }

  /** A step that succeeds makes the calls of `MultiPageCalls` and copies the item in. */
  lemma StepOk(mem: seq<byte>, t: Overlap, readSize: nat, writeSize: nat, eraseSize: nat, roundUp: bool)
    requires readSize > 0 && writeSize > 0 && eraseSize > 0 && InDevice(t, |mem|)
    requires StepOutcome(mem, t, readSize, writeSize, eraseSize, roundUp) == Ok
    ensures StepCalls(mem, t, readSize, writeSize, eraseSize, roundUp) == MultiPageCalls(mem, t, writeSize, roundUp)
    ensures StepState(mem, t, readSize, writeSize, eraseSize, roundUp) == Overwritten(mem, t.addr, t.data)
  {
  }

  /** Regrouping of the call log, named so that the loop of `Write` can give the solver the one instance it needs. */
  lemma AppendAssoc(a: seq<Call>, b: seq<Call>, c: seq<Call>)
    ensures a + (b + c) == a + b + c
  {
  }

  /** The adapter of src/nor_flash.rs:305-391, over a device with the `MultiwriteNorFlash` contract. */
  class RmwMultiwriteNorFlashStorage {
    const storage: MultiwriteFlash
    const mergeBuffer: array<byte>
    /**
     * Whether the direct write is padded to whole write units, the evidently
     * intended length, rather than to the length line 373 computes: `false`
     * is the adapter as written.
     */
    const roundUp: bool

    ghost predicate Valid()
      reads this, storage
    {
      storage.Valid() && mergeBuffer.Length >= storage.eraseSize && mergeBuffer != storage.data
    }

    /** `new`: the merge buffer must hold one erase page (the source panics otherwise). */
    constructor (norFlash: MultiwriteFlash, mergeBuffer: array<byte>, roundUp: bool)
      requires norFlash.Valid() && mergeBuffer != norFlash.data
      requires mergeBuffer.Length >= norFlash.eraseSize
      ensures Valid() && storage == norFlash && this.mergeBuffer == mergeBuffer && this.roundUp == roundUp
    {
      storage := norFlash;
      this.mergeBuffer := mergeBuffer;
      this.roundUp := roundUp;
    }

    /** `capacity`: the device's. */
    function Capacity(): (c: nat)
      reads this, storage
      ensures c == storage.data.Length
    {
      storage.Capacity()
    }

    /** `read`: passed straight to the device, with the device's checks. */
    method Read(offset: nat, bytes: array<byte>) returns (r: Outcome)
      requires Valid() && bytes != storage.data
      modifies storage, bytes
      ensures Valid()
      ensures storage.calls == old(storage.calls) + [ReadCall(offset, bytes.Length)]
      ensures r == CheckRead(storage.data.Length, storage.readSize, offset, bytes.Length)
      ensures r.Ok? ==> bytes[..] == storage.data[offset..offset + bytes.Length]
      ensures r.Err? ==> bytes[..] == old(bytes[..])
    {
      r := storage.Read(offset, bytes, bytes.Length);
    }

    /** Copies `data` into the merge buffer's first page from offset `at` on. */
    method CopyIn(at: nat, data: seq<byte>)
      requires Valid() && at + |data| <= storage.eraseSize
      modifies mergeBuffer
      ensures mergeBuffer[..storage.eraseSize] == Overwritten(old(mergeBuffer[..storage.eraseSize]), at, data)
      ensures mergeBuffer[storage.eraseSize..] == old(mergeBuffer[storage.eraseSize..])
    {
      forall i | at <= i < at + |data| {
        mergeBuffer[i] := data[i - at];
      }
    }

    /** Fills the first `end` bytes of the merge buffer with erased bytes, then copies `data` in at `lead`. */
    method PadIn(lead: nat, data: seq<byte>, end: nat)
      requires lead + |data| <= end <= mergeBuffer.Length
      modifies mergeBuffer
      ensures mergeBuffer[..end] == Padded(lead, data, end)
      ensures mergeBuffer[end..] == old(mergeBuffer[end..])
    {
      forall i | 0 <= i < end {
        mergeBuffer[i] := ERASE_BYTE;
      }
      forall i | lead <= i < lead + |data| {
        mergeBuffer[i] := data[i - lead];
      }
    }

    /**
     * The subset branch: program the padded item at the write unit holding
     * its address, without erasing. The device's `check_write` decides the
     * outcome; once it passes, the cells hold exactly the item, because the
     * erased padding leaves its cells as they were.
     */
    method WriteDirect(t: Overlap) returns (r: Outcome)
      requires Valid() && FitsBits(storage.data[..], t)
      requires PadEnd(roundUp, t.addr, |t.data|, storage.writeSize) <= mergeBuffer.Length
      modifies storage, storage.data, mergeBuffer
      ensures Valid()
      ensures var c := DirectWrite(t, storage.writeSize, roundUp);
              && r == CheckWrite(storage.data.Length, storage.writeSize, c.offset, |c.bytes|)
              && storage.calls == old(storage.calls) + [c]
      ensures storage.data[..] == if r.Ok? then Overwritten(old(storage.data[..]), t.addr, t.data)
                                  else old(storage.data[..])
    {
      ghost var cur := storage.data[..];
      var c := DirectWrite(t, storage.writeSize, roundUp);
      DirectWriteEffect(cur, t, storage.writeSize, roundUp);
      PadIn(t.addr % storage.writeSize, t.data, |c.bytes|);
      var padded := mergeBuffer[..|c.bytes|];
      r := storage.Write(c.offset, padded);
    }

    /**
     * The other branch: erase the page, copy the item's data into the page
     * image, write the whole page back. The page write fails unless
     * `ERASE_SIZE` is a multiple of `WRITE_SIZE`.
     */
    method Rewrite(t: Overlap) returns (r: Outcome)
      requires Valid() && InDevice(t, storage.data.Length)
      requires t.page.size == storage.eraseSize && t.page.start % storage.eraseSize == 0
      requires mergeBuffer[..storage.eraseSize] == storage.data[t.page.start..t.page.End()]
      modifies storage, storage.data, mergeBuffer
      ensures Valid()
      ensures mergeBuffer[storage.eraseSize..] == old(mergeBuffer[storage.eraseSize..])
      ensures r == CheckWrite(storage.data.Length, storage.writeSize, t.page.start, t.page.size)
      ensures storage.calls == old(storage.calls) +
                [EraseCall(t.page.start, t.page.End()), WriteCall(t.page.start, MergedPage(old(storage.data[..]), t))]
      ensures storage.data[..] == if r.Ok? then Overwritten(old(storage.data[..]), t.addr, t.data)
                                  else Erased(old(storage.data[..]), t.page.start, t.page.End())
    {
      ghost var cur := storage.data[..];
      var size := storage.eraseSize;
      PageAligned(t.page.start, size, storage.writeSize);
      ghost var tail := mergeBuffer[size..];
      r := storage.Erase(t.page.start, t.page.End());
      if r.Ok? {
        CopyIn(t.addr - t.page.start, t.data);
        MergedPageLocal(cur, t);
        var image := mergeBuffer[..size];
        assert image == MergedPage(cur, t);
        RewritePage(cur, t);
        r := storage.Write(t.page.start, image);
      }
      assert mergeBuffer[size..] == tail;
    }

    /**
     * The loop body of `write` for one item: read its page into the merge
     * buffer, then write directly if the item's bytes fit the stored bits,
     * and rewrite the page otherwise.
     */
    method MergePage(t: Overlap) returns (r: Outcome)
      requires Valid() && InDevice(t, storage.data.Length)
      requires t.page.size == storage.eraseSize && t.page.start % storage.eraseSize == 0
      requires CheckRead(storage.data.Length, storage.readSize, t.page.start, t.page.size).Ok? &&
               FitsBits(storage.data[..], t) ==>
                 PadEnd(roundUp, t.addr, |t.data|, storage.writeSize) <= mergeBuffer.Length
      modifies storage, storage.data, mergeBuffer
      ensures Valid()
      ensures r == StepOutcome(old(storage.data[..]), t, storage.readSize, storage.writeSize, storage.eraseSize, roundUp)
      ensures storage.calls == old(storage.calls) +
                StepCalls(old(storage.data[..]), t, storage.readSize, storage.writeSize, storage.eraseSize, roundUp)
      ensures storage.data[..] ==
                StepState(old(storage.data[..]), t, storage.readSize, storage.writeSize, storage.eraseSize, roundUp)
    {
      ghost var cur := storage.data[..];
      var size := storage.eraseSize;
      PageAligned(t.page.start, size, storage.readSize);
      r := storage.Read(t.page.start, mergeBuffer, size);
      if r.Ok? {
        var offsetIntoPage := t.addr - t.page.start;
        assert mergeBuffer[offsetIntoPage..size] == cur[t.addr..t.page.End()];
        var isSubset := IsSubset(t.data, mergeBuffer[offsetIntoPage..size]);
        if isSubset {
          DirectWriteEffect(cur, t, storage.writeSize, roundUp);
          r := WriteDirect(t);
        } else {
          r := Rewrite(t);
          assert PlainPageCalls(cur, t) ==
                 [ReadCall(t.page.start, size)] +
                 [EraseCall(t.page.start, t.page.End()), WriteCall(t.page.start, MergedPage(cur, t))];
        }
      }
    }

    /**
     * `write`: the pages the request touches, in ascending order, receive
     * the request's bytes, up to the first page whose step fails; bytes
     * past the last whole page are dropped. The pages before the failing
     * one stay written.
     */
    method Write(offset: nat, bytes: seq<byte>) returns (r: Outcome)
      requires Valid()
      requires PaddingFits(storage.data[..], Touched(storage.data.Length, storage.eraseSize, bytes, offset),
                           storage.readSize, storage.writeSize, storage.eraseSize, roundUp, mergeBuffer.Length)
      modifies storage, storage.data, mergeBuffer
      ensures Valid()
      ensures var ov := Touched(storage.data.Length, storage.eraseSize, bytes, offset);
              && (forall t :: t in ov ==> InDevice(t, storage.data.Length))
              && (r.Ok? <==> Committed(old(storage.data[..]), ov, storage.readSize, storage.writeSize,
                                       storage.eraseSize, roundUp, 0) == |ov|)
      ensures var ov := Touched(storage.data.Length, storage.eraseSize, bytes, offset);
              r.Ok? ==>
                && storage.data[..] == Spliced(old(storage.data[..]), offset, bytes,
                                               Covered(storage.data.Length, storage.eraseSize))
                && (forall t :: t in ov ==> InDevice(t, storage.data.Length))
                && storage.calls == old(storage.calls) + MultiTrace(old(storage.data[..]), ov, storage.writeSize, roundUp)
      ensures var ov := Touched(storage.data.Length, storage.eraseSize, bytes, offset);
              var n := Committed(old(storage.data[..]), ov, storage.readSize, storage.writeSize,
                                 storage.eraseSize, roundUp, 0);
              r.Err? ==>
                && n < |ov|
                && (forall t :: t in ov ==> InDevice(t, storage.data.Length))
                && r == StepOutcome(old(storage.data[..]), ov[n], storage.readSize, storage.writeSize,
                                    storage.eraseSize, roundUp)
                && storage.calls == old(storage.calls) + MultiTrace(old(storage.data[..]), ov[..n], storage.writeSize, roundUp) +
                     StepCalls(old(storage.data[..]), ov[n], storage.readSize, storage.writeSize, storage.eraseSize, roundUp)
                && storage.data[..] == StepState(Spliced(old(storage.data[..]), offset, bytes, Reached(ov, offset, n)),
                                                 ov[n], storage.readSize, storage.writeSize, storage.eraseSize, roundUp)
    {
      var capacity := storage.data.Length;
      var size := storage.eraseSize;
      var ov := Touched(capacity, size, bytes, offset);
      ghost var mem := storage.data[..];
      ghost var log := storage.calls;
      ghost var n := Committed(mem, ov, storage.readSize, storage.writeSize, size, roundUp, 0);
      TouchedInDevice(capacity, size, bytes, offset);
      SplicedNothing(mem, offset, bytes);
      var k := 0;
      while k < |ov|
        invariant k <= n
        invariant Valid()
        invariant storage.data[..] == Spliced(mem, offset, bytes, Reached(ov, offset, k))
        invariant storage.calls == log + MultiTrace(mem, ov[..k], storage.writeSize, roundUp)
      {
        var t := ov[k];
        MultiStep(capacity, storage.readSize, storage.writeSize, size, roundUp, bytes, offset, mem, k);
        CommittedAt(mem, ov, storage.readSize, storage.writeSize, size, roundUp, 0, k);
        ghost var step := StepCalls(mem, t, storage.readSize, storage.writeSize, size, roundUp);
        AppendAssoc(log, MultiTrace(mem, ov[..k], storage.writeSize, roundUp), step);
        r := MergePage(t);
        if r.Err? {
          return;
        }
        StepOk(mem, t, storage.readSize, storage.writeSize, size, roundUp);
        k := k + 1;
      }
      assert ov[..k] == ov;
      TouchedEnd(capacity, size, bytes, offset, mem);
      r := Ok;
    }
  }
}
