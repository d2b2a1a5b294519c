/**
 * NOR flash devices: the cell semantics (erase sets all bits, programming
 * can only clear bits), the RAM-backed `MockFlash` of src/nor_flash.rs, and
 * `MultiwriteFlash`, a device that keeps exactly the `MultiwriteNorFlash`
 * contract.
 *
 * Each device keeps a ghost log of the calls it receives, so that what an
 * adapter asks of the hardware can be stated call by call.
 */
module Device {
  import opened NorFlash

  /** A call a device receives, as its log records it. */
  datatype Call =
    | ReadCall(offset: nat, len: nat)
    | EraseCall(from: nat, to: nat)
    | WriteCall(offset: nat, bytes: seq<byte>)

  /** `mem` with every cell of `[from, to)` erased. */
  function Erased(mem: seq<byte>, from: nat, to: nat): seq<byte>
  {
    seq(|mem|, a requires 0 <= a < |mem| => if from <= a < to then ERASE_BYTE else mem[a])
  }

  /** `mem` after `src` is programmed at `offset`: each cell keeps the bits set in both. */
  function Programmed(mem: seq<byte>, offset: nat, src: seq<byte>): seq<byte>
  {
    seq(|mem|, a requires 0 <= a < |mem| =>
      if offset <= a < offset + |src| then mem[a] & src[a - offset] else mem[a])
  }

  /** `mem` with `src` copied over the cells from `offset` on. */
  function Overwritten(mem: seq<byte>, offset: nat, src: seq<byte>): seq<byte>
  {
    seq(|mem|, a requires 0 <= a < |mem| =>
      if offset <= a < offset + |src| then src[a - offset] else mem[a])
  }

  /** Whether every cell of `[offset, offset + len)` is erased. */
  ghost predicate Blank(mem: seq<byte>, offset: nat, len: nat)
  {
    forall a :: offset <= a < offset + len && a < |mem| ==> mem[a] == ERASE_BYTE
  }

  /**
   * Whether `MockFlash` accepts programming `src` over a cell holding
   * `cell`: without multiwrite the cell must be erased, and in any mode the
   * AND must come out as `src`.
   */
  predicate Accepts(multiWrite: bool, cell: byte, src: byte)
  {
    (multiWrite || cell == ERASE_BYTE) && cell & src == src
  }

  /** The number of leading cells of `cells` that accept the matching byte of `src`. */
  function AcceptedPrefix(multiWrite: bool, cells: seq<byte>, src: seq<byte>): (n: nat)
    requires |cells| == |src|
    ensures n <= |src|
  {
    if src == [] || !Accepts(multiWrite, cells[0], src[0]) then 0
    else 1 + AcceptedPrefix(multiWrite, cells[1..], src[1..])
  }

  /** `AcceptedPrefix` is the length of the longest prefix whose every cell accepts its byte. */
  lemma {:induction false} AcceptedPrefixMeaning(multiWrite: bool, cells: seq<byte>, src: seq<byte>)
    requires |cells| == |src|
    ensures var n := AcceptedPrefix(multiWrite, cells, src);
            && (forall j :: 0 <= j < n ==> Accepts(multiWrite, cells[j], src[j]))
            && (n < |src| ==> !Accepts(multiWrite, cells[n], src[n]))
    decreases |src|
  {
    if src != [] && Accepts(multiWrite, cells[0], src[0]) {
      AcceptedPrefixMeaning(multiWrite, cells[1..], src[1..]);
      var n := AcceptedPrefix(multiWrite, cells, src);
      forall j | 0 <= j < n
        ensures Accepts(multiWrite, cells[j], src[j])
      {
        if j > 0 {
          assert cells[1..][j - 1] == cells[j] && src[1..][j - 1] == src[j];
        }
      }
      if n < |src| {
        assert cells[1..][n - 1] == cells[n] && src[1..][n - 1] == src[n];
      }
    }
  }

  /** Programming never sets a bit: every cell afterwards is a bitwise subset of what it was. */
  lemma ProgrammingOnlyClears(mem: seq<byte>, offset: nat, src: seq<byte>, a: nat)
    requires a < |mem|
    ensures |Programmed(mem, offset, src)| == |mem|
    ensures Programmed(mem, offset, src)[a] & mem[a] == Programmed(mem, offset, src)[a]
  {
  }

  /**
   * Programming `src` over cells gives exactly `src` there iff `src` only
   * clears bits that the cells still have set.
   */
  lemma ProgramIsOverwriteIff(mem: seq<byte>, offset: nat, src: seq<byte>)
    requires offset + |src| <= |mem|
    ensures Programmed(mem, offset, src) == Overwritten(mem, offset, src) <==>
              forall i :: 0 <= i < |src| ==> src[i] & mem[offset + i] == src[i]
  {
    if Programmed(mem, offset, src) == Overwritten(mem, offset, src) {
      forall i | 0 <= i < |src|
        ensures src[i] & mem[offset + i] == src[i]
      {
        assert Programmed(mem, offset, src)[offset + i] == Overwritten(mem, offset, src)[offset + i];
      }
    }
  }

  /** Programming one more source byte changes one more cell. */
  lemma ProgramStep(mem: seq<byte>, offset: nat, src: seq<byte>, i: nat)
    requires i < |src| && offset + |src| <= |mem|
    ensures Programmed(mem, offset, src[..i])[offset + i := mem[offset + i] & src[i]]
            == Programmed(mem, offset, src[..i + 1])
  {
  }

  /** Programming erased cells stores the source bytes unchanged. */
  lemma ProgramErased(mem: seq<byte>, offset: nat, src: seq<byte>)
    requires offset + |src| <= |mem|
    requires Blank(mem, offset, |src|)
    ensures Programmed(mem, offset, src) == Overwritten(mem, offset, src)
  {
    ProgramIsOverwriteIff(mem, offset, src);
    forall i | 0 <= i < |src|
      ensures src[i] & mem[offset + i] == src[i]
    {
      assert mem[offset + i] == ERASE_BYTE;
    }
  }

  /** Erasing cells that are already erased changes nothing, so erasing twice is erasing once. */
  lemma EraseIdempotent(mem: seq<byte>, from: nat, to: nat)
    ensures Erased(Erased(mem, from, to), from, to) == Erased(mem, from, to)
    ensures from <= to && Blank(mem, from, to - from) ==> Erased(mem, from, to) == mem
  {
  }

  /** Where the scan of `AcceptedPrefix` stops. */
  lemma {:induction false} AcceptedPrefixAt(multiWrite: bool, cells: seq<byte>, src: seq<byte>, i: nat)
    requires |cells| == |src| && i < |src| && i <= AcceptedPrefix(multiWrite, cells, src)
    ensures Accepts(multiWrite, cells[i], src[i]) ==> i < AcceptedPrefix(multiWrite, cells, src)
    ensures !Accepts(multiWrite, cells[i], src[i]) ==> i == AcceptedPrefix(multiWrite, cells, src)
    decreases i
  {
    if i > 0 {
      AcceptedPrefixAt(multiWrite, cells[1..], src[1..], i - 1);
      assert cells[1..][i - 1] == cells[i] && src[1..][i - 1] == src[i];
    }
  }

  /**
   * How many cells a `MockFlash` write programs: all of them when every cell
   * accepts its byte; otherwise those before the first refusing cell, plus
   * that cell itself when it was refused only because its AND differs from
   * the source byte (the AND is stored before the comparison).
   */
  function CellsProgrammed(multiWrite: bool, cells: seq<byte>, src: seq<byte>): (k: nat)
    requires |cells| == |src|
    ensures k <= |src|
  {
    var n := AcceptedPrefix(multiWrite, cells, src);
    if n < |src| && (multiWrite || cells[n] == ERASE_BYTE) then n + 1 else n
  }

  /**
   * The outcome and the new storage of `MockFlash::write` on storage `mem`:
   * `check_write` first, then `bytes` programmed cell by cell, in order,
   * stopping with `DirtyWrite` at the first cell that refuses its byte.
   */
  function MockWrite(multiWrite: bool, writeSize: nat, mem: seq<byte>, offset: nat, bytes: seq<byte>)
    : (Outcome, seq<byte>)
    requires writeSize > 0
  {
    var check := CheckWrite(|mem|, writeSize, offset, |bytes|);
    if check.Err? then (check, mem)
    else
      var cells := mem[offset..offset + |bytes|];
      (if AcceptedPrefix(multiWrite, cells, bytes) == |bytes| then Ok else Err(DirtyWrite),
       Programmed(mem, offset, bytes[..CellsProgrammed(multiWrite, cells, bytes)]))
  }

  /**
   * The cell-by-cell loop of `MockFlash::write`, run from cell `i` on over
   * storage `mem`: a device without multiwrite refuses a cell that is not
   * erased; otherwise the cell takes the AND, and the write stops if that
   * differs from the source byte.
   */
  function ProgramFrom(multiWrite: bool, mem: seq<byte>, offset: nat, bytes: seq<byte>, i: nat)
    : (Outcome, seq<byte>)
    requires offset + |bytes| <= |mem| && i <= |bytes|
    decreases |bytes| - i
  {
    if i == |bytes| then (Ok, mem)
    else
      var cell := mem[offset + i];
      if !multiWrite && cell != ERASE_BYTE then (Err(DirtyWrite), mem)
      else
        var next := mem[offset + i := cell & bytes[i]];
        if bytes[i] != cell & bytes[i] then (Err(DirtyWrite), next)
        else ProgramFrom(multiWrite, next, offset, bytes, i + 1)
  }

  /** One step of `ProgramFrom`, by whether the cell accepts its byte. */
  lemma ProgramFromStep(multiWrite: bool, mem: seq<byte>, offset: nat, bytes: seq<byte>, i: nat)
    requires offset + |bytes| <= |mem| && i < |bytes|
    ensures var cell := mem[offset + i];
            var next := mem[offset + i := cell & bytes[i]];
            ProgramFrom(multiWrite, mem, offset, bytes, i) ==
              if Accepts(multiWrite, cell, bytes[i]) then ProgramFrom(multiWrite, next, offset, bytes, i + 1)
              else if multiWrite || cell == ERASE_BYTE then (Err(DirtyWrite), next)
              else (Err(DirtyWrite), mem)
  {
  }

  /** The cells the loop has programmed so far, and the one it programs next. */
  lemma ProgrammedSoFar(mem0: seq<byte>, offset: nat, bytes: seq<byte>, mem: seq<byte>, i: nat)
    requires offset + |bytes| <= |mem0| && i < |bytes|
    requires mem == Programmed(mem0, offset, bytes[..i])
    ensures mem[offset + i] == mem0[offset..offset + |bytes|][i]
    ensures mem[offset + i := mem[offset + i] & bytes[i]] == Programmed(mem0, offset, bytes[..i + 1])
  {
    ProgramStep(mem0, offset, bytes, i);
  }

  /**
   * The loop agrees with the declarative description: it succeeds iff every
   * cell accepts its byte, and it programs exactly `CellsProgrammed` cells.
   */
  lemma {:induction false} ProgramFromAgrees(multiWrite: bool, mem0: seq<byte>, offset: nat, bytes: seq<byte>,
                                             mem: seq<byte>, i: nat)
    requires offset + |bytes| <= |mem0| && i <= |bytes|
    requires i <= AcceptedPrefix(multiWrite, mem0[offset..offset + |bytes|], bytes)
    requires mem == Programmed(mem0, offset, bytes[..i])
    ensures var cells := mem0[offset..offset + |bytes|];
            ProgramFrom(multiWrite, mem, offset, bytes, i) ==
              (if AcceptedPrefix(multiWrite, cells, bytes) == |bytes| then Ok else Err(DirtyWrite),
               Programmed(mem0, offset, bytes[..CellsProgrammed(multiWrite, cells, bytes)]))
    decreases |bytes| - i
  {
    var cells := mem0[offset..offset + |bytes|];
    if i == |bytes| {
      assert bytes[..i] == bytes;
    } else {
      ProgrammedSoFar(mem0, offset, bytes, mem, i);
      AcceptedPrefixAt(multiWrite, cells, bytes, i);
      ProgramFromStep(multiWrite, mem, offset, bytes, i);
      if Accepts(multiWrite, cells[i], bytes[i]) {
        ProgramFromAgrees(multiWrite, mem0, offset, bytes, mem[offset + i := mem[offset + i] & bytes[i]], i + 1);
      }
    }
  }

  /** Erased cells accept any byte, in either mode. */
  lemma {:induction false} AcceptedOnBlank(multiWrite: bool, mem: seq<byte>, offset: nat, src: seq<byte>)
    requires offset + |src| <= |mem| && Blank(mem, offset, |src|)
    ensures AcceptedPrefix(multiWrite, mem[offset..offset + |src|], src) == |src|
  {
    var cells := mem[offset..offset + |src|];
    AcceptedPrefixMeaning(multiWrite, cells, src);
  }

  /** The device of src/nor_flash.rs:491-618 (`MockFlash`), with its size parameters as fields. */
  class MockFlash {
    /** `READ_SIZE`, `WRITE_SIZE`, `ERASE_SIZE`: the granularities of the three operations. */
    const readSize: nat
    const writeSize: nat
    const eraseSize: nat
    /** `MULTI_WRITE`: whether a cell may be programmed again before it is erased. */
    const multiWrite: bool
    /** The storage, `[u8; CAPACITY]`. */
    const data: array<byte>
    /** Every call the device has received, oldest first. */
    ghost var calls: seq<Call>

    ghost predicate Valid()
    {
      readSize > 0 && writeSize > 0 && eraseSize > 0 && data.Length < 0x1_0000_0000
    }

    /** `MockFlash::default`: a fully erased device. */
    constructor Default(capacity: nat, readSize: nat, writeSize: nat, eraseSize: nat, multiWrite: bool)
      requires readSize > 0 && writeSize > 0 && eraseSize > 0 && capacity < 0x1_0000_0000
      ensures Valid() && fresh(data)
      ensures this.readSize == readSize && this.writeSize == writeSize
      ensures this.eraseSize == eraseSize && this.multiWrite == multiWrite
      ensures data.Length == capacity && Blank(data[..], 0, capacity)
      ensures calls == []
    {
      this.readSize := readSize;
      this.writeSize := writeSize;
      this.eraseSize := eraseSize;
      this.multiWrite := multiWrite;
      data := new byte[capacity](_ => ERASE_BYTE);
      calls := [];
    }

    /** `capacity()`: the size of the storage in bytes. */
    function Capacity(): (c: nat)
      ensures c == data.Length
    {
      data.Length
    }

    /** `read`: copy `data[offset .. offset + len)` into `bytes[..len]` once `check_read` passes. */
    method Read(offset: nat, bytes: array<byte>, len: nat) returns (r: Outcome)
      requires Valid() && len <= bytes.Length && bytes != data
      modifies this, bytes
      ensures calls == old(calls) + [ReadCall(offset, len)]
      ensures r == CheckRead(data.Length, readSize, offset, len)
      ensures r.Ok? ==> bytes[..len] == data[offset..offset + len]
      ensures r.Ok? ==> bytes[len..] == old(bytes[len..])
      ensures r.Err? ==> bytes[..] == old(bytes[..])
    {
      calls := calls + [ReadCall(offset, len)];
      r := CheckRead(data.Length, readSize, offset, len);
      if r.Err? {
        return;
      }
      forall i | 0 <= i < len {
        bytes[i] := data[offset + i];
      }
    }

    /** `erase`: set every cell of `[from, to)` to `ERASE_BYTE` once `check_erase` passes. */
    method Erase(from: nat, to: nat) returns (r: Outcome)
      requires Valid()
      modifies this, data
      ensures calls == old(calls) + [EraseCall(from, to)]
      ensures r == CheckErase(data.Length, eraseSize, from, to)
      ensures data[..] == if r.Ok? then Erased(old(data[..]), from, to) else old(data[..])
    {
      calls := calls + [EraseCall(from, to)];
      r := CheckErase(data.Length, eraseSize, from, to);
      if r.Err? {
        return;
      }
      forall a | from <= a < to {
        data[a] := ERASE_BYTE;
      }
    }

    /** `write`: the outcome and the new storage are those `MockWrite` gives. */
    method Write(offset: nat, bytes: seq<byte>) returns (r: Outcome)
      requires Valid()
      modifies this, data
      ensures calls == old(calls) + [WriteCall(offset, bytes)]
      ensures (r, data[..]) == MockWrite(multiWrite, writeSize, old(data[..]), offset, bytes)
    {
      calls := calls + [WriteCall(offset, bytes)];
      r := CheckWrite(data.Length, writeSize, offset, |bytes|);
      if r.Err? {
        return;
      }
      r := Program(offset, bytes);
      ProgramFromAgrees(multiWrite, old(data[..]), offset, bytes, old(data[..]), 0);
    }

    /** The programming loop of `write`, after the arguments passed `check_write`. */
    method Program(offset: nat, bytes: seq<byte>) returns (r: Outcome)
      requires offset + |bytes| <= data.Length
      modifies data
      ensures (r, data[..]) == ProgramFrom(multiWrite, old(data[..]), offset, bytes, 0)
    {
      var i := 0;
      while i < |bytes|
        invariant 0 <= i <= |bytes|
        invariant ProgramFrom(multiWrite, data[..], offset, bytes, i) ==
                  ProgramFrom(multiWrite, old(data[..]), offset, bytes, 0)
      {
        var cell := data[offset + i];
        if !multiWrite && cell != ERASE_BYTE {
          return Err(DirtyWrite);
        }
        data[offset + i] := cell & bytes[i];
        if bytes[i] != data[offset + i] {
          return Err(DirtyWrite);
        }
        i := i + 1;
      }
      r := Ok;
    }
  }

  /**
   * A device that keeps exactly the contract of `MultiwriteNorFlash`
   * (src/nor_flash.rs:186-201) and validates its arguments with the check
   * helpers: a write is the AND of the old and the written data, however
   * often a cell is written.
   */
  class MultiwriteFlash {
    const readSize: nat
    const writeSize: nat
    const eraseSize: nat
    const data: array<byte>
    /** Every call the device has received, oldest first. */
    ghost var calls: seq<Call>

    ghost predicate Valid()
    {
      readSize > 0 && writeSize > 0 && eraseSize > 0 && data.Length < 0x1_0000_0000
    }

    /** A fully erased device. */
    constructor (capacity: nat, readSize: nat, writeSize: nat, eraseSize: nat)
      requires readSize > 0 && writeSize > 0 && eraseSize > 0 && capacity < 0x1_0000_0000
      ensures Valid() && fresh(data)
      ensures this.readSize == readSize && this.writeSize == writeSize && this.eraseSize == eraseSize
      ensures data.Length == capacity && Blank(data[..], 0, capacity)
      ensures calls == []
    {
      this.readSize := readSize;
      this.writeSize := writeSize;
      this.eraseSize := eraseSize;
      data := new byte[capacity](_ => ERASE_BYTE);
      calls := [];
    }

    function Capacity(): (c: nat)
      ensures c == data.Length
    {
      data.Length
    }

    method Read(offset: nat, bytes: array<byte>, len: nat) returns (r: Outcome)
      requires Valid() && len <= bytes.Length && bytes != data
      modifies this, bytes
      ensures calls == old(calls) + [ReadCall(offset, len)]
      ensures r == CheckRead(data.Length, readSize, offset, len)
      ensures r.Ok? ==> bytes[..len] == data[offset..offset + len]
      ensures r.Ok? ==> bytes[len..] == old(bytes[len..])
      ensures r.Err? ==> bytes[..] == old(bytes[..])
    {
      calls := calls + [ReadCall(offset, len)];
      r := CheckRead(data.Length, readSize, offset, len);
      if r.Err? {
        return;
      }
      forall i | 0 <= i < len {
        bytes[i] := data[offset + i];
      }
    }

    method Erase(from: nat, to: nat) returns (r: Outcome)
      requires Valid()
      modifies this, data
      ensures calls == old(calls) + [EraseCall(from, to)]
      ensures r == CheckErase(data.Length, eraseSize, from, to)
      ensures data[..] == if r.Ok? then Erased(old(data[..]), from, to) else old(data[..])
    {
      calls := calls + [EraseCall(from, to)];
      r := CheckErase(data.Length, eraseSize, from, to);
      if r.Err? {
        return;
      }
      forall a | from <= a < to {
        data[a] := ERASE_BYTE;
      }
    }

    /** A write never fails once `check_write` passes; each cell keeps the AND. */
    method Write(offset: nat, bytes: seq<byte>) returns (r: Outcome)
      requires Valid()
      modifies this, data
      ensures calls == old(calls) + [WriteCall(offset, bytes)]
      ensures r == CheckWrite(data.Length, writeSize, offset, |bytes|)
      ensures data[..] == if r.Ok? then Programmed(old(data[..]), offset, bytes) else old(data[..])
    {
      calls := calls + [WriteCall(offset, bytes)];
      r := CheckWrite(data.Length, writeSize, offset, |bytes|);
      if r.Err? {
        return;
      }
      forall a | offset <= a < offset + |bytes| {
        data[a] := data[a] & bytes[a - offset];
      }
      assert data[..] == Programmed(old(data[..]), offset, bytes);
    }
  }
}
