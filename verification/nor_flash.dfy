/**
 * Error kinds of the NOR flash device contract and the validators a device
 * runs before it touches its storage (src/nor_flash.rs).
 *
 * Offsets and lengths are `nat`: the `u32`/`usize` casts of the source never
 * lose information for a device whose capacity is below 2^32, which the
 * device model requires.
 */
module NorFlash {

  /** A flash byte. `&` on it is the AND that programming a NOR cell performs. */
  type byte = bv8

  /** The content of erased storage: an erase sets every bit to 1. */
  const ERASE_BYTE: byte := 0xFF

  /** The generic error kinds every device error maps onto. */
  datatype NorFlashErrorKind = NotAligned | OutOfBounds | DirtyWrite | Other

  /** `Result<(), Error>` of a device call. */
  datatype Outcome = Ok | Err(kind: NorFlashErrorKind)

  /**
   * Bounds first, then alignment. The bounds test is written without the
   * sum `offset + length` (which could overflow in the source), yet it
   * rejects exactly the requests that end past the capacity.
   */
  function CheckSlice(capacity: nat, align: nat, offset: nat, length: nat): (r: Outcome)
    requires align > 0
    ensures r == Err(OutOfBounds) <==> offset + length > capacity
    ensures r == Err(NotAligned) <==>
              offset + length <= capacity && (offset % align != 0 || length % align != 0)
    ensures r == Ok <==>
              offset + length <= capacity && offset % align == 0 && length % align == 0
  {
    if length > capacity || offset > capacity - length then Err(OutOfBounds)
    else if offset % align != 0 || length % align != 0 then Err(NotAligned)
    else Ok
  }

  /** Validation of a read of `length` bytes at `offset`, against `READ_SIZE`. */
  function CheckRead(capacity: nat, readSize: nat, offset: nat, length: nat): (r: Outcome)
    requires readSize > 0
    ensures r.Ok? <==>
              offset + length <= capacity && offset % readSize == 0 && length % readSize == 0
    ensures r.Err? ==> (r.kind == OutOfBounds <==> offset + length > capacity)
    ensures r.Err? ==> r.kind == OutOfBounds || r.kind == NotAligned
  {
    CheckSlice(capacity, readSize, offset, length)
  }

  /** Validation of a write of `length` bytes at `offset`, against `WRITE_SIZE`. */
  function CheckWrite(capacity: nat, writeSize: nat, offset: nat, length: nat): (r: Outcome)
    requires writeSize > 0
    ensures r.Ok? <==>
              offset + length <= capacity && offset % writeSize == 0 && length % writeSize == 0
    ensures r.Err? ==> (r.kind == OutOfBounds <==> offset + length > capacity)
    ensures r.Err? ==> r.kind == OutOfBounds || r.kind == NotAligned
  {
    CheckSlice(capacity, writeSize, offset, length)
  }

  /**
   * Validation of an erase of `[from, to)`: an empty-or-reversed or too long
   * range is out of bounds, otherwise both ends must lie on erase pages.
   */
  function CheckErase(capacity: nat, eraseSize: nat, from: nat, to: nat): (r: Outcome)
    requires eraseSize > 0
    ensures r == Err(OutOfBounds) <==> from > to || to > capacity
    ensures r == Err(NotAligned) <==>
              from <= to <= capacity && (from % eraseSize != 0 || to % eraseSize != 0)
    ensures r.Ok? ==> from <= to <= capacity && from % eraseSize == 0 && to % eraseSize == 0
  {
    if from > to || to > capacity then Err(OutOfBounds)
    else if from % eraseSize != 0 || to % eraseSize != 0 then Err(NotAligned)
    else Ok
  }
}
