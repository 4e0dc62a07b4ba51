/** Value types shared by every part of the model: the C# `int`, nullable
    values, and the failures a repository call can surface to its caller. */
module Values {

  const Int32Min: int := -0x8000_0000
  const Int32Max: int := 0x7FFF_FFFF

  /** A C# `int` (32-bit, two's complement). */
  type Int32 = x: int | Int32Min <= x <= Int32Max

  /** The value an unchecked C# `int` expression yields for the
      mathematical result `x`: wrap-around modulo 2^32. */
  function Wrap32(x: int): (r: Int32)
    ensures (r - x) % 0x1_0000_0000 == 0
    ensures Int32Min <= x <= Int32Max ==> r == x
    ensures x == Int32Max + 1 ==> r == Int32Min
  {
    (x - Int32Min) % 0x1_0000_0000 + Int32Min
  }

  /** A C# nullable value: `None` is `null`. */
  datatype Option<T> = None | Some(value: T) {

    /** The C# null-coalescing operator `this ?? fallback`. */
    function Coalesce(fallback: T): (r: T)
      ensures Some? ==> r == value
      ensures None? ==> r == fallback
    {
      match this
      case Some(v) => v
      case None => fallback
    }
  }

  /** Exceptions a repository call lets escape to its caller. */
  datatype StoreError =
    | NoIdReturned         // the INSERT produced no identity value
    | ConcurrencyConflict  // an UPDATE the ORM expected to touch one row touched none
    | InvalidPaging        // the database refused a negative OFFSET or FETCH count
    | OrderOverflow        // a checked `int` addition overflowed

  datatype Result<T> = Ok(value: T) | Err(error: StoreError)
}
