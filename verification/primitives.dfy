/** Machine integers and the optional value shared by every other module.
    Rust's `u8` and `usize` are modelled as bounded subset types of `int`;
    checked arithmetic (`checked_add`, `checked_sub`) yields an `Option`. */
module Primitives {

  /** Rust's `Option`; usable with `:-`, which mirrors Rust's `?`. */
  datatype Option<+T> = None | Some(value: T) {
    predicate IsFailure() {
      None?
    }

    function PropagateFailure<U>(): Option<U>
      requires None?
    {
      None
    }

    function Extract(): T
      requires Some?
    {
      value
    }
  }

  const U8_LIMIT: int := 0x100
  const USIZE_LIMIT: int := 0x1_0000_0000_0000_0000

  /** Rust `u8`. */
  type u8 = x: int | 0 <= x < 0x100

  /** Rust `usize` on a 64-bit target. */
  type usize = x: int | 0 <= x < 0x1_0000_0000_0000_0000

  /** `usize::checked_add`: `None` exactly on overflow. */
  function CheckedAdd(a: usize, b: usize): (r: Option<usize>)
    ensures r.Some? <==> a + b < USIZE_LIMIT
    ensures r.Some? ==> r.value == a + b
  {
    if a + b < USIZE_LIMIT then Some(a + b) else None
  }

  /** `usize::checked_sub`: `None` exactly on underflow. */
  function CheckedSub(a: usize, b: usize): (r: Option<usize>)
    ensures r.Some? <==> b <= a
    ensures r.Some? ==> r.value == a - b
  {
    if b <= a then Some(a - b) else None
  }

  /** `usize::abs_diff`. */
  function AbsDiff(a: int, b: int): nat
  {
    if a <= b then b - a else a - b
  }
}
