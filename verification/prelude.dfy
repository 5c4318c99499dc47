/** Shared vocabulary: an Option type that works with `:-`, and Rust's unsigned
    integer widths as subsets of `nat`. */
module Prelude {

  /** A value that may be absent; parsers return `None` on malformed text. */
  datatype Option<+T> = None | Some(value: T) {

    predicate IsFailure() {
      None?
    }

    function PropagateFailure<U>(): Option<U>
      requires None?
    {
      None
    }

    function Extract(): T
      requires Some?
    {
      value
    }
  }

  /** Rust's `u8`. */
  type u8 = n: nat | n < 0x100

  /** Rust's `u32`: the timestamp type of the clock. */
  type u32 = n: nat | n < 0x1_0000_0000

  /** Rust's `u64`: what `Duration::as_secs` returns. */
  type u64 = n: nat | n < 0x1_0000_0000_0000_0000
}
