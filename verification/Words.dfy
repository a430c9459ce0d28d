/** The machine integer ranges of the program, and the failure-compatible result types. */
module Words {
  const TWO_24: nat := 0x100_0000
  const TWO_32: nat := 0x1_0000_0000
  const TWO_64: nat := 0x1_0000_0000_0000_0000
  const TWO_96: nat := 0x1_0000_0000_0000_0000_0000_0000
  const TWO_127: int := 0x8000_0000_0000_0000_0000_0000_0000_0000
  const TWO_128: nat := 0x1_0000_0000_0000_0000_0000_0000_0000_0000
  const TWO_256: nat := 0x1_0000_0000_0000_0000_0000_0000_0000_0000_0000_0000_0000_0000_0000_0000_0000_0000

  type u8 = x: nat | x < 0x100
  type u32 = x: nat | x < TWO_32
  type u64 = x: nat | x < TWO_64
  type u128 = x: nat | x < TWO_128
  type u256 = x: nat | x < TWO_256
  type i32 = x: int | -0x8000_0000 <= x < 0x8000_0000
  type i128 = x: int | -TWO_127 <= x < TWO_127

  datatype Option<+T> = None | Some(value: T)

  datatype Result<+T, +E> = Success(value: T) | Failure(error: E) {
    predicate IsFailure() {
      Failure?
    }

    function PropagateFailure<U>(): Result<U, E>
      requires Failure?
    {
      Failure(error)
    }

    function Extract(): T
      requires Success?
    {
      value
    }
  }
}
