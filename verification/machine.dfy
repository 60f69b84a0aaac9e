/**
 The fixed-width integers, error codes and option types the C library is written in.
 Unsigned C arithmetic is written out with `Wrap64` and `Wrap32`; signed 64-bit
 reinterpretation with `AsSigned64`.
 */
module Machine {

  const TWO32: int := 0x1_0000_0000
  const TWO63: int := 0x8000_0000_0000_0000
  const TWO64: int := 0x1_0000_0000_0000_0000
  const U32_MAX: u32 := 0xFFFF_FFFF
  const U64_MAX: u64 := 0xFFFF_FFFF_FFFF_FFFF
  const I64_MAX: int := 0x7FFF_FFFF_FFFF_FFFF

  type u8 = x: int | 0 <= x < 0x100
  type u32 = x: int | 0 <= x < 0x1_0000_0000
  type u64 = x: int | 0 <= x < 0x1_0000_0000_0000_0000
  type i64 = x: int | -0x8000_0000_0000_0000 <= x < 0x8000_0000_0000_0000

  /** The members of mk_error_t that the modelled functions return. */
  datatype Error =
    | ESuccess
    | EInval
    | EInvalidData
    | ENotFound
    | EDerived
    | EOutOfRange
    | ESize
    | EOverflow
    | EUnderflow

  datatype Option<+T> = None | Some(value: T)

  datatype Result<+T> = Ok(value: T) | Err(error: Error)

  /** A C function returns an error code and writes `*result` only on success. */
  function Stored<T>(r: Result<T>, prior: T): (Error, T) {
    match r
    case Ok(v) => (ESuccess, v)
    case Err(e) => (e, prior)
  }

  /** The value an unsigned 64-bit C expression keeps of `x`. */
  function Wrap64(x: int): (r: u64)
    ensures 0 <= x < TWO64 ==> r == x
  {
    x % TWO64
  }

  /** The value an unsigned 32-bit C expression keeps of `x`. */
  function Wrap32(x: int): (r: u32)
    ensures 0 <= x < TWO32 ==> r == x
  {
    x % TWO32
  }

  /** Reinterprets a 64-bit pattern as a two's complement signed value. */
  function AsSigned64(x: u64): i64 {
    if x < TWO63 then x else x - TWO64
  }

  function Min(a: int, b: int): int {
    if a < b then a else b
  }
}
