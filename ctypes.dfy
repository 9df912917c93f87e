/** Machine-level vocabulary shared by every module: the C integer widths the
    program relies on, its status codes, and an optional value for the places
    where the C code returns NULL. */
module CTypes {
  const U32: int := 0x1_0000_0000
  const I32_MIN: int := -0x8000_0000
  const I32_MAX: int := 0x7fff_ffff

  /** wg_uint / wg_uint32 */
  type u32 = x: int | 0 <= x < 0x1_0000_0000
  /** wg_int */
  type i32 = x: int | -0x8000_0000 <= x < 0x8000_0000
  /** wg_uchar, gray_pixel, JSAMPLE */
  type byte = x: int | 0 <= x < 256

  /** Unsigned 32-bit wrap-around of an exact integer result. */
  function Wrap32(x: int): (r: u32)
    ensures 0 <= x < U32 ==> r == x
    ensures (r - x) % U32 == 0
  {
    x % U32
  }

  /** wg_status: WG_SUCCESS = 0, WG_FAILURE = 1. */
  datatype Status = Success | Failure

  datatype Option<T> = None | Some(value: T)

  /** An ASCII decimal digit, as isdigit in the C locale and as Java's
      radix-10 parser accept it for ASCII input. */
  predicate IsDigit(c: char)
  {
    '0' <= c <= '9'
  }

  predicate AllDigits(s: string)
  {
    forall i :: 0 <= i < |s| ==> IsDigit(s[i])
  }

  /** The value of a run of decimal digits, most significant first. */
  function DigitsValue(s: string): nat
    requires AllDigits(s)
    decreases |s|
  {
    if s == [] then 0 else DigitsValue(s[..|s| - 1]) * 10 + ((s[|s| - 1] as int) - ('0' as int))
  }
}
