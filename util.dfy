/** Small shared vocabulary: an optional value for the source's error returns
    and throws, and C++ 32-bit signed wrap-around. */
module Util {

  /** A value that may be missing; `None` stands for the source's exception
      or "not found" outcome. */
  datatype Option<T> = None | Some(value: T)

  const TwoTo31: int := 0x8000_0000
  const TwoTo32: int := 0x1_0000_0000

  /** The value a C++ `int` holds after an arithmetic result `v` is stored in
      it (two's complement wrap-around). */
  function Wrap32(v: int): (r: int)
    ensures -TwoTo31 <= r < TwoTo31
    ensures (r - v) % TwoTo32 == 0
    ensures -TwoTo31 <= v < TwoTo31 ==> r == v
  {
    (v + TwoTo31) % TwoTo32 - TwoTo31
  }
}
