/** Bytes, options, and the few functions every part of the model uses. */
module Basics {

  const UINT32_MAX: nat := 0xFFFF_FFFF

  type Byte = b: int | 0 <= b < 256

  datatype Option<+T> = None | Some(value: T)

  function Max(a: nat, b: nat): nat {
    if b > a then b else a
  }

  function Min(a: nat, b: nat): nat {
    if b < a then b else a
  }

  /** A 64-bit total stored in 32 bits. */
  function Saturated(v: nat): nat {
    if v > UINT32_MAX then UINT32_MAX else v
  }

  function Repeat<T>(x: T, n: nat): (r: seq<T>)
    ensures |r| == n && forall i :: 0 <= i < n ==> r[i] == x
  {
    if n == 0 then [] else Repeat(x, n - 1) + [x]
  }
}
