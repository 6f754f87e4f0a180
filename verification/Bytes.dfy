/** Bytes and the small helpers shared by the buffer modules. */
module Bytes {
  newtype byte = x: int | 0 <= x < 256

  datatype Option<+T> = None | Some(value: T)

  function Min(a: nat, b: nat): nat {
    if a < b then a else b
  }

  /** What a 32-bit unsigned register keeps of a value. */
  function Wrap32(x: int): nat {
    x % 0x1_0000_0000
  }

  /** The concatenation of a sequence of chunks. */
  function Concat<T>(chunks: seq<seq<T>>): seq<T> {
    if chunks == [] then [] else chunks[0] + Concat(chunks[1..])
  }
}
