/** Bytes, byte strings and the C library comparison the keys of trees and hashes rest on. */
module Bytes {

  /** An unsigned char. */
  type byte = x: int | 0 <= x < 256

  type Bytes = seq<byte>

  /** A string without an embedded NUL, as every tree and hash key is. */
  type Key = s: seq<byte> | NulFree(s)

  ghost predicate NulFree(s: seq<byte>) {
    forall i :: 0 <= i < |s| ==> s[i] != 0
  }

  function Max(a: int, b: int): int {
    if a >= b then a else b
  }

  function Min(a: int, b: int): int {
    if a <= b then a else b
  }

  /** The value a 32-bit signed integer keeps of a number below 2^32. */
  function ToInt32(n: nat): int
    requires n < 0x1_0000_0000
  {
    if n < 0x8000_0000 then n else n - 0x1_0000_0000
  }
}
