/**
 Fixed-width integers of the C code, bytes, and zero-filled buffers, shared by
 the mirror loop, the extent scan and the range driver.
 */
module Base {

  const U8_LIMIT: int := 0x100
  const U32_LIMIT: int := 0x1_0000_0000
  const U64_LIMIT: int := 0x1_0000_0000_0000_0000
  const I32_MIN: int := -0x8000_0000
  const I32_MAX: int := 0x7fff_ffff

  type u8 = x: int | 0 <= x < U8_LIMIT
  type u32 = x: int | 0 <= x < U32_LIMIT
  type u64 = x: int | 0 <= x < U64_LIMIT
  /** C `int`: mirror numbers, copy selectors and mirror counts. */
  type i32 = x: int | I32_MIN <= x <= I32_MAX
  type byte = u8

  /** `(u8)-1` and `(u64)-1`. */
  const U8_MAX: u8 := 0xff
  const U64_MAX: u64 := 0xffff_ffff_ffff_ffff

  datatype Option<+T> = None | Some(value: T)

  /** Unsigned 64-bit addition, wrapping around as C's `u64` does. */
  function AddU64(a: u64, b: u64): (r: u64)
    ensures a + b < U64_LIMIT ==> r == a + b
    ensures a + b >= U64_LIMIT ==> r == a + b - U64_LIMIT
    ensures r == (a + b) % U64_LIMIT
  {
    if a + b < U64_LIMIT then a + b else a + b - U64_LIMIT
  }

  /** `n` zero bytes: what `memset(p, 0, n)` leaves behind. */
  function Zeros(n: nat): (z: seq<byte>)
    ensures |z| == n
    ensures AllZero(z)
  {
    seq(n, _ => 0)
  }

  predicate AllZero(s: seq<byte>)
  {
    forall i :: 0 <= i < |s| ==> s[i] == 0
  }

  /** Zeros(n) is the only all-zero buffer of length n. */
  lemma ZerosUnique(s: seq<byte>)
    requires AllZero(s)
    ensures s == Zeros(|s|)
  {
  }
}
