/** Failure-carrying return types: Rust's `Option` and `io::Result`. */
module Wrappers {
  datatype Option<+T> = None | Some(value: T)

  datatype Result<+T> = Ok(value: T) | Err(error: string)
}

/**
 * Machine words and the byte-level conversions the estimator relies on:
 * unsigned 64-bit integers, the little-endian reading of an 8-byte record
 * (what `u64::from_ne_bytes` does on x86-64) and Rust's integer division,
 * which truncates toward zero.
 */
module Words {
  const TWO_64: int := 0x1_0000_0000_0000_0000

  /** Rust's `u64`. */
  type u64 = x: int | 0 <= x < TWO_64

  /**
   * The little-endian word held by the eight bytes of `buf` from index `at`
   * on, the first byte being the least significant: what
   * `u64::from_ne_bytes(buf[at..at + 8])` gives on x86-64.
   */
  function LoadU64LE(buf: seq<bv8>, at: nat): (w: bv64)
    requires at + 8 <= |buf|
    ensures (w & 0xFF) as bv8 == buf[at]
    ensures (w >> 56) as bv8 == buf[at + 7]
  {
    (buf[at] as bv64)
    | ((buf[at + 1] as bv64) << 8)
    | ((buf[at + 2] as bv64) << 16)
    | ((buf[at + 3] as bv64) << 24)
    | ((buf[at + 4] as bv64) << 32)
    | ((buf[at + 5] as bv64) << 40)
    | ((buf[at + 6] as bv64) << 48)
    | ((buf[at + 7] as bv64) << 56)
  }

  /** The eight bytes of a word, least significant first (`u64::to_le_bytes`). */
  function StoreU64LE(w: bv64): (bs: seq<bv8>)
    ensures |bs| == 8
  {
    [ (w & 0xFF) as bv8, ((w >> 8) & 0xFF) as bv8,
      ((w >> 16) & 0xFF) as bv8, ((w >> 24) & 0xFF) as bv8,
      ((w >> 32) & 0xFF) as bv8, ((w >> 40) & 0xFF) as bv8,
      ((w >> 48) & 0xFF) as bv8, ((w >> 56) & 0xFF) as bv8 ]
  }

  /** Reading back the bytes of a word gives the word. */
  lemma LoadStore(w: bv64)
    ensures LoadU64LE(StoreU64LE(w), 0) == w
  {
  }

  /** Writing the word read from eight bytes gives those bytes. */
  lemma StoreLoad(bs: seq<bv8>)
    requires |bs| == 8
    ensures StoreU64LE(LoadU64LE(bs, 0)) == bs
  {
  }

  /** A word loads from a buffer the same as from the eight bytes it is made of there. */
  lemma LoadAt(buf: seq<bv8>, at: nat, bs: seq<bv8>)
    requires at + 8 <= |buf| && buf[at..at + 8] == bs
    ensures LoadU64LE(buf, at) == LoadU64LE(bs, 0)
  {
    assert forall j :: 0 <= j < 8 ==> buf[at + j] == bs[j];
  }

  /** Halving by `/ 2` on Rust's `i64`, which rounds toward zero. */
  function HalfTowardZero(a: int): (q: int)
    ensures a >= 0 ==> 0 <= a - 2 * q <= 1
    ensures a < 0 ==> -1 <= a - 2 * q <= 0
  {
    if a >= 0 then a / 2 else -((-a) / 2)
  }
}
