/**
 * Fixed-width unsigned integers as the C++ code declares them (`uint8_t`,
 * `uint16_t`, `uint32_t`) and the little-endian byte layouts both frame
 * formats use.
 */
module Bytes {

  newtype uint8 = x: int | 0 <= x < 0x100
  newtype uint16 = x: int | 0 <= x < 0x1_0000
  newtype uint32 = x: int | 0 <= x < 0x1_0000_0000

  /** `n` zero bytes (what `std::fill(..., 0)` leaves behind). */
  function Zeros(n: nat): (s: seq<uint8>)
    ensures |s| == n
    ensures forall i :: 0 <= i < n ==> s[i] == 0
  {
    seq(n, _ => 0)
  }

  /** The two bytes `v & 0xff, (v >> 8) & 0xff`, least significant first. */
  function Le16(v: uint16): (s: seq<uint8>)
    ensures |s| == 2
    ensures s[0] as int + 0x100 * s[1] as int == v as int
  {
    [(v % 0x100) as uint8, (v / 0x100) as uint8]
  }

  /** The value `lo | (hi << 8)` read back from two little-endian bytes. */
  function ReadLe16(lo: uint8, hi: uint8): (v: uint16)
    ensures Le16(v) == [lo, hi]
  {
    (lo as int + 0x100 * hi as int) as uint16
  }

  /** The four bytes of `v`, least significant first (the in-memory image of a `uint32_t` on a little-endian host). */
  function Le32(v: uint32): (s: seq<uint8>)
    ensures |s| == 4
    ensures s[0] as int + 0x100 * s[1] as int + 0x1_0000 * s[2] as int + 0x100_0000 * s[3] as int == v as int
  {
    Le16((v % 0x1_0000) as uint16) + Le16((v / 0x1_0000) as uint16)
  }

  /** The bytes `s` as bit vectors, for the checksum. */
  function Bits(s: seq<uint8>): (r: seq<bv8>)
    ensures |r| == |s|
  {
    seq(|s|, i requires 0 <= i < |s| => s[i] as bv8)
  }

  /** Reading back what `Le16` wrote gives the value again. */
  lemma ReadLe16OfLe16(v: uint16)
    ensures ReadLe16(Le16(v)[0], Le16(v)[1]) == v
  {
  }

  /** A sequence cut into three slices at `i <= j` and put together again. */
  lemma Split3(s: seq<uint8>, i: int, j: int)
    requires 0 <= i <= j <= |s|
    ensures s == s[..i] + s[i..j] + s[j..]
  {
  }

  /** Slicing `s` from `i` and then at `k` is slicing `s` at `i + k`. */
  lemma SliceOfSuffix(s: seq<uint8>, i: int, k: int, t: seq<uint8>)
    requires 0 <= i <= i + k <= |s|
    requires s[i..] == t
    ensures s[i..i + k] == t[..k] && s[i + k..] == t[k..]
  {
  }
}
