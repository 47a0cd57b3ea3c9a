/**
 * The CRC-32 of section 8 of RFC 1952 (gzip): reflected polynomial
 * 0xEDB88320, register preset to all ones and inverted at the end.
 * This is what zlib's `crc32(crc32(0, Z_NULL, 0), buf, len)` returns.
 *
 * `Crc` follows the sample code of that section: a 256-entry table
 * computed by eight register shifts per entry, then one table lookup per
 * input byte. `UpdateCrcConcat` shows that the checksum can be continued
 * over a split input; module `Crc32Check` pins the result on the standard
 * test string.
 */
module Crc32 {
  import opened Bytes

  /** The reflected generator polynomial. */
  const Polynomial: bv32 := 0xEDB8_8320

  /** The number of register shifts per input byte. */
  const BitsPerByte: nat := 8

  /** One shift of the register: the body of the inner loop of `make_crc_table`. */
  function Shift(c: bv32): bv32 {
    if c & 1 == 1 then Polynomial ^ (c >> 1) else c >> 1
  }

  /** `k` shifts of the register (the inner loop of `make_crc_table` runs eight times). */
  function Shifts(c: bv32, k: nat): bv32
    decreases k
  {
    if k == 0 then c else Shifts(Shift(c), k - 1)
  }

  /** `crc_table[n]`: eight shifts of the byte value `n`. */
  function TableEntry(n: bv32): bv32
    requires n < 0x100
  {
    Shifts(n, BitsPerByte)
  }

  /** A byte widened to the register's width. */
  function Widen(b: bv8): bv32 {
    b as bv32
  }

  /** One iteration of the loop of `update_crc`. */
  function Step(c: bv32, b: bv8): bv32 {
    TableEntry((c ^ Widen(b)) & 0xFF) ^ (c >> 8)
  }

  /** The loop of `update_crc` on the already inverted register `c`. */
  function Run(c: bv32, s: seq<bv8>): bv32
    decreases |s|
  {
    if s == [] then c else Run(Step(c, s[0]), s[1..])
  }

  /** The register inversion `c ^ 0xffffffffL` applied on entry and exit of `update_crc`. */
  function Invert(c: bv32): bv32 {
    c ^ 0xFFFF_FFFF
  }

  /** `update_crc(crc, buf, len)`: continues the checksum `crc` over `s`. */
  function UpdateCrc(crc: bv32, s: seq<bv8>): bv32 {
    Invert(Run(Invert(crc), s))
  }

  /** `crc(buf, len)`: the CRC-32 of `s`. */
  function Crc(s: seq<bv8>): bv32 {
    UpdateCrc(0, s)
  }

  /** The CRC of the bytes `s`, as the `uint32_t` value the C++ code holds. */
  function CrcValue(s: seq<uint8>): (v: uint32)
    ensures v as bv32 == Crc(Bits(s))
  {
    Crc(Bits(s)) as int as uint32
  }

  lemma {:induction false} RunConcat(c: bv32, a: seq<bv8>, b: seq<bv8>)
    ensures Run(Run(c, a), b) == Run(c, a + b)
    decreases |a|
  {
    if a == [] {
      assert a + b == b;
    } else {
      assert (a + b)[1..] == a[1..] + b;
      RunConcat(Step(c, a[0]), a[1..], b);
    }
  }

  /** One unrolling of the loop of `update_crc`. */
  lemma RunCons(c: bv32, s: seq<bv8>)
    requires s != []
    ensures Run(c, s) == Run(Step(c, s[0]), s[1..])
  {
  }

  /** Inverting twice restores the register. */
  lemma InvertTwice(c: bv32)
    ensures Invert(Invert(c)) == c
  {
  }

  /** Checksumming `a` and then continuing over `b` is checksumming `a + b`. */
  lemma UpdateCrcConcat(crc: bv32, a: seq<bv8>, b: seq<bv8>)
    ensures UpdateCrc(UpdateCrc(crc, a), b) == UpdateCrc(crc, a + b)
  {
    InvertTwice(Run(Invert(crc), a));
    RunConcat(Invert(crc), a, b);
  }

}

/** The standard check value of the CRC-32 of RFC 1952. */
module Crc32Check {
  import opened Crc32

  /** The ASCII digits "123456789". */
  const CheckInput: seq<bv8> := [0x31, 0x32, 0x33, 0x34, 0x35, 0x36, 0x37, 0x38, 0x39]

  lemma CheckSteps1()
    ensures Step(0xFFFF_FFFF, 0x31) == 0x7C23_1048
    ensures Step(0x7C23_1048, 0x32) == 0xB0AC_BB32
    ensures Step(0xB0AC_BB32, 0x33) == 0x77B7_9C2D
  {
  }

  lemma CheckSteps2()
    ensures Step(0x77B7_9C2D, 0x34) == 0x641C_1F5C
    ensures Step(0x641C_1F5C, 0x35) == 0x340A_C5E3
    ensures Step(0x340A_C5E3, 0x36) == 0xF68D_2C9E
  {
  }

  lemma CheckSteps3()
    ensures Step(0xF68D_2C9E, 0x37) == 0xAFFC_9660
    ensures Step(0xAFFC_9660, 0x38) == 0x651F_2550
    ensures Step(0x651F_2550, 0x39) == 0x340B_C6D9
  {
  }

  /** The standard check value of this CRC: the checksum of the ASCII digits "123456789". */
  lemma CheckValue()
    ensures Crc(CheckInput) == 0xCBF4_3926
  {
    CheckSteps1();
    CheckSteps2();
    CheckSteps3();
    RunCons(0xFFFF_FFFF, CheckInput[0..]);
    assert CheckInput[0..][1..] == CheckInput[1..];
    RunCons(0x7C23_1048, CheckInput[1..]);
    assert CheckInput[1..][1..] == CheckInput[2..];
    RunCons(0xB0AC_BB32, CheckInput[2..]);
    assert CheckInput[2..][1..] == CheckInput[3..];
    RunCons(0x77B7_9C2D, CheckInput[3..]);
    assert CheckInput[3..][1..] == CheckInput[4..];
    RunCons(0x641C_1F5C, CheckInput[4..]);
    assert CheckInput[4..][1..] == CheckInput[5..];
    RunCons(0x340A_C5E3, CheckInput[5..]);
    assert CheckInput[5..][1..] == CheckInput[6..];
    RunCons(0xF68D_2C9E, CheckInput[6..]);
    assert CheckInput[6..][1..] == CheckInput[7..];
    RunCons(0xAFFC_9660, CheckInput[7..]);
    assert CheckInput[7..][1..] == CheckInput[8..];
    RunCons(0x651F_2550, CheckInput[8..]);
    assert CheckInput[8..][1..] == CheckInput[9..];
    assert CheckInput[9..] == [];
  }
}
