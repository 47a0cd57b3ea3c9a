/**
 * A complete `W_DISP_MODE` frame that `real_utilities.cpp` spells out byte
 * by byte in the commented-out array `sbs_set` (after its leading HID report
 * byte 0x00), to be sent with a raw `hid_write`. Its timestamp bytes are not
 * zero, so it is not a frame `cmd_build` writes; it fixes the checksum span,
 * the little-endian byte order of the stored CRC and the parse of a frame
 * that did not come from the model's own `cmd_build`.
 */
module ControlCapture {
  import opened Wrappers
  import opened Bytes
  import opened Crc32
  import Protocol

  /** Bytes [0, 5) of the frame of `sbs_set`: the header and the stored checksum. */
  function CapturedHead(): seq<uint8> {
    [0xFD, 0xC2, 0x60, 0xDB, 0x9D]
  }

  /** Bytes [5, 12): the length 0x0015 and the first five timestamp bytes. */
  function CapturedLengthTs(): seq<uint8> {
    [0x15, 0x00, 0x19, 0x00, 0x00, 0x00, 0xFA]
  }

  /** Bytes [12, 19): the last three timestamp bytes, the id 0x0008 and two reserved bytes. */
  function CapturedTsId(): seq<uint8> {
    [0x73, 0x85, 0xA4, 0x08, 0x00, 0x00, 0x00]
  }

  /** Bytes [19, 26): three reserved bytes and the payload 03 00 00 00. */
  function CapturedTail(): seq<uint8> {
    [0x00, 0x00, 0x00, 0x03, 0x00, 0x00, 0x00]
  }

  /** The 26 bytes of the frame of `sbs_set`. */
  function Captured(): (f: seq<uint8>)
    ensures |f| == 26
  {
    CapturedHead() + CapturedLengthTs() + CapturedTsId() + CapturedTail()
  }

  /** Converting a concatenation converts each part. */
  lemma BitsConcat(x: seq<uint8>, y: seq<uint8>)
    ensures Bits(x + y) == Bits(x) + Bits(y)
  {
    assert forall i :: 0 <= i < |x + y| ==> Bits(x + y)[i] == (Bits(x) + Bits(y))[i];
  }

  /** Three turns of the table-driven CRC step, group 1 of 7. */
  lemma CapturedSteps1()
    ensures Step(0xFFFF_FFFF, 0x15) == 0x4020_F499
    ensures Step(0x4020_F499, 0x00) == 0x8993_0B14
    ensures Step(0x8993_0B14, 0x19) == 0x7E38_EFB6
  {
  }

  /** Three turns of the table-driven CRC step, group 2 of 7. */
  lemma CapturedSteps2()
    ensures Step(0x7E38_EFB6, 0x00) == 0x227C_2E56
    ensures Step(0x227C_2E56, 0x00) == 0x822A_88EF
    ensures Step(0x822A_88EF, 0x00) == 0x3037_D561
  {
  }

  /** Three turns of the table-driven CRC step, group 3 of 7. */
  lemma CapturedSteps3()
    ensures Step(0x3037_D561, 0xFA) == 0x67ED_7D19
    ensures Step(0x67ED_7D19, 0x73) == 0xAD00_653B
    ensures Step(0xAD00_653B, 0x85) == 0x2C74_9EEE
  {
  }

  /** Three turns of the table-driven CRC step, group 4 of 7. */
  lemma CapturedSteps4()
    ensures Step(0x2C74_9EEE, 0xA4) == 0x9625_DC10
    ensures Step(0x9625_DC10, 0x08) == 0x13FA_BD8A
    ensures Step(0x13FA_BD8A, 0x00) == 0x0D7E_9083
  {
  }

  /** Three turns of the table-driven CRC step, group 5 of 7. */
  lemma CapturedSteps5()
    ensures Step(0x0D7E_9083, 0x00) == 0x74BC_AC0A
    ensures Step(0x74BC_AC0A, 0x00) == 0xE0A1_55B2
    ensures Step(0xE0A1_55B2, 0x00) == 0x258F_73F5
  {
  }

  /** Three turns of the table-driven CRC step, group 6 of 7. */
  lemma CapturedSteps6()
    ensures Step(0x258F_73F5, 0x00) == 0xCDF2_89E0
    ensures Step(0xCDF2_89E0, 0x00) == 0xA0C7_10F1
    ensures Step(0xA0C7_10F1, 0x03) == 0x5313_5420
  {
  }

  /** Three turns of the table-driven CRC step, group 7 of 7. */
  lemma CapturedSteps7()
    ensures Step(0x5313_5420, 0x00) == 0x3B3D_339C
    ensures Step(0x3B3D_339C, 0x00) == 0xF982_E25C
    ensures Step(0xF982_E25C, 0x00) == 0x6224_9F3D
  {
  }

  /** The loop of `update_crc` over chunk 1 of the checksummed bytes. */
  lemma CapturedLoop1()
    ensures Run(0xFFFF_FFFF, [0x15, 0x00, 0x19, 0x00, 0x00, 0x00, 0xFA]) == 0x67ED_7D19
  {
    var s: seq<bv8> := [0x15, 0x00, 0x19, 0x00, 0x00, 0x00, 0xFA];
    CapturedSteps1();
    CapturedSteps2();
    CapturedSteps3();
    RunCons(0xFFFF_FFFF, s[0..]);
    assert s[0..][1..] == s[1..];
    RunCons(0x4020_F499, s[1..]);
    assert s[1..][1..] == s[2..];
    RunCons(0x8993_0B14, s[2..]);
    assert s[2..][1..] == s[3..];
    RunCons(0x7E38_EFB6, s[3..]);
    assert s[3..][1..] == s[4..];
    RunCons(0x227C_2E56, s[4..]);
    assert s[4..][1..] == s[5..];
    RunCons(0x822A_88EF, s[5..]);
    assert s[5..][1..] == s[6..];
    RunCons(0x3037_D561, s[6..]);
    assert s[6..][1..] == s[7..];
    assert s[7..] == [];
  }

  /** Converting bytes to bit vectors keeps their values. */
  lemma CapturedBits1()
    ensures Bits(CapturedLengthTs()) == [0x15, 0x00, 0x19, 0x00, 0x00, 0x00, 0xFA]
  {
    assert forall i :: 0 <= i < 7 ==> Bits(CapturedLengthTs())[i] == [0x15, 0x00, 0x19, 0x00, 0x00, 0x00, 0xFA][i];
  }

  /** The checksum loop over bytes [5, 12) of the frame. */
  lemma CapturedRun1()
    ensures Run(0xFFFF_FFFF, Bits(CapturedLengthTs())) == 0x67ED_7D19
  {
    CapturedBits1();
    CapturedLoop1();
  }

  /** The loop of `update_crc` over chunk 2 of the checksummed bytes. */
  lemma CapturedLoop2()
    ensures Run(0x67ED_7D19, [0x73, 0x85, 0xA4, 0x08, 0x00, 0x00, 0x00]) == 0xE0A1_55B2
  {
    var s: seq<bv8> := [0x73, 0x85, 0xA4, 0x08, 0x00, 0x00, 0x00];
    CapturedSteps3();
    CapturedSteps4();
    CapturedSteps5();
    RunCons(0x67ED_7D19, s[0..]);
    assert s[0..][1..] == s[1..];
    RunCons(0xAD00_653B, s[1..]);
    assert s[1..][1..] == s[2..];
    RunCons(0x2C74_9EEE, s[2..]);
    assert s[2..][1..] == s[3..];
    RunCons(0x9625_DC10, s[3..]);
    assert s[3..][1..] == s[4..];
    RunCons(0x13FA_BD8A, s[4..]);
    assert s[4..][1..] == s[5..];
    RunCons(0x0D7E_9083, s[5..]);
    assert s[5..][1..] == s[6..];
    RunCons(0x74BC_AC0A, s[6..]);
    assert s[6..][1..] == s[7..];
    assert s[7..] == [];
  }

  /** Converting bytes to bit vectors keeps their values. */
  lemma CapturedBits2()
    ensures Bits(CapturedTsId()) == [0x73, 0x85, 0xA4, 0x08, 0x00, 0x00, 0x00]
  {
    assert forall i :: 0 <= i < 7 ==> Bits(CapturedTsId())[i] == [0x73, 0x85, 0xA4, 0x08, 0x00, 0x00, 0x00][i];
  }

  /** The checksum loop over bytes [12, 19) of the frame. */
  lemma CapturedRun2()
    ensures Run(0x67ED_7D19, Bits(CapturedTsId())) == 0xE0A1_55B2
  {
    CapturedBits2();
    CapturedLoop2();
  }

  /** The loop of `update_crc` over chunk 3 of the checksummed bytes. */
  lemma CapturedLoop3()
    ensures Run(0xE0A1_55B2, [0x00, 0x00, 0x00, 0x03, 0x00, 0x00, 0x00]) == 0x6224_9F3D
  {
    var s: seq<bv8> := [0x00, 0x00, 0x00, 0x03, 0x00, 0x00, 0x00];
    CapturedSteps5();
    CapturedSteps6();
    CapturedSteps7();
    RunCons(0xE0A1_55B2, s[0..]);
    assert s[0..][1..] == s[1..];
    RunCons(0x258F_73F5, s[1..]);
    assert s[1..][1..] == s[2..];
    RunCons(0xCDF2_89E0, s[2..]);
    assert s[2..][1..] == s[3..];
    RunCons(0xA0C7_10F1, s[3..]);
    assert s[3..][1..] == s[4..];
    RunCons(0x5313_5420, s[4..]);
    assert s[4..][1..] == s[5..];
    RunCons(0x3B3D_339C, s[5..]);
    assert s[5..][1..] == s[6..];
    RunCons(0xF982_E25C, s[6..]);
    assert s[6..][1..] == s[7..];
    assert s[7..] == [];
  }

  /** Converting bytes to bit vectors keeps their values. */
  lemma CapturedBits3()
    ensures Bits(CapturedTail()) == [0x00, 0x00, 0x00, 0x03, 0x00, 0x00, 0x00]
  {
    assert forall i :: 0 <= i < 7 ==> Bits(CapturedTail())[i] == [0x00, 0x00, 0x00, 0x03, 0x00, 0x00, 0x00][i];
  }

  /** The checksum loop over bytes [19, 26) of the frame. */
  lemma CapturedRun3()
    ensures Run(0xE0A1_55B2, Bits(CapturedTail())) == 0x6224_9F3D
  {
    CapturedBits3();
    CapturedLoop3();
  }

  /** The loop of `update_crc` over bytes [5, 26) of the frame of `sbs_set`. */
  lemma CapturedRun()
    ensures Run(0xFFFF_FFFF, Bits(Captured()[5..26])) == 0x6224_9F3D
  {
    var a, b, c := CapturedLengthTs(), CapturedTsId(), CapturedTail();
    assert Captured()[5..26] == a + b + c;
    BitsConcat(a, b);
    BitsConcat(a + b, c);
    CapturedRun1();
    CapturedRun2();
    CapturedRun3();
    RunConcat(0xFFFF_FFFF, Bits(a), Bits(b));
    RunConcat(0xFFFF_FFFF, Bits(a) + Bits(b), Bits(c));
  }

  /** The CRC-32 of bytes [5, 26) of the frame of `sbs_set` is 0x9DDB60C2. */
  lemma CapturedCrc()
    ensures CrcValue(Captured()[5..26]) == 0x9DDB_60C2
  {
    CapturedRun();
    assert Crc(Bits(Captured()[5..26])) == 0x9DDB_60C2;
  }

  /** The little-endian image of 0x9DDB60C2 is the stored C2 60 DB 9D. */
  lemma StoredCrc()
    ensures Le32(0x9DDB_60C2) == Captured()[1..5]
  {
    assert Le16(0x60C2) == [0xC2, 0x60];
    assert Le16(0x9DDB) == [0xDB, 0x9D];
    assert Captured()[1..5] == CapturedHead()[1..5];
  }

  /**
   * The frame of `sbs_set` is 26 bytes long by its length field, and its bytes
   * 1 to 4 are the little-endian CRC-32 of its bytes [5, 26): the span and
   * byte order that `cmd_build` uses.
   */
  lemma CapturedChecksum()
    ensures ReadLe16(Captured()[5], Captured()[6]) as int == 26 - 5
    ensures Captured()[1..5] == Le32(CrcValue(Captured()[5..26]))
  {
    CapturedLength();
    CapturedCrc();
    StoredCrc();
  }

  /** Bytes 5 and 6 of the frame of `sbs_set` are 15 00. */
  lemma CapturedLength()
    ensures Captured()[5] == 0x15 && Captured()[6] == 0x00
  {
    assert Captured()[5..7] == CapturedLengthTs()[..2];
  }

  /** `parse_rsp` reads the frame of `sbs_set` as id 0x08, status 3 and the payload 03 00 00 00. */
  lemma CapturedParse()
    ensures Protocol.ParseArgsOk(Some(Captured()), 26)
    ensures Protocol.ParseSpec(Some(Captured()), 26) == Protocol.Rsp(0x08, 3, [3, 0, 0, 0] + Zeros(196), 4)
  {
    assert Captured()[22..26] == [3, 0, 0, 0];
  }
}
