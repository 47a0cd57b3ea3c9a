/**
 * The IMU protocol of the glasses (class `protocol3`): frames that start
 * with the header byte 0xAA.
 *
 * A frame of `len` bytes is laid out as
 *
 *   [0]        header 0xAA
 *   [1, 5)     CRC-32 of bytes [5, len), stored little-endian
 *   [5, 7)     packet length `len - 5`, little-endian
 *   [7]        message id (one byte)
 *   [8, len)   payload
 *
 * `CmdBuild` writes such a frame into a caller buffer and `ParseRsp` reads a
 * received one back into a `ParsedRsp` record.
 */
module Protocol3 {
  import opened Wrappers
  import opened Bytes
  import opened Crc32
  import opened Registry
  import opened PayloadArgs

  const Head: uint8 := 0xAA
  const CrcOfs: int := 1
  const LenOfs: int := 5
  const MsgIdOfs: int := 7
  const PayloadOfs: int := 8

  /** A frame without payload: header, CRC, length and id. */
  const HeaderLen: int := 8

  /** `NO_PAYLOAD_PACKET_LEN`: the packet length of a frame without payload. */
  const NoPayloadPacketLen: int := 3

  /** `sizeof(parsed_rsp::payload)`. */
  const PayloadCapacity: int := 200

  /** The largest payload whose frame length still fits the `uint16_t` variable `len`. */
  const MaxPayload: int := 0xFFFF - HeaderLen

  /** `-1` stored into the `uint8_t` field `msgId`: "no message". */
  const NoMsgId: uint8 := 0xFF

  // ---------------------------------------------------------------------
  // The command registry

  /** Entry `i` of `MESSAGES`, in the map's ascending name order. */
  function MessageAt(i: nat): Entry<uint8> {
    match i
    case 0 => Entry("ALLOCATE_CAL_DATA_BUFFER", 0x16)
    case 1 => Entry("CAL_DATA_GET_NEXT_SEGMENT", 0x15)
    case 2 => Entry("FREE_CAL_BUFFER", 0x18)
    case 3 => Entry("GET_CAL_DATA_LENGTH", 0x14)
    case 4 => Entry("GET_STATIC_ID", 0x1a)
    case 5 => Entry("START_IMU_DATA", 0x19)
    case 6 => Entry("UNKNOWN_1D", 0x1d)
    case _ => Entry("WRITE_CAL_DATA_SEGMENT", 0x17)
  }

  /** The number of entries of `MESSAGES`. */
  const MessageCount: nat := 8

  /** `MESSAGES` in iteration order. */
  function Messages(): (t: seq<Entry<uint8>>)
    ensures |t| == MessageCount
    ensures forall i :: 0 <= i < MessageCount ==> t[i] == MessageAt(i)
  {
    seq(MessageCount, i requires 0 <= i < MessageCount => MessageAt(i))
  }

  /** The ids of `MESSAGES` are pairwise distinct. */
  lemma MessagesIdsDistinct()
    ensures IdsDistinct(Messages())
  {
    assert forall i, j :: 0 <= i < j < MessageCount ==> MessageAt(i).id != MessageAt(j).id;
  }

  /** The names of `MESSAGES` are pairwise distinct, as the keys of a map are. */
  lemma MessagesNamesDistinct()
    ensures NamesDistinct(Messages())
  {
    assert forall i, j :: 0 <= i < j < MessageCount ==> MessageAt(i).name != MessageAt(j).name;
  }

  /** No entry of `MESSAGES` has the id 0, the default of `hexForKey`. */
  lemma MessagesHaveNoZeroId()
    ensures !HasId(Messages(), 0)
  {
    assert forall i :: 0 <= i < MessageCount ==> MessageAt(i).id != 0;
  }

  /** `hexForKey`: the id stored under `key`, or 0 for a name that is not in the table. */
  function HexForKey(key: string): uint8 {
    IdForName(Messages(), key, 0)
  }

  /** `keyForHex`: the name stored with `hex`, or "UNKNOWN_COMMAND" for an unknown id. */
  function KeyForHex(hex: uint8): string {
    NameForId(Messages(), hex, UnknownCommand)
  }

  /** Every table name survives the lookup and the reverse search. */
  lemma KeyForHexOfHexForKey(name: string)
    requires HasName(Messages(), name)
    ensures KeyForHex(HexForKey(name)) == name
  {
    MessagesIdsDistinct();
    NameForIdOfIdForName(Messages(), name, 0, UnknownCommand);
  }

  /** Every table id survives the reverse search and the lookup. */
  lemma HexForKeyOfKeyForHex(hex: uint8)
    requires HasId(Messages(), hex)
    ensures HexForKey(KeyForHex(hex)) == hex
  {
    MessagesNamesDistinct();
    IdForNameOfNameForId(Messages(), hex, 0, UnknownCommand);
  }

  /** `hexForKey` returns 0 exactly for the names that are not in the table. */
  lemma HexForKeyZeroIff(name: string)
    ensures HexForKey(name) == 0 <==> !HasName(Messages(), name)
  {
    MessagesHaveNoZeroId();
    IdForNameIsNoneIff(Messages(), name, 0);
  }

  /** The id 0 has no name. */
  lemma KeyForHexZero()
    ensures KeyForHex(0) == UnknownCommand
  {
    MessagesHaveNoZeroId();
    NameForIdFinds(Messages(), 0, UnknownCommand);
  }

  /** `GET_STATIC_ID` is entry 4, and no entry before it has that name. */
  lemma StaticIdFirstNamed()
    ensures FirstNamed(Messages(), "GET_STATIC_ID", 4)
  {
    assert forall j :: 0 <= j < 4 ==> MessageAt(j).name != "GET_STATIC_ID";
  }

  /** `hexForKey("GET_STATIC_ID")` is 0x1a. */
  lemma StaticIdId()
    ensures HexForKey("GET_STATIC_ID") == 0x1a
  {
    StaticIdFirstNamed();
    IdForNameFirst(Messages(), "GET_STATIC_ID", 0, 4);
  }

  /** `keyForHex(0x1a)` names that command again. */
  lemma StaticIdName()
    ensures KeyForHex(0x1a) == "GET_STATIC_ID"
  {
    assert FirstWithId(Messages(), 0x1a, 4);
    NameForIdFirst(Messages(), 0x1a, UnknownCommand, 4);
  }

  // ---------------------------------------------------------------------
  // Building a command frame

  /** What `cmd_build` demands of its arguments for its copies and stores to stay in bounds. */
  predicate BuildArgsOk(pBuf: Option<seq<uint8>>, pSize: int, bufLength: int, cbSize: int) {
    if HasPayload(pBuf, pSize) then
      pSize <= |pBuf.value| && pSize <= MaxPayload && cbSize <= bufLength
    else
      HeaderLen <= bufLength
  }

  /** Bytes [5, len) of a frame: the part the checksum covers. */
  function Covered(msgId: uint8, payload: seq<uint8>): (c: seq<uint8>)
    requires |payload| <= MaxPayload
    ensures |c| == 3 + |payload|
  {
    Le16((NoPayloadPacketLen + |payload|) as uint16) + [msgId] + payload
  }

  /**
   * The buffer `cmd_buf` after a successful `cmd_build(msgId, payload)`,
   * given its contents `before`: the frame in the first `8 + |payload|`
   * bytes and the old bytes after it.
   */
  function Frame(before: seq<uint8>, msgId: uint8, payload: seq<uint8>): (f: seq<uint8>)
    requires |payload| <= MaxPayload
    requires HeaderLen + |payload| <= |before|
    ensures |f| == |before|
  {
    var covered := Covered(msgId, payload);
    [Head] + Le32(CrcValue(covered)) + covered + before[HeaderLen + |payload|..]
  }

  /**
   * The outcome of `cmd_build(msgId, pBuf, pSize, cmd_buf, cbSize)` that
   * returned `len` and turned `before` into `after`: 0 and nothing written
   * when a payload does not fit `cbSize`, otherwise the frame length and
   * the frame.
   */
  ghost predicate Built(before: seq<uint8>, after: seq<uint8>, len: int,
                        msgId: uint8, pBuf: Option<seq<uint8>>, pSize: int, cbSize: int)
    requires BuildArgsOk(pBuf, pSize, |before|, cbSize)
  {
    var payload := PayloadOf(pBuf, pSize);
    if HasPayload(pBuf, pSize) && cbSize < HeaderLen + pSize then
      len == 0 && after == before
    else
      len == HeaderLen + |payload| && after == Frame(before, msgId, payload)
  }

  /** `std::copy` of the payload to offset 8. */
  method CopyPayload(cmdBuf: array<uint8>, payload: seq<uint8>)
    requires PayloadOfs + |payload| <= cmdBuf.Length
    modifies cmdBuf
    ensures cmdBuf[..PayloadOfs] == old(cmdBuf[..PayloadOfs])
    ensures cmdBuf[PayloadOfs..PayloadOfs + |payload|] == payload
    ensures cmdBuf[PayloadOfs + |payload|..] == old(cmdBuf[PayloadOfs + |payload|..])
  {
    forall i | 0 <= i < |payload| {
      cmdBuf[PayloadOfs + i] := payload[i];
    }
  }

  /** The stores of the header byte, the id and the packet length. */
  method WriteFields(cmdBuf: array<uint8>, msgId: uint8, len: int)
    requires HeaderLen <= len <= 0xFFFF && HeaderLen <= cmdBuf.Length
    modifies cmdBuf
    ensures cmdBuf[..LenOfs] == [Head] + old(cmdBuf[CrcOfs..LenOfs])
    ensures cmdBuf[LenOfs..] == Le16((len - LenOfs) as uint16) + [msgId] + old(cmdBuf[PayloadOfs..])
  {
    ghost var before := cmdBuf[..];
    cmdBuf[0] := Head;
    cmdBuf[MsgIdOfs] := msgId;
    var packetLen := Le16((len - LenOfs) as uint16);
    cmdBuf[LenOfs] := packetLen[0];
    cmdBuf[LenOfs + 1] := packetLen[1];
    assert cmdBuf[..LenOfs] == [Head] + before[CrcOfs..LenOfs];
    ghost var fields := packetLen + [msgId] + before[PayloadOfs..];
    assert forall k :: LenOfs <= k < cmdBuf.Length ==> cmdBuf[k] == fields[k - LenOfs];
  }

  /** The store of the little-endian CRC-32 of bytes [5, len) at offset 1. */
  method WriteCrc(cmdBuf: array<uint8>, len: int)
    requires LenOfs <= len <= cmdBuf.Length
    modifies cmdBuf
    ensures cmdBuf[..CrcOfs] == old(cmdBuf[..CrcOfs])
    ensures cmdBuf[CrcOfs..LenOfs] == Le32(CrcValue(old(cmdBuf[LenOfs..len])))
    ensures cmdBuf[LenOfs..] == old(cmdBuf[LenOfs..])
  {
    var crc := Le32(CrcValue(cmdBuf[LenOfs..len]));
    forall i | 0 <= i < 4 {
      cmdBuf[CrcOfs + i] := crc[i];
    }
  }

  /** `cmd_build` on a numeric message id. */
  method CmdBuild(msgId: uint8, pBuf: Option<seq<uint8>>, pSize: int, cmdBuf: array<uint8>, cbSize: int)
    returns (len: int)
    requires BuildArgsOk(pBuf, pSize, cmdBuf.Length, cbSize)
    modifies cmdBuf
    ensures Built(old(cmdBuf[..]), cmdBuf[..], len, msgId, pBuf, pSize, cbSize)
  {
    ghost var before := cmdBuf[..];
    ghost var payload := PayloadOf(pBuf, pSize);
    len := HeaderLen;
    if HasPayload(pBuf, pSize) {
      len := len + pSize;
      if cbSize < len {
        return 0;
      }
      CopyPayload(cmdBuf, pBuf.value[..pSize]);
    }
    ghost var copied := cmdBuf[..];
    WriteFields(cmdBuf, msgId, len);
    ghost var filled := cmdBuf[..];
    WriteCrc(cmdBuf, len);
    FrameSteps(before, msgId, payload, copied, filled, cmdBuf[..]);
  }

  /**
   * The three steps of `cmd_build` (payload copy, field stores, checksum
   * store) together leave `Frame(before, msgId, payload)`.
   */
  lemma FrameSteps(before: seq<uint8>, msgId: uint8, payload: seq<uint8>,
                   copied: seq<uint8>, filled: seq<uint8>, after: seq<uint8>)
    requires |payload| <= MaxPayload
    requires HeaderLen + |payload| <= |before| == |copied| == |filled| == |after|
    requires copied[..PayloadOfs] == before[..PayloadOfs]
    requires copied[PayloadOfs..HeaderLen + |payload|] == payload
    requires copied[HeaderLen + |payload|..] == before[HeaderLen + |payload|..]
    requires filled[..LenOfs] == [Head] + copied[CrcOfs..LenOfs]
    requires filled[LenOfs..] == Le16((HeaderLen + |payload| - LenOfs) as uint16) + [msgId] + copied[PayloadOfs..]
    requires after[..CrcOfs] == filled[..CrcOfs]
    requires after[CrcOfs..LenOfs] == Le32(CrcValue(filled[LenOfs..HeaderLen + |payload|]))
    requires after[LenOfs..] == filled[LenOfs..]
    ensures after == Frame(before, msgId, payload)
  {
    var len := HeaderLen + |payload|;
    var covered := Covered(msgId, payload);
    assert copied[PayloadOfs..] == payload + before[len..] by {
      SliceOfSuffix(copied, PayloadOfs, |payload|, copied[PayloadOfs..]);
    }
    var tail := covered + before[len..];
    assert filled[LenOfs..] == tail;
    SliceOfSuffix(filled, LenOfs, len - LenOfs, tail);
    assert tail[..len - LenOfs] == covered;
    assert after[..CrcOfs] == [Head];
    Split3(after, CrcOfs, LenOfs);
  }

  /** The `cmd_build` overload that takes a command name: the id is `hexForKey(name)`. */
  method CmdBuildByName(msgId: string, pBuf: Option<seq<uint8>>, pSize: int, cmdBuf: array<uint8>, cbSize: int)
    returns (len: int)
    requires BuildArgsOk(pBuf, pSize, cmdBuf.Length, cbSize)
    modifies cmdBuf
    ensures Built(old(cmdBuf[..]), cmdBuf[..], len, HexForKey(msgId), pBuf, pSize, cbSize)
  {
    var hexMsgId := HexForKey(msgId);
    len := CmdBuild(hexMsgId, pBuf, pSize, cmdBuf, cbSize);
  }

  /**
   * Where `cmd_build` puts each field: the header, the little-endian
   * length `len - 5`, the id, the payload, the untouched tail, and the
   * little-endian CRC-32 of exactly the bytes [5, len) of the result.
   */
  lemma FrameLayout(before: seq<uint8>, msgId: uint8, payload: seq<uint8>)
    requires |payload| <= MaxPayload
    requires HeaderLen + |payload| <= |before|
    ensures var f := Frame(before, msgId, payload);
      var len := HeaderLen + |payload|;
      && f[0] == Head
      && ReadLe16(f[LenOfs], f[LenOfs + 1]) as int == len - 5
      && f[MsgIdOfs] == msgId
      && f[PayloadOfs..len] == payload
      && f[len..] == before[len..]
      && f[CrcOfs..LenOfs] == Le32(CrcValue(f[LenOfs..len]))
  {
    var f := Frame(before, msgId, payload);
    var len := HeaderLen + |payload|;
    var covered := Covered(msgId, payload);
    var crc := Le32(CrcValue(covered));
    assert f == [Head] + crc + covered + before[len..];
    assert f[LenOfs..len] == covered;
    assert f[CrcOfs..LenOfs] == crc;
    ReadLe16OfLe16((len - LenOfs) as uint16);
  }

  // ---------------------------------------------------------------------
  // Reading a received frame

  /**
   * `get_msgId`: the id byte at offset 7. Its guard is `size >= 7`, so a
   * buffer of 7 received bytes is read one byte past its end; the byte
   * must still be there to read.
   */
  function GetMsgId(buf: seq<uint8>, size: int): (id: uint8)
    requires MsgIdOfs <= size && MsgIdOfs < |buf|
    ensures id == buf[MsgIdOfs]
  {
    buf[MsgIdOfs]
  }

  /**
   * At `size == 7` the guard of `get_msgId` passes, and the id it returns
   * is not determined by the received bytes: two buffers that agree on
   * those bytes give different ids.
   */
  lemma GetMsgIdReadsPastSize(a: seq<uint8>, b: seq<uint8>)
    requires |a| == |b| == 8
    requires a[..MsgIdOfs] == b[..MsgIdOfs] && a[MsgIdOfs] != b[MsgIdOfs]
    ensures GetMsgId(a, MsgIdOfs) != GetMsgId(b, MsgIdOfs)
  {
  }

  /** From `size == 8` on, the id depends on the received bytes alone. */
  lemma GetMsgIdReadsReceived(a: seq<uint8>, b: seq<uint8>, size: int)
    requires MsgIdOfs < size <= |a| && size <= |b|
    requires a[..size] == b[..size]
    ensures GetMsgId(a, size) == GetMsgId(b, size)
  {
    assert a[..size][MsgIdOfs] == b[..size][MsgIdOfs];
  }

  /** `get_length`: the little-endian packet length at offsets 5 and 6; defined only when `size > 6`. */
  function GetLength(buf: seq<uint8>, size: int): (len: uint16)
    requires LenOfs + 1 < size <= |buf|
    ensures Le16(len) == buf[LenOfs..LenOfs + 2]
  {
    ReadLe16(buf[LenOfs], buf[LenOfs + 1])
  }

  /** The contents of a `parsed_rsp` record. */
  datatype Rsp = Rsp(msgId: uint8, payload: seq<uint8>, payloadSize: uint16)

  /** The record as `parse_rsp` first resets it. */
  const ResetRsp: Rsp := Rsp(NoMsgId, Zeros(PayloadCapacity), 0)

  /**
   * What `parse_rsp(buffer_in, size, ...)` needs to be defined: `size`
   * bytes to read, and, on a matching header, at least 7 of them for the
   * getters, the id byte at offset 7 readable, and a buffer long enough
   * for the payload copy, which reads `payload_size` bytes from offset 8
   * without comparing them to `size`.
   */
  predicate ParseArgsOk(bufferIn: Option<seq<uint8>>, size: int) {
    match bufferIn
    case None => true
    case Some(buf) =>
      size <= |buf| &&
      (1 <= size && buf[0] == Head ==>
        MsgIdOfs <= size && MsgIdOfs < |buf| &&
        var packetLen := ReadLe16(buf[LenOfs], buf[LenOfs + 1]) as int;
        (NoPayloadPacketLen <= packetLen && packetLen - (PayloadOfs - LenOfs) <= PayloadCapacity ==>
           PayloadOfs + packetLen - (PayloadOfs - LenOfs) <= |buf|))
  }

  /** The record `parse_rsp(bufferIn, size, ...)` leaves. */
  function ParseSpec(bufferIn: Option<seq<uint8>>, size: int): (r: Rsp)
    requires ParseArgsOk(bufferIn, size)
    ensures |r.payload| == PayloadCapacity
  {
    if bufferIn.None? || size < 1 then ResetRsp
    else
      var buf := bufferIn.value;
      if buf[0] != Head then ResetRsp
      else
        var msgId := GetMsgId(buf, size);
        var packetLen := GetLength(buf, size) as int;
        if packetLen < NoPayloadPacketLen then Rsp(msgId, Zeros(PayloadCapacity), 0)
        else
          var payloadSize := packetLen - (PayloadOfs - LenOfs);
          if payloadSize <= PayloadCapacity then
            Rsp(msgId, buf[PayloadOfs..PayloadOfs + payloadSize] + Zeros(PayloadCapacity - payloadSize),
                payloadSize as uint16)
          else
            Rsp(msgId, Zeros(PayloadCapacity), payloadSize as uint16)
  }

  /** A `parsed_rsp` record the caller owns and `parse_rsp` fills in. */
  class ParsedRsp {
    var msgId: uint8
    const payload: array<uint8>
    var payloadSize: uint16

    /** The payload array has the record's fixed size. */
    ghost predicate Valid()
      reads this
    {
      payload.Length == PayloadCapacity
    }

    /** The record's current contents. */
    function View(): (r: Rsp)
      reads this, payload
      requires Valid()
      ensures |r.payload| == PayloadCapacity
    {
      Rsp(msgId, payload[..], payloadSize)
    }

    constructor ()
      ensures Valid()
      ensures fresh(payload)
    {
      payload := new uint8[PayloadCapacity];
    }
  }

  /** `parse_rsp`: resets `result`, then fills it from the received buffer. */
  method ParseRsp(bufferIn: Option<seq<uint8>>, size: int, result: ParsedRsp)
    requires result.Valid()
    requires ParseArgsOk(bufferIn, size)
    modifies result, result.payload
    ensures result.Valid()
    ensures result.View() == ParseSpec(bufferIn, size)
  {
    result.msgId := NoMsgId;
    result.payloadSize := 0;
    forall i | 0 <= i < result.payload.Length {
      result.payload[i] := 0;
    }
    assert result.payload[..] == Zeros(PayloadCapacity);

    if bufferIn.None? || size < 1 {
      return;
    }
    var buf := bufferIn.value;
    if buf[0] != Head {
      return;
    }

    result.msgId := GetMsgId(buf, size);
    var packetLen := GetLength(buf, size) as int;
    if packetLen < NoPayloadPacketLen {
      return;
    }
    var payloadSize := packetLen - (PayloadOfs - LenOfs);
    result.payloadSize := payloadSize as uint16;
    if payloadSize <= result.payload.Length {
      forall i | 0 <= i < payloadSize {
        result.payload[i] := buf[PayloadOfs + i];
      }
      assert result.payload[..] == buf[PayloadOfs..PayloadOfs + payloadSize] + Zeros(PayloadCapacity - payloadSize);
    }
  }

  // ---------------------------------------------------------------------
  // Properties of parsing

  /** A null buffer, an empty one or a wrong header leave the record as reset. */
  lemma ParseRejects(bufferIn: Option<seq<uint8>>, size: int)
    requires ParseArgsOk(bufferIn, size)
    requires bufferIn.None? || size < 1 || bufferIn.value[0] != Head
    ensures ParseSpec(bufferIn, size) == Rsp(0xFF, Zeros(PayloadCapacity), 0)
  {
  }

  /**
   * A packet length below 3 still yields the id, but no payload; from 3
   * on the payload size is the length minus 3, and the payload is copied
   * exactly when that size is at most 200.
   */
  lemma ParsePayload(buf: seq<uint8>, size: int)
    requires ParseArgsOk(Some(buf), size)
    requires 1 <= size && buf[0] == Head
    ensures var r := ParseSpec(Some(buf), size);
      var packetLen := ReadLe16(buf[5], buf[6]) as int;
      && r.msgId == buf[7]
      && (packetLen < 3 ==> r.payloadSize == 0 && r.payload == Zeros(200))
      && (packetLen >= 3 ==> r.payloadSize as int == packetLen - 3)
      && (packetLen >= 3 && packetLen - 3 <= 200 ==>
            r.payload[..packetLen - 3] == buf[8..packetLen + 5]
            && r.payload[packetLen - 3..] == Zeros(200 - (packetLen - 3)))
      && (packetLen - 3 > 200 ==> r.payload == Zeros(200))
  {
    var packetLen := ReadLe16(buf[5], buf[6]) as int;
    if packetLen >= 3 && packetLen - 3 <= 200 {
      var r := ParseSpec(Some(buf), size);
      assert r.payload == buf[8..packetLen + 5] + Zeros(200 - (packetLen - 3));
    }
  }

  /** The checksum bytes [1, 5) are never looked at: any value there parses alike. */
  lemma ParseIgnoresChecksum(buf: seq<uint8>, size: int, crc: seq<uint8>)
    requires |crc| == 4 && LenOfs <= |buf|
    requires ParseArgsOk(Some(buf), size)
    ensures ParseArgsOk(Some(buf[..CrcOfs] + crc + buf[LenOfs..]), size)
    ensures ParseSpec(Some(buf[..CrcOfs] + crc + buf[LenOfs..]), size) == ParseSpec(Some(buf), size)
  {
    var other := buf[..CrcOfs] + crc + buf[LenOfs..];
    assert other[0] == buf[0];
    assert other[LenOfs..] == buf[LenOfs..];
    assert forall k :: LenOfs <= k < |buf| ==> other[k] == buf[k];
    if 1 <= size && buf[0] == Head {
      var packetLen := ReadLe16(buf[5], buf[6]) as int;
      if NoPayloadPacketLen <= packetLen && packetLen - 3 <= PayloadCapacity {
        assert other[8..packetLen + 5] == buf[8..packetLen + 5];
      }
    }
  }

  /**
   * Building a frame with a payload of at most 200 bytes (none included)
   * and parsing its `8 + |payload|` bytes gives back the id, the payload
   * and its size.
   */
  lemma BuildParseRoundTrip(before: seq<uint8>, msgId: uint8, payload: seq<uint8>)
    requires |payload| <= PayloadCapacity
    requires HeaderLen + |payload| <= |before|
    ensures var f := Frame(before, msgId, payload);
      var len := HeaderLen + |payload|;
      && ParseArgsOk(Some(f), len)
      && ParseSpec(Some(f), len) == Rsp(msgId, payload + Zeros(PayloadCapacity - |payload|), |payload| as uint16)
  {
    FrameLayout(before, msgId, payload);
  }

  /**
   * The static-id query of `real_utilities.cpp`: `GET_STATIC_ID` without
   * payload, built into a 1023-byte buffer, is 8 bytes long by its length
   * field and parses back from those 8 bytes as id 0x1a with an empty
   * payload.
   */
  lemma StaticIdRoundTrip(before: seq<uint8>)
    requires |before| == 1023
    ensures var f := Frame(before, HexForKey("GET_STATIC_ID"), []);
      && ReadLe16(f[LenOfs], f[LenOfs + 1]) as int == 8 - 5
      && ParseArgsOk(Some(f), 8)
      && ParseSpec(Some(f), 8) == Rsp(0x1a, Zeros(200), 0)
  {
    StaticIdId();
    FrameLayout(before, 0x1a, []);
    BuildParseRoundTrip(before, 0x1a, []);
  }
}
