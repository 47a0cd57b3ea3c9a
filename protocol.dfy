/**
 * The control protocol of the glasses (class `protocol`): frames that start
 * with the header byte 0xFD.
 *
 * A frame of `len` bytes is laid out as
 *
 *   [0]        header 0xFD
 *   [1, 5)     CRC-32 of bytes [5, len), stored little-endian
 *   [5, 7)     packet length `len - 5`, little-endian
 *   [7, 15)    timestamp, always eight zero bytes
 *   [15, 17)   message id, little-endian
 *   [17, 22)   reserved: never written, but covered by the checksum
 *   [22, len)  payload; a reply's first payload byte is its status
 *
 * `CmdBuild` writes such a frame into a caller buffer and `ParseRsp` reads a
 * received one back into a `ParsedRsp` record.
 */
module Protocol {
  import opened Wrappers
  import opened Bytes
  import opened Crc32
  import opened Registry
  import opened PayloadArgs

  const Head: uint8 := 0xFD
  const CrcOfs: int := 1
  const LenOfs: int := 5
  const TsOfs: int := 7
  const MsgIdOfs: int := 15
  const ReservedOfs: int := 17
  const PayloadOfs: int := 22
  const StatusOfs: int := 22

  /** The timestamp width: `ts_buf` holds eight zero bytes. */
  const TsLen: int := 8

  /** A frame without payload: header, CRC, length, timestamp, id and reserved bytes. */
  const HeaderLen: int := 22

  /** The smallest packet length for which `parse_rsp` computes a payload size. */
  const MinPacketLen: int := 18

  /** `sizeof(parsed_rsp::payload)`. */
  const PayloadCapacity: int := 200

  /** The largest payload whose frame length still fits the `uint16_t` variable `len`. */
  const MaxPayload: int := 0xFFFF - HeaderLen

  /** `-1` stored into the `uint16_t` field `msgId`: "no message". */
  const NoMsgId: uint16 := 0xFFFF

  // ---------------------------------------------------------------------
  // The command registry

  /** Entry `i` of `MESSAGES`, in the map's ascending name order. */
  function MessageAt(i: nat): Entry<uint16> {
    match i
    case 0 => Entry("ASYNC_TEXT_LOG", 0x6c09)
    case 1 => Entry("E_DSP_ONE_PACKGE_WRITE_FINISH", 0x6C0E)
    case 2 => Entry("E_DSP_UPDATE_ENDING", 0x6C11)
    case 3 => Entry("E_DSP_UPDATE_PROGRES", 0x6C10)
    case 4 => Entry("HEARTBEAT", 0x1A)
    case 5 => Entry("P_BUTTON_PRESSED", 0x6C05)
    case 6 => Entry("P_UKNOWN_HEARTBEAT", 0x6c02)
    case 7 => Entry("P_UKNOWN_HEARTBEAT_2", 0x6c12)
    case 8 => Entry("R_ACTIVATION_TIME", 0x29)
    case 9 => Entry("R_DP7911_FW_IS_UPDATE", 0x3C)
    case 10 => Entry("R_DP7911_FW_VERSION", 0x16)
    case 11 => Entry("R_DSP_APP_FW_VERSION", 0x21)
    case 12 => Entry("R_DSP_VERSION", 0x18)
    case 13 => Entry("R_GLASSID", 0x15)
    case 14 => Entry("R_IS_NEED_UPGRADE_DSP_FW", 0x49)
    case 15 => Entry("R_MCU_APP_FW_VERSION", 0x26)
    case 16 => Entry("W_ACTIVATION_TIME", 0x2A)
    case 17 => Entry("W_BOOT_JUMP_TO_APP", 0x42)
    case 18 => Entry("W_BOOT_UPDATE_CONFIRM", 0x1101)
    case 19 => Entry("W_BOOT_UPDATE_FINISH", 0x1105)
    case 20 => Entry("W_BOOT_UPDATE_MODE", 0x1100)
    case 21 => Entry("W_BOOT_UPDATE_PREPARE", 0x1102)
    case 22 => Entry("W_BOOT_UPDATE_START", 0x1103)
    case 23 => Entry("W_BOOT_UPDATE_TRANSMIT", 0x1104)
    case 24 => Entry("W_CANCEL_ACTIVATION", 0x19)
    case 25 => Entry("W_DISP_MODE", 0x08)
    case 26 => Entry("W_FORCE_UPGRADE_DSP_FW", 0x69)
    case 27 => Entry("W_MCU_APP_JUMP_TO_BOOT", 0x44)
    case 28 => Entry("W_SLEEP_TIME", 0x1E)
    case 29 => Entry("W_UPDATE_DP", 0x3D)
    case 30 => Entry("W_UPDATE_DSP_APP_FW_FINISH", 0x48)
    case 31 => Entry("W_UPDATE_DSP_APP_FW_PREPARE", 0x45)
    case 32 => Entry("W_UPDATE_DSP_APP_FW_START", 0x46)
    case 33 => Entry("W_UPDATE_DSP_APP_FW_TRANSMIT", 0x47)
    case 34 => Entry("W_UPDATE_MCU_APP_FW_FINISH", 0x41)
    case 35 => Entry("W_UPDATE_MCU_APP_FW_PREPARE", 0x3E)
    case 36 => Entry("W_UPDATE_MCU_APP_FW_START", 0x3F)
    case _ => Entry("W_UPDATE_MCU_APP_FW_TRANSMIT", 0x40)
  }

  /** The number of entries of `MESSAGES`. */
  const MessageCount: nat := 38

  /** `MESSAGES` in iteration order. */
  function Messages(): (t: seq<Entry<uint16>>)
    ensures |t| == MessageCount
    ensures forall i :: 0 <= i < MessageCount ==> t[i] == MessageAt(i)
  {
    seq(MessageCount, i requires 0 <= i < MessageCount => MessageAt(i))
  }

  lemma IdsDistinctBelow8()
    ensures forall i, j :: 0 <= i < 8 && i < j < MessageCount ==> MessageAt(i).id != MessageAt(j).id
  {
  }

  lemma IdsDistinctBelow19()
    ensures forall i, j :: 8 <= i < 19 && i < j < MessageCount ==> MessageAt(i).id != MessageAt(j).id
  {
  }

  lemma IdsDistinctFrom19()
    ensures forall i, j :: 19 <= i < j < MessageCount ==> MessageAt(i).id != MessageAt(j).id
  {
  }

  /** The ids of `MESSAGES` are pairwise distinct. */
  lemma MessagesIdsDistinct()
    ensures IdsDistinct(Messages())
  {
    IdsDistinctBelow8();
    IdsDistinctBelow19();
    IdsDistinctFrom19();
  }

  lemma NamesDistinctBelow4()
    ensures forall i, j :: 0 <= i < 4 && i < j < MessageCount ==> MessageAt(i).name != MessageAt(j).name
  {
  }

  lemma NamesDistinctBelow8()
    ensures forall i, j :: 4 <= i < 8 && i < j < MessageCount ==> MessageAt(i).name != MessageAt(j).name
  {
  }

  lemma NamesDistinctBelow13()
    ensures forall i, j :: 8 <= i < 13 && i < j < MessageCount ==> MessageAt(i).name != MessageAt(j).name
  {
  }

  lemma NamesDistinctBelow19()
    ensures forall i, j :: 13 <= i < 19 && i < j < MessageCount ==> MessageAt(i).name != MessageAt(j).name
  {
  }

  lemma NamesDistinctFrom19()
    ensures forall i, j :: 19 <= i < j < MessageCount ==> MessageAt(i).name != MessageAt(j).name
  {
  }

  /** The names of `MESSAGES` are pairwise distinct, as the keys of a map are. */
  lemma MessagesNamesDistinct()
    ensures NamesDistinct(Messages())
  {
    NamesDistinctBelow4();
    NamesDistinctBelow8();
    NamesDistinctBelow13();
    NamesDistinctBelow19();
    NamesDistinctFrom19();
  }

  /** No entry of `MESSAGES` has the id 0, the default of `hexForKey`. */
  lemma MessagesHaveNoZeroId()
    ensures !HasId(Messages(), 0)
  {
    assert forall i :: 0 <= i < MessageCount ==> MessageAt(i).id != 0;
  }

  /** `hexForKey`: the id stored under `key`, or 0 for a name that is not in the table. */
  function HexForKey(key: string): uint16 {
    IdForName(Messages(), key, 0)
  }

  /** `keyForHex`: the name stored with `hex`, or "UNKNOWN_COMMAND" for an unknown id. */
  function KeyForHex(hex: uint16): string {
    NameForId(Messages(), hex, UnknownCommand)
  }

  /** Every table name survives the lookup and the reverse search. */
  lemma KeyForHexOfHexForKey(name: string)
    requires HasName(Messages(), name)
    ensures KeyForHex(HexForKey(name)) == name
  {
    MessagesIdsDistinct();
    NameForIdOfIdForName(Messages(), name, 0, UnknownCommand);
  }

  /** Every table id survives the reverse search and the lookup. */
  lemma HexForKeyOfKeyForHex(hex: uint16)
    requires HasId(Messages(), hex)
    ensures HexForKey(KeyForHex(hex)) == hex
  {
    MessagesNamesDistinct();
    IdForNameOfNameForId(Messages(), hex, 0, UnknownCommand);
  }

  /** `hexForKey` returns 0 exactly for the names that are not in the table. */
  lemma HexForKeyZeroIff(name: string)
    ensures HexForKey(name) == 0 <==> !HasName(Messages(), name)
  {
    MessagesHaveNoZeroId();
    IdForNameIsNoneIff(Messages(), name, 0);
  }

  /** The id 0 has no name. */
  lemma KeyForHexZero()
    ensures KeyForHex(0) == UnknownCommand
  {
    MessagesHaveNoZeroId();
    NameForIdFinds(Messages(), 0, UnknownCommand);
  }

  /** `W_DISP_MODE` is entry 25, and no entry before it has that name. */
  lemma DispModeFirstNamed()
    ensures FirstNamed(Messages(), "W_DISP_MODE", 25)
  {
    assert forall j :: 0 <= j < 13 ==> MessageAt(j).name != "W_DISP_MODE";
    assert forall j :: 13 <= j < 25 ==> MessageAt(j).name != "W_DISP_MODE";
  }

  /** Entry 25 carries 0x08, and no entry before it does. */
  lemma DispModeFirstWithId()
    ensures FirstWithId(Messages(), 0x08, 25)
  {
    assert forall j :: 0 <= j < 25 ==> MessageAt(j).id != 0x08;
  }

  /** `hexForKey("W_DISP_MODE")` is 0x08. */
  lemma DispModeId()
    ensures HexForKey("W_DISP_MODE") == 0x08
  {
    DispModeFirstNamed();
    IdForNameFirst(Messages(), "W_DISP_MODE", 0, 25);
    DispModeEntry();
  }

  /** Entry 25 carries 0x08. */
  lemma DispModeEntry()
    ensures Messages()[25].id == 0x08
  {
  }

  /** `keyForHex(0x08)` names that command again. */
  lemma DispModeName()
    ensures KeyForHex(0x08) == "W_DISP_MODE"
  {
    DispModeFirstWithId();
    NameForIdFirst(Messages(), 0x08, UnknownCommand, 25);
  }

  // ---------------------------------------------------------------------
  // Building a command frame

  /** What `cmd_build` demands of its arguments for its copies and stores to stay in bounds. */
  predicate BuildArgsOk(pBuf: Option<seq<uint8>>, pSize: int, bufLength: int, cbSize: int) {
    if HasPayload(pBuf, pSize) then
      pSize <= |pBuf.value| && pSize <= MaxPayload && cbSize <= bufLength
    else
      HeaderLen <= bufLength
  }

  /** Bytes [5, len) of a frame: the part the checksum covers. */
  function Covered(msgId: uint16, reserved: seq<uint8>, payload: seq<uint8>): (c: seq<uint8>)
    requires |payload| <= MaxPayload
    ensures |c| == 2 + TsLen + 2 + |reserved| + |payload|
  {
    Le16((HeaderLen - LenOfs + |payload|) as uint16) + Zeros(TsLen) + Le16(msgId) + reserved + payload
  }

  /**
   * The buffer `cmd_buf` after a successful `cmd_build(msgId, payload)`,
   * given its contents `before`: the frame in the first `22 + |payload|`
   * bytes, whose reserved bytes are the old ones, and the old bytes after it.
   */
  function Frame(before: seq<uint8>, msgId: uint16, payload: seq<uint8>): (f: seq<uint8>)
    requires |payload| <= MaxPayload
    requires HeaderLen + |payload| <= |before|
    ensures |f| == |before|
  {
    var covered := Covered(msgId, before[ReservedOfs..PayloadOfs], payload);
    [Head] + Le32(CrcValue(covered)) + covered + before[HeaderLen + |payload|..]
  }

  /**
   * The outcome of `cmd_build(msgId, pBuf, pSize, cmd_buf, cbSize)` that
   * returned `len` and turned `before` into `after`: 0 and nothing written
   * when a payload does not fit `cbSize`, otherwise the frame length and
   * the frame.
   */
  ghost predicate Built(before: seq<uint8>, after: seq<uint8>, len: int,
                        msgId: uint16, pBuf: Option<seq<uint8>>, pSize: int, cbSize: int)
    requires BuildArgsOk(pBuf, pSize, |before|, cbSize)
  {
    var payload := PayloadOf(pBuf, pSize);
    if HasPayload(pBuf, pSize) && cbSize < HeaderLen + pSize then
      len == 0 && after == before
    else
      len == HeaderLen + |payload| && after == Frame(before, msgId, payload)
  }

  /** `std::copy` of the payload to offset 22. */
  method CopyPayload(cmdBuf: array<uint8>, payload: seq<uint8>)
    requires PayloadOfs + |payload| <= cmdBuf.Length
    modifies cmdBuf
    ensures cmdBuf[..PayloadOfs] == old(cmdBuf[..PayloadOfs])
    ensures cmdBuf[PayloadOfs..PayloadOfs + |payload|] == payload
    ensures cmdBuf[PayloadOfs + |payload|..] == old(cmdBuf[PayloadOfs + |payload|..])
  {
    forall i | 0 <= i < |payload| {
      cmdBuf[PayloadOfs + i] := payload[i];
    }
  }

  /** The stores of the header byte, the id, the packet length and the timestamp. */
  method WriteFields(cmdBuf: array<uint8>, msgId: uint16, len: int)
    requires HeaderLen <= len <= 0xFFFF && HeaderLen <= cmdBuf.Length
    modifies cmdBuf
    ensures cmdBuf[..LenOfs] == [Head] + old(cmdBuf[CrcOfs..LenOfs])
    ensures cmdBuf[LenOfs..] == Le16((len - LenOfs) as uint16) + Zeros(TsLen) + Le16(msgId) + old(cmdBuf[ReservedOfs..])
  {
    ghost var before := cmdBuf[..];
    cmdBuf[0] := Head;
    var id := Le16(msgId);
    cmdBuf[MsgIdOfs] := id[0];
    cmdBuf[MsgIdOfs + 1] := id[1];
    var packetLen := Le16((len - LenOfs) as uint16);
    cmdBuf[LenOfs] := packetLen[0];
    cmdBuf[LenOfs + 1] := packetLen[1];
    forall i | 0 <= i < TsLen {
      cmdBuf[TsOfs + i] := 0;
    }
    assert cmdBuf[..LenOfs] == [Head] + before[CrcOfs..LenOfs];
    ghost var fields := packetLen + Zeros(TsLen) + id + before[ReservedOfs..];
    assert forall k :: LenOfs <= k < cmdBuf.Length ==> cmdBuf[k] == fields[k - LenOfs];
  }

  /** The store of the little-endian CRC-32 of bytes [5, len) at offset 1. */
  method WriteCrc(cmdBuf: array<uint8>, len: int)
    requires LenOfs <= len <= cmdBuf.Length
    modifies cmdBuf
    ensures cmdBuf[..CrcOfs] == old(cmdBuf[..CrcOfs])
    ensures cmdBuf[CrcOfs..LenOfs] == Le32(CrcValue(old(cmdBuf[LenOfs..len])))
    ensures cmdBuf[LenOfs..] == old(cmdBuf[LenOfs..])
  {
    var crc := Le32(CrcValue(cmdBuf[LenOfs..len]));
    forall i | 0 <= i < 4 {
      cmdBuf[CrcOfs + i] := crc[i];
    }
  }

  /** `cmd_build` on a numeric message id. */
  method CmdBuild(msgId: uint16, pBuf: Option<seq<uint8>>, pSize: int, cmdBuf: array<uint8>, cbSize: int)
    returns (len: int)
    requires BuildArgsOk(pBuf, pSize, cmdBuf.Length, cbSize)
    modifies cmdBuf
    ensures Built(old(cmdBuf[..]), cmdBuf[..], len, msgId, pBuf, pSize, cbSize)
  {
    ghost var before := cmdBuf[..];
    ghost var payload := PayloadOf(pBuf, pSize);
    len := HeaderLen;
    if HasPayload(pBuf, pSize) {
      len := len + pSize;
      if cbSize < len {
        return 0;
      }
      CopyPayload(cmdBuf, pBuf.value[..pSize]);
    }
    ghost var copied := cmdBuf[..];
    WriteFields(cmdBuf, msgId, len);
    ghost var filled := cmdBuf[..];
    WriteCrc(cmdBuf, len);
    FrameSteps(before, msgId, payload, copied, filled, cmdBuf[..]);
  }

  /** After the payload copy, the bytes from the reserved field on are the old reserved bytes, the payload and the old tail. */
  lemma CopiedTail(before: seq<uint8>, copied: seq<uint8>, payload: seq<uint8>)
    requires HeaderLen + |payload| <= |before| == |copied|
    requires copied[..PayloadOfs] == before[..PayloadOfs]
    requires copied[PayloadOfs..HeaderLen + |payload|] == payload
    requires copied[HeaderLen + |payload|..] == before[HeaderLen + |payload|..]
    ensures copied[ReservedOfs..] == before[ReservedOfs..PayloadOfs] + payload + before[HeaderLen + |payload|..]
  {
    var s := copied[ReservedOfs..];
    Split3(s, PayloadOfs - ReservedOfs, HeaderLen + |payload| - ReservedOfs);
    assert s[..PayloadOfs - ReservedOfs] == copied[ReservedOfs..PayloadOfs];
    assert copied[ReservedOfs..PayloadOfs] == before[ReservedOfs..PayloadOfs];
  }

  /**
   * The three steps of `cmd_build` (payload copy, field stores, checksum
   * store) together leave `Frame(before, msgId, payload)`.
   */
  lemma FrameSteps(before: seq<uint8>, msgId: uint16, payload: seq<uint8>,
                   copied: seq<uint8>, filled: seq<uint8>, after: seq<uint8>)
    requires |payload| <= MaxPayload
    requires HeaderLen + |payload| <= |before| == |copied| == |filled| == |after|
    requires copied[..PayloadOfs] == before[..PayloadOfs]
    requires copied[PayloadOfs..HeaderLen + |payload|] == payload
    requires copied[HeaderLen + |payload|..] == before[HeaderLen + |payload|..]
    requires filled[..LenOfs] == [Head] + copied[CrcOfs..LenOfs]
    requires filled[LenOfs..] == Le16((HeaderLen + |payload| - LenOfs) as uint16) + Zeros(TsLen) + Le16(msgId) + copied[ReservedOfs..]
    requires after[..CrcOfs] == filled[..CrcOfs]
    requires after[CrcOfs..LenOfs] == Le32(CrcValue(filled[LenOfs..HeaderLen + |payload|]))
    requires after[LenOfs..] == filled[LenOfs..]
    ensures after == Frame(before, msgId, payload)
  {
    var len := HeaderLen + |payload|;
    var covered := Covered(msgId, before[ReservedOfs..PayloadOfs], payload);
    CopiedTail(before, copied, payload);
    var tail := covered + before[len..];
    assert filled[LenOfs..] == tail;
    SliceOfSuffix(filled, LenOfs, len - LenOfs, tail);
    assert tail[..len - LenOfs] == covered;
    assert after[..CrcOfs] == [Head];
    Split3(after, CrcOfs, LenOfs);
  }

  /** The `cmd_build` overload that takes a command name: the id is `hexForKey(name)`. */
  method CmdBuildByName(msgId: string, pBuf: Option<seq<uint8>>, pSize: int, cmdBuf: array<uint8>, cbSize: int)
    returns (len: int)
    requires BuildArgsOk(pBuf, pSize, cmdBuf.Length, cbSize)
    modifies cmdBuf
    ensures Built(old(cmdBuf[..]), cmdBuf[..], len, HexForKey(msgId), pBuf, pSize, cbSize)
  {
    var hexMsgId := HexForKey(msgId);
    len := CmdBuild(hexMsgId, pBuf, pSize, cmdBuf, cbSize);
  }

  /**
   * Where `cmd_build` puts each field: the header, the little-endian
   * length `len - 5`, zero timestamp bytes, the little-endian id, the
   * untouched reserved bytes, the payload, the untouched tail, and the
   * little-endian CRC-32 of exactly the bytes [5, len) of the result.
   */
  lemma FrameLayout(before: seq<uint8>, msgId: uint16, payload: seq<uint8>)
    requires |payload| <= MaxPayload
    requires HeaderLen + |payload| <= |before|
    ensures var f := Frame(before, msgId, payload);
      var len := HeaderLen + |payload|;
      && f[0] == Head
      && ReadLe16(f[LenOfs], f[LenOfs + 1]) as int == len - 5
      && f[TsOfs..TsOfs + TsLen] == Zeros(TsLen)
      && ReadLe16(f[MsgIdOfs], f[MsgIdOfs + 1]) == msgId
      && f[ReservedOfs..PayloadOfs] == before[ReservedOfs..PayloadOfs]
      && f[PayloadOfs..len] == payload
      && f[len..] == before[len..]
      && f[CrcOfs..LenOfs] == Le32(CrcValue(f[LenOfs..len]))
  {
    var f := Frame(before, msgId, payload);
    var len := HeaderLen + |payload|;
    var covered := Covered(msgId, before[ReservedOfs..PayloadOfs], payload);
    var crc := Le32(CrcValue(covered));
    assert f == [Head] + crc + covered + before[len..];
    assert f[LenOfs..len] == covered;
    assert f[CrcOfs..LenOfs] == crc;
    ReadLe16OfLe16((len - LenOfs) as uint16);
    ReadLe16OfLe16(msgId);
  }

  // ---------------------------------------------------------------------
  // Reading a received frame

  /** `get_msgId`: the little-endian id at offsets 15 and 16; defined only when `size > 16`. */
  function GetMsgId(buf: seq<uint8>, size: int): (id: uint16)
    requires MsgIdOfs + 1 < size <= |buf|
    ensures Le16(id) == buf[MsgIdOfs..MsgIdOfs + 2]
  {
    ReadLe16(buf[MsgIdOfs], buf[MsgIdOfs + 1])
  }

  /** `get_status_byte`: the first payload byte; defined only when `size > 22`. */
  function GetStatusByte(buf: seq<uint8>, size: int): (status: uint8)
    requires StatusOfs < size <= |buf|
    ensures status == buf[PayloadOfs]
  {
    buf[StatusOfs]
  }

  /** `get_length`: the little-endian packet length at offsets 5 and 6; defined only when `size > 6`. */
  function GetLength(buf: seq<uint8>, size: int): (len: uint16)
    requires LenOfs + 1 < size <= |buf|
    ensures Le16(len) == buf[LenOfs..LenOfs + 2]
  {
    ReadLe16(buf[LenOfs], buf[LenOfs + 1])
  }

  /** The contents of a `parsed_rsp` record. */
  datatype Rsp = Rsp(msgId: uint16, status: uint8, payload: seq<uint8>, payloadSize: uint16)

  /** The record as `parse_rsp` first resets it. */
  const ResetRsp: Rsp := Rsp(NoMsgId, 0, Zeros(PayloadCapacity), 0)

  /**
   * What `parse_rsp(buffer_in, size, ...)` needs to be defined: `size`
   * bytes to read, and, on a matching header, a buffer long enough for
   * the getters (`size > 22`) and for the payload copy, which reads
   * `payload_size` bytes from offset 22 without comparing them to `size`.
   */
  predicate ParseArgsOk(bufferIn: Option<seq<uint8>>, size: int) {
    match bufferIn
    case None => true
    case Some(buf) =>
      size <= |buf| &&
      (1 <= size && buf[0] == Head ==>
        StatusOfs < size &&
        var packetLen := ReadLe16(buf[LenOfs], buf[LenOfs + 1]) as int;
        (MinPacketLen <= packetLen && packetLen - (PayloadOfs - LenOfs) <= PayloadCapacity ==>
           PayloadOfs + packetLen - (PayloadOfs - LenOfs) <= |buf|))
  }

  /** The record `parse_rsp(bufferIn, size, ...)` leaves. */
  function ParseSpec(bufferIn: Option<seq<uint8>>, size: int): (r: Rsp)
    requires ParseArgsOk(bufferIn, size)
    ensures |r.payload| == PayloadCapacity
  {
    if bufferIn.None? || size < 1 then ResetRsp
    else
      var buf := bufferIn.value;
      if buf[0] != Head then ResetRsp
      else
        var msgId := GetMsgId(buf, size);
        var status := GetStatusByte(buf, size);
        var packetLen := GetLength(buf, size) as int;
        if packetLen < MinPacketLen then Rsp(msgId, status, Zeros(PayloadCapacity), 0)
        else
          var payloadSize := packetLen - (PayloadOfs - LenOfs);
          if payloadSize <= PayloadCapacity then
            Rsp(msgId, status, buf[PayloadOfs..PayloadOfs + payloadSize] + Zeros(PayloadCapacity - payloadSize),
                payloadSize as uint16)
          else
            Rsp(msgId, status, Zeros(PayloadCapacity), payloadSize as uint16)
  }

  /** A `parsed_rsp` record the caller owns and `parse_rsp` fills in. */
  class ParsedRsp {
    var msgId: uint16
    var status: uint8
    const payload: array<uint8>
    var payloadSize: uint16

    /** The payload array has the record's fixed size. */
    ghost predicate Valid()
      reads this
    {
      payload.Length == PayloadCapacity
    }

    /** The record's current contents. */
    function View(): (r: Rsp)
      reads this, payload
      requires Valid()
      ensures |r.payload| == PayloadCapacity
    {
      Rsp(msgId, status, payload[..], payloadSize)
    }

    constructor ()
      ensures Valid()
      ensures fresh(payload)
    {
      payload := new uint8[PayloadCapacity];
    }
  }

  /** `parse_rsp`: resets `result`, then fills it from the received buffer. */
  method ParseRsp(bufferIn: Option<seq<uint8>>, size: int, result: ParsedRsp)
    requires result.Valid()
    requires ParseArgsOk(bufferIn, size)
    modifies result, result.payload
    ensures result.Valid()
    ensures result.View() == ParseSpec(bufferIn, size)
  {
    result.msgId := NoMsgId;
    result.status := 0;
    result.payloadSize := 0;
    forall i | 0 <= i < result.payload.Length {
      result.payload[i] := 0;
    }
    assert result.payload[..] == Zeros(PayloadCapacity);

    if bufferIn.None? || size < 1 {
      return;
    }
    var buf := bufferIn.value;
    if buf[0] != Head {
      return;
    }

    result.msgId := GetMsgId(buf, size);
    result.status := GetStatusByte(buf, size);
    var packetLen := GetLength(buf, size) as int;
    if packetLen < MinPacketLen {
      return;
    }
    var payloadSize := packetLen - (PayloadOfs - LenOfs);
    result.payloadSize := payloadSize as uint16;
    if payloadSize <= result.payload.Length {
      forall i | 0 <= i < payloadSize {
        result.payload[i] := buf[PayloadOfs + i];
      }
      assert result.payload[..] == buf[PayloadOfs..PayloadOfs + payloadSize] + Zeros(PayloadCapacity - payloadSize);
    }
  }

  // ---------------------------------------------------------------------
  // Properties of parsing

  /** A null buffer, an empty one or a wrong header leave the record as reset. */
  lemma ParseRejects(bufferIn: Option<seq<uint8>>, size: int)
    requires ParseArgsOk(bufferIn, size)
    requires bufferIn.None? || size < 1 || bufferIn.value[0] != Head
    ensures ParseSpec(bufferIn, size) == Rsp(0xFFFF, 0, Zeros(PayloadCapacity), 0)
  {
  }

  /**
   * A packet length below 18 still yields the id and status, but no
   * payload; from 18 on the payload size is the length minus 17, and
   * the payload is copied exactly when that size is at most 200.
   */
  lemma ParsePayload(buf: seq<uint8>, size: int)
    requires ParseArgsOk(Some(buf), size)
    requires 1 <= size && buf[0] == Head
    ensures var r := ParseSpec(Some(buf), size);
      var packetLen := ReadLe16(buf[5], buf[6]) as int;
      && Le16(r.msgId) == buf[15..17]
      && r.status == buf[22]
      && (packetLen < 18 ==> r.payloadSize == 0 && r.payload == Zeros(200))
      && (packetLen >= 18 ==> r.payloadSize as int == packetLen - 17)
      && (packetLen >= 18 && packetLen - 17 <= 200 ==>
            r.payload[..packetLen - 17] == buf[22..packetLen + 5]
            && r.payload[packetLen - 17..] == Zeros(200 - (packetLen - 17)))
      && (packetLen - 17 > 200 ==> r.payload == Zeros(200))
  {
    var packetLen := ReadLe16(buf[5], buf[6]) as int;
    if packetLen >= 18 && packetLen - 17 <= 200 {
      var r := ParseSpec(Some(buf), size);
      assert r.payload == buf[22..packetLen + 5] + Zeros(200 - (packetLen - 17));
    }
  }

  /** The checksum bytes [1, 5) are never looked at: any value there parses alike. */
  lemma ParseIgnoresChecksum(buf: seq<uint8>, size: int, crc: seq<uint8>)
    requires |crc| == 4 && LenOfs <= |buf|
    requires ParseArgsOk(Some(buf), size)
    ensures ParseArgsOk(Some(buf[..CrcOfs] + crc + buf[LenOfs..]), size)
    ensures ParseSpec(Some(buf[..CrcOfs] + crc + buf[LenOfs..]), size) == ParseSpec(Some(buf), size)
  {
    var other := buf[..CrcOfs] + crc + buf[LenOfs..];
    assert other[0] == buf[0];
    assert other[LenOfs..] == buf[LenOfs..];
    assert forall k :: LenOfs <= k < |buf| ==> other[k] == buf[k];
    if 1 <= size && buf[0] == Head {
      var packetLen := ReadLe16(buf[5], buf[6]) as int;
      if MinPacketLen <= packetLen && packetLen - 17 <= PayloadCapacity {
        assert other[22..packetLen + 5] == buf[22..packetLen + 5];
      }
    }
  }

  /**
   * Building a frame with a payload of 1 to 200 bytes and parsing its
   * `22 + |payload|` bytes gives back the id, the payload and its size,
   * with the first payload byte as the status.
   */
  lemma BuildParseRoundTrip(before: seq<uint8>, msgId: uint16, payload: seq<uint8>)
    requires 1 <= |payload| <= PayloadCapacity
    requires HeaderLen + |payload| <= |before|
    ensures var f := Frame(before, msgId, payload);
      var len := HeaderLen + |payload|;
      && ParseArgsOk(Some(f), len)
      && ParseSpec(Some(f), len) == Rsp(msgId, payload[0], payload + Zeros(PayloadCapacity - |payload|), |payload| as uint16)
  {
    var f := Frame(before, msgId, payload);
    var len := HeaderLen + |payload|;
    FrameLayout(before, msgId, payload);
    assert f[PayloadOfs] == payload[0] by {
      assert f[PayloadOfs..len][0] == payload[0];
    }
    ReadLe16OfLe16(msgId);
  }

  /**
   * The display-mode command that `real_utilities.cpp` keeps commented out
   * in `main`: `W_DISP_MODE` with the payload 03 00 00 00, built into a
   * 1023-byte buffer and parsed back from its 26 bytes, reads as id 0x08,
   * status 3 and a 4-byte payload.
   */
  lemma DispModeRoundTrip(before: seq<uint8>)
    requires |before| == 1023
    ensures var f := Frame(before, HexForKey("W_DISP_MODE"), [3, 0, 0, 0]);
      && ParseArgsOk(Some(f), 26)
      && ParseSpec(Some(f), 26) == Rsp(0x08, 3, [3, 0, 0, 0] + Zeros(196), 4)
  {
    DispModeId();
    BuildParseRoundTrip(before, 0x08, [3, 0, 0, 0]);
  }
}
