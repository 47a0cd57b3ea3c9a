# HID frame codec of real_utilities, in Dafny

The glasses that `real_utilities` drives talk over two HID interfaces, each
with its own frame format:

- the **control protocol** (class `protocol`, `protocol.cpp`), whose frames
  start with 0xFD and carry a 16-bit message id, an 8-byte timestamp, five
  reserved bytes and a payload whose first byte is the reply status;
- the **IMU protocol** (class `protocol3`, `protocol3.cpp`), whose frames
  start with 0xAA and carry an 8-bit message id and a payload.

Both formats store a little-endian packet length `len - 5` at offset 5 and
the little-endian CRC-32 of bytes `[5, len)` at offset 1. Each protocol
names its commands in a constant `std::map` (`MESSAGES`), with `hexForKey`
(name to id, 0 when absent) and `keyForHex` (id to name, `UNKNOWN_COMMAND`
when absent).

The model has one module per concern:

- `Bytes` holds the fixed-width integers and the little-endian layouts.
- `Crc32` is the CRC-32 of section 8 of RFC 1952. zlib's `crc32` computes this checksum.
- `Crc32Check` pins the standard check value.
- `Registry` holds the two searches over a command table.
- `Protocol` models the control protocol and `Protocol3` the IMU protocol.
- `ControlCapture` checks the checksum and the parse against the complete control frame that `real_utilities.cpp` spells out in its commented-out array `sbs_set`.
- `Wrappers` holds `Option`, which plays the role of a nullable pointer.
- `PayloadArgs` reads the `(p_buf, p_size)` argument pair that both `cmd_build` functions take.

Each protocol module is laid out the same way:

- `MessageAt`/`Messages` list the entries of `MESSAGES` in the map's
  ascending name order, which is the order `hexForKey` and `keyForHex` walk them.
- `HexForKey` and `KeyForHex` are those two searches.
- `CmdBuild` writes a frame into a caller array (`cmd_buf`) in place. It
  does so in the code's three steps: payload copy (`CopyPayload`), field
  stores (`WriteFields`) and checksum store (`WriteCrc`). It is proved
  against the specification function `Frame`.
- `ParseRsp` resets and fills a caller-owned `ParsedRsp` object (the
  `parsed_rsp` struct) in place. It is proved against the specification
  function `ParseSpec`.
- `FrameLayout` states where every field of a built frame lies.
  `BuildParseRoundTrip` states that parsing a built frame gives the id and
  payload back. The registry lemmas state the lookup round trips.

Notes on the source:

- The control `MESSAGES` map has 38 entries. All 38 names and all 38 ids
  are distinct, and no id is 0. The IMU map has 8 entries with the same
  properties.
- `cmd_build` checks capacity only when a payload is given. Without one it
  writes a 22-byte (control) or 8-byte (IMU) frame whatever `cb_size` says.
- The status of a control reply is the first payload byte (offset 22).
  `get_status_byte` has no result for a frame of 22 bytes or fewer, so a
  payload-less control frame cannot be parsed. The round trip is stated
  for payloads of 1 to 200 bytes.
- The IMU `get_msgId` guards with `size >= 7` but reads byte 7, so with
  exactly 7 received bytes it reads one byte beyond them. The model keeps
  this guard. It requires that byte to exist in the buffer.
  `GetMsgIdReadsPastSize` shows that the id then depends on a byte that was
  not received.
- `parse_rsp` copies `payload_size` bytes from the payload offset without
  comparing them with `size`. The model requires the buffer to hold
  them; the code reads them without a check.

## Model

| member | source | states |
|---|---|---|
| Bytes.Zeros | protocol.cpp:153-155 | `n` bytes, each zero (the timestamp `ts_buf` and the `std::fill` of the payload) |
| Bytes.Le16 | protocol.cpp:144-150 | two bytes, low byte first, whose weighted sum is the 16-bit value |
| Bytes.ReadLe16 | protocol.cpp:186-190 | the value `lo + 256 * hi` read back is the value whose little-endian image is `[lo, hi]` |
| Bytes.Le32 | protocol.cpp:162-164 | four bytes, least significant first, whose weighted sum is the 32-bit value (the image of a `uint32_t` on a little-endian host) |
| Crc32.UpdateCrc | protocol.cpp:157-158 | `update_crc` of RFC 1952: the register is inverted, run through the table loop and inverted again, so a checksum can be continued — `UpdateCrcConcat`, `RunConcat` |
| Crc32.Crc | protocol.cpp:157-158 | the CRC-32 that `crc32(crc32(0L, Z_NULL, 0), p, n)` computes, started from 0 — `CheckValue` (0xCBF43926 on "123456789"), `UpdateCrcConcat` |
| Crc32.CrcValue | protocol.cpp:157-158 | the `uint32_t` held by `crc` is the RFC 1952 CRC-32 of the covered bytes |
| Crc32.RunConcat | protocol.cpp:157-158 | the table loop over `a` followed by the loop over `b` is the loop over `a + b` |
| Crc32.UpdateCrcConcat | protocol.cpp:157-158 | continuing a checksum of `a` over `b` gives the checksum of `a + b`, so starting from `crc32(0, Z_NULL, 0)` and one call over the whole range is the CRC of that range |
| Crc32Check.CheckValue | protocol.cpp:157-158 | the CRC-32 of "123456789" is 0xCBF43926, the standard check value of the RFC 1952 checksum |
| Registry.IdForName | protocol.cpp:96-105 | the loop of `hexForKey` over the entries in order: the id of the first entry named `key`, or the default — `IdForNameFinds`, `IdForNameFirst` |
| Registry.NameForId | protocol.cpp:79-88 | the loop of `keyForHex` over the entries in order: the name of the first entry carrying `id`, or the default — `NameForIdFinds`, `NameForIdFirst` |
| Registry.IdForNameFinds | protocol.cpp:91-106 | the search by name returns the id of the first entry named `key` when there is one, and the default otherwise |
| Registry.NameForIdFinds | protocol.cpp:74-89 | the search by id returns the name of the first entry with that id when there is one, and the default otherwise |
| Registry.IdForNameFirst | protocol.cpp:96-102 | if entry `i` is the first one named `key`, the search returns its id |
| Registry.NameForIdFirst | protocol.cpp:80-86 | if entry `i` is the first one carrying `id`, the search returns its name |
| Registry.IdForNameAt | protocol.cpp:91-106 | in a table with unique names, searching entry `i`'s name returns entry `i`'s id |
| Registry.NameForIdAt | protocol.cpp:74-89 | in a table with unique ids, searching entry `i`'s id returns entry `i`'s name |
| Registry.NameForIdOfIdForName | protocol.cpp:74-106 | with unique ids, name to id to name gives back every table name |
| Registry.IdForNameOfNameForId | protocol.cpp:74-106 | with unique names, id to name to id gives back every table id |
| Registry.IdForNameIsNoneIff | protocol.cpp:91-106 | when no entry has the default id, the search returns the default exactly for names not in the table |
| Protocol.MessageAt | protocol.cpp:22-72 | entry `i` of the control `MESSAGES` map in its ascending name order — `MessagesIdsDistinct`, `MessagesNamesDistinct`, `MessagesHaveNoZeroId` |
| Protocol.Messages | protocol.cpp:22-72 | the 38 control entries as a sequence whose entry `i` is `MessageAt(i)` |
| Protocol.HexForKey | protocol.cpp:91-106 | the id of the first control entry named `key`, or 0 — `IdForNameFinds`, `HexForKeyZeroIff`, `HexForKeyOfKeyForHex` |
| Protocol.KeyForHex | protocol.cpp:74-89 | the name of the first control entry carrying `hex`, or "UNKNOWN_COMMAND" — `NameForIdFinds`, `KeyForHexZero`, `KeyForHexOfHexForKey` |
| Protocol.MessagesIdsDistinct | protocol.cpp:22-72 | the 38 control ids are pairwise distinct |
| Protocol.MessagesNamesDistinct | protocol.cpp:22-72 | the 38 control names are pairwise distinct |
| Protocol.MessagesHaveNoZeroId | protocol.cpp:22-72 | no control entry has id 0, the default of `hexForKey` |
| Protocol.KeyForHexOfHexForKey | protocol.cpp:74-106 | `keyForHex(hexForKey(n)) == n` for every control name `n` |
| Protocol.HexForKeyOfKeyForHex | protocol.cpp:74-106 | `hexForKey(keyForHex(h)) == h` for every control id `h` |
| Protocol.HexForKeyZeroIff | protocol.cpp:91-106 | `hexForKey(n)` is 0 if and only if `n` is not a control name |
| Protocol.KeyForHexZero | protocol.cpp:74-89 | `keyForHex(0)` is "UNKNOWN_COMMAND" |
| Protocol.DispModeFirstNamed | protocol.cpp:69 | `W_DISP_MODE` is the 26th entry in name order, and no earlier entry has that name |
| Protocol.DispModeFirstWithId | protocol.cpp:69 | the 26th entry carries 0x08, and no earlier entry does |
| Protocol.DispModeId | protocol.cpp:69 | `hexForKey("W_DISP_MODE")` is 0x08 |
| Protocol.DispModeName | protocol.cpp:69 | `keyForHex(0x08)` is "W_DISP_MODE" |
| PayloadArgs.PayloadOf | protocol.cpp:136-142 | the copied payload has `p_size` bytes when the buffer is non-null and `p_size > 0`, and is empty otherwise |
| Protocol.CopyPayload | protocol.cpp:141 | the payload lands at offset 22 and every other byte is unchanged |
| Protocol.WriteFields | protocol.cpp:144-155 | header 0xFD at 0, length `len - 5` at 5, eight zero bytes at 7, id at 15, bytes 1 to 4 and from 17 on unchanged |
| Protocol.WriteCrc | protocol.cpp:157-164 | bytes 1 to 4 become the little-endian CRC-32 of bytes `[5, len)` and nothing else changes |
| Protocol.FrameSteps | protocol.cpp:132-167 | the payload copy, the field stores and the checksum store together leave exactly `Frame` |
| Protocol.CmdBuild | protocol.cpp:132-167 | returns 0 and leaves the buffer unchanged exactly when a payload is given and `cb_size < 22 + p_size`; otherwise returns 22 plus the payload length and leaves the frame followed by the old tail |
| Protocol.CmdBuildByName | protocol.cpp:124-129 | the name overload has the outcome of `cmd_build(hexForKey(name), ...)` |
| Protocol.Frame | protocol.cpp:132-167 | the buffer after `cmd_build` writes a control frame over `before`, as long as `before` — `FrameLayout`, `FrameSteps`, `BuildParseRoundTrip` |
| Protocol.FrameLayout | protocol.cpp:132-167 | in a built frame: header 0xFD, length `len - 5`, zero timestamp, id at 15, reserved bytes 17 to 21 and everything from `len` on as before, payload at 22, and bytes 1 to 4 the little-endian CRC-32 of the frame's own bytes `[5, len)` |
| Protocol.GetMsgId | protocol.cpp:170-175 | when `size > 16`, the id whose little-endian image is bytes 15 and 16 |
| Protocol.GetStatusByte | protocol.cpp:178-183 | when `size > 22`, byte 22 |
| Protocol.GetLength | protocol.cpp:185-190 | when `size > 6`, the length whose little-endian image is bytes 5 and 6 |
| Protocol.ParseSpec | protocol.cpp:238-284 | the parsed record always holds a 200-byte payload |
| Protocol.ParsedRsp.View | protocol.h:7-12 | the record's contents, with its 200-byte payload array |
| Protocol.ParseRsp | protocol.cpp:238-284 | the record the caller passes ends up holding `ParseSpec(buffer, size)` |
| Protocol.ParseRejects | protocol.cpp:240-253 | a null buffer, `size < 1` or a header other than 0xFD leave id 0xFFFF, status 0, size 0 and 200 zero bytes |
| Protocol.ParsePayload | protocol.cpp:255-273 | on a matching header: id from bytes 15 and 16, status from byte 22; a length below 18 gives size 0 and no payload; otherwise size is length minus 17, copied from offset 22 exactly when it is at most 200, and zeros are kept with the oversized size otherwise |
| Protocol.ParseIgnoresChecksum | protocol.cpp:275-283 | whatever bytes 1 to 4 hold, the parsed record is the same |
| Protocol.BuildParseRoundTrip | protocol.cpp:132-284 | parsing a built frame with 1 to 200 payload bytes gives the id, the first payload byte as status, the payload padded with zeros, and its size |
| Protocol.DispModeRoundTrip | real_utilities.cpp:306-308 | the commented-out `W_DISP_MODE` call with payload 03 00 00 00, built into a 1023-byte buffer, parses from its 26 bytes as id 0x08, status 3 and payload size 4 |
| Protocol3.MessageAt | protocol3.cpp:21-30 | entry `i` of the IMU `MESSAGES` map in its ascending name order — `MessagesIdsDistinct`, `MessagesNamesDistinct`, `MessagesHaveNoZeroId` |
| Protocol3.Messages | protocol3.cpp:21-30 | the 8 IMU entries as a sequence whose entry `i` is `MessageAt(i)` |
| Protocol3.HexForKey | protocol3.cpp:50-65 | the id of the first IMU entry named `key`, or 0 — `IdForNameFinds`, `HexForKeyZeroIff`, `HexForKeyOfKeyForHex` |
| Protocol3.KeyForHex | protocol3.cpp:33-48 | the name of the first IMU entry carrying `hex`, or "UNKNOWN_COMMAND" — `NameForIdFinds`, `KeyForHexZero`, `KeyForHexOfHexForKey` |
| Protocol3.MessagesIdsDistinct | protocol3.cpp:21-30 | the 8 IMU ids are pairwise distinct |
| Protocol3.MessagesNamesDistinct | protocol3.cpp:21-30 | the 8 IMU names are pairwise distinct |
| Protocol3.MessagesHaveNoZeroId | protocol3.cpp:21-30 | no IMU entry has id 0, the default of `hexForKey` |
| Protocol3.KeyForHexOfHexForKey | protocol3.cpp:33-65 | `keyForHex(hexForKey(n)) == n` for every IMU name `n` |
| Protocol3.HexForKeyOfKeyForHex | protocol3.cpp:33-65 | `hexForKey(keyForHex(h)) == h` for every IMU id `h` |
| Protocol3.HexForKeyZeroIff | protocol3.cpp:50-65 | `hexForKey(n)` is 0 if and only if `n` is not an IMU name |
| Protocol3.KeyForHexZero | protocol3.cpp:33-48 | `keyForHex(0)` is "UNKNOWN_COMMAND" |
| Protocol3.StaticIdFirstNamed | protocol3.cpp:28 | `GET_STATIC_ID` is the fifth entry in name order, and no earlier entry has that name |
| Protocol3.StaticIdId | protocol3.cpp:28 | `hexForKey("GET_STATIC_ID")` is 0x1a |
| Protocol3.StaticIdName | protocol3.cpp:28 | `keyForHex(0x1a)` is "GET_STATIC_ID" |
| Protocol3.CopyPayload | protocol3.cpp:101 | the payload lands at offset 8 and every other byte is unchanged |
| Protocol3.WriteFields | protocol3.cpp:104-110 | header 0xAA at 0, length `len - 5` at 5, id at 7, bytes 1 to 4 and from 8 on unchanged |
| Protocol3.WriteCrc | protocol3.cpp:112-119 | bytes 1 to 4 become the little-endian CRC-32 of bytes `[5, len)` and nothing else changes |
| Protocol3.FrameSteps | protocol3.cpp:92-122 | the payload copy, the field stores and the checksum store together leave exactly `Frame` |
| Protocol3.CmdBuild | protocol3.cpp:92-122 | returns 0 and leaves the buffer unchanged exactly when a payload is given and `cb_size < 8 + p_size`; otherwise returns 8 plus the payload length and leaves the frame followed by the old tail |
| Protocol3.CmdBuildByName | protocol3.cpp:84-89 | the name overload has the outcome of `cmd_build(hexForKey(name), ...)` |
| Protocol3.Frame | protocol3.cpp:92-122 | the buffer after `cmd_build` writes an IMU frame over `before`, as long as `before` — `FrameLayout`, `FrameSteps`, `BuildParseRoundTrip` |
| Protocol3.FrameLayout | protocol3.cpp:92-122 | in a built frame: header 0xAA, length `len - 5`, id at 7, payload at 8, everything from `len` on as before, and bytes 1 to 4 the little-endian CRC-32 of the frame's own bytes `[5, len)` |
| Protocol3.GetMsgId | protocol3.cpp:125-130 | when `size >= 7`, byte 7 |
| Protocol3.GetMsgIdReadsPastSize | protocol3.cpp:127-128 | with `size == 7` the guard passes and two buffers that agree on the 7 received bytes give different ids |
| Protocol3.GetMsgIdReadsReceived | protocol3.cpp:125-130 | from `size == 8` on, the id depends only on the received bytes |
| Protocol3.GetLength | protocol3.cpp:132-137 | when `size > 6`, the length whose little-endian image is bytes 5 and 6 |
| Protocol3.ParseSpec | protocol3.cpp:179-223 | the parsed record always holds a 200-byte payload |
| Protocol3.ParsedRsp.View | protocol3.h:7-11 | the record's contents, with its 200-byte payload array |
| Protocol3.ParseRsp | protocol3.cpp:179-223 | the record the caller passes ends up holding `ParseSpec(buffer, size)` |
| Protocol3.ParseRejects | protocol3.cpp:181-193 | a null buffer, `size < 1` or a header other than 0xAA leave id 0xFF, size 0 and 200 zero bytes |
| Protocol3.ParsePayload | protocol3.cpp:195-212 | on a matching header: id from byte 7; a length below 3 gives size 0 and no payload; otherwise size is length minus 3, copied from offset 8 exactly when it is at most 200, and zeros are kept with the oversized size otherwise |
| Protocol3.ParseIgnoresChecksum | protocol3.cpp:214-222 | whatever bytes 1 to 4 hold, the parsed record is the same |
| Protocol3.BuildParseRoundTrip | protocol3.cpp:92-223 | parsing a built frame with at most 200 payload bytes, none included, gives the id, the payload padded with zeros, and its size |
| Protocol3.StaticIdRoundTrip | real_utilities.cpp:236-237 | `GET_STATIC_ID` without payload, built into a 1023-byte buffer, has length field 3 (8 bytes less 5) and parses from those 8 bytes as id 0x1a with payload size 0 |
| ControlCapture.CapturedCrc | real_utilities.cpp:368 | the CRC-32 of bytes [5, 26) of the frame in `sbs_set` is 0x9DDB60C2 |
| ControlCapture.StoredCrc | real_utilities.cpp:368 | 0x9DDB60C2 written little-endian is the C2 60 DB 9D stored at bytes [1, 5) of `sbs_set`'s frame |
| ControlCapture.CapturedChecksum | real_utilities.cpp:368 | the frame in `sbs_set` has length field 21 (its 26 bytes less 5) and stores the little-endian CRC-32 of bytes [5, 26) at [1, 5), as `cmd_build` lays them out |
| ControlCapture.CapturedParse | real_utilities.cpp:368 | `parse_rsp` accepts the 26-byte frame in `sbs_set` and reads id 0x08, status 3 and the 4-byte payload 03 00 00 00 |

## Left out

- `real_utilities.cpp` is not part of this model. It holds device discovery, `hid_write`/`hid_read`, timing, the calibration download loop and the command sequence of `main`. Its live protocol calls are all on the IMU interface: `GET_STATIC_ID`, `GET_CAL_DATA_LENGTH` and, inside the calibration loop, `CAL_DATA_GET_NEXT_SEGMENT`. The first is the concrete example `StaticIdRoundTrip`. The `W_DISP_MODE` call of `DispModeRoundTrip` and the raw frame `sbs_set` of the `ControlCapture` lemmas are commented out there.
- `print_summary_rsp`, `print_bytes`, `print_chars` and `listKnownCommands` only write to standard output. The "HEAD mismatch" message of `parse_rsp` is an early return in the model.
- zlib's `crc32` is foreign code. It is replaced by the CRC-32 defined in section 8 of RFC 1952, in that section's table-driven form. The model does not prove that form equal to a bit-by-bit polynomial division; `CheckValue` pins it to the standard check value instead.
- Storing the CRC copies the bytes of a `uint32_t` through a pointer. The model assumes a little-endian host, as on x86.
- The CRC that `parse_rsp` recomputes is discarded and affects nothing, so it is left out. So is its read of `packet_len` bytes from offset 5, which the preconditions do not constrain.
- The commented-out code is left out: the JavaScript block at the end of `protocol.cpp` and the disabled byte-swap lines.
- The getters fall off their end without a return value when `size` is too small. That is undefined behaviour, so the needed sizes are preconditions of `GetMsgId`, `GetStatusByte`, `GetLength` and, through `ParseArgsOk`, of `ParseSpec` and `ParseRsp`.
- CmdBuild: `len` is a `uint16_t` and `len += p_size` could wrap. The model requires `p_size <= 65535 - 22` (control) or `65535 - 8` (IMU) rather than modelling the wrapped length.
- CmdBuild: with a payload the model requires `cb_size` to be at most the length of `cmd_buf`, treating `cb_size` as the buffer's true capacity. Both callers in `real_utilities.cpp` pass `&cmd_buf[1]` with `sizeof(cmd_buf) - 1`, so this holds there. `cmd_build` itself writes only `22 + p_size` (control) or `8 + p_size` (IMU) bytes, and none when it returns 0. Without a payload the model requires the buffer to hold the header, which the code never checks.
- BuildParseRoundTrip (control): only payloads of 1 to 200 bytes are covered. A payload-less frame has no status byte, and a payload above 200 bytes is not copied back.
