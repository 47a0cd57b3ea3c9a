/**
 * The `(p_buf, p_size)` argument pair of both `cmd_build` functions: a
 * possibly null pointer to the payload and the number of bytes to take.
 */
module PayloadArgs {
  import opened Wrappers
  import opened Bytes

  /** `cmd_build` takes the payload branch: a non-null buffer and a positive size. */
  predicate HasPayload(pBuf: Option<seq<uint8>>, pSize: int) {
    pBuf.Some? && pSize > 0
  }

  /** The payload bytes `cmd_build` copies: `pSize` bytes of `pBuf`, or none. */
  function PayloadOf(pBuf: Option<seq<uint8>>, pSize: int): (p: seq<uint8>)
    requires HasPayload(pBuf, pSize) ==> pSize <= |pBuf.value|
    ensures HasPayload(pBuf, pSize) ==> |p| == pSize
    ensures !HasPayload(pBuf, pSize) ==> p == []
  {
    if HasPayload(pBuf, pSize) then pBuf.value[..pSize] else []
  }
}
