/**
 * Buffer growth of CMemoryUtilities: a buffer that is too small for a
 * request is dropped and replaced by a fresh one ten bytes larger than the
 * request; a large enough buffer is kept as it is.
 */
module MemoryUtilities {
  import opened Bytes

  /** The new length as written: requestedBytes + 10 in unsigned int arithmetic, which wraps past 2^32 - 1. */
  function GrownLength(requestedBytes: u32): (len: u32)
    ensures requestedBytes + 10 < U32_LIMIT ==> len == requestedBytes + 10
    ensures requestedBytes + 10 >= U32_LIMIT ==> len == requestedBytes + 10 - U32_LIMIT
  {
    Truncate(requestedBytes + 10, U32_LIMIT)
  }

  /** Near the top of the unsigned range the grown buffer is shorter than the request. */
  lemma GrownLengthWraps()
    ensures GrownLength(0xFFFF_FFFF) == 9
    ensures GrownLength(0xFFFF_FFFF) < 0xFFFF_FFFF
  {
  }

  /** The new length the growth evidently means: ten bytes of slack, saturating at the largest unsigned int. */
  function SaturatedLength(requestedBytes: u32): (len: u32)
    ensures len >= requestedBytes
    ensures requestedBytes + 10 < U32_LIMIT ==> len == GrownLength(requestedBytes)
  {
    if requestedBytes + 10 < U32_LIMIT then requestedBytes + 10 else U32_LIMIT - 1
  }

  /**
   * CheckBufferSize, both overloads: when the request exceeds the length the
   * caller tracks, the old buffer is discarded (its contents are not copied)
   * and a fresh one of the grown length takes its place; otherwise buffer
   * and length stay as they are.
   */
  method CheckBufferSize<T(0)>(buffer: array<T>, bufferLen: u32, requestedBytes: u32)
    returns (newBuffer: array<T>, newLen: u32)
    ensures newLen >= requestedBytes && newLen >= bufferLen
    ensures requestedBytes > bufferLen ==> newLen == SaturatedLength(requestedBytes) && fresh(newBuffer) && newBuffer.Length == newLen
    ensures requestedBytes <= bufferLen ==> newLen == bufferLen && newBuffer == buffer
  {
    newBuffer, newLen := buffer, bufferLen;
    if requestedBytes > bufferLen {
      newLen := SaturatedLength(requestedBytes);
      newBuffer := new T[newLen];
    }
  }

  /** The length a call leaves behind, as a function of the tracked length and the request. */
  function CheckedLength(bufferLen: u32, requestedBytes: u32): (len: u32)
  {
    if requestedBytes > bufferLen then SaturatedLength(requestedBytes) else bufferLen
  }

  /**
   * Growth never shrinks the buffer, covers the request, keeps a large
   * enough buffer, and asking again for the same size changes nothing.
   */
  lemma CheckedLengthGrows(bufferLen: u32, requestedBytes: u32)
    ensures CheckedLength(bufferLen, requestedBytes) >= bufferLen
    ensures CheckedLength(bufferLen, requestedBytes) >= requestedBytes
    ensures requestedBytes <= bufferLen <==> CheckedLength(bufferLen, requestedBytes) == bufferLen
    ensures CheckedLength(CheckedLength(bufferLen, requestedBytes), requestedBytes) == CheckedLength(bufferLen, requestedBytes)
  {
  }
}
