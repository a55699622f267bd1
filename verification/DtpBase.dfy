/** Constants, bytes and wire segments shared by the two halves of a D2TP connection.

    Sequence numbers are counted from the first byte after the key exchange and do not wrap
    (libdtp/src/dtp_socket.c declares wrap-around unsupported), so they are natural numbers.
 */
module DtpBase {

  type byte = b: int | 0 <= b < 256

  const DTP_MTU := 1472
  const DTP_HDR_SIZE := 20
  const MAX_PAYLOAD := DTP_MTU - DTP_HDR_SIZE
  const TWO_32 := 0x1_0000_0000
  const TWO_31 := 0x8000_0000

  /** What one endpoint can put on the wire in the modelled direction. */
  datatype Segment = Data(seqNum: nat, payload: seq<byte>) | Fin(seqNum: nat)

  function Min(a: int, b: int): (r: int) {
    if a < b then a else b
  }

  function Max(a: int, b: int): (r: int) {
    if a < b then b else a
  }

  /** A buffer after `part` was copied to offset `off`. */
  function Splice(buf: seq<byte>, off: nat, part: seq<byte>): (r: seq<byte>)
    requires off + |part| <= |buf|
    ensures |r| == |buf|
    ensures forall i :: 0 <= i < |buf| ==> r[i] == if off <= i < off + |part| then part[i - off] else buf[i]
  {
    buf[..off] + part + buf[off + |part|..]
  }

  /** A buffer after the `len` bytes at offset `from` were moved to its start. */
  function Slide(buf: seq<byte>, from: nat, len: nat): (r: seq<byte>)
    requires from + len <= |buf|
    ensures |r| == |buf|
    ensures forall i :: 0 <= i < |buf| ==> r[i] == if i < len then buf[from + i] else buf[i]
  {
    buf[from..from + len] + buf[len..]
  }

  /** memcpy of `src` to `dst + off`. */
  method Memcpy(dst: array<byte>, off: nat, src: seq<byte>)
    requires off + |src| <= dst.Length
    modifies dst
    ensures dst[..] == Splice(old(dst[..]), off, src)
  {
    forall i | 0 <= i < |src| {
      dst[off + i] := src[i];
    }
  }

  /** memmove of `dst[from .. from + len]` to the start of `dst`. */
  method MemmoveToFront(dst: array<byte>, from: nat, len: nat)
    requires from + len <= dst.Length
    modifies dst
    ensures dst[..] == Slide(old(dst[..]), from, len)
  {
    forall i | 0 <= i < len {
      dst[i] := dst[from + i];
    }
  }
}
