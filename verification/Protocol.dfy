/** Constants and frames of the wire protocol. */
module Protocol {
  import opened Bytes
  import Crc

  const MAGIC0: byte := 0xAA
  const MAGIC1: byte := 0x55
  const BUFFER_SIZE: nat := 1024
  const HEADER_LEN: nat := 6
  const CRC_LEN: nat := 2
  const MAX_PAYLOAD: nat := BUFFER_SIZE - HEADER_LEN - CRC_LEN
  const MAX_STR_SIZE: nat := 128

  const REGISTER: byte := 0x01
  const DATA: byte := 0x02
  const ACK: byte := 0x03
  const REGISTER_DONE: byte := 0x04
  const DISCOVER: byte := 0x05

  const QOS_COUNT: nat := 6

  const ACK_OK: byte := 0x00
  const ACK_UNSUPPORTED_QOS: byte := 0x01
  const ACK_MALFORMED: byte := 0x02

  type wirelength = n: nat | n < 0x1_0000

  datatype Header = Header(kind: byte, topicId: byte, length: wirelength)

  /** A delivered frame: the payload has the length its header announced. */
  datatype Frame = Frame(kind: byte, topicId: byte, payload: seq<byte>) {
    predicate Sendable() {
      |payload| <= BUFFER_SIZE
    }

    function Hdr(): Header
      requires Sendable()
    {
      Header(kind, topicId, |payload|)
    }
  }

  function HeaderBytes(h: Header): (s: seq<byte>)
    ensures |s| == HEADER_LEN
  {
    [MAGIC0, MAGIC1, h.kind, h.topicId] + PutLength(h.length)
  }

  /** What the encoder writes for a header and a payload, which it does not compare. */
  function EncodeRaw(h: Header, payload: seq<byte>): (s: seq<byte>)
    ensures |s| == HEADER_LEN + |payload| + CRC_LEN
  {
    HeaderBytes(h) + payload + PutU16(Crc.Of(HeaderBytes(h) + payload))
  }

  function Encode(f: Frame): (s: seq<byte>)
    requires f.Sendable()
    ensures |s| == HEADER_LEN + |f.payload| + CRC_LEN
  {
    EncodeRaw(f.Hdr(), f.payload)
  }

  lemma SameEncoding(f: Frame)
    requires f.Sendable()
    ensures Encode(f) == EncodeRaw(f.Hdr(), f.payload)
  {
  }
}
