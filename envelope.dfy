/**
 * The packet envelope as the hand-written codecs use it. Each `write`
 * builds a header for its (category, subtype) with default flags and appends
 * the payload to it; each `read` is handed the reader positioned after the
 * header. The header's own byte layout belongs to `PacketHeader::write`,
 * which is not part of this model, so it is a parameter: a `HeaderWriter`
 * maps the header and the protocol-generation switch (`is_ngs`) to bytes.
 */
module Envelope {
  import opened Bytes

  /** Category and subtype; the flags are always `Flags::default()` here. */
  datatype PacketHeader = PacketHeader(category: byte, subtype: byte)

  type HeaderWriter = (PacketHeader, bool) -> seq<byte>

  /** The header bytes followed by the payload, as each `write` returns them. */
  function Framed(writeHeader: HeaderWriter, header: PacketHeader, isNgs: bool, payload: seq<byte>): (buf: seq<byte>)
    ensures |buf| == |writeHeader(header, isNgs)| + |payload|
  {
    writeHeader(header, isNgs) + payload
  }

  /** What a reader positioned after the header sees of a framed packet. */
  function PayloadOf(writeHeader: HeaderWriter, header: PacketHeader, isNgs: bool, buf: seq<byte>): (r: seq<byte>)
    ensures writeHeader(header, isNgs) <= buf ==> buf == writeHeader(header, isNgs) + r
    ensures |r| <= |buf|
  {
    Drop(buf, |writeHeader(header, isNgs)|)
  }

  /** Framing and then skipping the header gives the payload back, whatever the header bytes are. */
  lemma PayloadOfFramed(writeHeader: HeaderWriter, header: PacketHeader, isNgs: bool, payload: seq<byte>)
    ensures PayloadOf(writeHeader, header, isNgs, Framed(writeHeader, header, isNgs, payload)) == payload
  {
    var h := writeHeader(header, isNgs);
    if payload != [] {
      assert (h + payload)[|h|..] == payload;
    }
  }
}
