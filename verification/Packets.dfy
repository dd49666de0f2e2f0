/**
 IPv6 packets: the fixed header and the payload, which the source keeps as a chain of
 chunks.  Here the payload is the concatenation of the chunks; module IoVec proves that
 reading, writing and comparing through the chain act on that concatenation as the
 functions below do.
 */
module Packets {
  import opened LowpanTypes
  import opened Sequences

  /** The part of data at off that falls into the header. */
  function HeaderShare(off: nat, data: seq<byte>): (n: nat)
    ensures n <= |data|
  {
    if off < IPV6_HEADER_LENGTH then Smaller(IPV6_HEADER_LENGTH - off, |data|) else 0
  }

  class Ipv6Packet {
    var header: seq<byte>
    var payload: seq<byte>
    ghost var holder: object?  // what the packet is being reassembled in, if anything

    constructor (header: seq<byte>, payload: seq<byte>)
      ensures this.header == header && this.payload == payload && holder == null
    {
      this.header := header;
      this.payload := payload;
      holder := null;
    }

    /** All bytes of the packet: the header, then the payload. */
    function Bytes(): seq<byte>
      reads `header, `payload
    {
      header + payload
    }

    ghost predicate Valid()
      reads `header
    {
      |header| == IPV6_HEADER_LENGTH
    }

    /** The payload length field of the IPv6 header, section 3 of RFC 2460. */
    function PayloadLength(): (n: uint16)
      requires Valid()
      reads this
    {
      header[4] as int * 0x100 + header[5]
    }

    function TotalLength(): nat
      requires Valid()
      reads this
    {
      PayloadLength() + IPV6_HEADER_LENGTH
    }

    /** The datagram: the header and the declared length of payload, which is in bytes 4 and 5 of the header. */
    function Datagram(): (d: seq<byte>)
      requires Valid() && PayloadLength() <= |payload|
      reads this
      ensures |d| == TotalLength()
      ensures d[..40] == header && d[40..] == payload[..Word(header[4], header[5])]
    {
      header + payload[..PayloadLength()]
    }
  }
}
