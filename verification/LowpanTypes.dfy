/** Data shared by the 6LoWPAN modules: bytes, link addresses and unpacked headers. */
module LowpanTypes {

  datatype Option<+T> = None | Some(value: T)

  type byte = x: int | 0 <= x < 0x100

  type uint16 = x: int | 0 <= x < 0x1_0000

  type uint32 = x: int | 0 <= x < 0x1_0000_0000

  function Word(high: byte, low: byte): uint16 {
    high as int * 0x100 + low
  }

  type ShortAddr = s: seq<byte> | |s| == 2 witness [0, 0]

  type ExtAddr = s: seq<byte> | |s| == 8 witness [0, 0, 0, 0, 0, 0, 0, 0]

  /** An IEEE 802.15.4 address; two are equal exactly when the source's comparison returns zero. */
  datatype LinkAddr = NoAddr | Short(short: ShortAddr) | Extended(ext: ExtAddr)

  datatype MeshHeader = MeshHeader(hopLimit: byte, src: LinkAddr, dst: LinkAddr)

  datatype FragHeader = FragHeader(tag: uint16, size: uint16, offset: uint16)

  /** The size of the fixed IPv6 header. */
  const IPV6_HEADER_LENGTH: nat := 40

  /** The dispatch byte of an uncompressed IPv6 header, section 5.1 of RFC 4944. */
  const DISPATCH_IPV6: byte := 0x41

  /** The fields of section 5.3 of RFC 4944: an 11-bit size and an offset in units of 8 bytes. */
  predicate FitsFragFields(f: FragHeader) {
    f.size < 0x800 && f.offset % 8 == 0 && f.offset / 8 < 0x100
  }
}
