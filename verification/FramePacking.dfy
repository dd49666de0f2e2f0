/**
 The packer and the unpacker of uc6LoWPANHeaderManipulation.c in place: they move an
 offset over a frame's payload buffer and write it, or the header structure, as they go.
 Their results are the serialized form and the parse of module FrameHeaders.
 */
module FramePacking {
  import opened LowpanTypes
  import opened Sequences
  import opened FrameHeaders
  import opened FrameLayout

  /** An IEEE 802.15.4 data frame, seen as its payload buffer and the payload's current length. */
  class Frame {
    const buffer: array<byte>
    var length: byte

    constructor (maxPayloadLen: byte)
      ensures fresh(buffer) && buffer.Length == maxPayloadLen && length == 0
    {
      buffer := new byte[maxPayloadLen];
      length := 0;
    }

    ghost predicate Valid()
      reads this
    {
      length <= buffer.Length < 0x100
    }

    function Payload(): seq<byte>
      requires Valid()
      reads this, buffer
    {
      buffer[..length]
    }
  }

  /** Writes an address at off, if it fits; returns the offset past it, or zero. */
  method PackAddr(a: LinkAddr, payload: array<byte>, off: byte) returns (end: byte)
    requires 0 < off <= payload.Length < 0x100
    modifies payload
    ensures end > 0 <==> !a.NoAddr? && off + |AddrBytes(a)| <= payload.Length
    ensures end > 0 ==>
              end == off + |AddrBytes(a)| && payload[..] == Splice(old(payload[..]), off, AddrBytes(a))
    ensures end == 0 ==> payload[..] == old(payload[..])
  {
    match a
    case Extended(ext) =>
      if off + 8 > payload.Length {
        return 0;
      }
      MemCpy(ext, payload, off);
      return off + 8;
    case Short(short) =>
      if off + 2 > payload.Length {
        return 0;
      }
      MemCpy(short, payload, off);
      return off + 2;
    case NoAddr =>
      return 0;
  }

  lemma MeshBytesAre(m: MeshHeader)
    ensures MeshBytes(m).Some? <==> !m.src.NoAddr? && !m.dst.NoAddr?
    ensures MeshBytes(m).Some? ==>
              var hop := if m.hopLimit < 0x0f then [] else [m.hopLimit];
              MeshBytes(m).value == [MeshDispatch(m)] + (hop + AddrBytes(m.src) + AddrBytes(m.dst))
  {
  }

  /** Writes a mesh header at off and returns its size, or zero when it does not fit or has a
      missing address; what precedes off is kept. */
  method PackMeshHdr(m: MeshHeader, payload: array<byte>, off: byte) returns (headerSize: byte)
    requires off <= payload.Length < 0x100 && off < 0xff
    modifies payload
    ensures headerSize > 0 <==> MeshBytes(m).Some? && off + |MeshBytes(m).value| <= payload.Length
    ensures headerSize > 0 ==>
              headerSize == |MeshBytes(m).value| && payload[..] == Splice(old(payload[..]), off, MeshBytes(m).value)
    ensures headerSize > 0 ==>
              MeshAt(payload[..], off, m, off + headerSize) && (payload[off] % 0x10 == 0xf <==> m.hopLimit >= 15)
  {
    hide Splice, MeshAt, AddrAt, MeshBytes;
    MeshBytesAre(m);
    ghost var was := payload[..];
    var dispatch: byte := 0x80;
    var at := off + 1;
    if at > payload.Length {
      return 0;
    }
    ghost var hop: seq<byte> := [];
    if m.hopLimit < 0x0f {
      dispatch := dispatch + m.hopLimit;
      SpliceNothing(was, off + 1);
    } else {
      dispatch := dispatch + 0x0f;
      if at >= payload.Length {
        return 0;
      }
      PutByte(m.hopLimit, payload, at);
      at := at + 1;
      hop := [m.hopLimit];
    }
    if m.src.Extended? {
      dispatch := dispatch + 0x20;
    }
    at := PackAddr(m.src, payload, at);
    if at == 0 {
      return 0;
    }
    SpliceNext(was, off + 1, hop, AddrBytes(m.src));
    if m.dst.Extended? {
      dispatch := dispatch + 0x10;
    }
    at := PackAddr(m.dst, payload, at);
    if at == 0 {
      return 0;
    }
    ghost var tail := hop + AddrBytes(m.src) + AddrBytes(m.dst);
    SpliceNext(was, off + 1, hop + AddrBytes(m.src), AddrBytes(m.dst));
    PutByte(dispatch, payload, off);
    SpliceFront(was, off, dispatch, tail);
    assert dispatch == MeshDispatch(m);
    MeshBytesSpliced(was, off, m);
    return at - off;
  }

  method PackBc0Hdr(seqNo: byte, payload: array<byte>, off: byte) returns (headerSize: byte)
    requires off <= payload.Length < 0x100
    modifies payload
    ensures headerSize > 0 <==> off + 2 <= payload.Length
    ensures headerSize > 0 ==>
              headerSize == 2 && payload[..] == Splice(old(payload[..]), off, Bc0Bytes(seqNo))
  {
    if off + 2 > payload.Length {
      return 0;
    }
    payload[off] := 0x50;
    payload[off + 1] := seqNo;
    return 2;
  }

  /** Writes a fragmentation header at off and returns its size, or zero when it does not fit
      or its offset is no multiple of 8; a size or an offset too wide for its field is truncated. */
  method PackFragxHdr(f: FragHeader, payload: array<byte>, off: byte) returns (headerSize: byte)
    requires off <= payload.Length < 0x100 && off < 0xff
    modifies payload
    ensures headerSize > 0 <==> FragBytes(f).Some? && off + |FragBytes(f).value| <= payload.Length
    ensures headerSize > 0 ==>
              headerSize == |FragBytes(f).value| && payload[..] == Splice(old(payload[..]), off, FragBytes(f).value)
    ensures headerSize > 0 ==>
              FragAt(payload[..], off, f, off + headerSize) && (payload[off] >= 0xe0 <==> f.offset > 0)
  {
    var at := off + 1;
    if at + 3 > payload.Length {
      return 0;
    }
    var dispatch: byte := (f.size / 0x100) % 8;
    payload[at] := f.size % 0x100;
    at := at + 1;
    payload[at] := f.tag / 0x100;
    at := at + 1;
    payload[at] := f.tag % 0x100;
    at := at + 1;
    if f.offset > 0 {
      if f.offset % 8 != 0 || at >= payload.Length {
        return 0;
      }
      payload[at] := (f.offset / 8) % 0x100;
      at := at + 1;
      dispatch := 0xe0 + dispatch;
    } else {
      dispatch := 0xc0 + dispatch;
    }
    payload[off] := dispatch;
    FragBytesSpliced(old(payload[..]), off, f);
    return at - off;
  }

  /** Reads an address at off; returns it and the offset past it, unless it is cut off. */
  method UnpackAddr(s: seq<byte>, off: byte, extended: bool) returns (r: Option<(LinkAddr, byte)>)
    requires off <= |s| < 0x100
    ensures r == ParseAddr(s, off, extended)
  {
    if extended {
      if off + 8 > |s| {
        return None;
      }
      return Some((Extended(s[off..off + 8]), off + 8));
    } else {
      if off + 2 > |s| {
        return None;
      }
      return Some((Short(s[off..off + 2]), off + 2));
    }
  }

  method UnpackMeshHdr(s: seq<byte>, off: byte) returns (r: Option<(MeshHeader, byte)>)
    requires off < |s| < 0x100
    ensures r == ParseMesh(s, off)
    ensures IsMesh(s[off]) ==> forall m, end: byte :: r == Some((m, end)) <==> MeshAt(s, off, m, end)
  {
    hide MeshAt, AddrAt;
    ParsesMeshAsLaidOut(s, off);
    var dispatch := s[off];
    var at := off + 1;
    var hopLimit := dispatch % 16;
    if hopLimit == 0x0f {
      if at >= |s| {
        return None;
      }
      hopLimit := s[at];
      at := at + 1;
    }
    var src := UnpackAddr(s, at, (dispatch / 32) % 2 == 1);
    if src.None? {
      return None;
    }
    var dst := UnpackAddr(s, src.value.1, (dispatch / 16) % 2 == 1);
    if dst.None? {
      return None;
    }
    return Some((MeshHeader(hopLimit, src.value.0, dst.value.0), dst.value.1));
  }

  method UnpackFragxHdr(s: seq<byte>, off: byte) returns (r: Option<(FragHeader, byte)>)
    requires off < |s| < 0x100
    ensures r == ParseFrag(s, off)
    ensures IsFragx(s[off]) ==>
              forall f, end: byte :: r == Some((f, end)) <==> FitsFragFields(f) && FragAt(s, off, f, end)
  {
    var dispatch := s[off];
    var at := off + 1;
    if at + 3 > |s| {
      return None;
    }
    var tmp: int := dispatch % 8;
    var size: uint16 := tmp * 0x100 + s[at];
    at := at + 1;
    tmp := s[at];
    at := at + 1;
    var tag: uint16 := tmp * 0x100 + s[at];
    at := at + 1;
    if IsFragN(dispatch) {
      if at >= |s| {
        return None;
      }
      tmp := s[at];
      return Some((FragHeader(tag, size, tmp * 8), at + 1));
    }
    return Some((FragHeader(tag, size, 0), at));
  }

  /** The header structure; the three presence flags are the source's bitmap. */
  class LowpanHeaders {
    var hasMesh: bool
    var hasBc0: bool
    var hasFrag: bool
    var mesh: MeshHeader
    var bc0: byte
    var frag: FragHeader
    var nextOffset: byte

    function Value(): Headers
      reads this
    {
      Headers(hasMesh, mesh, hasBc0, bc0, hasFrag, frag, nextOffset)
    }

    constructor ()
      ensures !hasMesh && !hasBc0 && !hasFrag && nextOffset == 0
    {
      hasMesh, hasBc0, hasFrag, nextOffset := false, false, false, 0;
      mesh, bc0, frag := NO_MESH, 0, NO_FRAG;
    }

    method AddMeshHeader(hopLimit: byte, src: LinkAddr, dst: LinkAddr)
      modifies this
      ensures Value() == old(Value()).(hasMesh := true, mesh := MeshHeader(hopLimit, src, dst))
    {
      hasMesh := true;
      mesh := MeshHeader(hopLimit, src, dst);
    }

    method AddBc0Header(seqNo: byte)
      modifies this
      ensures Value() == old(Value()).(hasBc0 := true, bc0 := seqNo)
    {
      hasBc0 := true;
      bc0 := seqNo;
    }

    method AddFragHeader(tag: uint16, size: uint16, offset: uint16)
      modifies this
      ensures Value() == old(Value()).(hasFrag := true, frag := FragHeader(tag, size, offset))
    {
      hasFrag := true;
      frag := FragHeader(tag, size, offset);
    }

    // -- packing ----------------------------------------------------------------

    /** Writes the headers to the start of the frame's payload buffer.  It succeeds exactly
        when they have a serialized form that fits the buffer; the payload length is left alone. */
    method Pack(frame: Frame) returns (ok: bool)
      requires frame.Valid()
      modifies this`nextOffset, frame.buffer
      ensures var b := HeaderBytes(old(Value())); ok <==> b.Some? && |b.value| <= frame.buffer.Length
      ensures ok ==> var b := HeaderBytes(old(Value())).value;
                     nextOffset == |b| && frame.buffer[..] == Splice(old(frame.buffer[..]), 0, b)
      ensures !ok ==> nextOffset == old(nextOffset)
    {
      hide Splice, MeshPart, Bc0Part, FragPart;
      var payload := frame.buffer;
      ghost var h := Value();
      ghost var was := payload[..];
      var ok1, off1 := PackMeshPart(payload);
      if !ok1 {
        return false;
      }
      var ok2, off2 := PackBc0Part(payload, off1);
      if !ok2 {
        return false;
      }
      SpliceNext(was, 0, MeshPart(h).value, Bc0Part(h));
      var ok3, off3 := PackFragPart(payload, off2);
      if !ok3 {
        return false;
      }
      SpliceNext(was, 0, MeshPart(h).value + Bc0Part(h), FragPart(h).value);
      nextOffset := off3;
      return true;
    }

    method PackMeshPart(payload: array<byte>) returns (ok: bool, end: byte)
      requires payload.Length < 0x100
      modifies payload
      ensures ok <==> MeshPart(Value()).Some? && |MeshPart(Value()).value| <= payload.Length
      ensures ok ==> end == |MeshPart(Value()).value|
      ensures ok ==> payload[..] == Splice(old(payload[..]), 0, MeshPart(Value()).value)
    {
      if hasMesh {
        end := PackMeshHdr(mesh, payload, 0);
        return end > 0, end;
      }
      return true, 0;
    }

    method PackBc0Part(payload: array<byte>, off: byte) returns (ok: bool, end: byte)
      requires off <= payload.Length < 0x100
      modifies payload
      ensures ok <==> off + |Bc0Part(Value())| <= payload.Length
      ensures ok ==> end == off + |Bc0Part(Value())|
      ensures ok ==> payload[..] == Splice(old(payload[..]), off, Bc0Part(Value()))
    {
      if hasBc0 {
        var headerSize := PackBc0Hdr(bc0, payload, off);
        return headerSize > 0, if headerSize > 0 then off + headerSize else 0;
      }
      return true, off;
    }

    method PackFragPart(payload: array<byte>, off: byte) returns (ok: bool, end: byte)
      requires off <= payload.Length < 0x100 && off < 0xff
      modifies payload
      ensures ok <==> FragPart(Value()).Some? && off + |FragPart(Value()).value| <= payload.Length
      ensures ok ==> end == off + |FragPart(Value()).value|
      ensures ok ==> payload[..] == Splice(old(payload[..]), off, FragPart(Value()).value)
    {
      if hasFrag {
        var headerSize := PackFragxHdr(frag, payload, off);
        return headerSize > 0, if headerSize > 0 then off + headerSize else 0;
      }
      return true, off;
    }

    // -- unpacking --------------------------------------------------------------

    /** Reads the headers at the start of the frame's payload.  On an error the bitmap and the
        offset are zero, but fields read before the error keep what was read. */
    method Unpack(frame: Frame) returns (ok: bool)
      requires frame.Valid()
      modifies this
      ensures var found := old(Value()).(hasMesh := false, hasBc0 := false, hasFrag := false, nextOffset := 0);
              var parsed := Parse(old(frame.Payload()), 0, found);
              && (ok <==> parsed.Some?)
              && (ok ==> Value() == parsed.value)
              && (!ok ==> !hasMesh && !hasBc0 && !hasFrag && nextOffset == 0)
      ensures var found := old(Value()).(hasMesh := false, hasBc0 := false, hasFrag := false, nextOffset := 0);
              && (ok ==> Extends(found, Value()) && Layout(old(frame.Payload()), Value()))
              && (!ok ==> forall h :: !(Extends(found, h) && Layout(old(frame.Payload()), h)))
    {
      hide Layout, Extends, ParseFrag, ParseMesh, MeshAt, FragAt;
      var s := frame.Payload();
      hasMesh, hasBc0, hasFrag, nextOffset := false, false, false, 0;
      ghost var goal := Parse(s, 0, Value());
      ParsesAsLaidOut(s, Value());
      var off: byte := 0;
      while off < |s|
        invariant off <= |s| < 0x100
        invariant nextOffset == 0 && goal == Parse(s, off, Value())
        decreases |s| - off
      {
        var d := s[off];
        if IsIphc(d) || IsIpv6(d) {
          nextOffset := off;
          return true;
        } else if IsFragx(d) {
          if hasFrag {
            break;
          }
          hasFrag := true;
          var header := UnpackFragxHdr(s, off);
          if header.None? {
            break;
          }
          frag := header.value.0;
          off := header.value.1;
          if frag.offset > 0 {
            nextOffset := off;
            return true;
          }
        } else if IsMesh(d) {
          if hasMesh || hasBc0 || hasFrag {
            break;
          }
          hasMesh := true;
          var header := UnpackMeshHdr(s, off);
          if header.None? {
            break;
          }
          mesh := header.value.0;
          off := header.value.1;
        } else if IsBc0(d) {
          if hasBc0 || hasFrag {
            break;
          }
          hasBc0 := true;
          if off + 1 >= |s| {
            break;
          }
          bc0 := s[off + 1];
          off := off + 2;
        } else {
          break;
        }
      }
      hasMesh, hasBc0, hasFrag, nextOffset := false, false, false, 0;
      ok := false;
    }
  }

}
