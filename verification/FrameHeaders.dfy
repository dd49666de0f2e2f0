/**
 The 6LoWPAN headers in front of a frame's payload (uc6LoWPANHeaderManipulation.c):
 a mesh header, a broadcast header and a fragmentation header, each optional, in the
 formats of sections 5.2, 5.3 and 11.1 of RFC 4944, with the polarity of the mesh
 address bits that the source uses (set means an extended address).
 */
module FrameHeaders {
  import opened LowpanTypes

  datatype Headers = Headers(
    hasMesh: bool, mesh: MeshHeader,
    hasBc0: bool, bc0: byte,
    hasFrag: bool, frag: FragHeader,
    nextOffset: byte)

  // Masks and patterns on the dispatch byte, written with division.
  predicate IsIphc(d: byte) { d / 32 == 3 }                        // d & 0xe0 == 0x60
  predicate IsIpv6(d: byte) { d == DISPATCH_IPV6 }                 // d & 0xff == 0x41
  predicate IsFragx(d: byte) { d / 64 == 3 && (d / 8) % 4 == 0 }   // d & 0xd8 == 0xc0
  predicate IsFragN(d: byte) { d / 8 == 28 }                       // d & 0xf8 == 0xe0
  predicate IsMesh(d: byte) { d / 64 == 2 }                        // d & 0xc0 == 0x80
  predicate IsBc0(d: byte) { d == 0x50 }                           // d & 0xff == 0x50

  predicate StopsUnpacking(d: byte) { IsIphc(d) || IsIpv6(d) }

  // ---------------------------------------------------------------------------
  // The formats on the wire, byte by byte
  // ---------------------------------------------------------------------------

  /** A fragmentation header lies at off of s and ends before end (section 5.3 of RFC 4944): a dispatch of 0xc0 to
      0xc7, or of 0xe0 to 0xe7 when an offset follows, whose low three bits are the high bits of the size; the
      low byte of the size; the tag, high byte first; and the offset in units of 8. */
  ghost predicate FragAt(s: seq<byte>, off: nat, f: FragHeader, end: nat) {
    && off + 4 <= end <= |s|
    && Word(s[off] % 8, s[off + 1]) == f.size % 0x800
    && Word(s[off + 2], s[off + 3]) == f.tag
    && if 0xe0 <= s[off] <= 0xe7 then end == off + 5 && s[off + 4] as int * 8 == f.offset % 0x800
       else 0xc0 <= s[off] <= 0xc7 && end == off + 4 && f.offset == 0
  }

  /** An address lies at off of s and ends before end: eight bytes or two. */
  ghost predicate AddrAt(s: seq<byte>, off: nat, a: LinkAddr, end: nat) {
    && off <= end <= |s|
    && match a
       case NoAddr => false
       case Short(short) => end == off + 2 && s[off..end] == short
       case Extended(ext) => end == off + 8 && s[off..end] == ext
  }

  /** A mesh header lies at off of s and ends before end (section 5.2 of RFC 4944): a dispatch of 0x80 to 0xbf with
      the bit 0x20 for an extended originator, the bit 0x10 for an extended final destination, and the
      hop limit, or 0xf when a byte follows that holds it; then the originator, then the final destination. */
  ghost predicate MeshAt(s: seq<byte>, off: nat, m: MeshHeader, end: nat) {
    && off < |s| && 0x80 <= s[off] <= 0xbf
    && (m.src.Extended? <==> 0x20 <= s[off] % 0x40)
    && (m.dst.Extended? <==> 0x10 <= s[off] % 0x20)
    && (if s[off] % 0x10 == 0xf then off + 1 < |s| && s[off + 1] == m.hopLimit else s[off] % 0x10 == m.hopLimit)
    && var at := if s[off] % 0x10 == 0xf then off + 2 else off + 1;
       var mid := if m.src.Extended? then at + 8 else at + 2;
       AddrAt(s, at, m.src, mid) && AddrAt(s, mid, m.dst, end)
  }

  // ---------------------------------------------------------------------------
  // The serialized form
  // ---------------------------------------------------------------------------

  function AddrBytes(a: LinkAddr): seq<byte> {
    match a
    case NoAddr => []
    case Short(s) => s
    case Extended(e) => e
  }

  function MeshDispatch(m: MeshHeader): byte {
    0x80 + (if m.src.Extended? then 0x20 else 0) + (if m.dst.Extended? then 0x10 else 0)
    + (if m.hopLimit < 0x0f then m.hopLimit else 0x0f)
  }

  function MeshBytes(m: MeshHeader): (r: Option<seq<byte>>)
    ensures r.Some? ==> 5 <= |r.value| <= 18
  {
    if m.src.NoAddr? || m.dst.NoAddr? then
      None
    else
      Some([MeshDispatch(m)] + (if m.hopLimit < 0x0f then [] else [m.hopLimit]) + AddrBytes(m.src) + AddrBytes(m.dst))
  }

  function Bc0Bytes(seqNo: byte): seq<byte> {
    [0x50, seqNo]
  }

  function FragBytes(f: FragHeader): (r: Option<seq<byte>>)
    ensures r.Some? ==> 4 <= |r.value| <= 5
  {
    var top := (f.size / 0x100) % 8;
    var middle := [f.size % 0x100, f.tag / 0x100, f.tag % 0x100];
    if f.offset == 0 then Some([0xc0 + top] + middle)
    else if f.offset % 8 != 0 then None
    else Some([0xe0 + top] + middle + [(f.offset / 8) % 0x100])
  }

  function MeshPart(h: Headers): (r: Option<seq<byte>>)
    ensures r.Some? ==> |r.value| <= 18
  {
    if h.hasMesh then MeshBytes(h.mesh) else Some([])
  }

  function Bc0Part(h: Headers): (r: seq<byte>)
    ensures |r| <= 2
  {
    if h.hasBc0 then Bc0Bytes(h.bc0) else []
  }

  function FragPart(h: Headers): (r: Option<seq<byte>>)
    ensures r.Some? ==> |r.value| <= 5
  {
    if h.hasFrag then FragBytes(h.frag) else Some([])
  }

  /** The headers as bytes, or None when one of them has no serialized form. */
  function HeaderBytes(h: Headers): (r: Option<seq<byte>>)
    ensures r.Some? ==> |r.value| <= 25
  {
    if MeshPart(h).Some? && FragPart(h).Some? then Some(MeshPart(h).value + Bc0Part(h) + FragPart(h).value) else None
  }

  // ---------------------------------------------------------------------------
  // Parsing
  // ---------------------------------------------------------------------------

  /** An address of the given kind at off, and the offset past it. */
  function ParseAddr(s: seq<byte>, off: nat, extended: bool): Option<(LinkAddr, nat)> {
    if extended then
      if off + 8 > |s| then None else Some((Extended(s[off..off + 8]), off + 8))
    else
      if off + 2 > |s| then None else Some((Short(s[off..off + 2]), off + 2))
  }

  /** The mesh header at off, and the offset past it. */
  function ParseMesh(s: seq<byte>, off: nat): (r: Option<(MeshHeader, nat)>)
    requires off < |s|
    ensures r.Some? ==> off < r.value.1 <= |s|
  {
    var d := s[off];
    if d % 16 == 0x0f && off + 1 >= |s| then
      None
    else
      var (hopLimit, at) := if d % 16 == 0x0f then (s[off + 1], off + 2) else (d % 16, off + 1);
      match ParseAddr(s, at, (d / 32) % 2 == 1)
      case None => None
      case Some((src, mid)) =>
        match ParseAddr(s, mid, (d / 16) % 2 == 1)
        case None => None
        case Some((dst, end)) => Some((MeshHeader(hopLimit, src, dst), end))
  }

  function ParseFrag(s: seq<byte>, off: nat): (r: Option<(FragHeader, nat)>)
    requires off < |s|
    ensures r.Some? ==> off < r.value.1 <= |s| && FitsFragFields(r.value.0)
  {
    if off + 4 > |s| then
      None
    else
      var size := (s[off] % 8) as int * 0x100 + s[off + 1];
      var tag := s[off + 2] as int * 0x100 + s[off + 3];
      if IsFragN(s[off]) then
        if off + 4 >= |s| then None else Some((FragHeader(tag, size, s[off + 4] as int * 8), off + 5))
      else
        Some((FragHeader(tag, size, 0), off + 4))
  }

  /** What unpacking the bytes from off yields, given the headers found so far. */
  function Parse(s: seq<byte>, off: nat, h: Headers): (r: Option<Headers>)
    requires off <= |s| < 0x100
    ensures r.Some? ==> off <= r.value.nextOffset <= |s|
    ensures r.Some? && h.hasFrag ==> r.value.hasFrag && r.value.frag == h.frag
    ensures r.Some? && r.value.hasFrag && !h.hasFrag ==> FitsFragFields(r.value.frag)
    decreases |s| - off
  {
    if off == |s| then
      None
    else
      var d := s[off];
      if IsIphc(d) || IsIpv6(d) then
        Some(h.(nextOffset := off))
      else if IsFragx(d) then
        if h.hasFrag then
          None
        else
          match ParseFrag(s, off)
          case None => None
          case Some((frag, end)) =>
            var next := h.(hasFrag := true, frag := frag);
            if frag.offset > 0 then Some(next.(nextOffset := end)) else Parse(s, end, next)
      else if IsMesh(d) then
        if h.hasMesh || h.hasBc0 || h.hasFrag then
          None
        else
          match ParseMesh(s, off)
          case None => None
          case Some((mesh, end)) => Parse(s, end, h.(hasMesh := true, mesh := mesh))
      else if IsBc0(d) then
        if h.hasBc0 || h.hasFrag || off + 1 >= |s| then None
        else Parse(s, off + 2, h.(hasBc0 := true, bc0 := s[off + 1]))
      else
        None
  }

  const NO_MESH := MeshHeader(0, NoAddr, NoAddr)

  const NO_FRAG := FragHeader(0, 0, 0)

  const EMPTY := Headers(false, NO_MESH, false, 0, false, NO_FRAG, 0)

  // ---------------------------------------------------------------------------
  // Round trip
  // ---------------------------------------------------------------------------

  /** The same headers, and the same fields of those that are present. */
  predicate SameHeaders(a: Headers, b: Headers) {
    && a.hasMesh == b.hasMesh && (a.hasMesh ==> a.mesh == b.mesh)
    && a.hasBc0 == b.hasBc0 && (a.hasBc0 ==> a.bc0 == b.bc0)
    && a.hasFrag == b.hasFrag && (a.hasFrag ==> a.frag == b.frag)
    && a.nextOffset == b.nextOffset
  }

  lemma ParseAddrBytes(pre: seq<byte>, a: LinkAddr, post: seq<byte>)
    requires !a.NoAddr?
    ensures ParseAddr(pre + AddrBytes(a) + post, |pre|, a.Extended?) == Some((a, |pre| + |AddrBytes(a)|))
  {
    var s := pre + AddrBytes(a) + post;
    assert s[|pre|..|pre| + |AddrBytes(a)|] == AddrBytes(a);
  }

  lemma MeshDispatchBits(m: MeshHeader)
    ensures var d := MeshDispatch(m);
            && IsMesh(d) && !IsIphc(d) && !IsIpv6(d) && !IsFragx(d)
            && ((d / 32) % 2 == 1 <==> m.src.Extended?) && ((d / 16) % 2 == 1 <==> m.dst.Extended?)
            && d % 16 == if m.hopLimit < 0x0f then m.hopLimit else 0x0f
  {
  }

  lemma ParseMeshBytes(pre: seq<byte>, m: MeshHeader, post: seq<byte>)
    requires MeshBytes(m).Some?
    ensures ParseMesh(pre + MeshBytes(m).value + post, |pre|) == Some((m, |pre| + |MeshBytes(m).value|))
  {
    var hop := if m.hopLimit < 0x0f then [] else [m.hopLimit];
    var front := pre + [MeshDispatch(m)] + hop;
    var s := pre + MeshBytes(m).value + post;
    MeshDispatchBits(m);
    assert s == front + AddrBytes(m.src) + (AddrBytes(m.dst) + post);
    assert s[|pre|] == MeshDispatch(m);
    assert m.hopLimit >= 0x0f ==> s[|pre| + 1] == m.hopLimit;
    ParseAddrBytes(front, m.src, AddrBytes(m.dst) + post);
    assert s == (front + AddrBytes(m.src)) + AddrBytes(m.dst) + post;
    ParseAddrBytes(front + AddrBytes(m.src), m.dst, post);
  }

  lemma FragDispatchBits(f: FragHeader)
    requires FitsFragFields(f)
    ensures FragBytes(f).Some?
    ensures var d := FragBytes(f).value[0];
            && IsFragx(d) && !IsIphc(d) && !IsIpv6(d)
            && (IsFragN(d) <==> f.offset > 0)
            && (d % 8) as int * 0x100 + FragBytes(f).value[1] == f.size
  {
  }

  lemma ParseFragBytes(pre: seq<byte>, f: FragHeader, post: seq<byte>)
    requires FitsFragFields(f)
    ensures FragBytes(f).Some?
    ensures ParseFrag(pre + FragBytes(f).value + post, |pre|) == Some((f, |pre| + |FragBytes(f).value|))
  {
    FragDispatchBits(f);
    var b := FragBytes(f).value;
    var s := pre + b + post;
    assert s[|pre|..|pre| + |b|] == b;
    assert forall i :: 0 <= i < |b| ==> s[|pre| + i] == b[i];
  }

  /** Where unpacking must stop: at a later fragment's data, or at the dispatch of what follows. */
  predicate Terminated(h: Headers, post: seq<byte>) {
    if h.hasFrag && h.frag.offset > 0 then true else |post| > 0 && StopsUnpacking(post[0])
  }

  lemma StepBc0(s: seq<byte>, off: nat, h: Headers)
    requires off + 1 < |s| < 0x100 && s[off] == 0x50 && !h.hasBc0 && !h.hasFrag
    ensures Parse(s, off, h) == Parse(s, off + 2, h.(hasBc0 := true, bc0 := s[off + 1]))
  {
  }

  lemma StepMesh(s: seq<byte>, off: nat, h: Headers, m: MeshHeader, end: nat)
    requires off < |s| < 0x100 && IsMesh(s[off]) && ParseMesh(s, off) == Some((m, end))
    requires !h.hasMesh && !h.hasBc0 && !h.hasFrag
    ensures end <= |s| && Parse(s, off, h) == Parse(s, end, h.(hasMesh := true, mesh := m))
  {
  }

  lemma StepFrag(s: seq<byte>, off: nat, h: Headers, f: FragHeader, end: nat)
    requires off < |s| < 0x100 && IsFragx(s[off]) && ParseFrag(s, off) == Some((f, end)) && !h.hasFrag
    ensures end <= |s|
    ensures var next := h.(hasFrag := true, frag := f);
            Parse(s, off, h) == if f.offset > 0 then Some(next.(nextOffset := end)) else Parse(s, end, next)
  {
  }

  lemma StepStop(s: seq<byte>, off: nat, h: Headers)
    requires off < |s| < 0x100 && StopsUnpacking(s[off])
    ensures Parse(s, off, h) == Some(h.(nextOffset := off))
  {
  }

  /** The fragmentation header, if there is one, and what follows it. */
  lemma {:induction false} ParseFromFrag(pre: seq<byte>, found: Headers, h: Headers, post: seq<byte>)
    requires !found.hasFrag && (h.hasFrag ==> FitsFragFields(h.frag)) && Terminated(h, post)
    requires FragPart(h).Some? && |pre + FragPart(h).value + post| < 0x100
    ensures var r := Parse(pre + FragPart(h).value + post, |pre|, found);
            r.Some? && SameHeaders(r.value, found.(hasFrag := h.hasFrag, frag := h.frag,
                                                   nextOffset := |pre + FragPart(h).value|))
  {
    hide Parse;
    var b := FragPart(h).value;
    var s := pre + b + post;
    var end := |pre + b|;
    if h.hasFrag {
      ParseFragBytes(pre, h.frag, post);
      FragDispatchBits(h.frag);
      assert s[|pre|] == b[0];
      StepFrag(s, |pre|, found, h.frag, end);
      if h.frag.offset == 0 {
        assert s[end] == post[0];
        StepStop(s, end, found.(hasFrag := true, frag := h.frag));
      }
    } else {
      assert s[end] == post[0];
      StepStop(s, end, found);
    }
  }

  /** The broadcast header, if there is one, and what follows it. */
  lemma ParseFromBc0(pre: seq<byte>, found: Headers, h: Headers, post: seq<byte>)
    requires !found.hasFrag && !found.hasBc0 && (h.hasFrag ==> FitsFragFields(h.frag)) && Terminated(h, post)
    requires FragPart(h).Some? && |pre + Bc0Part(h) + FragPart(h).value + post| < 0x100
    ensures var r := Parse(pre + Bc0Part(h) + FragPart(h).value + post, |pre|, found);
            r.Some? && SameHeaders(r.value, h.(hasMesh := found.hasMesh, mesh := found.mesh,
                                               nextOffset := |pre + Bc0Part(h) + FragPart(h).value|))
  {
    hide Parse, FragPart;
    var c := Bc0Part(h);
    var s := pre + c + FragPart(h).value + post;
    if h.hasBc0 {
      assert s[|pre|] == c[0] && s[|pre| + 1] == c[1];
      StepBc0(s, |pre|, found);
      ParseFromFrag(pre + c, found.(hasBc0 := true, bc0 := h.bc0), h, post);
    } else {
      assert pre + c == pre;
      ParseFromFrag(pre, found, h, post);
    }
  }

  /** What packing writes, unpacking reads back: the same bitmap and fields, and the offset
      past the headers, whatever headers are there and whatever `found` held before. */
  lemma {:induction false} RoundTrip(h: Headers, post: seq<byte>, found: Headers)
    requires HeaderBytes(h).Some? && (h.hasFrag ==> FitsFragFields(h.frag)) && Terminated(h, post)
    requires |HeaderBytes(h).value + post| < 0x100
    requires !found.hasMesh && !found.hasBc0 && !found.hasFrag
    ensures var r := Parse(HeaderBytes(h).value + post, 0, found);
            r.Some? && SameHeaders(r.value, h.(nextOffset := |HeaderBytes(h).value|))
  {
    hide Parse, ParseMesh, FragPart, Bc0Part;
    var a := MeshPart(h).value;
    var rest := Bc0Part(h) + FragPart(h).value + post;
    var s := HeaderBytes(h).value + post;
    assert s == a + Bc0Part(h) + FragPart(h).value + post;
    if h.hasMesh {
      assert s == [] + a + rest;
      ParseMeshBytes([], h.mesh, rest);
      MeshDispatchBits(h.mesh);
      assert s[0] == MeshDispatch(h.mesh);
      StepMesh(s, 0, found, h.mesh, |a|);
      ParseFromBc0(a, found.(hasMesh := true, mesh := h.mesh), h, post);
    } else {
      assert a == [];
      ParseFromBc0([], found, h, post);
    }
  }
}
