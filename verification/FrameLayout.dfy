/**
 What a frame looks like on the wire, and that unpacking accepts exactly such frames: a mesh header,
 a broadcast header and a fragmentation header, each optional and in this order, up to the dispatch of
 a payload or, in a fragment that is not the first, up to its data.
 The layout is stated byte by byte, without the functions that serialize and parse.
 */
module FrameLayout {
  import opened LowpanTypes
  import opened Sequences
  import opened FrameHeaders

  /** The dispatch bytes, as ranges. */
  lemma DispatchRanges(d: byte)
    ensures IsIphc(d) <==> 0x60 <= d <= 0x7f
    ensures IsIpv6(d) <==> d == 0x41
    ensures IsMesh(d) <==> 0x80 <= d <= 0xbf
    ensures IsFragx(d) <==> 0xc0 <= d <= 0xc7 || 0xe0 <= d <= 0xe7
    ensures IsFragN(d) <==> 0xe0 <= d <= 0xe7
    ensures IsBc0(d) <==> d == 0x50
  {
  }

  // ---------------------------------------------------------------------------
  // The headers one by one
  // ---------------------------------------------------------------------------

  /** Of a fragmentation dispatch, parsing yields the header that lies there. */
  lemma ParseFragIff(s: seq<byte>, off: nat, f: FragHeader, end: nat)
    requires off < |s| && IsFragx(s[off])
    ensures ParseFrag(s, off) == Some((f, end)) <==> FitsFragFields(f) && FragAt(s, off, f, end)
  {
    hide IsFragx, IsFragN, FitsFragFields;
    DispatchRanges(s[off]);
    if FitsFragFields(f) {
      FieldsAreWhole(f);
    }
    if off + 4 <= |s| {
      SizeFits(s[off], s[off + 1]);
    }
    ParsedFits(s, off);
  }

  /** Fields that fit are not truncated. */
  lemma FieldsAreWhole(f: FragHeader)
    requires FitsFragFields(f)
    ensures f.size % 0x800 == f.size && f.offset % 0x800 == f.offset
  {
  }

  lemma SizeFits(high: byte, low: byte)
    ensures Word(high % 8, low) == (high % 8) as int * 0x100 + low < 0x800
  {
  }

  lemma ParsedFits(s: seq<byte>, off: nat)
    requires off < |s|
    ensures ParseFrag(s, off).Some? ==> FitsFragFields(ParseFrag(s, off).value.0)
  {
    hide ParseFrag;
  }

  /** There is a serialized form exactly for offsets that are multiples of 8, and it is laid out so. */
  lemma FragBytesAt(f: FragHeader)
    ensures FragBytes(f).Some? <==> f.offset % 8 == 0
    ensures FragBytes(f).Some? ==> FragAt(FragBytes(f).value, 0, f, |FragBytes(f).value|)
    ensures FragBytes(f).Some? ==> (FragBytes(f).value[0] >= 0xe0 <==> f.offset > 0)
  {
    hide Word;
    SizeBits(f.size);
    TagBits(f.tag);
    if f.offset % 8 == 0 {
      OffsetBits(f.offset);
    }
  }

  lemma SizeBits(size: uint16)
    ensures var top := (size / 0x100) % 8;
            Word(top, size % 0x100) == size % 0x800 && (0xc0 + top) % 8 == (0xe0 + top) % 8 == top
  {
  }

  lemma TagBits(tag: uint16)
    ensures Word(tag / 0x100, tag % 0x100) == tag
  {
  }

  lemma OffsetBits(offset: uint16)
    requires offset % 8 == 0
    ensures (offset / 8) % 0x100 * 8 == offset % 0x800
  {
  }

  lemma ParseAddrIff(s: seq<byte>, off: nat, extended: bool, a: LinkAddr, end: nat)
    requires off <= |s|
    ensures ParseAddr(s, off, extended) == Some((a, end)) <==> a.Extended? == extended && AddrAt(s, off, a, end)
  {
  }

  lemma MeshBits(d: byte)
    requires 0x80 <= d <= 0xbf
    ensures (d / 32) % 2 == 1 <==> 0x20 <= d % 0x40
    ensures (d / 16) % 2 == 1 <==> 0x10 <= d % 0x20
  {
  }

  /** Of a mesh dispatch likewise. */
  lemma ParseMeshIff(s: seq<byte>, off: nat, m: MeshHeader, end: nat)
    requires off < |s| && IsMesh(s[off])
    ensures ParseMesh(s, off) == Some((m, end)) <==> MeshAt(s, off, m, end)
  {
    hide ParseAddr, AddrAt;
    DispatchRanges(s[off]);
    MeshBits(s[off]);
    var ext, dstExt := (s[off] / 32) % 2 == 1, (s[off] / 16) % 2 == 1;
    var at := if s[off] % 16 == 0x0f then off + 2 else off + 1;
    var mid := if m.src.Extended? then at + 8 else at + 2;
    if at <= |s| {
      ParseAddrIff(s, at, ext, m.src, mid);
      ParseAddrEnd(s, at, ext);
      if mid <= |s| {
        ParseAddrIff(s, mid, dstExt, m.dst, end);
      }
    }
    AddrAtEnd(s, at, m.src, mid);
  }

  lemma ParsesMeshAsLaidOut(s: seq<byte>, off: nat)
    requires off < |s|
    ensures IsMesh(s[off]) ==> forall m, end: nat :: ParseMesh(s, off) == Some((m, end)) <==> MeshAt(s, off, m, end)
  {
    hide ParseMesh, MeshAt;
    if IsMesh(s[off]) {
      forall m, end: nat
        ensures ParseMesh(s, off) == Some((m, end)) <==> MeshAt(s, off, m, end)
      {
        ParseMeshIff(s, off, m, end);
      }
    }
  }

  lemma AddrAtEnd(s: seq<byte>, off: nat, a: LinkAddr, end: nat)
    ensures AddrAt(s, off, a, end) ==> off <= end <= |s|
  {
  }

  lemma ParseAddrEnd(s: seq<byte>, off: nat, extended: bool)
    requires off <= |s|
    ensures ParseAddr(s, off, extended).Some? ==>
              var (a, end) := ParseAddr(s, off, extended).value;
              a.Extended? == extended && end == (if extended then off + 8 else off + 2) && end <= |s|
  {
  }

  /** A serialized mesh header is laid out so; the extra byte is there exactly for hop limits from 15 on. */
  lemma MeshBytesAt(m: MeshHeader)
    ensures MeshBytes(m).Some? <==> !m.src.NoAddr? && !m.dst.NoAddr?
    ensures MeshBytes(m).Some? ==> MeshAt(MeshBytes(m).value, 0, m, |MeshBytes(m).value|)
    ensures MeshBytes(m).Some? ==> (MeshBytes(m).value[0] % 0x10 == 0xf <==> m.hopLimit >= 15)
  {
    if MeshBytes(m).Some? {
      hide MeshAt;
      ParseMeshBytes([], m, []);
      var b := MeshBytes(m).value;
      assert [] + b + [] == b;
      MeshDispatchBits(m);
      ParseMeshIff(b, 0, m, |b|);
    }
  }

  // ---------------------------------------------------------------------------
  // The headers of a frame
  // ---------------------------------------------------------------------------

  /** A payload's dispatch byte, of an uncompressed or a compressed IPv6 header. */
  ghost predicate PayloadAt(s: seq<byte>, off: nat) {
    off < |s| && (s[off] == 0x41 || 0x60 <= s[off] <= 0x7f)
  }

  /** A fragmentation header from b on, if h has one, and then either the data of a fragment that is not
      the first or the dispatch of a payload. */
  ghost predicate FragLayout(s: seq<byte>, b: nat, h: Headers) {
    var c: nat := h.nextOffset;
    && b <= c <= |s|
    && (if h.hasFrag then FitsFragFields(h.frag) && FragAt(s, b, h.frag, c) else c == b)
    && ((h.hasFrag && h.frag.offset > 0) || PayloadAt(s, c))
  }

  /** From a on, a broadcast header, if h has one, and the rest. */
  ghost predicate Bc0Layout(s: seq<byte>, a: nat, h: Headers) {
    if h.hasBc0 then a + 2 <= |s| && s[a] == 0x50 && s[a + 1] == h.bc0 && FragLayout(s, a + 2, h)
    else FragLayout(s, a, h)
  }

  /** The headers h lie at the start of s. */
  ghost predicate Layout(s: seq<byte>, h: Headers) {
    if h.hasMesh then exists a :: MeshAt(s, 0, h.mesh, a) && Bc0Layout(s, a, h) else Bc0Layout(s, 0, h)
  }

  /** What was found before stays. */
  ghost predicate Extends(found: Headers, h: Headers) {
    && (found.hasMesh ==> h.hasMesh) && (found.hasMesh || !h.hasMesh ==> h.mesh == found.mesh)
    && (found.hasBc0 ==> h.hasBc0) && (found.hasBc0 || !h.hasBc0 ==> h.bc0 == found.bc0)
    && (found.hasFrag ==> h.hasFrag) && (found.hasFrag || !h.hasFrag ==> h.frag == found.frag)
  }

  /** After a fragmentation header of offset zero. */
  lemma ParseEnd(s: seq<byte>, off: nat, found: Headers)
    requires off <= |s| < 0x100 && found.hasFrag
    ensures Parse(s, off, found) == if PayloadAt(s, off) then Some(found.(nextOffset := off)) else None
  {
    hide ParseFrag, ParseMesh;
    if off < |s| {
      DispatchRanges(s[off]);
    }
  }

  /** After a broadcast header, or where there is no other header than a fragmentation header. */
  lemma ParseFragPartIff(s: seq<byte>, off: nat, found: Headers, h: Headers)
    requires off <= |s| < 0x100 && !found.hasFrag
    requires off < |s| ==> (IsMesh(s[off]) ==> found.hasMesh || found.hasBc0) && (IsBc0(s[off]) ==> found.hasBc0)
    ensures Parse(s, off, found) == Some(h)
            <==> Extends(found, h) && h.hasMesh == found.hasMesh && h.hasBc0 == found.hasBc0 && FragLayout(s, off, h)
  {
    hide ParseFrag, ParseMesh, FragAt;
    if off < |s| {
      DispatchRanges(s[off]);
      if IsFragx(s[off]) {
        ParseFragIff(s, off, h.frag, h.nextOffset);
        match ParseFrag(s, off)
        case None =>
        case Some((f, end)) =>
          ParseFragIff(s, off, f, end);
          FragAtUnique(s, off, f, end, h.frag, h.nextOffset);
          StepFrag(s, off, found, f, end);
          ParseEnd(s, end, found.(hasFrag := true, frag := f));
      } else {
        NotFragAt(s, off, h.frag, h.nextOffset);
      }
    } else {
      NotFragAt(s, off, h.frag, h.nextOffset);
    }
  }

  lemma NotFragAt(s: seq<byte>, off: nat, f: FragHeader, end: nat)
    ensures FragAt(s, off, f, end) ==> off < |s| && IsFragx(s[off])
  {
  }

  lemma FragAtUnique(s: seq<byte>, off: nat, f: FragHeader, end: nat, f': FragHeader, end': nat)
    requires FitsFragFields(f) && FragAt(s, off, f, end)
    ensures FitsFragFields(f') && FragAt(s, off, f', end') ==> f == f' && end == end'
  {
  }

  /** After a mesh header, or where there is none. */
  lemma ParseBc0PartIff(s: seq<byte>, off: nat, found: Headers, h: Headers)
    requires off <= |s| < 0x100 && !found.hasFrag && !found.hasBc0
    requires off < |s| && IsMesh(s[off]) ==> found.hasMesh
    ensures Parse(s, off, found) == Some(h)
            <==> Extends(found, h) && h.hasMesh == found.hasMesh && Bc0Layout(s, off, h)
  {
    hide Parse, FragLayout;
    if off < |s| && IsBc0(s[off]) {
      NoFragLayout(s, off, h);
      if off + 1 < |s| {
        StepBc0(s, off, found);
        ParseFragPartIff(s, off + 2, found.(hasBc0 := true, bc0 := s[off + 1]), h);
      } else {
        Bc0CutOff(s, off, found);
      }
    } else {
      ParseFragPartIff(s, off, found, h);
    }
  }

  lemma NoFragLayout(s: seq<byte>, off: nat, h: Headers)
    requires off < |s| && s[off] == 0x50
    ensures !FragLayout(s, off, h)
  {
  }

  lemma Bc0CutOff(s: seq<byte>, off: nat, found: Headers)
    requires |s| < 0x100 && off == |s| - 1 && IsBc0(s[off])
    ensures Parse(s, off, found) == None
  {
    hide ParseFrag, ParseMesh;
  }

  /** Unpacking a payload yields the headers h exactly when they lie at its start; the fields of headers
      that are not there are those from before. */
  lemma ParseIff(s: seq<byte>, found: Headers, h: Headers)
    requires |s| < 0x100 && !found.hasMesh && !found.hasBc0 && !found.hasFrag
    ensures Parse(s, 0, found) == Some(h) <==> Extends(found, h) && Layout(s, h)
  {
    hide Parse, Bc0Layout, MeshAt;
    if |s| > 0 && IsMesh(s[0]) {
      NoBc0Layout(s, h);
      match ParseMesh(s, 0)
      case None =>
        MeshCutOff(s, found);
        forall a
          ensures !MeshAt(s, 0, h.mesh, a)
        {
          ParseMeshIff(s, 0, h.mesh, a);
        }
      case Some((m, end)) =>
        StepMesh(s, 0, found, m, end);
        ParseBc0PartIff(s, end, found.(hasMesh := true, mesh := m), h);
        forall a
          ensures MeshAt(s, 0, h.mesh, a) <==> h.mesh == m && a == end
        {
          ParseMeshIff(s, 0, h.mesh, a);
        }
    } else {
      ParseBc0PartIff(s, 0, found, h);
      forall a
        ensures !MeshAt(s, 0, h.mesh, a)
      {
        NotMeshAt(s, h.mesh, a);
      }
    }
  }

  lemma NotMeshAt(s: seq<byte>, m: MeshHeader, a: nat)
    ensures MeshAt(s, 0, m, a) ==> |s| > 0 && IsMesh(s[0])
  {
  }

  lemma NoBc0Layout(s: seq<byte>, h: Headers)
    requires |s| > 0 && 0x80 <= s[0] <= 0xbf
    ensures !Bc0Layout(s, 0, h)
  {
  }

  lemma MeshCutOff(s: seq<byte>, found: Headers)
    requires 0 < |s| < 0x100 && IsMesh(s[0]) && ParseMesh(s, 0).None?
    ensures Parse(s, 0, found) == None
  {
    hide ParseFrag, ParseMesh;
  }

  lemma ParsesAsLaidOut(s: seq<byte>, found: Headers)
    requires |s| < 0x100 && !found.hasMesh && !found.hasBc0 && !found.hasFrag
    ensures Parse(s, 0, found).Some? ==>
              Extends(found, Parse(s, 0, found).value) && Layout(s, Parse(s, 0, found).value)
    ensures Parse(s, 0, found).None? ==> forall h :: !(Extends(found, h) && Layout(s, h))
  {
    hide Parse, Extends, Layout;
    forall h
      ensures Parse(s, 0, found) == Some(h) <==> Extends(found, h) && Layout(s, h)
    {
      ParseIff(s, found, h);
    }
  }

  /** Every payload has at most one reading. */
  lemma LayoutIsUnique(s: seq<byte>, found: Headers, h: Headers, h': Headers)
    requires |s| < 0x100 && !found.hasMesh && !found.hasBc0 && !found.hasFrag
    requires Extends(found, h) && Layout(s, h) && Extends(found, h') && Layout(s, h')
    ensures h == h'
  {
    ParseIff(s, found, h);
    ParseIff(s, found, h');
  }

  /** Packed headers lie at the start of what packing wrote, whatever they are, if what follows them is a
      payload or they are those of a fragment that is not the first. */
  lemma PackedLayout(h: Headers, post: seq<byte>)
    requires HeaderBytes(h).Some? && (h.hasFrag ==> FitsFragFields(h.frag))
    requires (h.hasFrag && h.frag.offset > 0) || PayloadAt(post, 0)
    requires |HeaderBytes(h).value + post| < 0x100
    ensures Layout(HeaderBytes(h).value + post, h.(nextOffset := |HeaderBytes(h).value|))
  {
    hide Parse, Layout, HeaderBytes;
    var s := HeaderBytes(h).value + post;
    var found := h.(hasMesh := false, hasBc0 := false, hasFrag := false);
    if |post| > 0 {
      DispatchRanges(post[0]);
    }
    RoundTrip(h, post, found);
    ParseIff(s, found, Parse(s, 0, found).value);
  }

  // ---------------------------------------------------------------------------
  // Inside a longer buffer
  // ---------------------------------------------------------------------------

  lemma FragBytesSpliced(was: seq<byte>, off: nat, f: FragHeader)
    requires FragBytes(f).Some? && off + |FragBytes(f).value| <= |was|
    ensures var b := FragBytes(f).value;
            var s := Splice(was, off, b);
            FragAt(s, off, f, off + |b|) && (s[off] >= 0xe0 <==> f.offset > 0)
  {
    hide FragBytes;
    FragBytesAt(f);
    var b := FragBytes(f).value;
    var s := Splice(was, off, b);
    assert forall i :: 0 <= i < |b| ==> s[off + i] == b[i];
    assert s[off + 0] == b[0];
  }

  lemma AddrAtShifted(b: seq<byte>, at: nat, a: LinkAddr, end: nat, s: seq<byte>, off: nat)
    requires off + |b| <= |s| && s[off..off + |b|] == b && AddrAt(b, at, a, end)
    ensures AddrAt(s, off + at, a, off + end)
  {
    var part := s[off..off + |b|];
    forall i | at <= i < end
      ensures s[off + i] == b[i]
    {
      assert part[i] == s[off + i];
    }
    assert s[off + at..off + end] == b[at..end];
  }

  lemma MeshBytesSpliced(was: seq<byte>, off: nat, m: MeshHeader)
    requires MeshBytes(m).Some? && off + |MeshBytes(m).value| <= |was|
    ensures var b := MeshBytes(m).value;
            var s := Splice(was, off, b);
            MeshAt(s, off, m, off + |b|) && (s[off] % 0x10 == 0xf <==> m.hopLimit >= 15)
  {
    hide MeshBytes, AddrAt;
    MeshBytesAt(m);
    var b := MeshBytes(m).value;
    var s := Splice(was, off, b);
    var at := if b[0] % 0x10 == 0xf then 2 else 1;
    var mid := if m.src.Extended? then at + 8 else at + 2;
    assert s[off..off + |b|] == b;
    assert s[off + 0] == b[0] && (|b| > 1 ==> s[off + 1] == b[1]);
    AddrAtShifted(b, at, m.src, mid, s, off);
    AddrAtShifted(b, mid, m.dst, |b|, s, off);
  }
}
