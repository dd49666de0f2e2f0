/**
 What tells the datagrams under reassembly apart (uc6LoWPANDefragmentation.c): the tag, the addresses
 of the originator and of the final destination, and the PAN.  The addresses are those of the mesh
 header; a frame without one gets a virtual mesh header with the addresses of its link.
 */
module DatagramKeys {
  import opened LowpanTypes
  import opened Sequences
  import opened FragmentSpecs
  import opened FrameHeaders
  import opened ReassemblyModel

  /** What the IEEE 802.15.4 header of a frame says. */
  datatype Link = Link(src: LinkAddr, dst: LinkAddr, pan: uint16, interPan: bool)

  /** The headers with the fields of a virtual mesh header, if there is no mesh header. */
  function WithVirtualMesh(h: Headers, src: LinkAddr, dst: LinkAddr): Headers {
    if h.hasMesh then h else h.(mesh := MeshHeader(1, src, dst))
  }

  /** The key of the packet that a frame belongs to, from the fields of its mesh header. */
  function KeyOf(h: Headers, pan: uint16): Key {
    Key(h.frag.tag, h.mesh.src, h.mesh.dst, pan)
  }

  /** The key for a frame as it was received. */
  function FrameKey(h: Headers, link: Link): Key {
    KeyOf(WithVirtualMesh(h, link.src, link.dst), link.pan)
  }

  // ---------------------------------------------------------------------------
  // Datagrams
  // ---------------------------------------------------------------------------

  /** Who sent a datagram to whom, where, and under which tag. */
  datatype Datagram = Datagram(tag: uint16, originator: LinkAddr, destination: LinkAddr, pan: uint16)

  /** The datagram of a frame with these headers and this tag: its mesh header names the two ends, if there
      is one, and its link does otherwise. */
  ghost function DatagramOf(h: Headers, tag: uint16, link: Link): Datagram {
    Datagram(tag, if h.hasMesh then h.mesh.src else link.src, if h.hasMesh then h.mesh.dst else link.dst, link.pan)
  }

  ghost predicate IsPacketOf(p: Packet, g: Datagram) {
    p.key.tag == g.tag && p.key.src == g.originator && p.key.dst == g.destination && p.key.pan == g.pan
  }

  ghost predicate NoPacketOf(packets: seq<Packet>, g: Datagram) {
    forall i :: 0 <= i < |packets| ==> !IsPacketOf(packets[i], g)
  }

  /** Two frames have the same key exactly when tag, originator, final destination, and PAN agree. */
  lemma SameKeyIff(h: Headers, link: Link, h': Headers, link': Link)
    ensures FrameKey(h, link) == FrameKey(h', link') <==>
            && h.frag.tag == h'.frag.tag
            && (if h.hasMesh then h.mesh.src else link.src) == (if h'.hasMesh then h'.mesh.src else link'.src)
            && (if h.hasMesh then h.mesh.dst else link.dst) == (if h'.hasMesh then h'.mesh.dst else link'.dst)
            && link.pan == link'.pan
  {
  }

  /** A frame's packet is one of its datagram. */
  lemma KeyIsOf(h: Headers, link: Link, p: Packet)
    ensures p.key == FrameKey(h, link) <==> IsPacketOf(p, DatagramOf(h, h.frag.tag, link))
  {
  }

  lemma NoPacketIff(packets: seq<Packet>, h: Headers, link: Link)
    ensures NoPacketOf(packets, DatagramOf(h, h.frag.tag, link)) <==> IndexOf(packets, FrameKey(h, link)) == |packets|
  {
    hide FrameKey, IsPacketOf, DatagramOf;
    forall i | 0 <= i < |packets|
      ensures packets[i].key == FrameKey(h, link) <==> IsPacketOf(packets[i], DatagramOf(h, h.frag.tag, link))
    {
      KeyIsOf(h, link, packets[i]);
    }
  }

  // ---------------------------------------------------------------------------
  // Finding the packet of a frame
  // ---------------------------------------------------------------------------

  /** The packets of other datagrams, in order. */
  ghost function Others(packets: seq<Packet>, g: Datagram): seq<Packet> {
    if |packets| == 0 then []
    else (if IsPacketOf(packets[0], g) then [] else [packets[0]]) + Others(packets[1..], g)
  }

  lemma {:induction false} OthersWithout(packets: seq<Packet>, i: nat, g: Datagram)
    requires i < |packets| && IsPacketOf(packets[i], g)
    ensures Others(Without(packets, i), g) == Others(packets, g)
    decreases i
  {
    hide IsPacketOf;
    var rest := Without(packets, i);
    if i == 0 {
      assert rest == packets[1..];
    } else {
      OthersWithout(packets[1..], i - 1, g);
      assert rest[1..] == Without(packets[1..], i - 1);
    }
  }

  /** The first packet of the datagram, if there is one, has this size. */
  ghost predicate FirstHasSize(packets: seq<Packet>, g: Datagram, size: nat) {
    |packets| > 0 && if IsPacketOf(packets[0], g) then packets[0].total == size else FirstHasSize(packets[1..], g, size)
  }

  lemma {:induction false} FirstHasSizeIff(packets: seq<Packet>, h: Headers, link: Link, size: nat)
    ensures var i := IndexOf(packets, FrameKey(h, link));
            FirstHasSize(packets, DatagramOf(h, h.frag.tag, link), size) <==> i < |packets| && packets[i].total == size
  {
    hide FrameKey, IsPacketOf, DatagramOf;
    if |packets| > 0 {
      KeyIsOf(h, link, packets[0]);
      FirstHasSizeIff(packets[1..], h, link, size);
    }
  }

  /** p is a current packet of the datagram with this size, or a new one for which nothing has arrived. */
  ghost predicate Serves(s: State, p: Packet, g: Datagram, size: nat, now: uint32, room: Option<seq<byte>>) {
    && IsPacketOf(p, g) && p.total == size
    && if FirstHasSize(s.current, g, size) then p in s.current
       else p.start == now && Some(p.bytes) == room && p.specs == [Range(0, 0)] && p.writes == []
  }

  /** A packet is found for a frame exactly when the datagram is not shorter than an IPv6 header and either the
      first packet of the datagram has the frame's size, or there are bytes and a packet state for a
      new packet, be it that of the one destroyed for its size.  It is one of the frame's datagram, of
      the frame's size, and locked in front of the others; all packets of other datagrams stay. */
  lemma FindLocks(s: State, h: Headers, link: Link, now: uint32, room: Option<seq<byte>>)
    requires AllShaped(s)
    ensures var (g, size) := (DatagramOf(h, h.frag.tag, link), h.frag.size);
            var (s1, found) := Find(s, FrameKey(h, link), size, now, room);
            && (found <==> size >= 40 && (FirstHasSize(s.current, g, size)
                             || (room.Some? && (s.freePackets > 0 || !NoPacketOf(s.current, g)))))
            && (!found ==> s1.locked == s.locked)
            && (found ==> |s1.locked| > 0 && s1.locked[1..] == s.locked && Serves(s, s1.locked[0], g, size, now, room))
            && Others(s1.current, g) == Others(s.current, g)
  {
    hide FrameKey, IsPacketOf, DatagramOf, Others, FirstHasSize, NoPacketOf;
    var g, key := DatagramOf(h, h.frag.tag, link), FrameKey(h, link);
    NoPacketIff(s.current, h, link);
    FirstHasSizeIff(s.current, h, link, h.frag.size);
    var i := IndexOf(s.current, key);
    if i < |s.current| {
      KeyIsOf(h, link, s.current[i]);
      OthersWithout(s.current, i, g);
    }
    if room.Some? {
      KeyIsOf(h, link, NewPacket(key, h.frag.size, now, room.value));
    }
  }
}
