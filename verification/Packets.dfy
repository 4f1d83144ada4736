/** Packet headers, packets and their bytes in a file. */
module Packets {
  import opened Bytes

  datatype PacketHeader = PacketHeader(timestamp: u32, useconds: u32, capturedLen: u32, actualLen: u32)

  /** The three alternatives of packet_t::pkt_header_t. */
  datatype RecordHeader =
    | NoHeader
    | Plain(base: PacketHeader)
    | Extended(base: PacketHeader, interfaceIndex: u32, protocol: u16, ptype: byte, padding: byte)
  {
    predicate HasKind(k: Kind) { (Plain? && k.Standard?) || (Extended? && k.Modified?) }

    /** The length the constructor of the packet asks of the header visitor. */
    function CapturedLen(): u32 { if NoHeader? then 0xFFFF_FFFF else base.capturedLen }

    function Size(): nat { if NoHeader? then 0 else if Plain? then 16 else 24 }

    predicate FullPacket() { !NoHeader? && base.actualLen == base.capturedLen }
  }

  /** Which of the two record layouts a capture uses (packet_type_t). */
  datatype Kind = Standard | Modified

  datatype Packet = Packet(raw: seq<byte>, header: RecordHeader)
  {
    function Length(): nat { |raw| }

    /** Was all of the packet captured? */
    predicate IsComplete() { header.FullPacket() }
  }

  /** packet_t{0}: what an index entry caches before its first fetch. */
  const EMPTY_PACKET: Packet := Packet([], NoHeader)

  /** Bytes between the captured-length field and the packet data. */
  function BodyOffset(k: Kind): nat { if k.Modified? then 12 else 4 }

  /** sizeof the packet header structure of this kind. */
  function HeaderSize(k: Kind): nat { if k.Modified? then 24 else 16 }

  /** A packet a capture of this kind can hold. */
  predicate Fits(p: Packet, k: Kind) {
    p.header.HasKind(k) && |p.raw| == p.header.CapturedLen()
  }

  // ---- header bytes ----

  function EncodeBase(h: PacketHeader, o: Order): (b: seq<byte>)
    ensures |b| == 16
  {
    To(o, h.timestamp, 4) + To(o, h.useconds, 4) + To(o, h.capturedLen, 4) + To(o, h.actualLen, 4)
  }

  function EncodeHeader(h: RecordHeader, o: Order): (b: seq<byte>)
    ensures |b| == h.Size()
  {
    match h
    case NoHeader => []
    case Plain(base) => EncodeBase(base, o)
    case Extended(base, i, p, t, pad) => EncodeBase(base, o) + To(o, i, 4) + To(o, p, 2) + [t, pad]
  }

  function DecodeBase(b: seq<byte>): PacketHeader
    requires |b| >= 16
  {
    PacketHeader(U32(b[0..4]), U32(b[4..8]), U32(b[8..12]), U32(b[12..16]))
  }

  /** The structure a little-endian host sees in these object bytes. */
  function DecodeHeader(b: seq<byte>, k: Kind): (h: RecordHeader)
    requires |b| == HeaderSize(k)
    ensures h.HasKind(k)
  {
    if k.Standard? then Plain(DecodeBase(b))
    else Extended(DecodeBase(b), U32(b[16..20]), U16(b[20..22]), b[22], b[23])
  }

  lemma DecodeBaseEncode(h: PacketHeader, rest: seq<byte>)
    ensures DecodeBase(EncodeBase(h, Little) + rest) == h
  {
    var b := EncodeBase(h, Little) + rest;
    Pow256Values();
    assert b[0..4] == ToLE(h.timestamp, 4);
    assert b[4..8] == ToLE(h.useconds, 4);
    assert b[8..12] == ToLE(h.capturedLen, 4);
    assert b[12..16] == ToLE(h.actualLen, 4);
    FromTo(Little, h.timestamp, 4);
    FromTo(Little, h.useconds, 4);
    FromTo(Little, h.capturedLen, 4);
    FromTo(Little, h.actualLen, 4);
  }

  lemma EncodeBaseDecode(b: seq<byte>)
    requires |b| >= 16
    ensures EncodeBase(DecodeBase(b), Little) == b[..16]
  {
    ToFrom(Little, b[0..4]);
    ToFrom(Little, b[4..8]);
    ToFrom(Little, b[8..12]);
    ToFrom(Little, b[12..16]);
    assert b[..16] == b[0..4] + b[4..8] + b[8..12] + b[12..16];
  }

  /** Header structures and their object bytes determine each other. */
  lemma DecodeEncode(h: RecordHeader, k: Kind)
    requires h.HasKind(k)
    ensures DecodeHeader(EncodeHeader(h, Little), k) == h
  {
    var b := EncodeHeader(h, Little);
    if h.Plain? {
      DecodeBaseEncode(h.base, []);
      assert b + [] == b;
    } else {
      var tail := ToLE(h.interfaceIndex, 4) + ToLE(h.protocol, 2) + [h.ptype, h.padding];
      DecodeBaseEncode(h.base, tail);
      assert b == EncodeBase(h.base, Little) + tail;
      Pow256Values();
      assert b[16..20] == ToLE(h.interfaceIndex, 4);
      assert b[20..22] == ToLE(h.protocol, 2);
      FromTo(Little, h.interfaceIndex, 4);
      FromTo(Little, h.protocol, 2);
    }
  }

  lemma EncodeDecode(b: seq<byte>, k: Kind)
    requires |b| == HeaderSize(k)
    ensures EncodeHeader(DecodeHeader(b, k), Little) == b
  {
    EncodeBaseDecode(b);
    if k.Modified? {
      ToFrom(Little, b[16..20]);
      ToFrom(Little, b[20..22]);
      assert b == b[..16] + b[16..20] + b[20..22] + [b[22], b[23]];
    } else {
      assert b[..16] == b;
    }
  }

  // ---- the other byte order ----

  /** Every field of two or four bytes swapped. */
  function SwapHeader(h: RecordHeader): (s: RecordHeader)
    ensures s.Size() == h.Size()
  {
    match h
    case NoHeader => NoHeader
    case Plain(base) => Plain(SwapBase(base))
    case Extended(base, i, p, t, pad) => Extended(SwapBase(base), Swap32(i), Swap16(p), t, pad)
  }

  function SwapBase(h: PacketHeader): PacketHeader {
    PacketHeader(Swap32(h.timestamp), Swap32(h.useconds), Swap32(h.capturedLen), Swap32(h.actualLen))
  }

  lemma BigIsSwapped4(x: u32)
    ensures ToBE(x, 4) == ToLE(Swap32(x), 4)
  {
    SwapIsMacro32(x);
    Pow256Values();
    SwapIsOtherBytes(x, 4);
  }

  lemma BigIsSwapped2(x: u16)
    ensures ToBE(x, 2) == ToLE(Swap16(x), 2)
  {
    SwapIsMacro16(x);
    Pow256Values();
    SwapIsOtherBytes(x, 2);
  }

  /** A header written big-endian has the bytes of the swapped header written little-endian. */
  lemma BigHeaderIsSwapped(h: RecordHeader)
    ensures EncodeHeader(h, Big) == EncodeHeader(SwapHeader(h), Little)
  {
    hide ToLE, ToBE, Swap32, Swap16;
    if !h.NoHeader? {
      BigIsSwapped4(h.base.timestamp);
      BigIsSwapped4(h.base.useconds);
      BigIsSwapped4(h.base.capturedLen);
      BigIsSwapped4(h.base.actualLen);
    }
    if h.Extended? {
      BigIsSwapped4(h.interfaceIndex);
      BigIsSwapped2(h.protocol);
    }
  }
}
