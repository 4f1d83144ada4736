/** The formats in plain numbers: which bytes of a file mean what. */
module Layout {
  import opened Bytes
  import opened Packets
  import opened Records
  import opened RecordLaws
  import opened Header
  import opened Captures

  /** The 16-bit number at an offset, in byte order o. */
  function Num16(o: Order, d: seq<byte>, at: nat): (n: int)
    requires at + 2 <= |d|
    ensures 0 <= n < 0x1_0000
  {
    if o.Little? then d[at] + 0x100 * (d[at + 1] as int) else 0x100 * (d[at] as int) + d[at + 1]
  }

  /** The 32-bit number at an offset, in byte order o. */
  function Num32(o: Order, d: seq<byte>, at: nat): int
    requires at + 4 <= |d|
  {
    if o.Little? then Num16(o, d, at) + 0x1_0000 * Num16(o, d, at + 2)
    else 0x1_0000 * Num16(o, d, at) + Num16(o, d, at + 2)
  }

  lemma Num16IsField(o: Order, d: seq<byte>, at: nat)
    requires at + 2 <= |d|
    ensures Num16(o, d, at) == Field16(o, d[at..at + 2]) == From(o, d[at..at + 2])
    ensures o.Little? ==> Num16(o, d, at) == U16(d[at..at + 2])
  {
    hide FromLE, FromBE;
    Unfold2(d[at..at + 2]);
  }

  lemma Num32IsField(o: Order, d: seq<byte>, at: nat)
    requires at + 4 <= |d|
    ensures Num32(o, d, at) == Field(o, d[at..at + 4]) == From(o, d[at..at + 4])
    ensures o.Little? ==> Num32(o, d, at) == U32(d[at..at + 4])
  {
    hide FromLE, FromBE;
    Unfold4(d[at..at + 4]);
  }

  /** The magics of the five formats, and what the same bytes are in the other order. */
  predicate HostMagic(m: int) { m in {0xA1B2C3D4, 0xA1B2CD34, 0x1C0001AC, 0x1C0001AB, 0xA1B23C4D} }

  predicate SwappedMagic(m: int) { m in {0xD4C3B2A1, 0x34CDB2A1, 0xAC01001C, 0xAB01001C, 0x4D3CB2A1} }

  /** The order of a file, by its first four bytes as the host reads them. */
  lemma OrderByMagic(d: seq<byte>)
    requires |d| >= 4
    ensures OrderOf(d) == Some(Little) <==> HostMagic(Num32(Little, d, 0))
    ensures OrderOf(d) == Some(Big) <==> SwappedMagic(Num32(Little, d, 0))
  {
    hide Swap32, From, FromLE, FromBE, OrderOf;
    Num32IsField(Little, d, 0);
    MagicSwitch(d);
    assert OrderOf(d).Some? ==> OrderOf(d).value.Little? || OrderOf(d).value.Big?;
  }

  /** A header is taken when 24 bytes are there and the first four are one of the ten magics. */
  lemma HeaderAccepted(d: seq<byte>)
    ensures HasHeader(d) <==> |d| >= 24 && (HostMagic(Num32(Little, d, 0)) || SwappedMagic(Num32(Little, d, 0)))
  {
    if |d| >= 24 {
      OrderByMagic(d);
    }
  }

  /** The format a file's magic names, and the sizes its records then have. */
  lemma FormatByMagic(d: seq<byte>)
    requires |d| >= 4 && OrderOf(d).Some?
    ensures var m, v := Num32(OrderOf(d).value, d, 0), StoredHeader(d).variant;
            && HostMagic(m)
            && (v == Std <==> m == 0xA1B2C3D4)
            && (v == Mod <==> m == 0xA1B2CD34)
            && (v == IxiaHw <==> m == 0x1C0001AC)
            && (v == IxiaSw <==> m == 0x1C0001AB)
            && (v == Nano <==> m == 0xA1B23C4D)
            && HeaderSize(v.RecordKind()) == (if m == 0xA1B2CD34 then 24 else 16)
            && BodyOffset(v.RecordKind()) == (if m == 0xA1B2CD34 then 12 else 4)
  {
    hide From, FromLE, FromBE;
    Num32IsField(OrderOf(d).value, d, 0);
  }

  /** The record layout of a capture: 24-byte record headers for the Modified format, 16-byte ones otherwise. */
  lemma RecordSizes(d: seq<byte>)
    requires HasHeader(d)
    ensures HeaderSize(KindOf(d)) == if Num32(OrderOf(d).value, d, 0) == 0xA1B2CD34 then 24 else 16
    ensures BodyOffset(KindOf(d)) == HeaderSize(KindOf(d)) - 12
  {
    hide OrderOf, ParseHeader, StoredHeader;
    StoredWhole(d);
    FormatByMagic(d);
  }

  /** The fields of a whole header, each at its offset. */
  lemma HeaderFields(d: seq<byte>)
    requires HasHeader(d)
    ensures |d| >= 24
    ensures var o, h := OrderOf(d).value, ParseHeader(d);
            && h.major == Num16(o, d, 4) && h.minor == Num16(o, d, 6)
            && h.tzOffset == (if Num32(o, d, 8) >= 0x8000_0000 then Num32(o, d, 8) - 0x1_0000_0000 else Num32(o, d, 8))
            && h.tsFigs == Num32(o, d, 12) && h.maxLen == Num32(o, d, 16)
            && h.linkType == Num16(o, d, if o.Little? then 20 else 22)
  {
    hide OrderOf, From, FromLE, FromBE, VariantOf, Num16, Num32, Field, Field16;
    var o := OrderOf(d).value;
    Num16IsField(o, d, 4);
    Num16IsField(o, d, 6);
    Num32IsField(o, d, 8);
    Num32IsField(o, d, 12);
    Num32IsField(o, d, 16);
    Num32IsField(o, d, 20);
    LowHalf32(o, d, 20);
  }

  /** The low half of a 32-bit number is its first two bytes or its last two. */
  lemma LowHalf32(o: Order, d: seq<byte>, at: nat)
    requires at + 4 <= |d|
    ensures Num32(o, d, at) % 0x1_0000 == Num16(o, d, if o.Little? then at else at + 2)
  {
    if o.Little? {
      LowOf(Num16(o, d, at), Num16(o, d, at + 2));
    } else {
      LowOf(Num16(o, d, at + 2), Num16(o, d, at));
    }
  }

  lemma LowOf(low: int, high: int)
    requires 0 <= low < 0x1_0000
    ensures (low + 0x1_0000 * high) % 0x1_0000 == low
  {
  }

  /** A file whose first four bytes are missing or name no format leaves the initial header. */
  lemma NothingStored(d: seq<byte>)
    requires |d| < 4 || OrderOf(d).None?
    ensures var h := StoredHeader(d);
            && h.variant == Std && h.major == 1 && h.minor == 0 && h.tzOffset == 0
            && h.tsFigs == 0 && h.maxLen == 0 && h.linkType == 147
  {
  }

  /** The fields and the data of a fetched packet, each at its offset from the record's start. */
  lemma PacketFields(d: seq<byte>, k: Kind, at: nat)
    requires RecordAt(d, k, at).Some?
    ensures at + HeaderSize(k) <= |d|
    ensures var p := RecordAt(d, k, at).value; var end := at + HeaderSize(k) + p.Length();
            && p.header.HasKind(k)
            && p.header.base.timestamp == Num32(Little, d, at)
            && p.header.base.useconds == Num32(Little, d, at + 4)
            && p.header.base.capturedLen == Num32(Little, d, at + 8) == p.Length()
            && p.header.base.actualLen == Num32(Little, d, at + 12)
            && end <= |d| && p.raw == d[at + HeaderSize(k)..end]
            && (k.Modified? ==>
                  && p.header.interfaceIndex == Num32(Little, d, at + 16)
                  && p.header.protocol == Num16(Little, d, at + 20)
                  && p.header.ptype == d[at + 22] && p.header.padding == d[at + 23])
  {
    hide FromLE, RecordAt, U16, U32, Num16, Num32, DecodeHeader;
    assert at <= |d| by {
      InsideFile(d, k, at);
    }
    RecordInParts(d, k, at);
    HeaderInPlace(d, k, at);
    Num32IsField(Little, d, at);
    Num32IsField(Little, d, at + 4);
    Num32IsField(Little, d, at + 8);
    Num32IsField(Little, d, at + 12);
    if k.Modified? {
      Num32IsField(Little, d, at + 16);
      Num16IsField(Little, d, at + 20);
    }
  }

  lemma InsideFile(d: seq<byte>, k: Kind, at: nat)
    requires RecordAt(d, k, at).Some?
    ensures at <= |d|
  {
  }

  lemma HeaderInPlace(d: seq<byte>, k: Kind, at: nat)
    requires at + HeaderSize(k) <= |d|
    ensures var h := DecodeHeader(d[at..at + HeaderSize(k)], k);
            && h.base == PacketHeader(U32(d[at..at + 4]), U32(d[at + 4..at + 8]), U32(d[at + 8..at + 12]),
                                      U32(d[at + 12..at + 16]))
            && (k.Modified? ==>
                  && h.interfaceIndex == U32(d[at + 16..at + 20]) && h.protocol == U16(d[at + 20..at + 22])
                  && h.ptype == d[at + 22] && h.padding == d[at + 23])
  {
    hide U16, U32;
    var size := HeaderSize(k);
    SliceOfSlice(d, at, size, 0, 4);
    SliceOfSlice(d, at, size, 4, 8);
    SliceOfSlice(d, at, size, 8, 12);
    SliceOfSlice(d, at, size, 12, 16);
    if k.Modified? {
      SliceOfSlice(d, at, size, 16, 20);
      SliceOfSlice(d, at, size, 20, 22);
    }
  }

  lemma SliceOfSlice(d: seq<byte>, at: nat, n: nat, i: nat, j: nat)
    requires i <= j <= n && at + n <= |d|
    ensures d[at..at + n][i..j] == d[at + i..at + j]
  {
    var whole, inner, direct := d[at..at + n], d[at..at + n][i..j], d[at + i..at + j];
    forall x | 0 <= x < j - i
      ensures inner[x] == direct[x]
    {
      assert inner[x] == whole[i + x] == d[at + i + x] == direct[x];
    }
  }
}
