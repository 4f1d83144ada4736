/** The 24-byte file header: its magics, its fields and both byte orders. */
module Header {
  import opened Bytes
  import opened Packets

  /** pcap_variant_t: the five formats, each with its magic in either byte order. */
  datatype Variant =
    | Std | Mod | IxiaHw | IxiaSw | Nano
    | SwappedStd | SwappedMod | SwappedIxiaHw | SwappedIxiaSw | SwappedNano
  {
    function Magic(): u32 {
      match this
      case Std => 0xA1B2C3D4
      case Mod => 0xA1B2CD34
      case IxiaHw => 0x1C0001AC
      case IxiaSw => 0x1C0001AB
      case Nano => 0xA1B23C4D
      case SwappedStd => 0xD4C3B2A1
      case SwappedMod => 0x34CDB2A1
      case SwappedIxiaHw => 0xAC01001C
      case SwappedIxiaSw => 0xAB01001C
      case SwappedNano => 0x4D3CB2A1
    }

    predicate InHostOrder() { Std? || Mod? || IxiaHw? || IxiaSw? || Nano? }

    /** The same format with its magic in the other byte order. */
    function Other(): Variant {
      match this
      case Std => SwappedStd
      case Mod => SwappedMod
      case IxiaHw => SwappedIxiaHw
      case IxiaSw => SwappedIxiaSw
      case Nano => SwappedNano
      case SwappedStd => Std
      case SwappedMod => Mod
      case SwappedIxiaHw => IxiaHw
      case SwappedIxiaSw => IxiaSw
      case SwappedNano => Nano
    }

    /** The record layout of a capture with this variant. */
    function RecordKind(): Kind { if Mod? then Modified else Standard }
  }

  /** The enumerator with a given value; a magic is known when there is one. */
  function VariantOf(magic: u32): (v: Option<Variant>)
    ensures v.Some? ==> v.value.Magic() == magic
    ensures v.None? ==> forall w: Variant :: w.Magic() != magic
  {
    if magic == Std.Magic() then Some(Std)
    else if magic == Mod.Magic() then Some(Mod)
    else if magic == IxiaHw.Magic() then Some(IxiaHw)
    else if magic == IxiaSw.Magic() then Some(IxiaSw)
    else if magic == Nano.Magic() then Some(Nano)
    else if magic == SwappedStd.Magic() then Some(SwappedStd)
    else if magic == SwappedMod.Magic() then Some(SwappedMod)
    else if magic == SwappedIxiaHw.Magic() then Some(SwappedIxiaHw)
    else if magic == SwappedIxiaSw.Magic() then Some(SwappedIxiaSw)
    else if magic == SwappedNano.Magic() then Some(SwappedNano)
    else None
  }

  lemma VariantOfMagic(v: Variant)
    ensures VariantOf(v.Magic()) == Some(v)
  {
  }

  /** The swapped enumerators hold the byte swaps of the others' magics. */
  lemma SwappedMagics(v: Variant)
    ensures Swap32(v.Magic()) == v.Other().Magic()
    ensures VariantOf(Swap32(v.Magic())) == Some(v.Other())
  {
    hide Swap32, VariantOf;
    match v {
      case Std => Digits(v.Magic(), 0xD4, 0xC3, 0xB2, 0xA1);
      case Mod => Digits(v.Magic(), 0x34, 0xCD, 0xB2, 0xA1);
      case IxiaHw => Digits(v.Magic(), 0xAC, 0x01, 0x00, 0x1C);
      case IxiaSw => Digits(v.Magic(), 0xAB, 0x01, 0x00, 0x1C);
      case Nano => Digits(v.Magic(), 0x4D, 0x3C, 0xB2, 0xA1);
      case SwappedStd => Digits(v.Magic(), 0xA1, 0xB2, 0xC3, 0xD4);
      case SwappedMod => Digits(v.Magic(), 0xA1, 0xB2, 0xCD, 0x34);
      case SwappedIxiaHw => Digits(v.Magic(), 0x1C, 0x00, 0x01, 0xAC);
      case SwappedIxiaSw => Digits(v.Magic(), 0x1C, 0x00, 0x01, 0xAB);
      case SwappedNano => Digits(v.Magic(), 0xA1, 0xB2, 0x3C, 0x4D);
    }
    VariantOfMagic(v.Other());
  }

  const HEADER_SIZE: nat := 24

  /** file_header_t: the link type is a 16-bit enumeration, whatever the field of the file holds. */
  datatype FileHeader = FileHeader(variant: Variant, major: u16, minor: u16, tzOffset: i32,
                                   tsFigs: u32, maxLen: u32, linkType: u16)

  /** file_header_t{}, with link type User0. */
  const DEFAULT_HEADER: FileHeader := FileHeader(Std, 1, 0, 0, 0, 0, 0x93)

  function Signed32(u: u32): i32 { if u < 0x8000_0000 then u else u - 0x1_0000_0000 }

  function Unsigned32(x: i32): u32 { if x < 0 then x + 0x1_0000_0000 else x }

  // ---- what a header means, read in its own byte order ----

  /** A field of the header in byte order o. */
  function Field(o: Order, b: seq<byte>): (v: u32)
    requires |b| == 4
  {
    Pow256Values(); From(o, b)
  }

  function Field16(o: Order, b: seq<byte>): (v: u16)
    requires |b| == 2
  {
    Pow256Values(); From(o, b)
  }

  /** The order in which the first four bytes spell one of the five formats. */
  function OrderOf(b: seq<byte>): Option<Order>
    requires |b| >= 4
  {
    var (little, big) := (VariantOf(Field(Little, b[0..4])), VariantOf(Field(Big, b[0..4])));
    if little.Some? && little.value.InHostOrder() then Some(Little)
    else if big.Some? && big.value.InHostOrder() then Some(Big)
    else None
  }

  /** A file begins with a header the reader takes. */
  predicate HasHeader(d: seq<byte>) {
    |d| >= HEADER_SIZE && OrderOf(d).Some?
  }

  /** The header a file begins with, every field read in the order of the magic. */
  function ParseHeader(d: seq<byte>): (h: FileHeader)
    requires HasHeader(d)
    ensures h.variant.InHostOrder()
  {
    var o := OrderOf(d).value;
    FileHeader(VariantOf(Field(o, d[0..4])).value, Field16(o, d[4..6]), Field16(o, d[6..8]),
               Signed32(Field(o, d[8..12])), Field(o, d[12..16]), Field(o, d[16..20]),
               Field(o, d[20..24]) % 0x1_0000)
  }

  /** The header so far when the first n bytes of the file have been read and stored. */
  function StoredUpTo(d: seq<byte>, n: nat): (h: FileHeader)
    requires n <= |d|
    ensures h.variant.InHostOrder()
  {
    if n < 4 || OrderOf(d).None? then DEFAULT_HEADER
    else
      var o := OrderOf(d).value;
      FileHeader(VariantOf(Field(o, d[0..4])).value,
                 if n >= 8 then Field16(o, d[4..6]) else DEFAULT_HEADER.major,
                 if n >= 8 then Field16(o, d[6..8]) else DEFAULT_HEADER.minor,
                 if n >= 12 then Signed32(Field(o, d[8..12])) else DEFAULT_HEADER.tzOffset,
                 if n >= 16 then Field(o, d[12..16]) else DEFAULT_HEADER.tsFigs,
                 if n >= 20 then Field(o, d[16..20]) else DEFAULT_HEADER.maxLen,
                 if n >= 24 then Field(o, d[20..24]) % 0x1_0000 else DEFAULT_HEADER.linkType)
  }

  /** What reading the header of any file d leaves stored: each field is there when its bytes are. */
  function StoredHeader(d: seq<byte>): (h: FileHeader)
    ensures h.variant.InHostOrder()
  {
    StoredUpTo(d, |d|)
  }

  /** And whether it found the file to be in the other byte order. */
  predicate OtherOrder(d: seq<byte>) { |d| >= 4 && OrderOf(d) == Some(Big) }

  /** No field ends between the end of one and the point where the next one no longer fits. */
  lemma StoredStops(d: seq<byte>, n: nat)
    requires n in {4, 8, 12, 16, 20} && n <= |d| < n + 4
    ensures StoredHeader(d) == StoredUpTo(d, n)
  {
  }

  /** A whole header is stored whole. */
  lemma StoredWhole(d: seq<byte>)
    requires HasHeader(d)
    ensures StoredHeader(d) == StoredUpTo(d, HEADER_SIZE) == ParseHeader(d)
  {
  }

  /** A header written in byte order o; `linkHigh` fills the upper half of the link-type field. */
  function EncodeFileHeader(h: FileHeader, linkHigh: u16, o: Order): (b: seq<byte>)
    ensures |b| == HEADER_SIZE
  {
    To(o, h.variant.Magic(), 4) + To(o, h.major, 2) + To(o, h.minor, 2) + To(o, Unsigned32(h.tzOffset), 4)
    + To(o, h.tsFigs, 4) + To(o, h.maxLen, 4) + To(o, (linkHigh as int) * 0x1_0000 + h.linkType, 4)
  }

  lemma EncodedFields(h: FileHeader, linkHigh: u16, o: Order, later: seq<byte>)
    ensures var d := EncodeFileHeader(h, linkHigh, o) + later;
            && d[0..4] == To(o, h.variant.Magic(), 4)
            && d[4..6] == To(o, h.major, 2)
            && d[6..8] == To(o, h.minor, 2)
            && d[8..12] == To(o, Unsigned32(h.tzOffset), 4)
            && d[12..16] == To(o, h.tsFigs, 4)
            && d[16..20] == To(o, h.maxLen, 4)
            && d[20..24] == To(o, (linkHigh as int) * 0x1_0000 + h.linkType, 4)
  {
  }

  lemma FieldOfEncoded(o: Order, v: u32)
    ensures Field(o, To(o, v, 4)) == v
    ensures Field(if o.Little? then Big else Little, To(o, v, 4)) == Swap32(v)
  {
    hide FromLE, FromBE, Swap, Swap32;
    Pow256Values();
    FromTo(o, v, 4);
    SwapIsOtherOrder(To(o, v, 4));
    SwapIsMacro32(v);
  }

  lemma Field16OfEncoded(o: Order, v: u16)
    ensures Field16(o, To(o, v, 2)) == v
  {
    Pow256Values();
    FromTo(o, v, 2);
  }

  /**
   Byte-order independence: the same fields written in either order parse to
   the same header, sign of the timezone included; the link type keeps the low
   16 bits of its field.
   */
  lemma HeaderRoundTrip(h: FileHeader, linkHigh: u16, o: Order, later: seq<byte>)
    requires h.variant.InHostOrder()
    ensures var d := EncodeFileHeader(h, linkHigh, o) + later;
            HasHeader(d) && OrderOf(d) == Some(o) && ParseHeader(d) == h
  {
    hide Field, Field16, From, To, Swap32, VariantOf, EncodeFileHeader;
    EncodedFields(h, linkHigh, o, later);
    FieldOfEncoded(o, h.variant.Magic());
    VariantOfMagic(h.variant);
    SwappedMagics(h.variant);
    Field16OfEncoded(o, h.major);
    Field16OfEncoded(o, h.minor);
    FieldOfEncoded(o, Unsigned32(h.tzOffset));
    FieldOfEncoded(o, h.tsFigs);
    FieldOfEncoded(o, h.maxLen);
    FieldOfEncoded(o, (linkHigh as int) * 0x1_0000 + h.linkType);
  }

  /** The upper half of the link-type field of a file's header. */
  function LinkHigh(d: seq<byte>): u16
    requires HasHeader(d)
  {
    Field(OrderOf(d).value, d[20..24]) / 0x1_0000
  }

  /** Nothing but the 24 bytes of a header parses: they are what its fields encode to. */
  lemma ParseHeaderRoundTrip(d: seq<byte>)
    requires HasHeader(d)
    ensures EncodeFileHeader(ParseHeader(d), LinkHigh(d), OrderOf(d).value) == d[..HEADER_SIZE]
  {
    var o := OrderOf(d).value;
    ToFrom(o, d[0..4]);
    ToFrom(o, d[4..6]);
    ToFrom(o, d[6..8]);
    ToFrom(o, d[8..12]);
    ToFrom(o, d[12..16]);
    ToFrom(o, d[16..20]);
    ToFrom(o, d[20..24]);
    assert d[..24] == d[0..4] + d[4..6] + d[6..8] + d[8..12] + d[12..16] + d[16..20] + d[20..24];
  }

  /** The magic as the code switches on it: read raw, then looked up among the ten enumerators. */
  lemma MagicSwitch(d: seq<byte>)
    requires |d| >= 4
    ensures var raw := VariantOf(U32(d[0..4]));
            && (raw.None? <==> OrderOf(d).None?)
            && (raw.Some? ==> (raw.value.InHostOrder() <==> OrderOf(d) == Some(Little)))
            && (raw.Some? && !raw.value.InHostOrder() ==> Swap32(U32(d[0..4])) == Field(Big, d[0..4]))
  {
    var m := U32(d[0..4]);
    SwapMacros(d[0..4]);
    if VariantOf(m).Some? {
      SwappedMagics(VariantOf(m).value);
    } else if VariantOf(Field(Big, d[0..4])).Some? {
      Swap32Twice(m);
      SwappedMagics(VariantOf(Field(Big, d[0..4])).value);
    }
  }

  /** gzip's two identification bytes (RFC 1952, section 2.3.1). */
  const GZIP_ID: seq<byte> := [0x1F, 0x8B]

  /** No magic, in either order, begins with the gzip identification. */
  lemma HeaderIsNotGzip(d: seq<byte>)
    requires HasHeader(d)
    ensures d[..2] != GZIP_ID
  {
    hide OrderOf, VariantOf, FromLE, Swap32;
    MagicSwitch(d);
    LowHalf(d[0..4]);
    MagicLowHalf(VariantOf(U32(d[0..4])).value);
  }

  lemma LowHalf(b: seq<byte>)
    requires |b| == 4
    ensures U32(b) % 0x1_0000 == b[0] + 0x100 * (b[1] as int)
  {
    Unfold4(b);
    var high := b[2] + 0x100 * (b[3] as int);
    assert U32(b) == b[0] + 0x100 * (b[1] as int) + 0x1_0000 * high;
  }

  lemma MagicLowHalf(v: Variant)
    ensures v.Magic() % 0x1_0000 != 0x8B1F
  {
  }
}
