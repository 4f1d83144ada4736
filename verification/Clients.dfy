/** Whole uses of the library: captures opened in two ways, and captures opened and fetched from. */
module Clients {
  import opened Bytes
  import opened FdSpec
  import opened Packets
  import opened Records
  import opened RecordLaws
  import opened Header
  import opened Zlib
  import opened Captures
  import opened Pcap

  /** Nothing a caller can ask of the two captures tells them apart, but for the mode they were opened in. */
  ghost predicate SameCapture(a: PcapFile, b: PcapFile)
    reads a, a.file, a.packets, b, b.file, b.packets
  {
    a.valid == b.valid && a.header == b.header && a.needsSwapping == b.needsSwapping && a.Contents() == b.Contents()
  }

  /** The stream's length, in the 32 bits the copy counts in, is the failure code. */
  predicate LengthReadsAsFailure(s: seq<byte>) { |s| % 0x1_0000_0000 == 0xFFFF_FFFF }

  /**
   gzip transparency.  A compressed file whose stream zlib delivers whole, with
   room for it in the temporary file, opens as its stream opens on its own: the
   same validity, header, index and caches.  The one exception is a stream whose
   length reads as a failure: it is never valid, and the two captures differ
   exactly when the stream begins with a magic.
   */
  method OpenCompressedAndPlain(disk: Option<seq<byte>>, room: Option<nat>, zlib: seq<byte> -> Inflated, readOnly: bool)
    returns (packed: PcapFile, plain: PcapFile)
    requires disk.Some? ==> |disk.value| <= OFF_MAX
    requires room.Some? && room.value <= OFF_MAX && Copies(Inflate(disk, zlib), Temporary(room))
    ensures packed.Valid() && plain.Valid() && fresh(packed) && fresh(plain)
    ensures var s := Inflate(disk, zlib).stream;
            && (plain.valid <==> IsCapture(s))
            && (packed.valid <==> plain.valid && !LengthReadsAsFailure(s))
            && (SameCapture(packed, plain) <==> !LengthReadsAsFailure(s) || OrderOf(s).None?)
            && (|s| < 0x8000_0000 ==> SameCapture(packed, plain))
  {
    hide HasHeader, Accepted, Opened, StoredHeader, OrderOf;
    ghost var s := Inflate(disk, zlib).stream;
    SeenCompressed(disk, room, zlib);
    packed := new PcapFile(disk, room, zlib, Compressed, readOnly);
    plain := new PcapFile(Some(Inflate(disk, zlib).stream), room, zlib, Uncompressed, readOnly);
    assert Held(Compressed, disk, room, zlib) == s;
    LongFilesTell(s);
  }

  /** A file of 2^32 - 1 bytes or more that begins with a magic does not look like one that was never parsed. */
  lemma LongFilesTell(s: seq<byte>)
    ensures |s| >= 0xFFFF_FFFF && OrderOf(s).None? ==>
              !HasHeader(s) && StoredHeader(s) == DEFAULT_HEADER && !OtherOrder(s)
    ensures |s| >= 0xFFFF_FFFF && OrderOf(s).Some? ==> HasHeader(s) && Opened(s).index != []
  {
    if |s| >= 0xFFFF_FFFF && OrderOf(s).Some? {
      FirstLength(s[HEADER_SIZE..], KindOf(s), HEADER_SIZE);
    }
  }

  /**
   Autodetection opens every file, openable or not, as the explicit mode it
   stands for does; and a file that is a capture on its own is opened as one.
   */
  method OpenAutodetectAndExplicit(disk: Option<seq<byte>>, room: Option<nat>, zlib: seq<byte> -> Inflated,
                                   readOnly: bool)
    returns (detected: PcapFile, explicit: PcapFile)
    requires disk.Some? ==> |disk.value| <= OFF_MAX
    requires room.Some? ==> room.value <= OFF_MAX
    ensures detected.Valid() && explicit.Valid() && fresh(detected) && fresh(explicit)
    ensures SameCapture(detected, explicit)
    ensures explicit.compression == if disk.Some? && GZIP_ID <= disk.value then Compressed else Uncompressed
    ensures disk.Some? && |disk.value| >= 2 ==> detected.compression == explicit.compression
    ensures disk.Some? && IsCapture(disk.value) ==>
              detected.valid && detected.compression == Uncompressed && detected.Contents() == Opened(disk.value)
  {
    hide Seen, Held, Constructed, StoredHeader;
    var gzip := disk.Some? && GZIP_ID <= disk.value;
    var mode := if gzip then Compressed else Uncompressed;
    detected := new PcapFile(disk, room, zlib, Autodetect, readOnly);
    explicit := new PcapFile(disk, room, zlib, mode, readOnly);
    AutodetectEquivalence(disk, room, zlib);
    HeldByMode(disk, room, zlib);
    if disk.Some? {
      CaptureConstructed(disk.value, room, zlib);
    }
  }

  lemma HeldByMode(disk: Option<seq<byte>>, room: Option<nat>, zlib: seq<byte> -> Inflated)
    ensures Held(Autodetect, disk, room, zlib) ==
            Held(if disk.Some? && GZIP_ID <= disk.value then Compressed else Uncompressed, disk, room, zlib)
    ensures disk.Some? && |disk.value| >= 2 ==>
              Resolve(Autodetect, disk) == if GZIP_ID <= disk.value then Compressed else Uncompressed
  {
    if disk.Some? && |disk.value| >= 2 {
      assert GZIP_ID <= disk.value <==> disk.value[..2] == GZIP_ID;
    }
  }

  lemma CaptureConstructed(d: seq<byte>, room: Option<nat>, zlib: seq<byte> -> Inflated)
    ensures IsCapture(d) ==> forall held :: Constructed(Some(d), held) == Opened(d)
  {
  }

  /** Any fetches of an object's entries are a run of fetches on the capture it stands for. */
  method FetchAll(capture: PcapFile, picks: seq<nat>) returns (answers: seq<Option<Packet>>)
    requires capture.Valid() && InRange(picks, |capture.packets|)
    modifies capture.file, capture.packets
    ensures capture.Valid() && capture.packets == old(capture.packets)
    ensures (capture.Contents(), answers) == FetchRun(old(capture.Contents()), picks)
  {
    hide Fetch, FetchRun, PcapFile.Valid, PcapFile.Caches;
    ghost var start := capture.Contents();
    answers := [];
    FetchNothing(start);
    assert picks[..0] == [];
    for i := 0 to |picks|
      invariant capture.Valid() && capture.packets == old(capture.packets) && capture.file == old(capture.file)
      invariant |start.index| == |start.caches| == |capture.packets| && InRange(picks[..i], |start.index|)
      invariant (capture.Contents(), answers) == FetchRun(start, picks[..i])
    {
      FetchOneMore(start, picks, i);
      var r := capture.GetPacket(picks[i]);
      answers := answers + [r];
    }
    assert picks[..|picks|] == picks;
  }

  /**
   The whole round trip on the code: a written capture, opened in any mode but
   Compressed, is valid, has the header that was written and as many packets,
   and gives packet i when asked for it, first or again.
   */
  method OpenWritten(h: FileHeader, linkHigh: u16, o: Order, ps: seq<Packet>, i: nat, mode: Compression,
                     room: Option<nat>, zlib: seq<byte> -> Inflated)
    returns (capture: PcapFile, first: Option<Packet>, again: Option<Packet>)
    requires h.variant.InHostOrder() && AllFit(ps, h.variant.RecordKind()) && i < |ps|
    requires |WriteCapture(h, linkHigh, o, ps)| <= OFF_MAX && !mode.Compressed?
    requires room.Some? ==> room.value <= OFF_MAX
    ensures capture.Valid() && capture.valid && capture.header == h && |capture.packets| == |ps|
    ensures capture.needsSwapping <==> o == Big
    ensures first == again == Some(ps[i])
  {
    hide WriteCapture, StoredHeader, ParseHeader, Accepted, RecordOf, FileIndex, OrderOf, Fetch,
      PcapFile.Valid, PcapFile.Caches;
    ghost var d := WriteCapture(h, linkHigh, o, ps);
    CaptureRoundTrip(h, linkHigh, o, ps);
    WrittenIsSeen(d, mode, room, zlib);
    EntriesPerPacket(ps);
    capture := new PcapFile(Some(WriteCapture(h, linkHigh, o, ps)), room, zlib, mode, true);
    assert OtherOrder(d) <==> o == Big;
    assert capture.Contents() == Opened(d);
    assert capture.packets[i] in capture.packets;
    first := capture.GetPacket(i);
    FetchTwice(Opened(d), i);
    again := capture.GetPacket(i);
  }

  lemma EntriesPerPacket(ps: seq<Packet>)
    ensures |IndexOf(ps, HEADER_SIZE)| == |ps|
  {
  }

  lemma WrittenIsSeen(d: seq<byte>, mode: Compression, room: Option<nat>, zlib: seq<byte> -> Inflated)
    requires IsCapture(d) && !mode.Compressed?
    ensures Seen(mode, Some(d), room, zlib) == Some(d)
  {
    AutodetectEquivalence(Some(d), room, zlib);
  }
}
