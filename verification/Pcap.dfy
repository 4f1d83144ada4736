/** pcap_t: opening a capture, indexing it by skipping, and fetching packets on demand. */
module Pcap {
  import opened Bytes
  import opened FdSpec
  import opened Packets
  import opened Records
  import opened RecordLaws
  import opened Header
  import opened Zlib
  import opened Captures
  import opened IndexLoop
  import Fd

  /** packet_storage_t: an index entry and the packet it caches. */
  class PacketStorage {
    const len: u32
    const offset: nat
    var cache: Packet

    constructor (len: u32, offset: nat)
      ensures this.len == len && this.offset == offset && cache == EMPTY_PACKET
      ensures cache.Length() == 0 && cache.header == NoHeader && !cache.IsComplete()
    {
      this.len, this.offset := len, offset;
      cache := EMPTY_PACKET;
    }

    method SetPacket(p: Packet)
      modifies this`cache
      ensures cache == p
    {
      cache := p;
    }
  }

  function IndexEntries(ps: seq<PacketStorage>): (index: seq<Entry>)
    ensures |index| == |ps| && forall i :: 0 <= i < |ps| ==> index[i] == Entry(ps[i].len, ps[i].offset)
  {
    seq(|ps|, i requires 0 <= i < |ps| => Entry(ps[i].len, ps[i].offset))
  }

  /** detect_captrue_compression: probe two bytes, then rewind. */
  method DetectCompression(file: Fd.Descriptor) returns (c: Compression)
    requires file.pos == 0
    modifies file
    ensures c == Detect(if file.isOpen then Some(file.content) else None)
    ensures c == Compressed <==>
            file.isOpen && |file.content| >= 2 && file.content[0] == 0x1F && file.content[1] == 0x8B
    ensures c == Unknown <==> !file.isOpen || |file.content| < 2
    ensures c != Autodetect
    ensures file.content == old(file.content) && file.isOpen == old(file.isOpen)
    ensures Ok(old(file.State())) ==> Ok(file.State())
    ensures file.pos == 0 && (file.isOpen && Ok(file.State()) ==> (file.eof <==> file.content == []))
  {
    var readBytes := new byte[2](_ => 0);
    var ok := file.Read(readBytes, 2);
    ghost var probed := readBytes[..];
    var _ := file.Head();
    if !ok {
      return Unknown;
    }
    assert probed == file.content[..2];
    c := if readBytes[..] == GZIP_ID then Compressed else Uncompressed;
  }

  class PcapFile {
    var file: Fd.Descriptor
    var compression: Compression
    var readOnly: bool
    var prefetch: bool
    var header: FileHeader
    var valid: bool
    var needsSwapping: bool
    var packets: seq<PacketStorage>

    ghost function Caches(): (c: seq<Packet>)
      reads this, packets
      ensures |c| == |packets| && forall i :: 0 <= i < |packets| ==> c[i] == packets[i].cache
    {
      seq(|packets|, i requires 0 <= i < |packets| reads this, packets => packets[i].cache)
    }

    /** The capture this object stands for; cursor and end-of-file flag are no part of it. */
    ghost function Contents(): View
      reads this, file, packets
    {
      View(file.content, header.variant.RecordKind(), IndexEntries(packets), Caches())
    }

    ghost predicate Valid()
      reads this, file, packets
    {
      && Ok(file.State())
      && (packets != [] ==> file.isOpen)
      && Distinct(packets)
      && (forall i :: 0 <= i < |packets| ==> packets[i].offset <= |file.content|)
      && Coherent(Contents())
    }

    /**
     The path constructor.  `disk` is what the path holds, None when it cannot
     be opened; `room` is how large the temporary file may grow, None when it
     cannot be created; `zlib` is what zlib makes of a file's bytes.
     */
    constructor (disk: Option<seq<byte>>, room: Option<nat>, zlib: seq<byte> -> Inflated,
                 compression: Compression, readOnly: bool, prefetch: bool := false)
      requires disk.Some? ==> |disk.value| <= OFF_MAX
      requires room.Some? ==> room.value <= OFF_MAX
      ensures Valid() && fresh(file) && forall p :: p in packets ==> fresh(p)
      ensures this.compression == Resolve(compression, disk)
      ensures this.readOnly == readOnly && this.prefetch == prefetch
      ensures var seen := Seen(compression, disk, room, zlib);
              && (valid <==> seen.Some? && IsCapture(seen.value))
              && header == (if seen.Some? then StoredHeader(seen.value) else DEFAULT_HEADER)
              && (seen.Some? && HasHeader(seen.value) ==> header == ParseHeader(seen.value))
              && (needsSwapping <==> seen.Some? && OtherOrder(seen.value))
              && Contents() == Constructed(seen, Held(compression, disk, room, zlib))
      ensures header.variant.InHostOrder()
    {
      hide Seen, Held, OrderOf, Accepted, ScanIndex, StoredHeader, ParseHeader, Ok, FileInv, Valid, Coherent,
        Contents, Opened, Unfetched, Distinct;
      file := new Fd.Descriptor.Closed();
      this.compression, this.readOnly, this.prefetch := compression, readOnly, prefetch;
      header, valid, needsSwapping, packets := DEFAULT_HEADER, false, false, [];
      new;
      var ok, cap, resolved := OpenBytes(disk, room, zlib, compression, readOnly);
      this.compression, file := resolved, cap;
      if !ok {
        EmptyIsValid(this);
        return;
      }
      ok := ReadHeader();
      if !ok {
        EmptyIsValid(this);
        return;
      }
      ghost var rounds;
      valid, rounds := IngestPackets();
      IndexedIsOpened(this);
    }

    /** The first half of the constructor: which bytes there are to parse, at the head of which descriptor. */
    static method OpenBytes(disk: Option<seq<byte>>, room: Option<nat>, zlib: seq<byte> -> Inflated,
                            compression: Compression, readOnly: bool)
      returns (ok: bool, file: Fd.Descriptor, resolved: Compression)
      requires disk.Some? ==> |disk.value| <= OFF_MAX
      requires room.Some? ==> room.value <= OFF_MAX
      ensures resolved == Resolve(compression, disk)
      ensures fresh(file) && Ok(file.State())
      ensures ok ==> file.pos == 0 && (file.isOpen ==> FileInv(file.State()))
      ensures Seen(compression, disk, room, zlib) == if ok && file.isOpen then Some(file.content) else None
      ensures file.content == Held(compression, disk, room, zlib)
    {
      hide Landed, Copies, Wrap32, Appended;
      file := new Fd.Descriptor.Closed();
      resolved := compression;
      var cap := new Fd.Descriptor.Open(disk, if readOnly then 0 else OFF_MAX);
      if resolved == Autodetect {
        resolved := DetectCompression(cap);
      }
      if resolved == Compressed {
        file := new Fd.Descriptor.Open(if room.Some? then Some([]) else None, if room.Some? then room.value else 0);
        assert file.State() == Temporary(room);
        assert cap.isOpen ==> cap.content[cap.pos..] == disk.value;
        var gz := new GzFile(if cap.isOpen then zlib(cap.content[cap.pos..]) else Inflated(false, [], false));
        assert gz.source == Inflate(disk, zlib);
        var copied := gz.DecompressTo(file);
        CopiedContent(gz.source, room);
        if copied == -1 {
          return false, file, resolved;
        }
        ok := file.Head();
      } else {
        file := cap;
        ok := true;
      }
    }

    method PacketCount() returns (n: nat)
      ensures n == |packets|
    {
      n := |packets|;
    }

    /**
     get_packet by position.  Nothing is claimed at the position one past the
     last: the bounds test lets it through to an element that is not there.
     */
    method GetPacket(idx: nat) returns (r: Option<Packet>)
      requires Valid() && idx != |packets|
      modifies file, if idx < |packets| then {packets[idx]} else {}
      ensures Valid() && file == old(file) && packets == old(packets)
      ensures idx < |packets| ==> (Contents(), r) == Fetch(old(Contents()), idx)
      ensures idx > |packets| ==> r.None? && Contents() == old(Contents())
    {
      if idx <= |packets| {
        r := FetchPacket(packets[idx]);
      } else {
        r := None;
      }
    }

    /**
     read_header: true exactly when 24 bytes with a known magic are there; the
     cursor is then after them and `eof` still false, even at the end of file.
     */
    method ReadHeader() returns (ok: bool)
      requires Ok(file.State()) && file.pos == 0 && (file.isOpen ==> FileInv(file.State()))
      requires header == DEFAULT_HEADER && !needsSwapping
      modifies this`header, this`needsSwapping, file
      ensures ok <==> file.isOpen && HasHeader(file.content)
      ensures ok ==> header == ParseHeader(file.content) && file.pos == HEADER_SIZE && !file.eof
      ensures header == if file.isOpen then StoredHeader(file.content) else DEFAULT_HEADER
      ensures needsSwapping <==> file.isOpen && OtherOrder(file.content)
      ensures file.content == old(file.content) && file.isOpen == old(file.isOpen) && Ok(file.State())
    {
      hide Ok, From, OrderOf, VariantOf, ReadExact, ReadData, ReadStep, ParseHeader;
      ghost var d := file.content;
      var known := ReadMagic();
      if !known {
        return false;
      }
      var major := ReadField(2);
      var minor := ReadField(2);
      if major.None? || minor.None? {
        StoredStops(d, 4);
        return false;
      }
      header := header.(major := major.value, minor := minor.value);

      var tzOffset := ReadField(4);
      if tzOffset.None? {
        StoredStops(d, 8);
        return false;
      }
      header := header.(tzOffset := Signed32(tzOffset.value));

      var tsFigs := ReadField(4);
      if tsFigs.None? {
        StoredStops(d, 12);
        return false;
      }
      header := header.(tsFigs := tsFigs.value);

      var maxLen := ReadField(4);
      if maxLen.None? {
        StoredStops(d, 16);
        return false;
      }
      header := header.(maxLen := maxLen.value);

      var linkType := ReadField(4);
      if linkType.None? {
        StoredStops(d, 20);
        return false;
      }
      header := header.(linkType := linkType.value % 0x1_0000);
      StoredWhole(d);
      ok := true;
    }

    /** The magic: read raw and looked up among the ten enumerators. */
    method ReadMagic() returns (ok: bool)
      requires Ok(file.State()) && file.pos == 0 && (file.isOpen ==> FileInv(file.State()))
      requires header == DEFAULT_HEADER && !needsSwapping
      modifies this`header, this`needsSwapping, file
      ensures ok <==> file.isOpen && |file.content| >= 4 && OrderOf(file.content).Some?
      ensures needsSwapping <==> file.isOpen && |file.content| >= 4 && OrderOf(file.content) == Some(Big)
      ensures header.variant.InHostOrder()
      ensures header == if ok then DEFAULT_HEADER.(variant := header.variant) else DEFAULT_HEADER
      ensures ok ==> file.pos == 4 && !file.eof
      ensures ok ==> OrderOf(file.content) == Some(if needsSwapping then Big else Little)
      ensures ok ==> VariantOf(Field(OrderOf(file.content).value, file.content[0..4])) == Some(header.variant)
      ensures file.content == old(file.content) && file.isOpen == old(file.isOpen) && Ok(file.State())
    {
      hide FromLE, FromBE, Swap32;
      var magic := file.ReadObject(4);
      if magic.None? {
        return false;
      }
      assert magic.value == file.content[0..4];
      MagicSwitch(file.content);
      var variant := VariantOf(U32(magic.value));
      if variant.None? {
        return false;
      } else if variant.value.InHostOrder() {
        header := header.(variant := variant.value);
      } else {
        needsSwapping := true;
        SwappedMagics(variant.value);
        header := header.(variant := VariantOf(Swap32(U32(magic.value))).value);
      }
      ok := true;
    }

    /** The next field of n bytes, swapped when the file's order is not the host's. */
    method ReadField(n: nat) returns (v: Option<u32>)
      requires Ok(file.State()) && file.isOpen && n in {2, 4}
      modifies file
      ensures file.content == old(file.content) && file.isOpen && Ok(file.State())
      ensures v.Some? <==> old(file.pos) + n <= |file.content|
      ensures v.Some? ==> file.pos == old(file.pos) + n && file.eof == old(file.eof)
      ensures v.None? ==> file.pos >= old(file.pos)
      ensures v.Some? ==>
                v.value == From(if needsSwapping then Big else Little, file.content[old(file.pos)..old(file.pos) + n])
      ensures n == 2 && v.Some? ==> v.value < 0x1_0000
    {
      hide FromLE, FromBE;
      var raw := file.ReadObject(n);
      if raw.None? {
        return None;
      }
      SwapMacros(raw.value);
      if n == 2 {
        v := Some(if needsSwapping then Swap16(U16(raw.value)) else U16(raw.value));
      } else {
        v := Some(if needsSwapping then Swap32(U32(raw.value)) else U32(raw.value));
      }
    }

    /**
     ingest_packets, from any cursor with `eof` false.  The loop tests only the
     flag; it nevertheless succeeds exactly on a non-empty run of complete
     records that ends with the file, and leaves the same index as the plain
     reader's records whether or not it succeeds.  `rounds` counts iterations:
     at most one goes beyond the entries made.
     */
    method IngestPackets() returns (ok: bool, ghost rounds: nat)
      requires Ok(file.State()) && file.isOpen && !file.eof && file.pos <= |file.content|
      requires packets == []
      modifies this`packets, file
      ensures var body := old(file.content[file.pos..]); var k := header.variant.RecordKind();
              && (ok <==> Accepted(body, k))
              && IndexEntries(packets) == ScanIndex(body, k, old(file.pos))
      ensures Unfetched(packets) && Distinct(packets) && fresh(packets)
      ensures rounds <= |packets| + 1 && (ok ==> rounds == |packets|)
      ensures ok ==> file.eof && file.pos == |file.content|
      ensures file.content == old(file.content) && file.isOpen && Ok(file.State())
    {
      hide Progress, ScanIndex, Accepted, IndexEntries, Unfetched, Distinct;
      var bodyOffset := BodyOffset(header.variant.RecordKind());
      ghost var d, k, start := file.content, header.variant.RecordKind(), file.pos;
      ghost var size := |d| as int;
      rounds := 0;
      NothingYet(d, k, start);
      NoPackets(packets);
      while !file.eof
        invariant file.content == d && file.isOpen && Ok(file.State())
        invariant Unfetched(packets) && Distinct(packets) && fresh(packets)
        invariant Progress(d, k, start, file.pos, file.eof, IndexEntries(packets))
        invariant rounds == |packets|
        decreases if file.pos <= size then size - file.pos + 1 else 0
      {
        ghost var before := packets;
        var more := IngestRecord(bodyOffset, start);
        assert packets == before + packets[|before|..];
        rounds := rounds + 1;
        if !more {
          return false, rounds;
        }
      }
      Finishes(d, k, start, file.pos, IndexEntries(packets));
      ok := true;
    }

    /** The body of the index loop; false where the source returns from inside it. */
    method IngestRecord(bodyOffset: nat, ghost start: nat) returns (more: bool)
      requires Ok(file.State()) && file.isOpen && !file.eof && Unfetched(packets) && Distinct(packets)
      requires bodyOffset == BodyOffset(header.variant.RecordKind())
      requires Progress(file.content, header.variant.RecordKind(), start, file.pos, false, IndexEntries(packets))
      modifies this`packets, file
      ensures file.content == old(file.content) && file.isOpen && Ok(file.State())
      ensures Unfetched(packets) && Distinct(packets) && old(packets) <= packets && fresh(packets[|old(packets)|..])
      ensures |packets| <= |old(packets)| + 1 && (more ==> |packets| == |old(packets)| + 1)
      ensures start <= |file.content|
      ensures var d, k := file.content, header.variant.RecordKind();
              && (more ==> file.pos > old(file.pos) && Progress(d, k, start, file.pos, file.eof, IndexEntries(packets)))
              && (more ==> old(file.pos) <= |d|)
              && (!more ==> IndexEntries(packets) == ScanIndex(d[start..], k, start) && !Accepted(d[start..], k))
    {
      hide ScanIndex, Accepted, IndexEntries, Unfetched, Distinct, SeekStep, SeekResult, ReadStep, ReadExact;
      ghost var d, k := file.content, header.variant.RecordKind();
      var prevPos := file.Tell();
      ghost var before := IndexEntries(packets);
      SeekAhead(file.State(), LENGTH_AT);
      var sought := file.Seek(LENGTH_AT, FromCursor);
      if sought != LENGTH_AT + prevPos {
        StopsShort(d, k, start, prevPos, before);
        return false;
      }
      ReadWhole(file.State(), 4);
      var field := file.ReadObject(4);
      if field.None? {
        StopsShort(d, k, start, prevPos, before);
        return false;
      }
      var len := U32(field.value);
      EmplaceBack(len, prevPos);
      var bodyPos := file.Tell();
      var next := len + bodyOffset;
      Advances(d, k, start, prevPos, before, len);
      SeekAhead(file.State(), next);
      var landed := file.Seek(next, FromCursor);
      more := landed == next + bodyPos;
    }

    /** _packets.emplace_back */
    method EmplaceBack(len: u32, offset: nat)
      requires Unfetched(packets) && Distinct(packets)
      modifies this`packets
      ensures |packets| == |old(packets)| + 1 && old(packets) <= packets && fresh(packets[|old(packets)|])
      ensures IndexEntries(packets) == old(IndexEntries(packets)) + [Entry(len, offset)]
      ensures Unfetched(packets) && Distinct(packets)
    {
      var storage := new PacketStorage(len, offset);
      packets := packets + [storage];
      assert IndexEntries(packets) == old(IndexEntries(packets)) + [Entry(len, offset)];
    }

    /**
     get_packet: seek to the entry's record, read its header, then its data.
     The answer is the record the file holds there, if a complete one starts
     there; then, and only then, it becomes the entry's cache.
     */
    method FetchPacket(storage: PacketStorage) returns (r: Option<Packet>)
      requires Valid() && storage in packets
      modifies file, storage`cache
      ensures r == RecordAt(file.content, header.variant.RecordKind(), storage.offset)
      ensures storage.cache == if r.Some? then r.value else old(storage.cache)
      ensures r.Some? ==> file.pos == storage.offset + RecordSize(r.value) && !file.eof
      ensures Valid()
      ensures forall i :: 0 <= i < |packets| && packets[i] == storage ==> (Contents(), r) == Fetch(old(Contents()), i)
    {
      r := FetchRecord(storage);
      forall i | 0 <= i < |packets| && packets[i] == storage
        ensures (Contents(), r) == Fetch(old(Contents()), i)
      {
        assert Contents().caches == Fetch(old(Contents()), i).0.caches;
      }
    }

    /** The reads of get_packet and the store into the cache. */
    method FetchRecord(storage: PacketStorage) returns (r: Option<Packet>)
      requires Valid() && storage in packets
      modifies file, storage`cache
      ensures r == RecordAt(file.content, header.variant.RecordKind(), storage.offset)
      ensures storage.cache == if r.Some? then r.value else old(storage.cache)
      ensures r.Some? ==> file.pos == storage.offset + RecordSize(r.value) && !file.eof
      ensures file.content == old(file.content) && file.isOpen && Ok(file.State())
    {
      hide RecordAt, DecodeHeader, SeekStep, SeekResult, ReadStep, ReadExact;
      ghost var i :| 0 <= i < |packets| && packets[i] == storage;
      ghost var d, k, at := file.content, header.variant.RecordKind(), storage.offset;
      RecordInParts(d, k, at);
      SeekInside(file.State(), at);
      var sought := file.Seek(storage.offset, FromStart);
      if sought != storage.offset {
        assert false;
      }
      var size := HeaderSize(header.variant.RecordKind());
      ReadWhole(file.State(), size);
      var bytes := file.ReadObject(size);
      if bytes.None? {
        return None;
      }
      var h := DecodeHeader(bytes.value, header.variant.RecordKind());
      ReadWhole(file.State(), h.CapturedLen());
      var raw := file.ReadObject(h.CapturedLen());
      if raw.Some? {
        storage.SetPacket(Packet(raw.value, h));
        r := Some(storage.cache);
      } else {
        r := None;
      }
    }
  }

  /** No two entries share a storage object. */
  ghost predicate Distinct(ps: seq<PacketStorage>) {
    forall i, j :: 0 <= i < j < |ps| ==> ps[i] != ps[j]
  }

  /** No entry has been fetched yet. */
  ghost predicate Unfetched(ps: seq<PacketStorage>)
    reads ps
  {
    forall i :: 0 <= i < |ps| ==> ps[i].cache == EMPTY_PACKET
  }

  lemma NoPackets(ps: seq<PacketStorage>)
    requires ps == []
    ensures IndexEntries(ps) == [] && Unfetched(ps) && Distinct(ps)
  {
  }

  lemma EmptyIsValid(p: PcapFile)
    requires Ok(p.file.State()) && p.packets == []
    ensures p.Valid()
    ensures p.Contents() == View(p.file.content, p.header.variant.RecordKind(), [], [])
  {
    assert IndexEntries(p.packets) == [] && p.Caches() == [];
  }

  /** Once its header is read and its index built, the object stands for the opened file. */
  lemma IndexedIsOpened(p: PcapFile)
    requires Ok(p.file.State()) && p.file.isOpen && Distinct(p.packets) && Unfetched(p.packets)
    requires HasHeader(p.file.content) && p.header == ParseHeader(p.file.content)
    requires IndexEntries(p.packets) ==
             ScanIndex(p.file.content[HEADER_SIZE..], p.header.variant.RecordKind(), HEADER_SIZE)
    ensures p.Contents() == Opened(p.file.content) && p.Valid()
  {
    hide Ok, HasHeader, ParseHeader, Coherent, Distinct, ScanIndex;
    assert p.Caches() == Empties(|p.packets|);
    OpenedIsCoherent(p.file.content);
  }
}
