/**
 Whole captures as values: which files open, what an open capture holds, and
 how it changes when packets are fetched.
 */
module Captures {
  import opened Bytes
  import opened FdSpec
  import opened Packets
  import opened Records
  import opened RecordLaws
  import opened Header
  import opened Zlib

  // ---- which bytes are read ----

  datatype Compression = Uncompressed | Compressed | Autodetect | Unknown

  /** What the two-byte probe reports for a file; None is a file that could not be opened. */
  function Detect(disk: Option<seq<byte>>): Compression {
    if disk.None? || |disk.value| < 2 then Unknown
    else if disk.value[..2] == GZIP_ID then Compressed
    else Uncompressed
  }

  function Resolve(c: Compression, disk: Option<seq<byte>>): Compression {
    if c.Autodetect? then Detect(disk) else c
  }

  /** zlib on the capture's descriptor; `zlib` is what it makes of a file's bytes. */
  function Inflate(disk: Option<seq<byte>>, zlib: seq<byte> -> Inflated): Inflated {
    if disk.None? then Inflated(false, [], false) else zlib(disk.value)
  }

  /** The temporary file as it is created; `room` is None when it cannot be. */
  function Temporary(room: Option<nat>): FdState {
    FdState(room.Some?, [], 0, false, UNKNOWN_LENGTH, if room.Some? then room.value else 0)
  }

  /** The bytes the reader goes on to parse, if it gets that far. */
  function Seen(c: Compression, disk: Option<seq<byte>>, room: Option<nat>, zlib: seq<byte> -> Inflated)
    : Option<seq<byte>>
  {
    if Resolve(c, disk).Compressed? then
      var z := Inflate(disk, zlib);
      if room.Some? && Copies(z, Temporary(room)) && Wrap32(|z.stream|) != -1 then Some(z.stream) else None
    else disk
  }

  /** The bytes behind the descriptor the capture keeps, whether or not they are parsed. */
  function Held(c: Compression, disk: Option<seq<byte>>, room: Option<nat>, zlib: seq<byte> -> Inflated): seq<byte> {
    if Resolve(c, disk).Compressed? then
      var z := Inflate(disk, zlib);
      z.stream[..Landed(z, Temporary(room))]
    else if disk.Some? then disk.value else []
  }

  /** What a copy leaves in the new temporary file: the stream, when it is complete. */
  lemma CopiedContent(z: Inflated, room: Option<nat>)
    requires room.Some? ==> room.value <= OFF_MAX
    ensures var t := Appended(Temporary(room), z.stream, Landed(z, Temporary(room)));
            && t.content == z.stream[..Landed(z, Temporary(room))]
            && (Copies(z, Temporary(room)) ==> t.content == z.stream)
            && t.cachedLen == UNKNOWN_LENGTH && |t.content| == t.pos <= OFF_MAX && t.isOpen == room.Some?
  {
    assert [] + z.stream[..|z.stream|] == z.stream;
  }

  // ---- which bytes are a capture ----

  function KindOf(d: seq<byte>): Kind
    requires HasHeader(d)
  {
    ParseHeader(d).variant.RecordKind()
  }

  /** A header the reader takes, then at least one record, then nothing else. */
  predicate IsCapture(d: seq<byte>) {
    HasHeader(d) && Accepted(d[HEADER_SIZE..], KindOf(d))
  }

  /** The index of a file with a header, capture or not. */
  function FileIndex(d: seq<byte>): seq<Entry>
    requires HasHeader(d)
  {
    ScanIndex(d[HEADER_SIZE..], KindOf(d), HEADER_SIZE)
  }

  /** The packets a plain sequential reader finds after the header. */
  function FilePackets(d: seq<byte>): seq<Packet>
    requires HasHeader(d)
  {
    ReadAll(d[HEADER_SIZE..], KindOf(d)).records
  }

  // ---- an open capture ----

  datatype View = View(content: seq<byte>, kind: Kind, index: seq<Entry>, caches: seq<Packet>)

  function Empties(n: nat): (c: seq<Packet>)
    ensures |c| == n && forall i :: 0 <= i < n ==> c[i] == EMPTY_PACKET
  {
    seq(n, _ => EMPTY_PACKET)
  }

  /** A capture as it stands when its index has been built. */
  function Opened(d: seq<byte>): (v: View)
    requires HasHeader(d)
    ensures v.index == FileIndex(d) && |v.caches| == |v.index|
  {
    View(d, KindOf(d), FileIndex(d), Empties(|FileIndex(d)|))
  }

  /** A capture as its constructor leaves it, for any bytes seen and held: without a header it has no entries. */
  function Constructed(seen: Option<seq<byte>>, held: seq<byte>): View {
    if seen.Some? && HasHeader(seen.value) then Opened(seen.value)
    else
      var h := if seen.Some? then StoredHeader(seen.value) else DEFAULT_HEADER;
      View(held, h.variant.RecordKind(), [], [])
  }

  /** The record entry i stands for. */
  function RecordOf(v: View, i: nat): Option<Packet>
    requires i < |v.index|
  {
    RecordAt(v.content, v.kind, v.index[i].offset)
  }

  /** Records are as long as their entries say. */
  ghost predicate Sized(v: View) {
    forall i :: 0 <= i < |v.index| && RecordOf(v, i).Some? ==> RecordOf(v, i).value.Length() == v.index[i].len
  }

  /** Every cache holds the initial empty packet or the record its entry stands for, of its entry's length. */
  ghost predicate Coherent(v: View) {
    && |v.caches| == |v.index| && Sized(v)
    && forall i :: 0 <= i < |v.index| ==> v.caches[i] == EMPTY_PACKET || RecordOf(v, i) == Some(v.caches[i])
  }

  /** Fetching entry i: its record, which also becomes its cache. */
  function Fetch(v: View, i: nat): (r: (View, Option<Packet>))
    requires i < |v.index| == |v.caches|
    ensures r.0 == v.(caches := r.0.caches) && |r.0.caches| == |v.caches|
  {
    var p := RecordOf(v, i);
    (if p.Some? then v.(caches := v.caches[i := p.value]) else v, p)
  }

  predicate InRange(picks: seq<nat>, n: nat) {
    forall k :: 0 <= k < |picks| ==> picks[k] < n
  }

  function FetchRun(v: View, picks: seq<nat>): (r: (View, seq<Option<Packet>>))
    requires |v.index| == |v.caches| && InRange(picks, |v.index|)
    ensures r.0 == v.(caches := r.0.caches) && |r.0.caches| == |v.caches| && |r.1| == |picks|
  {
    if picks == [] then (v, [])
    else
      var (u, earlier) := FetchRun(v, picks[..|picks| - 1]);
      var (w, p) := Fetch(u, picks[|picks| - 1]);
      (w, earlier + [p])
  }

  lemma FetchNothing(v: View)
    requires |v.index| == |v.caches|
    ensures FetchRun(v, []) == (v, [])
  {
  }

  /** One more fetch at the end of a run; its answer does not depend on the run. */
  lemma FetchOneMore(v: View, picks: seq<nat>, i: nat)
    requires |v.index| == |v.caches| && InRange(picks, |v.index|) && i < |picks|
    ensures InRange(picks[..i], |v.index|) && InRange(picks[..i + 1], |v.index|)
    ensures var (u, earlier) := FetchRun(v, picks[..i]);
            && FetchRun(v, picks[..i + 1]) == (Fetch(u, picks[i]).0, earlier + [Fetch(u, picks[i]).1])
            && Fetch(u, picks[i]).1 == RecordOf(v, picks[i])
  {
    hide RecordAt;
    assert picks[..i + 1][..i] == picks[..i];
  }

  /** Fetching an entry again gives the same answer. */
  lemma FetchTwice(v: View, i: nat)
    requires i < |v.index| == |v.caches|
    ensures Fetch(v, i).1 == Fetch(Fetch(v, i).0, i).1 == RecordOf(v, i)
  {
  }

  /**
   Cache coherence over whole runs: after any fetches, in any order and with
   repeats, every answer is the record of its entry and as long as the entry
   and its own header say, offsets and lengths are what they were, exactly the
   fetched entries with a record have it cached, and the caches stay coherent.
   */
  lemma {:induction false} FetchRunCoherent(v: View, picks: seq<nat>)
    requires Coherent(v) && InRange(picks, |v.index|)
    ensures var (w, answers) := FetchRun(v, picks);
            && w.content == v.content && w.kind == v.kind && w.index == v.index && Coherent(w)
            && (forall n :: 0 <= n < |picks| ==> answers[n] == RecordOf(v, picks[n]))
            && (forall n :: 0 <= n < |picks| && answers[n].Some? ==>
                  answers[n].value.Length() == v.index[picks[n]].len == answers[n].value.header.CapturedLen())
            && (forall i :: 0 <= i < |v.index| ==>
                  w.caches[i] == if i in picks && RecordOf(v, i).Some? then RecordOf(v, i).value else v.caches[i])
  {
    if picks != [] {
      var front, last := picks[..|picks| - 1], picks[|picks| - 1];
      assert picks == front + [last];
      FetchRunCoherent(v, front);
      var (u, earlier) := FetchRun(v, front);
      var (w, answers) := FetchRun(v, picks);
      assert last in picks && RecordOf(u, last) == RecordOf(v, last);
      forall i | 0 <= i < |v.index|
        ensures w.caches[i] == if i in picks && RecordOf(v, i).Some? then RecordOf(v, i).value else v.caches[i]
      {
        assert i in picks <==> i in front || i == last;
      }
    }
  }

  /** Only which entries were fetched matters, not in what order or how often. */
  lemma FetchOrderIrrelevant(v: View, picks: seq<nat>, others: seq<nat>)
    requires Coherent(v) && InRange(picks, |v.index|) && InRange(others, |v.index|)
    requires forall i :: i in picks <==> i in others
    ensures FetchRun(v, picks).0 == FetchRun(v, others).0
  {
    FetchRunCoherent(v, picks);
    FetchRunCoherent(v, others);
    assert FetchRun(v, picks).0.caches == FetchRun(v, others).0.caches;
  }

  /** A capture that was just indexed is coherent, and its entries start inside the file. */
  lemma OpenedIsCoherent(d: seq<byte>)
    requires HasHeader(d)
    ensures Coherent(Opened(d))
    ensures forall i :: 0 <= i < |FileIndex(d)| ==> FileIndex(d)[i].offset <= |d|
  {
    hide ReadOne, ReadAll, RecordAt, ScanIndex;
    forall i | 0 <= i < |FileIndex(d)|
      ensures FileIndex(d)[i].offset <= |d|
      ensures RecordOf(Opened(d), i).Some? ==> RecordOf(Opened(d), i).value.Length() == FileIndex(d)[i].len
    {
      IndexFetches(d, KindOf(d), HEADER_SIZE, i);
    }
  }

  // ---- the fast reader against the plain one ----

  /**
   Refinement: the entries of a capture are as many as the packets of the plain
   reader, and fetching entry i, whatever was fetched before, gives packet i,
   whose stored bytes are as long as its entry and its header say.
   */
  lemma CaptureRefines(d: seq<byte>, picks: seq<nat>)
    ensures IsCapture(d) ==> |FileIndex(d)| == |FilePackets(d)| > 0
    ensures IsCapture(d) && InRange(picks, |FileIndex(d)|) ==>
              forall n :: 0 <= n < |picks| ==>
                var p, e := FilePackets(d)[picks[n]], FileIndex(d)[picks[n]];
                && FetchRun(Opened(d), picks).1[n] == Some(p)
                && e.len == p.Length() == p.header.CapturedLen() && p.header.HasKind(KindOf(d))
                && (p.IsComplete() <==> p.Length() == p.header.base.actualLen)
  {
    hide HasHeader, Accepted, FetchRun, Coherent, RecordOf;
    if IsCapture(d) {
      CaptureSize(d);
      if InRange(picks, |FileIndex(d)|) {
        OpenedIsCoherent(d);
        FetchRunCoherent(Opened(d), picks);
        forall n | 0 <= n < |picks|
          ensures RecordOf(Opened(d), picks[n]) == Some(FilePackets(d)[picks[n]])
          ensures FileIndex(d)[picks[n]].len == |FilePackets(d)[picks[n]].raw|
          ensures Fits(FilePackets(d)[picks[n]], KindOf(d))
        {
          EntryIsPacket(d, picks[n]);
        }
      }
    }
  }

  lemma CaptureSize(d: seq<byte>)
    requires IsCapture(d)
    ensures |FileIndex(d)| == |FilePackets(d)| > 0
  {
    ScanIndexWhole(d[HEADER_SIZE..], KindOf(d), HEADER_SIZE);
  }

  lemma EntryIsPacket(d: seq<byte>, i: nat)
    requires IsCapture(d) && i < |FileIndex(d)|
    ensures |FileIndex(d)| == |FilePackets(d)| > 0
    ensures RecordOf(Opened(d), i) == Some(FilePackets(d)[i])
    ensures FileIndex(d)[i].len == |FilePackets(d)[i].raw| && Fits(FilePackets(d)[i], KindOf(d))
  {
    hide ReadOne, ParseHeader;
    ScanIndexWhole(d[HEADER_SIZE..], KindOf(d), HEADER_SIZE);
    IndexFetches(d, KindOf(d), HEADER_SIZE, i);
    EncodeReadAll(d[HEADER_SIZE..], KindOf(d));
    assert FilePackets(d)[i] in FilePackets(d);
  }

  // ---- writing captures ----

  /** A header in byte order o, then packets in host order. */
  function WriteCapture(h: FileHeader, linkHigh: u16, o: Order, ps: seq<Packet>): seq<byte> {
    EncodeFileHeader(h, linkHigh, o) + EncodeAll(ps, Little)
  }

  /** Round trip: a written capture opens with its header, and its packets are the ones written. */
  lemma CaptureRoundTrip(h: FileHeader, linkHigh: u16, o: Order, ps: seq<Packet>)
    requires h.variant.InHostOrder() && AllFit(ps, h.variant.RecordKind()) && ps != []
    ensures var d := WriteCapture(h, linkHigh, o, ps);
            && IsCapture(d) && ParseHeader(d) == h && OrderOf(d) == Some(o)
            && FilePackets(d) == ps && FileIndex(d) == IndexOf(ps, HEADER_SIZE)
            && forall i :: 0 <= i < |ps| ==> RecordOf(Opened(d), i) == Some(ps[i])
  {
    hide EncodeFileHeader;
    var d, k := WriteCapture(h, linkHigh, o, ps), h.variant.RecordKind();
    HeaderRoundTrip(h, linkHigh, o, EncodeAll(ps, Little));
    assert d[HEADER_SIZE..] == EncodeAll(ps, Little);
    RecordRoundTrip(ps, k);
    ScanIndexWhole(d[HEADER_SIZE..], k, HEADER_SIZE);
    forall i | 0 <= i < |ps|
      ensures RecordOf(Opened(d), i) == Some(ps[i])
    {
      IndexFetches(d, k, HEADER_SIZE, i);
    }
  }

  /** And nothing else opens: every capture is what the writer makes of its own header and packets. */
  lemma CaptureIsWritten(d: seq<byte>)
    requires IsCapture(d)
    ensures AllFit(FilePackets(d), KindOf(d)) && FilePackets(d) != []
    ensures d == WriteCapture(ParseHeader(d), LinkHigh(d), OrderOf(d).value, FilePackets(d))
  {
    hide EncodeFileHeader, ParseHeader;
    ParseHeaderRoundTrip(d);
    EncodeReadAll(d[HEADER_SIZE..], KindOf(d));
    assert EncodeAll(FilePackets(d), Little) + [] == EncodeAll(FilePackets(d), Little);
    assert d == d[..HEADER_SIZE] + d[HEADER_SIZE..];
  }

  /**
   Captures of the other byte order: the file header of a big-endian capture is
   understood, but its records are taken raw.  It opens with the index and the
   packets that were written exactly when every record header reads the same in
   both orders.
   */
  lemma BigCaptureIff(h: FileHeader, linkHigh: u16, ps: seq<Packet>)
    requires h.variant.InHostOrder() && AllFit(ps, h.variant.RecordKind()) && ps != []
    ensures var d := EncodeFileHeader(h, linkHigh, Big) + EncodeAll(ps, Big);
            && HasHeader(d) && ParseHeader(d) == h
            && (IsCapture(d) && FilePackets(d) == ps <==> forall p :: p in ps ==> SwapHeader(p.header) == p.header)
            && (FileIndex(d) == IndexOf(ps, HEADER_SIZE) <==> forall p :: p in ps ==> LengthSymmetric(p))
  {
    hide EncodeFileHeader;
    var d, k := EncodeFileHeader(h, linkHigh, Big) + EncodeAll(ps, Big), h.variant.RecordKind();
    HeaderRoundTrip(h, linkHigh, Big, EncodeAll(ps, Big));
    assert d[HEADER_SIZE..] == EncodeAll(ps, Big);
    BigRecordsIff(ps, k);
    BigIndexIff(ps, k, HEADER_SIZE);
  }

  // ---- compression modes ----

  /**
   Autodetection reads every file as one of the explicit modes would: gzip
   files as Compressed, all others as Uncompressed, and no capture is taken
   for a gzip file.
   */
  lemma AutodetectEquivalence(disk: Option<seq<byte>>, room: Option<nat>, zlib: seq<byte> -> Inflated)
    ensures Seen(Autodetect, disk, room, zlib) ==
            Seen(if disk.Some? && GZIP_ID <= disk.value then Compressed else Uncompressed, disk, room, zlib)
    ensures disk.Some? && IsCapture(disk.value) ==>
              Resolve(Autodetect, disk) == Uncompressed && Seen(Autodetect, disk, room, zlib) == disk
  {
    if disk.Some? && |disk.value| >= 2 {
      assert GZIP_ID <= disk.value <==> disk.value[..2] == GZIP_ID;
      if IsCapture(disk.value) {
        HeaderIsNotGzip(disk.value);
      }
    }
  }

  /**
   When zlib delivers the whole stream and the temporary file
   has room, the compressed file is read as its stream would be on its own,
   unless the stream's length, in the 32 bits the copy counts in, is -1.
   */
  lemma SeenCompressed(disk: Option<seq<byte>>, room: Option<nat>, zlib: seq<byte> -> Inflated)
    requires room.Some? && Copies(Inflate(disk, zlib), Temporary(room))
    ensures var s := Inflate(disk, zlib).stream;
            && (Seen(Compressed, disk, room, zlib) == Seen(Uncompressed, Some(s), room, zlib)
                <==> |s| % 0x1_0000_0000 != 0xFFFF_FFFF)
            && (|s| < 0x8000_0000 ==> Seen(Compressed, disk, room, zlib) == Some(s))
  {
  }
}
