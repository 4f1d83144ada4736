/**
 The record grammar.  `ReadAll` is the simple reader: it takes whole records
 off the front for as long as one is complete.  `ScanIndex` is what the
 skipping pass must leave behind.
 */
module Records {
  import opened Bytes
  import opened Packets

  /** What the index keeps of a record: the stored length and where the record starts. */
  datatype Entry = Entry(len: nat, offset: nat)

  /** Offset of the captured length in a record, and the end of that field. */
  const LENGTH_AT: nat := 8
  const LENGTH_END: nat := 12

  /** The first record of b, if b begins with a complete one. */
  function ReadOne(b: seq<byte>, k: Kind): (p: Option<Packet>)
    ensures p.Some? ==> Fits(p.value, k) && RecordSize(p.value) <= |b|
  {
    var size := HeaderSize(k);
    if |b| < size then None
    else
      var h := DecodeHeader(b[..size], k);
      if |b| < size + h.CapturedLen() then None else Some(Packet(b[size..size + h.CapturedLen()], h))
  }

  function RecordSize(p: Packet): nat { p.header.Size() + |p.raw| }

  datatype Parsed = Parsed(records: seq<Packet>, rest: seq<byte>)

  /** Every complete record from the front of b, and the bytes no record accounts for. */
  function ReadAll(b: seq<byte>, k: Kind): Parsed
    decreases |b|
  {
    var p := ReadOne(b, k);
    if p.None? then Parsed([], b)
    else
      var later := ReadAll(b[RecordSize(p.value)..], k);
      Parsed([p.value] + later.records, later.rest)
  }

  /** A body is accepted when it holds at least one record and nothing else. */
  predicate Accepted(b: seq<byte>, k: Kind) {
    var parsed := ReadAll(b, k);
    parsed.records != [] && parsed.rest == []
  }

  // ---- writing ----

  function Encode(p: Packet, o: Order): (b: seq<byte>)
    ensures |b| == RecordSize(p)
  {
    EncodeHeader(p.header, o) + p.raw
  }

  predicate AllFit(ps: seq<Packet>, k: Kind) {
    forall p :: p in ps ==> Fits(p, k)
  }

  /** The packets' bytes one after another. */
  function EncodeAll(ps: seq<Packet>, o: Order): (b: seq<byte>)
    ensures |b| == TotalSize(ps)
  {
    if ps == [] then [] else Encode(ps[0], o) + EncodeAll(ps[1..], o)
  }

  function TotalSize(ps: seq<Packet>): nat {
    if ps == [] then 0 else RecordSize(ps[0]) + TotalSize(ps[1..])
  }

  // ---- reading and writing are inverse ----

  lemma ReadOneEncode(p: Packet, later: seq<byte>, k: Kind)
    requires Fits(p, k)
    ensures ReadOne(Encode(p, Little) + later, k) == Some(p)
  {
    var size, b := HeaderSize(k), Encode(p, Little) + later;
    DecodeEncode(p.header, k);
    assert b[..size] == EncodeHeader(p.header, Little);
    assert b[size..size + |p.raw|] == p.raw;
  }

  lemma EncodeReadOne(b: seq<byte>, k: Kind)
    requires ReadOne(b, k).Some?
    ensures var p := ReadOne(b, k).value; b == Encode(p, Little) + b[RecordSize(p)..]
  {
    var size, p := HeaderSize(k), ReadOne(b, k).value;
    EncodeDecode(b[..size], k);
    SplitTwice(b, size, RecordSize(p));
  }

  lemma Assoc<T>(a: seq<T>, b: seq<T>, c: seq<T>)
    ensures (a + b) + c == a + (b + c)
  {
  }

  lemma HeadTail<T>(s: seq<T>)
    requires s != []
    ensures s == [s[0]] + s[1..]
  {
  }

  lemma SplitTwice(b: seq<byte>, i: nat, j: nat)
    requires i <= j <= |b|
    ensures b == b[..i] + b[i..j] + b[j..]
  {
  }

  lemma EncodeAllCons(p: Packet, ps: seq<Packet>, o: Order)
    ensures EncodeAll([p] + ps, o) == Encode(p, o) + EncodeAll(ps, o)
  {
    assert ([p] + ps)[1..] == ps;
  }

  lemma ReadAllCons(p: Packet, later: seq<byte>, k: Kind)
    requires Fits(p, k)
    ensures var r := ReadAll(later, k);
            ReadAll(Encode(p, Little) + later, k) == Parsed([p] + r.records, r.rest)
  {
    ReadOneEncode(p, later, k);
    assert (Encode(p, Little) + later)[RecordSize(p)..] == later;
  }

  /** The parse splits the input: the records re-encode to its front, and no record begins the rest. */
  lemma {:induction false} EncodeReadAll(b: seq<byte>, k: Kind)
    ensures var r := ReadAll(b, k);
            AllFit(r.records, k) && b == EncodeAll(r.records, Little) + r.rest && ReadOne(r.rest, k).None?
    decreases |b|
  {
    var p := ReadOne(b, k);
    if p.Some? {
      var tail := b[RecordSize(p.value)..];
      var r := ReadAll(tail, k);
      EncodeReadOne(b, k);
      EncodeReadAll(tail, k);
      EncodeAllCons(p.value, r.records, Little);
      Assoc(Encode(p.value, Little), EncodeAll(r.records, Little), r.rest);
    }
  }

  /** Written packets come off the front one by one; what follows them is read on its own. */
  lemma {:induction false} ReadAllEncode(ps: seq<Packet>, later: seq<byte>, k: Kind)
    requires AllFit(ps, k)
    ensures var r := ReadAll(later, k);
            ReadAll(EncodeAll(ps, Little) + later, k) == Parsed(ps + r.records, r.rest)
    decreases |ps|
  {
    hide ReadAll, ReadOne, Encode;
    if ps == [] {
      assert EncodeAll(ps, Little) + later == later;
      assert ps + ReadAll(later, k).records == ReadAll(later, k).records;
    } else {
      assert Fits(ps[0], k);
      var first, more := Encode(ps[0], Little), EncodeAll(ps[1..], Little);
      var following := more + later;
      Assoc(first, more, later);
      ReadAllCons(ps[0], following, k);
      ReadAllEncode(ps[1..], later, k);
      assert ps == [ps[0]] + ps[1..];
      Assoc([ps[0]], ps[1..], ReadAll(later, k).records);
    }
  }

  /** Round trip: the records of written packets are the packets. */
  lemma RecordRoundTrip(ps: seq<Packet>, k: Kind)
    requires AllFit(ps, k)
    ensures ReadAll(EncodeAll(ps, Little), k) == Parsed(ps, [])
    ensures Accepted(EncodeAll(ps, Little), k) <==> ps != []
  {
    var b := EncodeAll(ps, Little);
    ReadAllEncode(ps, [], k);
    assert b + [] == b;
  }

  /** The accepted bodies are exactly the non-empty concatenations of complete records. */
  lemma AcceptedIffWritten(b: seq<byte>, k: Kind)
    ensures Accepted(b, k) <==>
            exists ps :: ps != [] && AllFit(ps, k) && b == EncodeAll(ps, Little)
  {
    EncodeReadAll(b, k);
    if Accepted(b, k) {
      var ps := ReadAll(b, k).records;
      assert b == EncodeAll(ps, Little) + [];
      assert ps != [] && AllFit(ps, k) && b == EncodeAll(ps, Little);
    }
    forall ps | ps != [] && AllFit(ps, k) && b == EncodeAll(ps, Little)
      ensures Accepted(b, k)
    {
      RecordRoundTrip(ps, k);
    }
  }

  // ---- the index ----

  /** One entry for each packet, the first starting at `start`. */
  function IndexOf(ps: seq<Packet>, start: nat): (index: seq<Entry>)
    ensures |index| == |ps|
  {
    if ps == [] then [] else [Entry(|ps[0].raw|, start)] + IndexOf(ps[1..], start + RecordSize(ps[0]))
  }

  /** A record whose length field is present but whose bytes are not all there is still indexed. */
  function OverrunEntry(rest: seq<byte>, offset: nat): seq<Entry> {
    if |rest| >= LENGTH_END then [Entry(U32(rest[LENGTH_AT..LENGTH_END]), offset)] else []
  }

  /** What the skipping pass leaves behind, for every body. */
  function ScanIndex(b: seq<byte>, k: Kind, start: nat): seq<Entry> {
    var r := ReadAll(b, k);
    IndexOf(r.records, start) + OverrunEntry(r.rest, start + TotalSize(r.records))
  }

  lemma {:induction false} TotalSizeAppend(ps: seq<Packet>, qs: seq<Packet>)
    ensures TotalSize(ps + qs) == TotalSize(ps) + TotalSize(qs)
  {
    if ps == [] {
      assert ps + qs == qs;
    } else {
      assert (ps + qs)[1..] == ps[1..] + qs;
      TotalSizeAppend(ps[1..], qs);
    }
  }

  lemma {:induction false} IndexAppend(ps: seq<Packet>, qs: seq<Packet>, start: nat)
    ensures IndexOf(ps + qs, start) == IndexOf(ps, start) + IndexOf(qs, start + TotalSize(ps))
  {
    if ps == [] {
      assert ps + qs == qs;
    } else {
      assert (ps + qs)[1..] == ps[1..] + qs;
      IndexAppend(ps[1..], qs, start + RecordSize(ps[0]));
    }
  }
}
