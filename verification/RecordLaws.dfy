/** Laws of the record grammar and of the index over it. */
module RecordLaws {
  import opened Bytes
  import opened Packets
  import opened Records

  // ---- unfolding the index from the front ----

  lemma ScanIndexStep(b: seq<byte>, k: Kind, start: nat)
    requires ReadOne(b, k).Some?
    ensures var p := ReadOne(b, k).value; var n := RecordSize(p);
            ScanIndex(b, k, start) == [Entry(|p.raw|, start)] + ScanIndex(b[n..], k, start + n)
  {
    var p := ReadOne(b, k).value;
    var later := ReadAll(b[RecordSize(p)..], k);
    var all := [p] + later.records;
    assert all[1..] == later.records;
    assert IndexOf(all, start) == [Entry(|p.raw|, start)] + IndexOf(later.records, start + RecordSize(p));
    Assoc([Entry(|p.raw|, start)], IndexOf(later.records, start + RecordSize(p)),
          OverrunEntry(later.rest, start + TotalSize(all)));
  }

  lemma ScanIndexStop(b: seq<byte>, k: Kind, start: nat)
    requires ReadOne(b, k).None?
    ensures ScanIndex(b, k, start) == OverrunEntry(b, start)
    ensures !Accepted(b, k)
  {
  }

  /** The length an entry stores is the field at offset 8, whether or not the record is complete. */
  lemma FirstLength(b: seq<byte>, k: Kind, start: nat)
    requires |b| >= LENGTH_END
    ensures var index := ScanIndex(b, k, start);
            index != [] && index[0] == Entry(U32(b[LENGTH_AT..LENGTH_END]), start)
  {
    if ReadOne(b, k).Some? {
      ScanIndexStep(b, k, start);
      assert b[..HeaderSize(k)][8..12] == b[8..12];
    } else {
      ScanIndexStop(b, k, start);
    }
  }

  // ---- concatenating and cutting ----

  lemma {:induction false} EncodeAllAppend(ps: seq<Packet>, qs: seq<Packet>, o: Order)
    ensures EncodeAll(ps + qs, o) == EncodeAll(ps, o) + EncodeAll(qs, o)
  {
    if ps == [] {
      assert ps + qs == qs;
    } else {
      EncodeAllAppend(ps[1..], qs, o);
      EncodeAllCons(ps[0], ps[1..] + qs, o);
      HeadTail(ps);
      Assoc([ps[0]], ps[1..], qs);
      Assoc(Encode(ps[0], o), EncodeAll(ps[1..], o), EncodeAll(qs, o));
    }
  }

  lemma ReadAllAppend(a: seq<byte>, b: seq<byte>, k: Kind)
    requires ReadAll(a, k).rest == []
    ensures ReadAll(a + b, k) == Parsed(ReadAll(a, k).records + ReadAll(b, k).records, ReadAll(b, k).rest)
    ensures |a| == TotalSize(ReadAll(a, k).records)
  {
    EncodeReadAll(a, k);
    var ps := ReadAll(a, k).records;
    assert EncodeAll(ps, Little) + [] == EncodeAll(ps, Little);
    ReadAllEncode(ps, b, k);
  }

  function Shift(index: seq<Entry>, delta: nat): (r: seq<Entry>)
    ensures |r| == |index|
    ensures forall i :: 0 <= i < |r| ==> r[i] == Entry(index[i].len, index[i].offset + delta)
  {
    seq(|index|, i requires 0 <= i < |index| => Entry(index[i].len, index[i].offset + delta))
  }

  lemma {:induction false} IndexShift(ps: seq<Packet>, start: nat, delta: nat)
    ensures IndexOf(ps, start + delta) == Shift(IndexOf(ps, start), delta)
  {
    if ps != [] {
      IndexShift(ps[1..], start + RecordSize(ps[0]), delta);
    }
  }

  lemma AcceptedIfNothingLeft(b: seq<byte>, k: Kind)
    ensures b != [] ==> (Accepted(b, k) <==> ReadAll(b, k).rest == [])
    ensures b == [] ==> ReadAll(b, k) == Parsed([], [])
  {
    EncodeReadAll(b, k);
  }

  lemma ScanIndexWhole(b: seq<byte>, k: Kind, start: nat)
    requires |ReadAll(b, k).rest| < LENGTH_END
    ensures ScanIndex(b, k, start) == IndexOf(ReadAll(b, k).records, start)
  {
  }

  lemma ScanIndexAppend(a: seq<byte>, b: seq<byte>, k: Kind, start: nat)
    requires ReadAll(a, k).rest == []
    ensures ScanIndex(a + b, k, start) == ScanIndex(a, k, start) + ScanIndex(b, k, start + |a|)
  {
    hide ReadAll, TotalSize, IndexOf, OverrunEntry;
    var ps, qs, rest := ReadAll(a, k).records, ReadAll(b, k).records, ReadAll(b, k).rest;
    var last := OverrunEntry(rest, start + |a| + TotalSize(qs));
    assert ScanIndex(a + b, k, start) == IndexOf(ps + qs, start) + last by {
      ReadAllAppend(a, b, k);
      TotalSizeAppend(ps, qs);
    }
    assert IndexOf(ps + qs, start) == IndexOf(ps, start) + IndexOf(qs, start + |a|) by {
      ReadAllAppend(a, b, k);
      IndexAppend(ps, qs, start);
    }
    ScanIndexWhole(a, k, start);
    Assoc(IndexOf(ps, start), IndexOf(qs, start + |a|), last);
  }

  lemma ScanIndexShift(b: seq<byte>, k: Kind, start: nat, delta: nat)
    ensures ScanIndex(b, k, start + delta) == Shift(ScanIndex(b, k, start), delta)
  {
    IndexShift(ReadAll(b, k).records, start, delta);
  }

  /**
   Concatenation: after an accepted body a, the body b decides; the index is
   a's followed by b's moved by |a|, even when b is not accepted.
   */
  lemma ConcatenationLaw(a: seq<byte>, b: seq<byte>, k: Kind, start: nat)
    requires Accepted(a, k)
    ensures Accepted(a + b, k) <==> b == [] || Accepted(b, k)
    ensures ScanIndex(a + b, k, start) == ScanIndex(a, k, start) + Shift(ScanIndex(b, k, start), |a|)
  {
    ReadAllAppend(a, b, k);
    AcceptedIfNothingLeft(b, k);
    ScanIndexAppend(a, b, k, start);
    ScanIndexShift(b, k, start, |a|);
  }

  /**
   Cutting an accepted body after c bytes: the front is accepted exactly when c
   is the end of one of its records, and then it holds the records up to there.
   */
  lemma CutLaw(b: seq<byte>, k: Kind, start: nat, c: nat)
    requires Accepted(b, k) && c <= |b|
    ensures var ps := ReadAll(b, k).records;
            Accepted(b[..c], k) <==> exists j :: 1 <= j <= |ps| && c == TotalSize(ps[..j])
    ensures var ps := ReadAll(b, k).records;
            forall j :: 1 <= j <= |ps| && c == TotalSize(ps[..j]) ==> ReadAll(b[..c], k) == Parsed(ps[..j], [])
    ensures Accepted(b[..c], k) ==> ScanIndex(b[..c], k, start) <= ScanIndex(b, k, start)
  {
    hide ReadAll, ReadOne, ScanIndex, Encode, EncodeAll;
    var ps := ReadAll(b, k).records;
    EncodeReadAll(b, k);
    assert b == b[..c] + b[c..];
    if Accepted(b[..c], k) {
      ConcatenationLaw(b[..c], b[c..], k, start);
      ReadAllAppend(b[..c], b[c..], k);
      var j := |ReadAll(b[..c], k).records|;
      assert ps[..j] == ReadAll(b[..c], k).records;
      assert 1 <= j <= |ps| && c == TotalSize(ps[..j]);
    }
    forall j | 1 <= j <= |ps| && c == TotalSize(ps[..j])
      ensures ReadAll(b[..c], k) == Parsed(ps[..j], [])
    {
      assert b == EncodeAll(ps, Little) by {
        assert EncodeAll(ps, Little) + [] == EncodeAll(ps, Little);
      }
      FrontRecords(ps, k, j);
    }
  }

  /** The first j of a body's records are the front of its bytes. */
  lemma FrontRecords(ps: seq<Packet>, k: Kind, j: nat)
    requires AllFit(ps, k) && j <= |ps|
    ensures TotalSize(ps[..j]) <= TotalSize(ps)
    ensures EncodeAll(ps, Little)[..TotalSize(ps[..j])] == EncodeAll(ps[..j], Little)
    ensures ReadAll(EncodeAll(ps[..j], Little), k) == Parsed(ps[..j], [])
  {
    assert ps == ps[..j] + ps[j..];
    EncodeAllAppend(ps[..j], ps[j..], Little);
    RecordRoundTrip(ps[..j], k);
  }

  // ---- the index against the records ----

  /** The record that starts at an offset of file d. */
  function RecordAt(d: seq<byte>, k: Kind, offset: nat): Option<Packet> {
    if offset <= |d| then ReadOne(d[offset..], k) else None
  }

  /** A record in the two parts it is read in. */
  lemma RecordInParts(d: seq<byte>, k: Kind, at: nat)
    requires at <= |d|
    ensures var body := at + HeaderSize(k);
            && (body > |d| ==> RecordAt(d, k, at).None?)
            && (body <= |d| ==>
                  var h := DecodeHeader(d[at..body], k);
                  var end := body + h.CapturedLen();
                  RecordAt(d, k, at) == if end > |d| then None else Some(Packet(d[body..end], h)))
  {
    if at + HeaderSize(k) <= |d| {
      var size, n := HeaderSize(k), DecodeHeader(d[at..at + HeaderSize(k)], k).CapturedLen();
      assert d[at..][..size] == d[at..at + size];
      if at + size + n <= |d| {
        assert d[at..][size..size + n] == d[at + size..at + size + n];
      }
    }
  }

  /**
   Refinement: fetching entry i at its offset gives record i of the simple
   reader, and fetching an overrunning entry gives nothing.
   */
  lemma {:induction false} IndexFetches(d: seq<byte>, k: Kind, start: nat, i: nat)
    requires start <= |d| && i < |ScanIndex(d[start..], k, start)|
    ensures var ps, e := ReadAll(d[start..], k).records, ScanIndex(d[start..], k, start)[i];
            && e.offset + LENGTH_END <= |d|
            && RecordAt(d, k, e.offset) == (if i < |ps| then Some(ps[i]) else None)
            && (i < |ps| ==> e.len == |ps[i].raw|)
    decreases i
  {
    hide ReadAll, ReadOne, ScanIndex, RecordAt;
    var b := d[start..];
    if i == 0 {
      FirstFetch(d, k, start);
    } else if ReadOne(b, k).Some? {
      NextFetch(d, k, start);
      IndexFetches(d, k, start + RecordSize(ReadOne(b, k).value), i - 1);
    } else {
      ScanIndexStop(b, k, start);
    }
  }

  lemma FirstFetch(d: seq<byte>, k: Kind, start: nat)
    requires start <= |d| && ScanIndex(d[start..], k, start) != []
    ensures var ps, e := ReadAll(d[start..], k).records, ScanIndex(d[start..], k, start)[0];
            && e.offset == start && start + LENGTH_END <= |d|
            && RecordAt(d, k, start) == (if 0 < |ps| then Some(ps[0]) else None)
            && (0 < |ps| ==> e.len == |ps[0].raw|)
  {
    var b := d[start..];
    if ReadOne(b, k).Some? {
      ScanIndexStep(b, k, start);
    } else {
      ScanIndexStop(b, k, start);
    }
  }

  lemma NextFetch(d: seq<byte>, k: Kind, start: nat)
    requires start <= |d| && ReadOne(d[start..], k).Some?
    ensures var next := start + RecordSize(ReadOne(d[start..], k).value);
            && next <= |d|
            && ReadAll(d[start..], k).records[1..] == ReadAll(d[next..], k).records
            && ReadAll(d[start..], k).records != []
            && ScanIndex(d[start..], k, start) != []
            && ScanIndex(d[start..], k, start)[1..] == ScanIndex(d[next..], k, next)
  {
    var b, n := d[start..], RecordSize(ReadOne(d[start..], k).value);
    ScanIndexStep(b, k, start);
    assert b[n..] == d[start + n..];
  }

  /** Bytes of the file that entry e accounts for. */
  predicate Covers(e: Entry, k: Kind, at: int) {
    e.offset <= at < e.offset + HeaderSize(k) + e.len
  }

  /** Each entry starts where the one before it ends. */
  predicate Chained(index: seq<Entry>, k: Kind, start: nat) {
    && (index != [] ==> index[0].offset == start)
    && forall i :: 1 <= i < |index| ==> index[i].offset == index[i - 1].offset + HeaderSize(k) + index[i - 1].len
  }

  function EndOf(index: seq<Entry>, k: Kind, start: nat): nat {
    if index == [] then start else index[|index| - 1].offset + HeaderSize(k) + index[|index| - 1].len
  }

  lemma ChainedCons(e: Entry, index: seq<Entry>, k: Kind)
    requires Chained(index, k, e.offset + HeaderSize(k) + e.len)
    ensures Chained([e] + index, k, e.offset)
    ensures EndOf([e] + index, k, e.offset) == EndOf(index, k, e.offset + HeaderSize(k) + e.len)
  {
    var all := [e] + index;
    forall i | 1 <= i < |all|
      ensures all[i].offset == all[i - 1].offset + HeaderSize(k) + all[i - 1].len
    {
      assert all[i] == index[i - 1] && (i > 1 ==> all[i - 1] == index[i - 2]);
    }
  }

  lemma ChainedSnoc(index: seq<Entry>, e: Entry, k: Kind, start: nat)
    requires Chained(index, k, start) && e.offset == EndOf(index, k, start)
    ensures Chained(index + [e], k, start)
    ensures EndOf(index + [e], k, start) == e.offset + HeaderSize(k) + e.len
  {
  }

  lemma {:induction false} IndexOfChained(ps: seq<Packet>, k: Kind, start: nat)
    requires AllFit(ps, k)
    ensures Chained(IndexOf(ps, start), k, start)
    ensures EndOf(IndexOf(ps, start), k, start) == start + TotalSize(ps)
  {
    if ps != [] {
      assert Fits(ps[0], k);
      IndexOfChained(ps[1..], k, start + RecordSize(ps[0]));
      ChainedCons(Entry(|ps[0].raw|, start), IndexOf(ps[1..], start + RecordSize(ps[0])), k);
    }
  }

  lemma ShortRest(b: seq<byte>, k: Kind)
    requires ReadOne(b, k).None? && |b| >= LENGTH_END
    ensures HeaderSize(k) + U32(b[LENGTH_AT..LENGTH_END]) > |b|
  {
    if |b| >= HeaderSize(k) {
      assert b[..HeaderSize(k)][8..12] == b[8..12];
    }
  }

  /**
   The chain law, for every body: entries follow one another from the start,
   all of them inside the file except possibly the last, and they end exactly
   at the end of the file when and only when nothing is left over.
   */
  lemma ScanIndexChained(b: seq<byte>, k: Kind, start: nat)
    ensures var index, r := ScanIndex(b, k, start), ReadAll(b, k);
            && Chained(index, k, start)
            && (|r.rest| < LENGTH_END ==> |index| == |r.records| && EndOf(index, k, start) == start + |b| - |r.rest|)
            && (|r.rest| >= LENGTH_END ==> |index| == |r.records| + 1 && EndOf(index, k, start) > start + |b|)
  {
    hide ReadAll, ReadOne, IndexOf, Chained, EndOf;
    var r := ReadAll(b, k);
    var size := TotalSize(r.records);
    assert size + |r.rest| == |b| && AllFit(r.records, k) by {
      EncodeReadAll(b, k);
    }
    IndexOfChained(r.records, k, start);
    if |r.rest| >= LENGTH_END {
      ChainedSnoc(IndexOf(r.records, start), OverrunEntry(r.rest, start + size)[0], k, start);
      assert HeaderSize(k) + U32(r.rest[LENGTH_AT..LENGTH_END]) > |r.rest| by {
        EncodeReadAll(b, k);
        ShortRest(r.rest, k);
      }
    } else {
      ScanIndexWhole(b, k, start);
    }
  }

  ghost predicate Covered(index: seq<Entry>, k: Kind, at: int) {
    exists i :: 0 <= i < |index| && Covers(index[i], k, at)
  }

  /** A chain's entries lie one after another between its ends. */
  lemma {:induction false} ChainOrdered(index: seq<Entry>, k: Kind, start: nat)
    requires Chained(index, k, start)
    ensures EndOf(index, k, start) >= start + HeaderSize(k) * |index|
    ensures forall i :: 0 <= i < |index| ==>
              start <= index[i].offset && index[i].offset + HeaderSize(k) + index[i].len <= EndOf(index, k, start)
    ensures forall i, j :: 0 <= i < j < |index| ==> index[i].offset + HeaderSize(k) + index[i].len <= index[j].offset
    decreases |index|
  {
    if index != [] {
      var n := |index| - 1;
      ChainOrdered(index[..n], k, start);
      assert n > 0 ==> index[..n][n - 1] == index[n - 1];
      assert EndOf(index[..n], k, start) == index[n].offset;
    }
  }

  /** And every byte between its ends belongs to one. */
  lemma {:induction false} ChainCovers(index: seq<Entry>, k: Kind, start: nat, at: int)
    requires Chained(index, k, start) && start <= at < EndOf(index, k, start)
    ensures Covered(index, k, at)
    decreases |index|
  {
    var n := |index| - 1;
    if at < index[n].offset {
      assert EndOf(index[..n], k, start) == index[n].offset;
      ChainCovers(index[..n], k, start, at);
      var i :| 0 <= i < n && Covers(index[..n][i], k, at);
      assert Covers(index[i], k, at);
    } else {
      assert Covers(index[n], k, at);
    }
  }

  /**
   Tiling: the index of an accepted body starts at the body's start, is
   chained, and partitions the body's bytes; each record takes at least its
   header, so the count is bounded by the size.
   */
  lemma Tiling(b: seq<byte>, k: Kind, start: nat)
    requires Accepted(b, k)
    ensures var index := ScanIndex(b, k, start);
            && index != [] && Chained(index, k, start) && EndOf(index, k, start) == start + |b|
            && HeaderSize(k) * |index| <= |b|
            && (forall at :: start <= at < start + |b| ==> Covered(index, k, at))
            && (forall i, j, at | 0 <= i < |index| && 0 <= j < |index| ::
                  Covers(index[i], k, at) && Covers(index[j], k, at) ==> i == j)
  {
    var index := ScanIndex(b, k, start);
    ScanIndexChained(b, k, start);
    ChainOrdered(index, k, start);
    forall at | start <= at < start + |b|
      ensures Covered(index, k, at)
    {
      ChainCovers(index, k, start, at);
    }
  }

  /**
   The shape of a failure: a body is not accepted in exactly one of three ways.
   The last entry overruns the end, or fewer than 12 bytes are left over with
   every entry inside, or there is no record and no byte at all.
   */
  lemma FailureShape(b: seq<byte>, k: Kind, start: nat)
    requires !Accepted(b, k)
    ensures var index, left := ScanIndex(b, k, start), |ReadAll(b, k).rest|;
            && Chained(index, k, start)
            && (forall i :: 0 <= i < |index| - 1 ==> index[i].offset + HeaderSize(k) + index[i].len <= start + |b|)
            && (index != [] ==> HeaderSize(k) * (|index| - 1) + LENGTH_END <= |b|)
            && (left >= LENGTH_END <==> index != [] && EndOf(index, k, start) > start + |b|)
            && (0 < left < LENGTH_END <==> EndOf(index, k, start) < start + |b|)
            && (left == 0 <==> b == [])
            && (left == 0 ==> index == [])
  {
    ScanIndexChained(b, k, start);
    var index := ScanIndex(b, k, start);
    ChainOrdered(index, k, start);
    forall i | 0 <= i < |index| - 1
      ensures index[i].offset + HeaderSize(k) + index[i].len <= start + |b|
    {
      EntryInside(b, k, start, i);
    }
    if index != [] {
      LastEntryStarts(b, k, start);
    }
    EncodeReadAll(b, k);
  }

  /** Every entry takes at least a header, and the last one's length field lies in the file. */
  lemma LastEntryStarts(b: seq<byte>, k: Kind, start: nat)
    requires ScanIndex(b, k, start) != []
    ensures HeaderSize(k) * (|ScanIndex(b, k, start)| - 1) + LENGTH_END <= |b|
  {
    hide ScanIndex, RecordAt;
    var index := ScanIndex(b, k, start);
    var n := |index| - 1;
    ScanIndexChained(b, k, start);
    ChainOrdered(index[..n], k, start);
    assert EndOf(index[..n], k, start) == index[n].offset;
    var d: seq<byte> := seq(start, _ => 0) + b;
    assert d[start..] == b;
    IndexFetches(d, k, start, n);
  }

  /** An entry with another after it lies inside the file. */
  lemma EntryInside(b: seq<byte>, k: Kind, start: nat, i: nat)
    requires i + 1 < |ScanIndex(b, k, start)|
    ensures var e := ScanIndex(b, k, start)[i]; e.offset + HeaderSize(k) + e.len <= start + |b|
  {
    ScanIndexChained(b, k, start);
    var index := ScanIndex(b, k, start);
    ChainOrdered(index, k, start);
    assert index[i].offset + HeaderSize(k) + index[i].len <= index[i + 1].offset;
    var d: seq<byte> := seq(start, _ => 0) + b;
    assert d[start..] == b;
    IndexFetches(d, k, start, i);
  }

  // ---- records in the other byte order ----

  /** The captured length reads the same in both byte orders. */
  predicate LengthSymmetric(p: Packet) {
    !p.header.NoHeader? && Swap32(p.header.base.capturedLen) == p.header.base.capturedLen
  }

  function SwapPacket(p: Packet): Packet { Packet(p.raw, SwapHeader(p.header)) }

  function SwapAll(ps: seq<Packet>): (r: seq<Packet>)
    ensures |r| == |ps| && forall i :: 0 <= i < |ps| ==> r[i] == SwapPacket(ps[i])
  {
    if ps == [] then [] else [SwapPacket(ps[0])] + SwapAll(ps[1..])
  }

  lemma BigIsSwapped(p: Packet)
    ensures Encode(p, Big) == Encode(SwapPacket(p), Little)
  {
    BigHeaderIsSwapped(p.header);
  }

  lemma {:induction false} BigAllIsSwapped(ps: seq<Packet>)
    ensures EncodeAll(ps, Big) == EncodeAll(SwapAll(ps), Little)
  {
    if ps != [] {
      BigIsSwapped(ps[0]);
      BigAllIsSwapped(ps[1..]);
      EncodeAllCons(SwapPacket(ps[0]), SwapAll(ps[1..]), Little);
    }
  }

  lemma {:induction false} SwapKeepsIndex(ps: seq<Packet>, start: nat)
    ensures IndexOf(SwapAll(ps), start) == IndexOf(ps, start)
  {
    if ps != [] {
      SwapKeepsIndex(ps[1..], start + RecordSize(ps[0]));
      assert SwapAll(ps)[1..] == SwapAll(ps[1..]);
    }
  }

  lemma SymmetricFit(ps: seq<Packet>, k: Kind)
    requires AllFit(ps, k) && forall p :: p in ps ==> LengthSymmetric(p)
    ensures AllFit(SwapAll(ps), k)
  {
    forall q | q in SwapAll(ps)
      ensures Fits(q, k)
    {
      var i :| 0 <= i < |ps| && SwapAll(ps)[i] == q;
      assert Fits(ps[i], k) && LengthSymmetric(ps[i]);
    }
  }

  lemma SymmetricReadBack(ps: seq<Packet>, k: Kind, start: nat)
    requires AllFit(ps, k) && forall p :: p in ps ==> LengthSymmetric(p)
    ensures ReadAll(EncodeAll(ps, Big), k) == Parsed(SwapAll(ps), [])
    ensures ScanIndex(EncodeAll(ps, Big), k, start) == IndexOf(ps, start)
  {
    BigAllIsSwapped(ps);
    SymmetricFit(ps, k);
    SwapKeepsIndex(ps, start);
    RecordRoundTrip(SwapAll(ps), k);
  }

  /** The host reads the length field of a big-endian record swapped. */
  lemma BigLength(p: Packet, later: seq<byte>, k: Kind)
    requires Fits(p, k)
    ensures U32((Encode(p, Big) + later)[8..12]) == Swap32(p.header.base.capturedLen)
  {
    var h := SwapHeader(p.header);
    BigHeaderIsSwapped(p.header);
    DecodeEncode(h, k);
    assert (Encode(p, Big) + later)[8..12] == EncodeHeader(h, Little)[8..12];
  }

  /**
   Records written big-endian are indexed as they were meant exactly when every
   captured length reads the same in both orders: the index pass takes the
   length field raw.
   */
  lemma {:induction false} BigIndexIff(ps: seq<Packet>, k: Kind, start: nat)
    requires AllFit(ps, k)
    ensures ScanIndex(EncodeAll(ps, Big), k, start) == IndexOf(ps, start) <==>
            forall p :: p in ps ==> LengthSymmetric(p)
    decreases |ps|
  {
    hide ReadAll, ReadOne, EncodeAll, ScanIndex, IndexOf, SwapAll;
    if forall p :: p in ps ==> LengthSymmetric(p) {
      SymmetricReadBack(ps, k, start);
    } else if ScanIndex(EncodeAll(ps, Big), k, start) == IndexOf(ps, start) {
      BigIndexFront(ps, k, start);
      BigIndexIff(ps[1..], k, start + RecordSize(ps[0]));
      HeadTail(ps);
    }
  }

  lemma BigIndexFront(ps: seq<Packet>, k: Kind, start: nat)
    requires ps != [] && AllFit(ps, k)
    requires ScanIndex(EncodeAll(ps, Big), k, start) == IndexOf(ps, start)
    ensures LengthSymmetric(ps[0])
    ensures var next := start + RecordSize(ps[0]);
            ScanIndex(EncodeAll(ps[1..], Big), k, next) == IndexOf(ps[1..], next)
  {
    hide ReadAll, ReadOne, OverrunEntry, ScanIndex, Encode;
    var p, b, later := ps[0], EncodeAll(ps, Big), EncodeAll(ps[1..], Big);
    assert Fits(p, k);
    FirstLength(b, k, start);
    BigLength(p, later, k);
    BigFirst(p, later, k);
    ScanIndexStep(b, k, start);
    assert IndexOf(ps, start)[1..] == IndexOf(ps[1..], start + RecordSize(p));
    assert ScanIndex(b, k, start)[1..] == ScanIndex(later, k, start + RecordSize(p));
  }

  lemma BigFirst(p: Packet, later: seq<byte>, k: Kind)
    requires Fits(p, k) && LengthSymmetric(p)
    ensures ReadOne(Encode(p, Big) + later, k) == Some(SwapPacket(p))
    ensures (Encode(p, Big) + later)[RecordSize(p)..] == later
  {
    BigHeaderIsSwapped(p.header);
    ReadOneEncode(SwapPacket(p), later, k);
  }

  /** And they are read back as they were meant exactly when every header field does. */
  lemma BigRecordsIff(ps: seq<Packet>, k: Kind)
    requires AllFit(ps, k)
    ensures ReadAll(EncodeAll(ps, Big), k) == Parsed(ps, []) <==>
            forall p :: p in ps ==> SwapHeader(p.header) == p.header
  {
    hide ReadAll, EncodeAll, ScanIndex, SwapHeader;
    if forall p :: p in ps ==> SwapHeader(p.header) == p.header {
      forall p | p in ps
        ensures LengthSymmetric(p)
      {
        SymmetricHeader(p, k);
      }
      SymmetricReadBack(ps, k, 0);
      assert SwapAll(ps) == ps;
    }
    if ReadAll(EncodeAll(ps, Big), k) == Parsed(ps, []) {
      ScanIndexWhole(EncodeAll(ps, Big), k, 0);
      BigIndexIff(ps, k, 0);
      SymmetricReadBack(ps, k, 0);
      forall p | p in ps
        ensures SwapHeader(p.header) == p.header
      {
        var i :| 0 <= i < |ps| && ps[i] == p;
        assert SwapAll(ps)[i] == SwapPacket(p);
      }
    }
  }

  lemma SymmetricHeader(p: Packet, k: Kind)
    requires Fits(p, k) && SwapHeader(p.header) == p.header
    ensures LengthSymmetric(p)
  {
  }

  /** One captured byte is enough: its big-endian length 1 is taken for 16777216 and the body is refused. */
  lemma BigRecordRefused()
    ensures exists ps ::
              && AllFit(ps, Standard) && |ps| == 1
              && Accepted(EncodeAll(ps, Little), Standard)
              && !Accepted(EncodeAll(ps, Big), Standard)
  {
    var p := Packet([0], Plain(PacketHeader(0, 0, 1, 1)));
    var ps := [p];
    assert Fits(p, Standard) && AllFit(ps, Standard);
    RecordRoundTrip(ps, Standard);
    hide Encode, EncodeHeader, Swap32;
    assert Swap32(1) == 0x100_0000 by {
      Digits(1, 1, 0, 0, 0);
    }
    var b := EncodeAll(ps, Big);
    assert ps[1..] == [];
    assert b == Encode(p, Big) + [];
    BigLength(p, [], Standard);
    assert |b| == 17 && U32(b[8..12]) == 0x100_0000;
    assert b[..16][8..12] == b[8..12];
    assert ReadOne(b, Standard).None?;
  }
}
