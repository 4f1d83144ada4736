/** The reasoning behind the index loop of `Pcap`: where it stands, how it moves on, how it ends. */
module IndexLoop {
  import opened Bytes
  import opened Packets
  import opened Records
  import opened RecordLaws

  /**
   Where the index loop stands when its cursor is at pos.  Inside the file the
   bytes up to pos are complete records and indexed, and what the scan will
   still add starts at pos; past the end the last record overran, its entry has
   been made, and the body is not accepted.
   */
  ghost predicate Progress(d: seq<byte>, k: Kind, start: nat, pos: nat, eof: bool, index: seq<Entry>) {
    && start <= |d| && start <= pos
    && (pos <= |d| ==>
          && (eof <==> pos == |d| && index != [])
          && ScanIndex(d[start..], k, start) == index + ScanIndex(d[pos..], k, pos)
          && (Accepted(d[start..], k) <==> Accepted(d[pos..], k) || (pos == |d| && index != [])))
    && (pos > |d| ==> !eof && index == ScanIndex(d[start..], k, start) && !Accepted(d[start..], k))
  }

  lemma NothingYet(d: seq<byte>, k: Kind, start: nat)
    requires start <= |d|
    ensures Progress(d, k, start, start, false, [])
  {
    assert [] + ScanIndex(d[start..], k, start) == ScanIndex(d[start..], k, start);
  }

  lemma Finishes(d: seq<byte>, k: Kind, start: nat, pos: nat, index: seq<Entry>)
    requires Progress(d, k, start, pos, true, index)
    ensures pos == |d| && index == ScanIndex(d[start..], k, start) && Accepted(d[start..], k)
  {
    assert d[pos..] == [];
  }

  /** Fewer than 12 bytes ahead: no record and no entry comes of them. */
  lemma StopsShort(d: seq<byte>, k: Kind, start: nat, pos: nat, index: seq<Entry>)
    requires Progress(d, k, start, pos, false, index) && pos + LENGTH_END > |d|
    ensures index == ScanIndex(d[start..], k, start) && !Accepted(d[start..], k)
  {
    if pos <= |d| {
      ScanIndexStop(d[pos..], k, pos);
    }
  }

  /** One more entry: either its record is complete and the scan moves on after it, or it is the last. */
  lemma Advances(d: seq<byte>, k: Kind, start: nat, pos: nat, index: seq<Entry>, len: u32)
    requires Progress(d, k, start, pos, false, index) && pos + LENGTH_END <= |d|
    requires len == U32(d[pos + LENGTH_AT..pos + LENGTH_END])
    ensures var next, longer := pos + HeaderSize(k) + len, index + [Entry(len, pos)];
            && Progress(d, k, start, next, next == |d|, longer)
            && (next > |d| ==> longer == ScanIndex(d[start..], k, start) && !Accepted(d[start..], k))
  {
    hide ScanIndex, Accepted, ReadOne, ReadAll;
    var b, next := d[pos..], pos + HeaderSize(k) + len;
    assert b[LENGTH_AT..LENGTH_END] == d[pos + LENGTH_AT..pos + LENGTH_END];
    if next <= |d| {
      CompleteRecord(b, k);
      ScanIndexStep(b, k, pos);
      assert b[HeaderSize(k) + len..] == d[next..];
      AcceptedStep(b, k);
      Assoc(index, [Entry(len, pos)], ScanIndex(d[next..], k, next));
    } else {
      OverrunRecord(b, k);
      ScanIndexStop(b, k, pos);
    }
  }

  lemma CompleteRecord(b: seq<byte>, k: Kind)
    requires |b| >= LENGTH_END && |b| >= HeaderSize(k) + U32(b[LENGTH_AT..LENGTH_END])
    ensures ReadOne(b, k).Some? && |ReadOne(b, k).value.raw| == U32(b[LENGTH_AT..LENGTH_END])
    ensures RecordSize(ReadOne(b, k).value) == HeaderSize(k) + U32(b[LENGTH_AT..LENGTH_END])
  {
    assert b[..HeaderSize(k)][8..12] == b[LENGTH_AT..LENGTH_END];
  }

  lemma OverrunRecord(b: seq<byte>, k: Kind)
    requires LENGTH_END <= |b| < HeaderSize(k) + U32(b[LENGTH_AT..LENGTH_END])
    ensures ReadOne(b, k).None?
  {
    if |b| >= HeaderSize(k) {
      assert b[..HeaderSize(k)][8..12] == b[LENGTH_AT..LENGTH_END];
    }
  }

  lemma AcceptedStep(b: seq<byte>, k: Kind)
    requires ReadOne(b, k).Some?
    ensures var later := b[RecordSize(ReadOne(b, k).value)..];
            Accepted(b, k) <==> Accepted(later, k) || later == []
  {
    var later := b[RecordSize(ReadOne(b, k).value)..];
    AcceptedIfNothingLeft(later, k);
  }
}
