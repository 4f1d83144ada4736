/** bi_iterator over a capture: saturating steps, and an access that fetches. */
module Iterator {
  import opened Bytes
  import opened Packets
  import opened Header
  import opened Captures
  import opened Pcap

  // ---- positions ----

  datatype Move = Forward | Backward

  /** One step: ++ stops at the end, -- at the beginning. */
  function MoveFrom(at: int, m: Move, first: int, last: int): int {
    match m
    case Forward => if at != last then at + 1 else at
    case Backward => if at != first then at - 1 else at
  }

  function MoveAll(at: int, moves: seq<Move>, first: int, last: int): int {
    if moves == [] then at
    else
      var before := MoveAll(at, moves[..|moves| - 1], first, last);
      MoveFrom(before, moves[|moves| - 1], first, last)
  }

  /** Over every run of steps the position stays between beginning and end. */
  lemma {:induction false} MovesStayInside(at: int, moves: seq<Move>, first: int, last: int)
    requires first <= at <= last
    ensures first <= MoveAll(at, moves, first, last) <= last
  {
    if moves != [] {
      MovesStayInside(at, moves[..|moves| - 1], first, last);
    }
  }

  /** k steps one way from the far side reach the k-th position, or the near side. */
  lemma {:induction false} StraightRuns(k: nat, last: nat)
    ensures MoveAll(0, seq(k, _ => Forward), 0, last) == Min(k, last)
    ensures MoveAll(last, seq(k, _ => Backward), 0, last) == last - Min(k, last)
  {
    if k > 0 {
      StraightRuns(k - 1, last);
      assert seq(k, _ => Forward)[..k - 1] == seq(k - 1, _ => Forward);
      assert seq(k, _ => Backward)[..k - 1] == seq(k - 1, _ => Backward);
    }
  }

  // ---- the iterator ----

  class BiIterator {
    const owner: PcapFile
    const first: nat
    const last: nat
    var current: nat

    ghost predicate Valid()
      reads this, owner
    {
      first == 0 && last == |owner.packets| && first <= current <= last
    }

    /** begin() when forward, end() otherwise. */
    constructor (owner: PcapFile, forward: bool)
      ensures Valid() && this.owner == owner && current == if forward then first else last
    {
      this.owner := owner;
      first, last := 0, |owner.packets|;
      current := if forward then 0 else |owner.packets|;
    }

    method Increment()
      requires Valid()
      modifies this`current
      ensures Valid() && current == MoveFrom(old(current), Forward, first, last)
    {
      if current != last {
        current := current + 1;
      }
    }

    method Decrement()
      requires Valid()
      modifies this`current
      ensures Valid() && current == MoveFrom(old(current), Backward, first, last)
    {
      if current != first {
        current := current - 1;
      }
    }

    /** operator*: dereferencing fetches; there is no element at the end. */
    method Access() returns (r: Option<Packet>)
      requires Valid() && current != last && owner.Valid()
      modifies owner.file, owner.packets[current]
      ensures Valid() && owner.Valid() && owner.packets == old(owner.packets) && owner.file == old(owner.file)
      ensures (owner.Contents(), r) == Fetch(old(owner.Contents()), current)
    {
      r := owner.FetchPacket(owner.packets[current]);
    }

    method Equals(other: BiIterator) returns (r: bool)
      ensures r == (current == other.current)
    {
      r := current == other.current;
    }
  }

  /** Positions 0 to n - 1, in order. */
  function Upto(n: nat): (picks: seq<nat>)
    ensures |picks| == n && InRange(picks, n)
  {
    seq(n, i requires 0 <= i < n => i)
  }

  /** The same positions in reverse. */
  function Downfrom(n: nat): (picks: seq<nat>)
    ensures |picks| == n && InRange(picks, n)
  {
    seq(n, i requires 0 <= i < n => n - 1 - i)
  }

  lemma PicksAt(n: nat, i: nat)
    requires i < n
    ensures Upto(n)[i] == i && Downfrom(n)[i] == n - 1 - i
  {
  }

  lemma FetchStart(v: View)
    requires |v.index| == |v.caches|
    ensures FetchRun(v, Upto(0)) == (v, [])
    ensures FetchRun(v, Downfrom(|v.index|)[..0]) == (v, [])
  {
    assert Upto(0) == [] && Downfrom(|v.index|)[..0] == [];
  }

  lemma ContentsSizes(capture: PcapFile)
    ensures |capture.Contents().index| == |capture.Contents().caches| == |capture.packets|
  {
  }

  lemma DataOf(v: View, i: nat)
    requires i < |v.index|
    ensures HasData(v, i) <==> RecordOf(v, i).Some? && |RecordOf(v, i).value.raw| > 0
  {
  }

  lemma FetchRunStep(v: View, i: nat)
    requires i < |v.index| == |v.caches|
    ensures var (u, earlier) := FetchRun(v, Upto(i));
            && FetchRun(v, Upto(i + 1)) == (Fetch(u, i).0, earlier + [Fetch(u, i).1])
            && Fetch(u, i).1 == RecordOf(v, i)
  {
    hide FetchRun, Fetch;
    PicksAt(i + 1, i);
    assert Upto(i + 1)[..i] == Upto(i) && Upto(i + 1)[..i + 1] == Upto(i + 1);
    FetchOneMore(v, Upto(i + 1), i);
  }

  /** A range-for over a capture, as the test tool runs one: every entry is fetched once, in order. */
  method Traverse(capture: PcapFile) returns (seen: seq<Option<Packet>>)
    requires capture.Valid()
    modifies capture.file, capture.packets
    ensures capture.Valid() && capture.packets == old(capture.packets)
    ensures (capture.Contents(), seen) == FetchRun(old(capture.Contents()), Upto(|capture.packets|))
  {
    hide Fetch, FetchRun, Upto, Downfrom, PcapFile.Valid, PcapFile.Contents;
    ghost var start := capture.Contents();
    var it := new BiIterator(capture, true);
    var end := new BiIterator(capture, false);
    seen := [];
    ContentsSizes(capture);
    FetchStart(start);
    var done := it.Equals(end);
    while !done
      invariant it.Valid() && it.owner == capture
      invariant end.current == |capture.packets| && done == (it.current == end.current)
      invariant capture.Valid() && capture.packets == old(capture.packets) && capture.file == old(capture.file)
      invariant |start.index| == |start.caches| == |capture.packets|
      invariant (capture.Contents(), seen) == FetchRun(start, Upto(it.current))
      decreases it.last - it.current
    {
      FetchRunStep(start, it.current);
      var packet := it.Access();
      seen := seen + [packet];
      it.Increment();
      done := it.Equals(end);
    }
  }

  /** The walk the other way: -- and then *, from the end until the beginning is reached. */
  method TraverseBack(capture: PcapFile) returns (seen: seq<Option<Packet>>)
    requires capture.Valid()
    modifies capture.file, capture.packets
    ensures capture.Valid() && capture.packets == old(capture.packets)
    ensures (capture.Contents(), seen) == FetchRun(old(capture.Contents()), Downfrom(|capture.packets|))
  {
    hide Fetch, FetchRun, Upto, Downfrom, PcapFile.Valid, PcapFile.Contents;
    ghost var start, n := capture.Contents(), |capture.packets|;
    var it := new BiIterator(capture, false);
    var begin := new BiIterator(capture, true);
    seen := [];
    ContentsSizes(capture);
    FetchStart(start);
    var done := it.Equals(begin);
    while !done
      invariant it.Valid() && it.owner == capture && it.last == n
      invariant begin.current == 0 && done == (it.current == begin.current)
      invariant capture.Valid() && capture.packets == old(capture.packets) && capture.file == old(capture.file)
      invariant |start.index| == |start.caches| == |capture.packets| == n
      invariant (capture.Contents(), seen) == FetchRun(start, Downfrom(n)[..n - it.current])
      decreases it.current
    {
      PicksAt(n, n - it.current);
      FetchOneMore(start, Downfrom(n), n - it.current);
      it.Decrement();
      var packet := it.Access();
      seen := seen + [packet];
      done := it.Equals(begin);
    }
    assert Downfrom(n)[..n] == Downfrom(n);
  }

  /** An entry the test tool is content with: its record is there and holds data. */
  predicate HasData(v: View, i: nat)
    requires i < |v.index|
  {
    RecordOf(v, i).Some? && RecordOf(v, i).value.Length() > 0
  }

  /**
   The test tool's read loop: 0 exactly when every entry has data, and
   otherwise 1 at the first that has none, nothing after it being fetched.
   */
  method ReadTool(capture: PcapFile) returns (code: int, ghost visited: nat)
    requires capture.Valid()
    modifies capture.file, capture.packets
    ensures capture.Valid() && capture.packets == old(capture.packets)
    ensures visited <= |capture.packets|
    ensures capture.Contents() == FetchRun(old(capture.Contents()), Upto(visited)).0
    ensures var v := old(capture.Contents());
            && (code == 0 <==> forall i :: 0 <= i < |v.index| ==> HasData(v, i))
            && (code == 0 ==> visited == |v.index|)
            && (code != 0 ==> code == 1 && visited > 0 && !HasData(v, visited - 1))
            && (forall i :: 0 <= i < visited - 1 ==> HasData(v, i))
  {
    hide Fetch, FetchRun, RecordOf, HasData, Upto, PcapFile.Valid, PcapFile.Contents;
    ghost var start := capture.Contents();
    var it := new BiIterator(capture, true);
    var end := new BiIterator(capture, false);
    visited := 0;
    ContentsSizes(capture);
    FetchStart(start);
    var done := it.Equals(end);
    while !done
      invariant it.Valid() && it.owner == capture && visited == it.current
      invariant end.current == |capture.packets| && done == (it.current == end.current)
      invariant capture.Valid() && capture.packets == old(capture.packets) && capture.file == old(capture.file)
      invariant |start.index| == |start.caches| == |capture.packets|
      invariant capture.Contents() == FetchRun(start, Upto(visited)).0
      invariant forall i :: 0 <= i < visited ==> HasData(start, i)
      decreases it.last - it.current
    {
      FetchRunStep(start, visited);
      DataOf(start, visited);
      var packet := it.Access();
      visited := visited + 1;
      if packet.None? {
        return 1, visited;
      }
      if packet.value.Length() == 0 {
        return 1, visited;
      }
      it.Increment();
      done := it.Equals(end);
    }
    code := 0;
  }

  /** A run over a capture that fetches every entry at least once answers with its packets and caches them all. */
  lemma CompleteRun(d: seq<byte>, picks: seq<nat>)
    requires IsCapture(d) && InRange(picks, |FileIndex(d)|)
    requires forall i :: 0 <= i < |FileIndex(d)| ==> i in picks
    ensures |FileIndex(d)| == |FilePackets(d)|
    ensures forall k :: 0 <= k < |picks| ==> FetchRun(Opened(d), picks).1[k] == Some(FilePackets(d)[picks[k]])
    ensures FetchRun(Opened(d), picks).0 == Opened(d).(caches := FilePackets(d))
  {
    hide HasHeader, Fetch, Coherent, FetchRun, RecordOf;
    CaptureSize(d);
    forall i | 0 <= i < |FileIndex(d)|
      ensures RecordOf(Opened(d), i) == Some(FilePackets(d)[i])
    {
      EntryIsPacket(d, i);
    }
    OpenedIsCoherent(d);
    FetchRunCoherent(Opened(d), picks);
    assert FetchRun(Opened(d), picks).0.caches == FilePackets(d);
  }

  /**
   Traversal completeness: over a capture, the fetches of `Traverse` yield
   every packet of the plain reader, in file order, and those of `TraverseBack`
   the reverse; either way every cache ends up holding its packet.
   */
  lemma TraversalComplete(d: seq<byte>)
    requires IsCapture(d)
    ensures |FileIndex(d)| == |FilePackets(d)|
    ensures var n := |FileIndex(d)|;
            var (forward, seen) := FetchRun(Opened(d), Upto(n));
            var (backward, reversed) := FetchRun(Opened(d), Downfrom(n));
            && (forall i :: 0 <= i < n ==> seen[i] == Some(FilePackets(d)[i]))
            && (forall i :: 0 <= i < n ==> reversed[i] == Some(FilePackets(d)[n - 1 - i]))
            && forward == backward && forward.caches == FilePackets(d)
  {
    hide HasHeader, FileIndex, FilePackets, FetchRun, Upto, Downfrom, Opened;
    var n := |FileIndex(d)|;
    CaptureSize(d);
    PicksCover(n);
    CompleteRun(d, Upto(n));
    CompleteRun(d, Downfrom(n));
    forall i | 0 <= i < n
      ensures FetchRun(Opened(d), Upto(n)).1[i] == Some(FilePackets(d)[i])
      ensures FetchRun(Opened(d), Downfrom(n)).1[i] == Some(FilePackets(d)[n - 1 - i])
    {
      PicksAt(n, i);
    }
  }

  lemma PicksCover(n: nat)
    ensures forall i :: 0 <= i < n ==> i in Upto(n) && i in Downfrom(n)
  {
    forall i | 0 <= i < n
      ensures i in Upto(n) && i in Downfrom(n)
    {
      PicksAt(n, i);
      PicksAt(n, n - 1 - i);
    }
  }
}
