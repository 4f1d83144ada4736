/** gzfile_t: a decompressed stream read in chunks and copied to another file. */
module Zlib {
  import opened Bytes
  import opened FdSpec
  import Fd

  /** 8_KiB */
  const CHUNK: nat := 8192

  /**
   What zlib makes of the bytes behind a descriptor: the stream it can deliver,
   and whether it reports an error, rather than an end, after it.  `isOpen` is
   false when gzdopen fails.
   */
  datatype Inflated = Inflated(isOpen: bool, stream: seq<byte>, broken: bool)

  /** A 32-bit signed accumulator in two's complement. */
  function Wrap32(x: int): int { (x + 0x8000_0000) % 0x1_0000_0000 - 0x8000_0000 }

  lemma Wrap32Adds(x: int, y: int)
    ensures Wrap32(Wrap32(x) + y) == Wrap32(x + y)
    ensures -0x8000_0000 <= x < 0x8000_0000 ==> Wrap32(x) == x
  {
    var m := 0x1_0000_0000;
    var q := (x + 0x8000_0000) / m;
    assert Wrap32(x) + y + 0x8000_0000 == (x + y + 0x8000_0000) - q * m;
    ModShift(x + y + 0x8000_0000, q);
  }

  lemma ModShift(a: int, q: int)
    ensures (a - q * 0x1_0000_0000) % 0x1_0000_0000 == a % 0x1_0000_0000
  {
  }

  /** gzread of n bytes at offset rd of the stream: all of them, what is left at a clean end, or -1. */
  function GzCount(z: Inflated, rd: nat, n: nat): int
    requires rd <= |z.stream|
  {
    if !z.isOpen then -1
    else if rd + n <= |z.stream| then n
    else if z.broken then -1
    else |z.stream| - rd
  }

  /** Can the whole of s be copied into the file behind t? */
  predicate Copies(z: Inflated, t: FdState) {
    z.isOpen && !z.broken && (z.stream == [] || (t.isOpen && t.pos + |z.stream| <= t.limit))
  }

  /** How many bytes of the stream the copy lands in the file, finished or not. */
  function Landed(z: Inflated, t: FdState): (n: nat)
    ensures n <= |z.stream|
    ensures Copies(z, t) ==> n == |z.stream|
  {
    if !z.isOpen || !t.isOpen || t.limit <= t.pos then 0
    else Min(if z.broken then |z.stream| - |z.stream| % CHUNK else |z.stream|, t.limit - t.pos)
  }

  /** File state t after the first n bytes of s were appended to it. */
  function Appended(t: FdState, s: seq<byte>, n: nat): FdState
    requires n <= |s|
  {
    t.(content := t.content + s[..n], pos := t.pos + n)
  }

  /** std::array::fill */
  method Fill(a: array<byte>, value: byte)
    modifies a
    ensures forall k :: 0 <= k < a.Length ==> a[k] == value
  {
    forall k | 0 <= k < a.Length {
      a[k] := value;
    }
  }

  class GzFile {
    const source: Inflated
    var rd: nat

    ghost predicate Valid()
      reads this
    {
      rd <= |source.stream|
    }

    constructor (source: Inflated)
      ensures Valid() && this.source == source && rd == 0
    {
      this.source := source;
      rd := 0;
    }

    method GzRead(buffer: array<byte>, n: nat) returns (count: int)
      requires Valid() && n <= buffer.Length
      modifies this`rd, buffer
      ensures Valid() && count == GzCount(source, old(rd), n)
      ensures rd == old(rd) + (if count < 0 then 0 else count)
      ensures count > 0 ==> buffer[..count] == source.stream[old(rd)..rd]
    {
      if !source.isOpen || (rd + n > |source.stream| && source.broken) {
        return -1;
      }
      count := Min(n, |source.stream| - rd);
      forall k | 0 <= k < count {
        buffer[k] := source.stream[rd + k];
      }
      rd := rd + count;
    }

    /**
     The copy loop.  Whole chunks are written as they come; a short chunk ends
     the stream and is written byte by byte.  However it ends, the file holds
     what it held and a front of the stream; it returns the stream's length,
     in 32 bits, when the copy is complete and -1 otherwise.
     */
    method DecompressTo(file: Fd.Descriptor) returns (decompressed: int)
      requires Valid() && rd == 0 && file.pos == |file.content|
      modifies this, file`content, file`pos
      ensures var t := old(file.State()); file.State() == Appended(t, source.stream, Landed(source, t))
      ensures decompressed == CopyResult(source, old(file.State()))
    {
      hide Overlay, WriteStep, WriteCount, Landed, Appended, Wrap32, Room, Copies;
      ghost var t := file.State();
      var tmp := new byte[CHUNK](_ => 0);
      decompressed := 0;
      var count := GzRead(tmp, CHUNK);
      ghost var copied := 0;
      AppendNothing(t, source.stream);
      Wrap32Adds(0, 0);
      while count == CHUNK
        invariant Valid() && copied <= |source.stream| && copied % CHUNK == 0 && fresh(tmp)
        invariant count == GzCount(source, copied, CHUNK)
        invariant count > 0 ==> tmp[..count] == source.stream[copied..copied + count] && rd == copied + count
        invariant count <= 0 ==> rd == copied
        invariant file.State() == Appended(t, source.stream, copied)
        invariant Reached(source, t, copied)
        invariant decompressed == Wrap32(copied)
        decreases |source.stream| - copied
      {
        assert tmp[..] == source.stream[copied..copied + CHUNK];
        var ok := file.Write(tmp[..]);
        LandsFront(t, source.stream, copied, CHUNK);
        if !ok {
          FullExit(source, t, copied, CHUNK);
          return -1;
        }
        Wrap32Adds(copied, count);
        decompressed := Wrap32(decompressed + count);
        copied := copied + CHUNK;
        Fill(tmp, 0);
        count := GzRead(tmp, CHUNK);
      }
      if count < 0 {
        BrokenExit(source, t, copied);
        return -1;
      }
      var ok := WriteTail(file, tmp, count, copied, t);
      if !ok {
        return -1;
      }
      Wrap32Adds(copied, count);
      decompressed := Wrap32(decompressed + count);
    }

    /** The byte-wise tail: the last count bytes of the stream, which lie in tmp. */
    method WriteTail(file: Fd.Descriptor, tmp: array<byte>, count: nat, ghost copied: nat, ghost t: FdState)
      returns (ok: bool)
      requires source.isOpen && !source.broken && copied + count == |source.stream|
      requires count <= tmp.Length && tmp[..count] == source.stream[copied..]
      requires t.pos == |t.content| && file.State() == Appended(t, source.stream, copied) && Reached(source, t, copied)
      modifies file`content, file`pos
      ensures ok == Copies(source, t)
      ensures file.State() == Appended(t, source.stream, Landed(source, t))
    {
      hide Overlay, WriteStep, WriteCount, Landed, Appended, Room, Copies;
      var idx := 0;
      while idx < count
        invariant 0 <= idx <= count
        invariant file.State() == Appended(t, source.stream, copied + idx) && Reached(source, t, copied + idx)
      {
        LandsFront(t, source.stream, copied + idx, 1);
        assert tmp[idx] == tmp[..count][idx] == source.stream[copied..][idx];
        assert [tmp[idx]] == source.stream[copied + idx..copied + idx + 1];
        ok := file.Write([tmp[idx]]);
        if !ok {
          FullExit(source, t, copied + idx, 1);
          return;
        }
        idx := idx + 1;
      }
      LandedWhole(source, t);
      ok := true;
    }
  }

  /** The copy has come as far as offset `at` of the stream. */
  ghost predicate Reached(z: Inflated, t: FdState, at: nat) {
    at > 0 ==> z.isOpen && t.isOpen && t.pos + at <= t.limit
  }

  /** How much of the next n bytes there is room for. */
  function Room(t: FdState, at: nat, n: nat): nat {
    if t.isOpen && t.limit > t.pos + at then Min(n, t.limit - t.pos - at) else 0
  }

  lemma BrokenExit(z: Inflated, t: FdState, copied: nat)
    requires (!z.isOpen || z.broken) && copied <= |z.stream| && (z.isOpen ==> |z.stream| < copied + CHUNK)
    requires copied % CHUNK == 0 && Reached(z, t, copied)
    ensures Landed(z, t) == copied && !Copies(z, t)
  {
    assert z.isOpen ==> |z.stream| % CHUNK == |z.stream| - copied;
  }

  lemma FullExit(z: Inflated, t: FdState, at: nat, n: nat)
    requires z.isOpen && at + n <= |z.stream| && Reached(z, t, at) && Room(t, at, n) < n
    requires z.broken ==> n == CHUNK && at % CHUNK == 0
    ensures Landed(z, t) == at + Room(t, at, n) && !Copies(z, t)
  {
    if z.broken {
      assert at + CHUNK <= |z.stream| - |z.stream| % CHUNK;
    }
  }

  lemma LandedWhole(z: Inflated, t: FdState)
    requires z.isOpen && !z.broken && Reached(z, t, |z.stream|)
    ensures Landed(z, t) == |z.stream| && Copies(z, t)
  {
  }

  /** One write of the next n bytes of s, after the first `at` of them have landed. */
  lemma LandsFront(t: FdState, s: seq<byte>, at: nat, n: nat)
    requires n > 0 && at + n <= |s| && t.pos == |t.content|
    ensures Room(t, at, n) <= n
    ensures var u := Appended(t, s, at);
            && WriteStep(u, s[at..at + n]) == Appended(t, s, at + Room(t, at, n))
            && (WriteCount(u, s[at..at + n]) == n <==> Room(t, at, n) == n)
    ensures Room(t, at, n) == n > 0 ==> t.isOpen && t.pos + at + n <= t.limit
  {
    hide Overlay;
    var u, b, room := Appended(t, s, at), s[at..at + n], Room(t, at, n);
    if room > 0 {
      TakeTwice(s, at, room, n);
      OverlayAtEnd(u.content, b[..room]);
      Regroup(t.content, s, at, room);
    }
  }

  lemma TakeTwice(s: seq<byte>, at: nat, room: nat, n: nat)
    requires room <= n && at + n <= |s|
    ensures s[at..at + n][..room] == s[at..at + room]
  {
  }

  lemma Regroup(front: seq<byte>, s: seq<byte>, at: nat, room: nat)
    requires at + room <= |s|
    ensures (front + s[..at]) + s[at..at + room] == front + s[..at + room]
  {
    assert s[..at + room] == s[..at] + s[at..at + room];
  }

  /** What the copy returns (see `DecompressTo`). */
  function CopyResult(z: Inflated, t: FdState): int {
    if Copies(z, t) then Wrap32(|z.stream|) else -1
  }

  /**
   What a caller may conclude from the result of a copy into a file at its end:
   a result that is not negative means the file grew by exactly the stream, and
   for a stream below 2^31 bytes the result is its length and -1 a failure.  A
   failure leaves a front of the stream, and after a read error that is whole
   chunks unless the room ran out first.
   */
  lemma CopyOutcome(z: Inflated, t: FdState)
    requires t.pos == |t.content|
    ensures var after := Appended(t, z.stream, Landed(z, t)).content;
            && t.content <= after <= t.content + z.stream
            && (CopyResult(z, t) >= 0 ==> after == t.content + z.stream)
            && (|z.stream| < 0x8000_0000 ==>
                  (CopyResult(z, t) == -1 <==> !Copies(z, t)) && (Copies(z, t) ==> CopyResult(z, t) == |z.stream|))
            && -0x8000_0000 <= CopyResult(z, t) < 0x8000_0000
            && (Copies(z, t) ==> (|z.stream| - CopyResult(z, t)) % 0x1_0000_0000 == 0)
            && (z.broken ==> Landed(z, t) % CHUNK == 0 || t.pos + Landed(z, t) == t.limit)
            && (z.isOpen && z.broken && t.isOpen && t.pos + |z.stream| < t.limit ==>
                  Landed(z, t) == |z.stream| - |z.stream| % 8192)
  {
    assert z.stream[..|z.stream|] == z.stream;
    Wrap32Adds(|z.stream|, 0);
    var whole := |z.stream| - |z.stream| % CHUNK;
    assert whole % CHUNK == 0;
    assert t.content + z.stream == (t.content + z.stream[..Landed(z, t)]) + z.stream[Landed(z, t)..];
  }

  lemma AppendNothing(t: FdState, s: seq<byte>)
    ensures Appended(t, s, 0) == t
  {
    assert t.content + s[..0] == t.content;
  }

  lemma OverlayAtEnd(content: seq<byte>, b: seq<byte>)
    ensures Overlay(content, |content|, b) == content + b
  {
  }
}
