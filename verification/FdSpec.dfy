/**
 The state of an open descriptor as a value, and what each descriptor
 operation does to it.  `Fd.dfy` holds the class whose methods are proved to
 take exactly these steps; the laws about whole runs are stated here.
 */
module FdSpec {
  import opened Bytes

  /** The largest file offset a signed 64-bit off_t can hold. */
  const OFF_MAX: nat := 0x7FFF_FFFF_FFFF_FFFF

  /** The wrapper's "length not known yet" sentinel. */
  const UNKNOWN_LENGTH: int := -1

  datatype Whence = FromStart | FromCursor | FromEnd

  /**
   `isOpen` is false when the descriptor is -1.  `content` and `pos` belong to
   the kernel, `eof` and `cachedLen` to the wrapper.  `limit` is the largest
   size the file system lets the file reach (0 for a read-only descriptor).
   */
  datatype FdState = FdState(isOpen: bool, content: seq<byte>, pos: nat, eof: bool, cachedLen: int, limit: nat)

  ghost predicate Ok(s: FdState) {
    && |s.content| <= OFF_MAX && s.pos <= OFF_MAX
    && (s.cachedLen == UNKNOWN_LENGTH || (s.isOpen && s.cachedLen == |s.content|))
  }

  // ---- one step of each operation ----

  function TrueLength(s: FdState): int { if s.isOpen then |s.content| else -1 }

  function LengthStep(s: FdState): FdState {
    if s.cachedLen != UNKNOWN_LENGTH then s else s.(cachedLen := TrueLength(s))
  }

  function SeekBase(s: FdState, whence: Whence): nat {
    match whence
    case FromStart => 0
    case FromCursor => s.pos
    case FromEnd => |s.content|
  }

  function SeekResult(s: FdState, offset: int, whence: Whence): int {
    var target := SeekBase(s, whence) + offset;
    if s.isOpen && 0 <= target <= OFF_MAX then target else -1
  }

  function SeekStep(s: FdState, offset: int, whence: Whence): FdState {
    var result := SeekResult(s, offset, whence);
    var moved := LengthStep(if result >= 0 then s.(pos := result) else s);
    moved.(eof := result == moved.cachedLen)
  }

  /** The bytes a read of n delivers. */
  function ReadData(s: FdState, n: nat): (b: seq<byte>)
    ensures |b| <= n
  {
    if s.isOpen && s.pos < |s.content| then s.content[s.pos..Min(s.pos + n, |s.content|)] else []
  }

  function ReadCount(s: FdState, n: nat): int { if s.isOpen then |ReadData(s, n)| else -1 }

  function ReadStep(s: FdState, n: nat): FdState {
    s.(pos := s.pos + |ReadData(s, n)|, eof := s.eof || (s.isOpen && ReadData(s, n) == [] && n > 0))
  }

  /** The value of a read that must deliver exactly n bytes. */
  function ReadExact(s: FdState, n: nat): Option<seq<byte>> {
    if ReadCount(s, n) == n then Some(ReadData(s, n)) else None
  }

  function WriteCount(s: FdState, b: seq<byte>): int {
    if !s.isOpen || (b != [] && s.pos >= s.limit) then -1 else Min(|b|, if b == [] then 0 else s.limit - s.pos)
  }

  /** The content after bytes b land at offset at: a gap before them reads as zeros. */
  function Overlay(content: seq<byte>, at: nat, b: seq<byte>): (r: seq<byte>)
    ensures b != [] ==> |r| >= at + |b| && r[at..at + |b|] == b
  {
    if b == [] then content
    else
      var before := if at <= |content| then content[..at] else content + seq(at - |content|, _ => 0);
      before + b + (if at + |b| <= |content| then content[at + |b|..] else [])
  }

  function WriteStep(s: FdState, b: seq<byte>): FdState {
    var n := WriteCount(s, b);
    if n <= 0 then s else s.(content := Overlay(s.content, s.pos, b[..n]), pos := s.pos + n)
  }

  // ---- runs of operations that leave the file's bytes alone ----

  datatype Op =
    | OpRead(n: nat)
    | OpSeek(offset: int, whence: Whence)
    | OpHead
    | OpTail
    | OpTell
    | OpLength
    | OpSeekRel(offset: int)

  function SeekRelStep(s: FdState, offset: int): FdState {
    if !s.isOpen || s.pos + offset < 0 then s else SeekStep(s, offset, FromCursor)
  }

  function TailStep(s: FdState): FdState {
    var t := LengthStep(s);
    if t.cachedLen < 0 then t else SeekStep(t, t.cachedLen, FromStart)
  }

  function Step(s: FdState, op: Op): FdState {
    match op
    case OpRead(n) => ReadStep(s, n)
    case OpSeek(offset, whence) => SeekStep(s, offset, whence)
    case OpHead => SeekStep(s, 0, FromStart)
    case OpTail => TailStep(s)
    case OpTell => s
    case OpLength => LengthStep(s)
    case OpSeekRel(offset) => SeekRelStep(s, offset)
  }

  function Run(s: FdState, ops: seq<Op>): FdState {
    if ops == [] then s else Step(Run(s, ops[..|ops| - 1]), ops[|ops| - 1])
  }

  /** Does this operation, in this state, move the cursor to a place of the caller's choice? */
  predicate SeeksOk(s: FdState, op: Op) {
    match op
    case OpSeek(offset, whence) => SeekResult(s, offset, whence) >= 0
    case OpHead => true
    case OpTail => true
    case OpSeekRel(offset) => SeekResult(s, offset, FromCursor) >= 0
    case _ => false
  }

  /** `eof` is a lagging flag: it may be false at or past the end, but it is never true before it. */
  ghost predicate FileInv(s: FdState) {
    Ok(s) && s.isOpen && (s.eof ==> s.pos >= |s.content|)
  }

  lemma StepKeepsFileInv(s: FdState, op: Op)
    requires FileInv(s)
    ensures FileInv(Step(s, op))
    ensures Step(s, op).content == s.content && Step(s, op).limit == s.limit
  {
  }

  /** Where an operation leaves the cursor of an open file, in plain numbers. */
  function CursorAfter(s: FdState, op: Op): int {
    match op
    case OpRead(n) =>
      if s.pos >= |s.content| then s.pos else if s.pos + n <= |s.content| then s.pos + n else |s.content|
    case OpSeek(offset, whence) =>
      var target := offset + (if whence.FromStart? then 0 else if whence.FromCursor? then s.pos else |s.content|);
      if 0 <= target <= 0x7FFF_FFFF_FFFF_FFFF then target else s.pos
    case OpSeekRel(offset) => if 0 <= s.pos + offset <= 0x7FFF_FFFF_FFFF_FFFF then s.pos + offset else s.pos
    case OpHead => 0
    case OpTail => |s.content|
    case OpTell => s.pos
    case OpLength => s.pos
  }

  /**
   What one step may do to the cursor and the flag: a seek that succeeds leaves
   `eof` set exactly when it lands on the end; a read sets it exactly when it
   asks for something at or past the end and never clears it; a read goes
   neither back nor past the end; a failed seek and a length query leave the
   cursor alone.
   */
  ghost predicate StepLaw(s: FdState, op: Op) {
    var t := Step(s, op);
    && t.pos == CursorAfter(s, op)
    && (SeeksOk(s, op) ==> (t.eof <==> t.pos == |s.content|))
    && (op.OpRead? && op.n > 0 ==> (t.eof <==> s.eof || s.pos >= |s.content|))
    && (op.OpRead? && op.n == 0 ==> t.eof == s.eof)
    && (op.OpTell? || op.OpLength? ==> t.eof == s.eof)
    && (op.OpRead? ==> s.pos <= t.pos && (t.pos <= |s.content| || t.pos == s.pos))
    && (!op.OpRead? && !SeeksOk(s, op) ==> t.pos == s.pos)
  }

  lemma StepObeysLaw(s: FdState, op: Op)
    requires FileInv(s)
    ensures StepLaw(s, op)
  {
  }

  /** Over every run on an unchanging file the invariant holds throughout and every step obeys the law. */
  lemma {:induction false} FileInvOverRuns(s: FdState, ops: seq<Op>)
    requires FileInv(s)
    ensures FileInv(Run(s, ops)) && Run(s, ops).content == s.content && Run(s, ops).limit == s.limit
    ensures forall k {:trigger ops[k]} :: 0 <= k < |ops| ==>
              var before := Run(s, ops[..k]);
              FileInv(before) && before.content == s.content && StepLaw(before, ops[k])
              && Run(s, ops[..k + 1]) == Step(before, ops[k])
  {
    forall k | 0 <= k <= |ops|
      ensures FileInv(Run(s, ops[..k])) && Run(s, ops[..k]).content == s.content && Run(s, ops[..k]).limit == s.limit
    {
      PrefixKeepsFileInv(s, ops[..k]);
    }
    assert ops[..|ops|] == ops;
    forall k {:trigger ops[k]} | 0 <= k < |ops|
      ensures StepLaw(Run(s, ops[..k]), ops[k]) && Run(s, ops[..k + 1]) == Step(Run(s, ops[..k]), ops[k])
    {
      StepObeysLaw(Run(s, ops[..k]), ops[k]);
      assert ops[..k + 1][..k] == ops[..k];
    }
  }

  lemma {:induction false} PrefixKeepsFileInv(s: FdState, ops: seq<Op>)
    requires FileInv(s)
    ensures FileInv(Run(s, ops)) && Run(s, ops).content == s.content && Run(s, ops).limit == s.limit
  {
    if ops != [] {
      PrefixKeepsFileInv(s, ops[..|ops| - 1]);
      StepKeepsFileInv(Run(s, ops[..|ops| - 1]), ops[|ops| - 1]);
    }
  }

  /**
   A descriptor that is not open answers -1 to everything and never moves; a
   seek on it sets the flag, because its length is -1 as well.
   */
  lemma ClosedLaw(s: FdState, op: Op, n: nat, b: seq<byte>)
    requires !s.isOpen && s.cachedLen == -1
    ensures Step(s, op) == s.(eof := s.eof || op.OpSeek? || op.OpHead?)
    ensures ReadCount(s, n) == WriteCount(s, b) == -1 && WriteStep(s, b) == s
    ensures op.OpSeek? ==> SeekResult(s, op.offset, op.whence) == -1
  {
  }

  /** Tail reaches the end exactly when the length is not known yet or known truly. */
  lemma TailExact(s: FdState)
    requires s.isOpen && |s.content| <= OFF_MAX && -1 <= s.cachedLen <= OFF_MAX
    ensures var t := TailStep(s);
            t.pos == |t.content| && t.eof <==> s.cachedLen == UNKNOWN_LENGTH || s.cachedLen == |s.content|
  {
  }

  /**
   After a write, tail reaches the end exactly when the length was never asked
   for, or nothing was written, or the write stayed within the old length.
   */
  lemma TailAfterWriteIff(s: FdState, b: seq<byte>)
    requires FileInv(s) && |WriteStep(s, b).content| <= OFF_MAX
    ensures var t := TailStep(WriteStep(s, b)); var n := WriteCount(s, b);
            t.pos == |t.content| && t.eof <==>
            s.cachedLen == UNKNOWN_LENGTH || n <= 0 || s.pos + n <= |s.content|
  {
    var n := WriteCount(s, b);
    if n > 0 {
      OverlayLength(s.content, s.pos, b[..n]);
    }
    TailExact(WriteStep(s, b));
  }

  /** Every byte outside the part written is kept; a gap before it reads as zeros. */
  lemma OverlayKeeps(content: seq<byte>, at: nat, b: seq<byte>)
    requires b != []
    ensures var r := Overlay(content, at, b);
            && r[at..at + |b|] == b
            && |r| == (if at + |b| <= |content| then |content| else at + |b|)
            && forall i :: 0 <= i < |r| && !(at <= i < at + |b|) ==> r[i] == if i < |content| then content[i] else 0
  {
  }

  lemma OverlayLength(content: seq<byte>, at: nat, b: seq<byte>)
    requires b != []
    ensures |Overlay(content, at, b)| == if at + |b| <= |content| then |content| else at + |b|
  {
  }

  /** A length cached before a write goes stale: the flag then misses the end of the file. */
  lemma StaleLengthMissesEnd()
    ensures exists s: FdState, b: seq<byte> ::
              && FileInv(s) && WriteCount(s, b) == |b| && !Ok(WriteStep(s, b))
              && var t := TailStep(WriteStep(s, b)); t.eof && t.pos < |t.content|
  {
    var s := FdState(true, [], 0, false, 0, 10);
    var b: seq<byte> := [7];
    assert WriteStep(s, b).content == [7];
    assert FileInv(s) && WriteCount(s, b) == |b| && !Ok(WriteStep(s, b));
  }

  // ---- the codecs ----

  /** A value to be stored in 2, 4 or 8 bytes, signed or not, in a chosen byte order. */
  datatype AnyItem = AnyItem(width: nat, signed: bool, order: Order, value: int)

  predicate ItemFits(i: AnyItem) {
    && i.width in {2, 4, 8}
    && if i.signed then -(Pow256(i.width) as int) <= 2 * i.value < Pow256(i.width)
       else 0 <= i.value < Pow256(i.width)
  }

  type Item = i: AnyItem | ItemFits(i) witness AnyItem(2, false, Little, 0)

  function ItemBytes(i: Item): seq<byte>
  {
    To(i.order, ToUnsigned(i.value, i.width), i.width)
  }

  /** Bytes a short read did not deliver stay zero in the local buffer. */
  function Padded(b: seq<byte>, n: nat): (r: seq<byte>)
    requires |b| <= n
    ensures |r| == n
  {
    b + seq(n - |b|, _ => 0)
  }

  /** The value a codec read computes from the bytes delivered, short or not. */
  function CodecValue(data: seq<byte>, w: nat, signed: bool, order: Order): int
    requires |data| <= w
  {
    var u := From(order, Padded(data, w));
    if signed then ToSigned(u, w) else u
  }

  function WriteItems(s: FdState, items: seq<Item>): (r: (FdState, bool))
    decreases |items|
  {
    if items == [] then (s, true)
    else
      var b := ItemBytes(items[0]);
      if WriteCount(s, b) != |b| then (WriteStep(s, b), false) else WriteItems(WriteStep(s, b), items[1..])
  }

  /** Reads back one value for each item, with the item's own width, sign and order. */
  function ReadItems(s: FdState, items: seq<Item>): (FdState, Option<seq<int>>)
    decreases |items|
  {
    if items == [] then (s, Some([]))
    else
      var i := items[0];
      var t := ReadStep(s, i.width);
      if ReadExact(s, i.width).None? then (t, None)
      else
        var (u, rest) := ReadItems(t, items[1..]);
        var value := CodecValue(ReadData(s, i.width), i.width, i.signed, i.order);
        (u, if rest.None? then None else Some([value] + rest.value))
  }

  function Values(items: seq<Item>): (v: seq<int>)
    ensures |v| == |items|
  {
    if items == [] then [] else [items[0].value] + Values(items[1..])
  }

  function TotalWidth(items: seq<Item>): nat {
    if items == [] then 0 else items[0].width + TotalWidth(items[1..])
  }

  function Stream(items: seq<Item>): seq<byte>
  {
    if items == [] then [] else ItemBytes(items[0]) + Stream(items[1..])
  }

  lemma WriteAtEnd(s: FdState, b: seq<byte>)
    requires s.isOpen && s.pos == |s.content| && s.pos + |b| <= s.limit
    ensures WriteCount(s, b) == |b|
    ensures WriteStep(s, b) == s.(content := s.content + b, pos := s.pos + |b|)
  {
    assert b[..|b|] == b;
    if b != [] {
      assert Overlay(s.content, s.pos, b) == s.content + b;
    } else {
      assert s.content + b == s.content;
    }
  }

  lemma ReadInside(s: FdState, n: nat)
    requires s.isOpen && s.pos + n <= |s.content|
    ensures ReadData(s, n) == s.content[s.pos..s.pos + n]
    ensures ReadExact(s, n) == Some(s.content[s.pos..s.pos + n])
    ensures ReadStep(s, n) == s.(pos := s.pos + n)
  {
  }

  /** A whole object is read exactly when it lies inside the file. */
  lemma ReadWhole(s: FdState, n: nat)
    requires s.isOpen && (s.pos <= |s.content| || n > 0)
    ensures s.pos + n <= |s.content| ==>
              ReadExact(s, n) == Some(s.content[s.pos..s.pos + n]) && ReadStep(s, n) == s.(pos := s.pos + n)
    ensures s.pos + n > |s.content| ==> ReadExact(s, n).None?
    ensures var t := ReadStep(s, n); t.content == s.content && t.isOpen && (Ok(s) ==> Ok(t))
  {
    if s.pos == |s.content| {
      assert s.content[s.pos..s.pos] == [];
    }
  }

  lemma SeekAhead(s: FdState, n: nat)
    requires Ok(s) && s.isOpen
    ensures SeekResult(s, n, FromCursor) == if s.pos + n <= OFF_MAX then s.pos + n else -1
    ensures var t := SeekStep(s, n, FromCursor);
            && t.content == s.content && t.isOpen && Ok(t)
            && (s.pos + n <= OFF_MAX ==> t.pos == s.pos + n && (t.eof <==> t.pos == |s.content|))
  {
  }

  lemma SeekInside(s: FdState, offset: nat)
    requires Ok(s) && s.isOpen && offset <= |s.content|
    ensures SeekResult(s, offset, FromStart) == offset
    ensures SeekStep(s, offset, FromStart) == s.(pos := offset, eof := offset == |s.content|, cachedLen := |s.content|)
  {
  }

  lemma ItemDecodes(i: Item)
    ensures |ItemBytes(i)| == i.width
    ensures CodecValue(ItemBytes(i), i.width, i.signed, i.order) == i.value
  {
    assert Padded(ItemBytes(i), i.width) == ItemBytes(i);
    FromTo(i.order, ToUnsigned(i.value, i.width), i.width);
  }

  /** Writing at the end of a file with room appends the items' bytes. */
  lemma {:induction false} WriteItemsAppends(s: FdState, items: seq<Item>)
    requires s.isOpen && s.pos == |s.content| && s.pos + TotalWidth(items) <= s.limit
    ensures |Stream(items)| == TotalWidth(items)
    ensures WriteItems(s, items) == (s.(content := s.content + Stream(items), pos := s.pos + TotalWidth(items)), true)
    decreases |items|
  {
    hide WriteStep, WriteCount, ItemBytes;
    if items == [] {
      assert s.content + Stream(items) == s.content;
    } else {
      var b := ItemBytes(items[0]);
      ItemDecodes(items[0]);
      WriteAtEnd(s, b);
      WriteItemsAppends(WriteStep(s, b), items[1..]);
      assert (s.content + b) + Stream(items[1..]) == s.content + (b + Stream(items[1..]));
    }
  }

  /** Reading where the items' bytes lie gives the items' values. */
  lemma {:induction false} ReadItemsDecodes(s: FdState, items: seq<Item>)
    requires s.isOpen && s.pos + |Stream(items)| <= |s.content|
    requires s.content[s.pos..s.pos + |Stream(items)|] == Stream(items)
    ensures ReadItems(s, items) == (s.(pos := s.pos + |Stream(items)|), Some(Values(items)))
    decreases |items|
  {
    hide ItemBytes, ReadStep, ReadExact, ReadData, CodecValue;
    if items != [] {
      var i, b, later := items[0], ItemBytes(items[0]), Stream(items[1..]);
      ItemDecodes(i);
      ReadFront(s, b, later);
      ReadItemsDecodes(ReadStep(s, i.width), items[1..]);
    }
  }

  lemma ReadFront(s: FdState, b: seq<byte>, later: seq<byte>)
    requires s.isOpen && s.pos + |b + later| <= |s.content|
    requires s.content[s.pos..s.pos + |b + later|] == b + later
    ensures ReadData(s, |b|) == b && ReadExact(s, |b|) == Some(b)
    ensures var t := ReadStep(s, |b|);
            t == s.(pos := s.pos + |b|) && t.content[t.pos..t.pos + |later|] == later
  {
    var here := s.content[s.pos..s.pos + |b + later|];
    ReadInside(s, |b|);
    assert s.content[s.pos..s.pos + |b|] == here[..|b|];
    assert s.content[s.pos + |b|..s.pos + |b| + |later|] == here[|b|..];
  }

  /**
   Codec stream round trip: values of mixed width, sign and byte order written
   to an empty file with room, then read back from the head with the same
   choices, come back in order, and the last read ends exactly at the end.
   */
  lemma CodecRoundTrip(s: FdState, items: seq<Item>)
    requires s.isOpen && s.content == [] && s.pos == 0 && TotalWidth(items) <= s.limit
    ensures var (written, ok) := WriteItems(s, items);
            var rewound := SeekStep(written, 0, FromStart);
            var (final, values) := ReadItems(rewound, items);
            ok && SeekResult(written, 0, FromStart) == 0 && values == Some(Values(items)) &&
            final.pos == |final.content| == TotalWidth(items)
  {
    WriteItemsAppends(s, items);
    var (written, ok) := WriteItems(s, items);
    assert s.content + Stream(items) == Stream(items);
    var rewound := SeekStep(written, 0, FromStart);
    assert rewound.content[0..TotalWidth(items)] == Stream(items);
    ReadItemsDecodes(rewound, items);
  }

  /** The value whose bytes are those of v in reverse, in the same width and signedness. */
  function SwappedValue(v: int, w: nat, signed: bool): int
    requires 0 <= ToUnsigned(v, w) < Pow256(w)
  {
    var u := Swap(ToUnsigned(v, w), w);
    if signed then ToSigned(u, w) else u
  }

  /**
   A value read with the other byte order than it was written in is its byte
   swap, signed or not, and swapping that again gives the value back.
   */
  lemma OtherOrderSwaps(s: FdState, i: Item)
    requires s.isOpen && s.pos + i.width <= |s.content|
    requires s.content[s.pos..s.pos + i.width] == ItemBytes(i)
    ensures var other := if i.order.Little? then Big else Little;
            var swapped := SwappedValue(i.value, i.width, i.signed);
            && CodecValue(ReadData(s, i.width), i.width, i.signed, i.order) == i.value
            && CodecValue(ReadData(s, i.width), i.width, i.signed, other) == swapped
            && 0 <= ToUnsigned(swapped, i.width) < Pow256(i.width)
            && SwappedValue(swapped, i.width, i.signed) == i.value
  {
    hide FromLE, FromBE, ToLE, ToBE, Swap, Pow256;
    var b, u := ItemBytes(i), ToUnsigned(i.value, i.width);
    assert ReadData(s, i.width) == b && Padded(b, i.width) == b;
    ItemDecodes(i);
    FromTo(i.order, u, i.width);
    SwapIsOtherOrder(b);
    SwapIsOtherBytes(u, i.width);
  }
}
