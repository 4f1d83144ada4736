/** The descriptor wrapper fd_t: every method takes exactly one step of `FdSpec`. */
module Fd {
  import opened Bytes
  import opened FdSpec

  class Descriptor {
    var isOpen: bool
    var content: seq<byte>
    var pos: nat
    var eof: bool
    var cachedLen: int
    var limit: nat

    ghost function State(): FdState
      reads this
    {
      FdState(isOpen, content, pos, eof, cachedLen, limit)
    }

    /** fd_t{}: no descriptor. */
    constructor Closed()
      ensures State() == FdState(false, [], 0, false, UNKNOWN_LENGTH, 0)
    {
      isOpen, content, pos, eof, cachedLen, limit := false, [], 0, false, UNKNOWN_LENGTH, 0;
    }

    /** open(2) on a path: `disk` is None when that fails, and the bytes of the file otherwise. */
    constructor Open(disk: Option<seq<byte>>, limit: nat)
      ensures State() == FdState(disk.Some?, if disk.Some? then disk.value else [], 0, false, UNKNOWN_LENGTH, limit)
    {
      isOpen, content := disk.Some?, if disk.Some? then disk.value else [];
      pos, eof, cachedLen := 0, false, UNKNOWN_LENGTH;
      this.limit := limit;
    }

    method Tell() returns (r: int)
      ensures r == if isOpen then pos else -1
    {
      r := if isOpen then pos else -1;
    }

    method Length() returns (r: int)
      modifies this
      ensures State() == LengthStep(old(State())) && r == cachedLen
    {
      if cachedLen == UNKNOWN_LENGTH {
        cachedLen := if isOpen then |content| else -1;
      }
      r := cachedLen;
    }

    /** lseek(2): refuses a negative target and one that does not fit in off_t. */
    method KernelSeek(offset: int, whence: Whence) returns (r: int)
      modifies this`pos
      ensures r == SeekResult(old(State()), offset, whence)
      ensures pos == if r >= 0 then r else old(pos)
    {
      var target := (match whence case FromStart => 0 case FromCursor => pos case FromEnd => |content|) + offset;
      if isOpen && 0 <= target <= OFF_MAX {
        pos := target;
        r := target;
      } else {
        r := -1;
      }
    }

    method Seek(offset: int, whence: Whence) returns (r: int)
      modifies this
      ensures State() == SeekStep(old(State()), offset, whence)
      ensures r == SeekResult(old(State()), offset, whence)
    {
      r := KernelSeek(offset, whence);
      var length := Length();
      eof := r == length;
    }

    method Head() returns (ok: bool)
      modifies this
      ensures State() == SeekStep(old(State()), 0, FromStart)
      ensures ok == old(isOpen)
    {
      var r := Seek(0, FromStart);
      ok := r == 0;
    }

    method Tail() returns (ok: bool)
      modifies this
      ensures State() == TailStep(old(State()))
      ensures ok == (old(isOpen) && 0 <= LengthStep(old(State())).cachedLen <= OFF_MAX)
      ensures isOpen && |content| <= OFF_MAX && -1 <= old(cachedLen) <= OFF_MAX ==>
                (pos == |content| && eof <==> old(cachedLen) == UNKNOWN_LENGTH || old(cachedLen) == |content|)
    {
      var offset := Length();
      if offset < 0 {
        return false;
      }
      var r := Seek(offset, FromStart);
      ok := r == offset;
    }

    method SeekRel(offset: int) returns (ok: bool)
      modifies this
      ensures State() == SeekRelStep(old(State()), offset)
      ensures ok == (SeekResult(old(State()), offset, FromCursor) >= 0)
    {
      var current := Tell();
      if current == -1 || current + offset < 0 {
        return false;
      }
      var r := Seek(offset, FromCursor);
      ok := r == current + offset;
    }

    /** read(2) into a caller's buffer, setting `eof` when nothing arrives. */
    method ReadRaw(buffer: array<byte>, n: nat) returns (result: int)
      requires n <= buffer.Length
      modifies this, buffer
      ensures State() == ReadStep(old(State()), n)
      ensures result == ReadCount(old(State()), n)
      ensures isOpen && n > 0 ==> (eof <==> old(eof) || old(pos) >= |content|)
      ensures !isOpen || n == 0 ==> eof == old(eof)
      ensures var data := ReadData(old(State()), n); buffer[..] == data + old(buffer[..])[|data|..]
    {
      ghost var data := ReadData(State(), n);
      if !isOpen {
        return -1;
      }
      var got := if pos < |content| then Min(pos + n, |content|) - pos else 0;
      forall k | 0 <= k < got {
        buffer[k] := content[pos + k];
      }
      pos := pos + got;
      if got == 0 && n > 0 {
        eof := true;
      }
      result := got;
    }

    /** The all-or-nothing read: true exactly when n bytes arrived. */
    method Read(buffer: array<byte>, n: nat) returns (ok: bool)
      requires n <= buffer.Length
      modifies this, buffer
      ensures State() == ReadStep(old(State()), n)
      ensures ok == ReadExact(old(State()), n).Some?
      ensures var data := ReadData(old(State()), n); buffer[..] == data + old(buffer[..])[|data|..]
    {
      var result := ReadRaw(buffer, n);
      ok := result >= 0 && result == n;
    }

    /** std::optional<T> read<T>(): the object bytes of a T of n bytes. */
    method ReadObject(n: nat) returns (r: Option<seq<byte>>)
      modifies this
      ensures State() == ReadStep(old(State()), n)
      ensures r == ReadExact(old(State()), n)
    {
      var local := new byte[n](_ => 0);
      var ok := Read(local, n);
      assert ok ==> local[..] == ReadData(old(State()), n);
      r := if ok then Some(local[..]) else None;
    }

    /** write(2): a short count when the file system runs out of room, -1 when there is none. */
    method WriteRaw(buffer: seq<byte>) returns (result: int)
      modifies this`content, this`pos
      ensures State() == WriteStep(old(State()), buffer)
      ensures result == WriteCount(old(State()), buffer)
      ensures result > 0 ==>
                && pos == old(pos) + result && content[old(pos)..pos] == buffer[..result]
                && forall i :: 0 <= i < |content| && !(old(pos) <= i < pos) ==>
                     content[i] == if i < |old(content)| then old(content)[i] else 0
    {
      if !isOpen || (buffer != [] && pos >= limit) {
        return -1;
      }
      var n := if buffer == [] then 0 else Min(|buffer|, limit - pos);
      if n > 0 {
        OverlayKeeps(content, pos, buffer[..n]);
      }
      content := Overlay(content, pos, buffer[..n]);
      pos := pos + n;
      result := n;
    }

    method Write(buffer: seq<byte>) returns (ok: bool)
      modifies this`content, this`pos
      ensures State() == WriteStep(old(State()), buffer)
      ensures ok == (WriteCount(old(State()), buffer) == |buffer|)
    {
      var result := WriteRaw(buffer);
      ok := result >= 0 && result == |buffer|;
    }

    // ---- codecs: w is 2, 4 or 8 ----

    /** The zeroed std::array a codec reads into. */
    method ReadArray(w: nat) returns (ok: bool, data: seq<byte>)
      modifies this
      ensures State() == ReadStep(old(State()), w)
      ensures ok == ReadExact(old(State()), w).Some?
      ensures data == Padded(ReadData(old(State()), w), w)
    {
      var buffer := new byte[w](_ => 0);
      ok := Read(buffer, w);
      data := buffer[..];
    }

    /** readLE of an unsigned value: the shifts of the source, proved equal to positional notation. */
    method ReadLE(w: nat) returns (ok: bool, value: nat)
      requires w in {2, 4, 8}
      modifies this
      ensures State() == ReadStep(old(State()), w)
      ensures ok == ReadExact(old(State()), w).Some?
      ensures value == CodecValue(ReadData(old(State()), w), w, false, Little) < Pow256(w)
    {
      hide FromLE, FromBE, Pow256;
      var data;
      ok, data := ReadArray(w);
      if w == 2 {
        Unfold2(data);
        value := (data[1] as int) * 0x100 + data[0];
      } else if w == 4 {
        Unfold4(data);
        value := (data[3] as int) * 0x100_0000 + (data[2] as int) * 0x1_0000 + (data[1] as int) * 0x100 + data[0];
      } else {
        Unfold8(data);
        value := (data[7] as int) * 0x100_0000_0000_0000 + (data[6] as int) * 0x1_0000_0000_0000
          + (data[5] as int) * 0x100_0000_0000 + (data[4] as int) * 0x1_0000_0000
          + (data[3] as int) * 0x100_0000 + (data[2] as int) * 0x1_0000 + (data[1] as int) * 0x100 + data[0];
      }
    }

    method ReadBE(w: nat) returns (ok: bool, value: nat)
      requires w in {2, 4, 8}
      modifies this
      ensures State() == ReadStep(old(State()), w)
      ensures ok == ReadExact(old(State()), w).Some?
      ensures value == CodecValue(ReadData(old(State()), w), w, false, Big) < Pow256(w)
    {
      hide FromLE, FromBE, Pow256;
      var data;
      ok, data := ReadArray(w);
      if w == 2 {
        Unfold2(data);
        value := (data[0] as int) * 0x100 + data[1];
      } else if w == 4 {
        Unfold4(data);
        value := (data[0] as int) * 0x100_0000 + (data[1] as int) * 0x1_0000 + (data[2] as int) * 0x100 + data[3];
      } else {
        Unfold8(data);
        value := (data[0] as int) * 0x100_0000_0000_0000 + (data[1] as int) * 0x1_0000_0000_0000
          + (data[2] as int) * 0x100_0000_0000 + (data[3] as int) * 0x1_0000_0000
          + (data[4] as int) * 0x100_0000 + (data[5] as int) * 0x1_0000 + (data[6] as int) * 0x100 + data[7];
      }
    }

    /** The signed overloads go through the unsigned type of the same width. */
    method ReadSigned(w: nat, order: Order) returns (ok: bool, value: int)
      requires w in {2, 4, 8}
      modifies this
      ensures State() == ReadStep(old(State()), w)
      ensures ok == ReadExact(old(State()), w).Some?
      ensures value == CodecValue(ReadData(old(State()), w), w, true, order)
      ensures var u := CodecValue(ReadData(old(State()), w), w, false, order);
              -(Pow256(w) as int) <= 2 * value < Pow256(w) && (value == u || value == u - Pow256(w))
    {
      var data: nat;
      if order.Little? {
        ok, data := ReadLE(w);
      } else {
        ok, data := ReadBE(w);
      }
      value := ToSigned(data, w);
    }

    /** writeLE of an unsigned value: each byte is a right shift, truncated. */
    method WriteLE(w: nat, v: nat) returns (ok: bool)
      requires w in {2, 4, 8} && v < Pow256(w)
      modifies this`content, this`pos
      ensures State() == WriteStep(old(State()), To(Little, v, w))
      ensures ok == (WriteCount(old(State()), To(Little, v, w)) == w)
    {
      var data: seq<byte>;
      if w == 2 {
        data := [v % 0x100, v / 0x100 % 0x100];
      } else if w == 4 {
        data := [v % 0x100, v / 0x100 % 0x100, v / 0x1_0000 % 0x100, v / 0x100_0000 % 0x100];
      } else {
        data := [v % 0x100, v / 0x100 % 0x100, v / 0x1_0000 % 0x100, v / 0x100_0000 % 0x100,
        v / 0x1_0000_0000 % 0x100, v / 0x100_0000_0000 % 0x100,
        v / 0x1_0000_0000_0000 % 0x100, v / 0x100_0000_0000_0000 % 0x100];
      }
      ShiftsAreDigits(v, w);
      ok := Write(data);
    }

    method WriteBE(w: nat, v: nat) returns (ok: bool)
      requires w in {2, 4, 8} && v < Pow256(w)
      modifies this`content, this`pos
      ensures State() == WriteStep(old(State()), To(Big, v, w))
      ensures ok == (WriteCount(old(State()), To(Big, v, w)) == w)
    {
      var data: seq<byte>;
      if w == 2 {
        data := [v / 0x100 % 0x100, v % 0x100];
      } else if w == 4 {
        data := [v / 0x100_0000 % 0x100, v / 0x1_0000 % 0x100, v / 0x100 % 0x100, v % 0x100];
      } else {
        data := [v / 0x100_0000_0000_0000 % 0x100, v / 0x1_0000_0000_0000 % 0x100,
        v / 0x100_0000_0000 % 0x100, v / 0x1_0000_0000 % 0x100,
        v / 0x100_0000 % 0x100, v / 0x1_0000 % 0x100, v / 0x100 % 0x100, v % 0x100];
      }
      ShiftsAreDigits(v, w);
      ok := Write(data);
    }

    /** The signed overloads store the unsigned value with the same bytes. */
    method WriteSigned(item: Item) returns (ok: bool)
      requires item.signed
      modifies this`content, this`pos
      ensures State() == WriteStep(old(State()), ItemBytes(item))
      ensures ok == (WriteCount(old(State()), ItemBytes(item)) == item.width)
      ensures var u := From(item.order, ItemBytes(item));
              u == item.value || u == item.value + Pow256(item.width)
    {
      FromTo(item.order, ToUnsigned(item.value, item.width), item.width);
      var data := ToUnsigned(item.value, item.width);
      if item.order.Little? {
        ok := WriteLE(item.width, data);
      } else {
        ok := WriteBE(item.width, data);
      }
    }
  }

  /** The truncated right shifts of a value are its base-256 digits. */
  lemma ShiftsAreDigits(v: nat, w: nat)
    requires w in {2, 4, 8}
    ensures w == 2 ==> ToLE(v, 2) == [v % 0x100, v / 0x100 % 0x100] && ToBE(v, 2) == [v / 0x100 % 0x100, v % 0x100]
    ensures w == 4 ==> ToLE(v, 4) == [v % 0x100, v / 0x100 % 0x100, v / 0x1_0000 % 0x100, v / 0x100_0000 % 0x100]
    ensures w == 4 ==> ToBE(v, 4) == [v / 0x100_0000 % 0x100, v / 0x1_0000 % 0x100, v / 0x100 % 0x100, v % 0x100]
    ensures w == 8 ==> ToLE(v, 8) == [v % 0x100, v / 0x100 % 0x100, v / 0x1_0000 % 0x100, v / 0x100_0000 % 0x100,
        v / 0x1_0000_0000 % 0x100, v / 0x100_0000_0000 % 0x100,
        v / 0x1_0000_0000_0000 % 0x100, v / 0x100_0000_0000_0000 % 0x100]
    ensures w == 8 ==> ToBE(v, 8) == [v / 0x100_0000_0000_0000 % 0x100, v / 0x1_0000_0000_0000 % 0x100,
        v / 0x100_0000_0000 % 0x100, v / 0x1_0000_0000 % 0x100,
        v / 0x100_0000 % 0x100, v / 0x1_0000 % 0x100, v / 0x100 % 0x100, v % 0x100]
  {
    var v1, v2, v3 := v / 0x100, v / 0x1_0000, v / 0x100_0000;
    assert v1 / 0x100 == v2 && v2 / 0x100 == v3;
    Unroll(v, w);
    Unroll(v1, w - 1);
    if w > 2 {
      var v4 := v / 0x1_0000_0000;
      assert v3 / 0x100 == v4;
      Unroll(v2, w - 2);
      Unroll(v3, w - 3);
      if w > 4 {
        var v5, v6, v7 := v / 0x100_0000_0000, v / 0x1_0000_0000_0000, v / 0x100_0000_0000_0000;
        assert v4 / 0x100 == v5 && v5 / 0x100 == v6 && v6 / 0x100 == v7;
        Unroll(v4, w - 4);
        Unroll(v5, w - 5);
        Unroll(v6, w - 6);
        Unroll(v7, w - 7);
      }
    }
  }

  lemma Unroll(v: nat, n: nat)
    requires n > 0
    ensures ToLE(v, n) == [v % 0x100] + ToLE(v / 0x100, n - 1)
    ensures ToBE(v, n) == ToBE(v / 0x100, n - 1) + [v % 0x100]
  {
  }
}
