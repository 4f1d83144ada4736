/** Bytes, fixed-width integers and the two byte orders. */
module Bytes {

  datatype Option<+T> = None | Some(value: T)

  type byte = x: int | 0 <= x < 0x100
  type u16 = x: int | 0 <= x < 0x1_0000
  type u32 = x: int | 0 <= x < 0x1_0000_0000
  type u64 = x: int | 0 <= x < 0x1_0000_0000_0000_0000
  type i32 = x: int | -0x8000_0000 <= x < 0x8000_0000

  datatype Order = Little | Big

  function Min(a: int, b: int): int { if a <= b then a else b }

  function Pow256(n: nat): (p: nat)
    ensures p > 0
  {
    if n == 0 then 1 else 0x100 * Pow256(n - 1)
  }

  lemma Pow256Values()
    ensures Pow256(1) == 0x100 && Pow256(2) == 0x1_0000 && Pow256(4) == 0x1_0000_0000
    ensures Pow256(8) == 0x1_0000_0000_0000_0000
  {
    assert Pow256(3) == 0x100_0000;
    assert Pow256(5) == 0x100 * Pow256(4);
    assert Pow256(6) == 0x100 * Pow256(5);
    assert Pow256(7) == 0x100 * Pow256(6);
  }

  // ---- positional notation in both orders ----

  function FromLE(b: seq<byte>): (v: nat)
    ensures v < Pow256(|b|)
  {
    if b == [] then 0 else b[0] + 0x100 * FromLE(b[1..])
  }

  function ToLE(v: nat, n: nat): (b: seq<byte>)
    ensures |b| == n
  {
    if n == 0 then [] else [v % 0x100] + ToLE(v / 0x100, n - 1)
  }

  function FromBE(b: seq<byte>): (v: nat)
    ensures v < Pow256(|b|)
  {
    if b == [] then 0 else 0x100 * FromBE(b[..|b| - 1]) + b[|b| - 1]
  }

  function ToBE(v: nat, n: nat): (b: seq<byte>)
    ensures |b| == n
  {
    if n == 0 then [] else ToBE(v / 0x100, n - 1) + [v % 0x100]
  }

  function From(o: Order, b: seq<byte>): (v: nat)
    ensures v < Pow256(|b|)
  {
    if o.Little? then FromLE(b) else FromBE(b)
  }

  function To(o: Order, v: nat, n: nat): (b: seq<byte>)
    ensures |b| == n
  {
    if o.Little? then ToLE(v, n) else ToBE(v, n)
  }

  lemma {:induction false} FromTo(o: Order, v: nat, n: nat)
    requires v < Pow256(n)
    ensures From(o, To(o, v, n)) == v
  {
    if n > 0 {
      FromTo(o, v / 0x100, n - 1);
      var b := To(o, v, n);
      if o.Little? {
        assert b[1..] == ToLE(v / 0x100, n - 1);
      } else {
        assert b[..n - 1] == ToBE(v / 0x100, n - 1);
      }
    }
  }

  lemma {:induction false} ToFrom(o: Order, b: seq<byte>)
    ensures To(o, From(o, b), |b|) == b
  {
    if b != [] {
      if o.Little? {
        ToFrom(o, b[1..]);
        assert b == [b[0]] + b[1..];
      } else {
        ToFrom(o, b[..|b| - 1]);
        assert b == b[..|b| - 1] + [b[|b| - 1]];
      }
    }
  }

  // ---- byte swaps ----

  function Reverse(b: seq<byte>): (r: seq<byte>)
    ensures |r| == |b|
  {
    if b == [] then [] else Reverse(b[1..]) + [b[0]]
  }

  lemma {:induction false} ReverseSnoc(b: seq<byte>, x: byte)
    ensures Reverse(b + [x]) == [x] + Reverse(b)
  {
    if b == [] {
      assert b + [x] == [x];
    } else {
      ReverseSnoc(b[1..], x);
      assert (b + [x])[1..] == b[1..] + [x];
      assert [x] + (Reverse(b[1..]) + [b[0]]) == [x] + Reverse(b[1..]) + [b[0]];
    }
  }

  lemma {:induction false} ReverseReverse(b: seq<byte>)
    ensures Reverse(Reverse(b)) == b
  {
    if b != [] {
      ReverseReverse(b[1..]);
      ReverseSnoc(Reverse(b[1..]), b[0]);
      assert b == [b[0]] + b[1..];
    }
  }

  /** Big-endian bytes are the little-endian bytes in reverse. */
  lemma {:induction false} ToBEReverses(v: nat, n: nat)
    ensures ToBE(v, n) == Reverse(ToLE(v, n))
  {
    if n > 0 {
      ToBEReverses(v / 0x100, n - 1);
      assert ToLE(v, n)[1..] == ToLE(v / 0x100, n - 1);
    }
  }

  /** The value whose n little-endian bytes are those of v in reverse. */
  function Swap(v: nat, n: nat): (r: nat)
    ensures r < Pow256(n)
  {
    FromLE(Reverse(ToLE(v, n)))
  }

  /** Reading the same bytes in the other order swaps the value. */
  lemma SwapIsOtherOrder(b: seq<byte>)
    ensures FromBE(b) == Swap(FromLE(b), |b|)
    ensures FromLE(b) == Swap(FromBE(b), |b|)
  {
    var be, le := FromBE(b), FromLE(b);
    ToFrom(Big, b);
    ToFrom(Little, b);
    ToBEReverses(be, |b|);
    ReverseReverse(ToLE(be, |b|));
    assert b == Reverse(ToLE(be, |b|)) && Reverse(b) == ToLE(be, |b|);
    FromTo(Little, be, |b|);
  }

  /** Writing in the other order writes the swapped value. */
  lemma SwapIsOtherBytes(v: nat, n: nat)
    requires v < Pow256(n)
    ensures ToBE(v, n) == ToLE(Swap(v, n), n)
    ensures Swap(Swap(v, n), n) == v
  {
    ToBEReverses(v, n);
    ToFrom(Little, Reverse(ToLE(v, n)));
    ReverseReverse(ToLE(v, n));
    FromTo(Little, v, n);
  }

  /** LIBNOKOGIRI_SWAP16 */
  function Swap16(x: u16): u16 { x % 0x100 * 0x100 + x / 0x100 }

  /** LIBNOKOGIRI_SWAP32 */
  function Swap32(x: u32): u32 {
    x % 0x100 * 0x100_0000 + x / 0x100 % 0x100 * 0x1_0000 + x / 0x1_0000 % 0x100 * 0x100 + x / 0x100_0000
  }

  function U16(b: seq<byte>): (v: u16)
    requires |b| == 2
  {
    Pow256Values(); FromLE(b)
  }

  function U32(b: seq<byte>): (v: u32)
    requires |b| == 4
  {
    Pow256Values(); FromLE(b)
  }

  /** LIBNOKOGIRI_SWAP64: the halves change places, each swapped. */
  function Swap64(x: u64): u64 { Swap32(x % 0x1_0000_0000) * 0x1_0000_0000 + Swap32(x / 0x1_0000_0000) }

  lemma Unfold2(b: seq<byte>)
    requires |b| == 2
    ensures FromLE(b) == b[0] + 0x100 * (b[1] as int)
    ensures FromBE(b) == 0x100 * (b[0] as int) + b[1]
  {
    assert FromLE(b[1..]) == b[1] + 0x100 * FromLE(b[1..][1..]);
    assert b[..1][..0] == [];
    assert FromBE(b[..1]) == b[0];
  }

  lemma Unfold4(b: seq<byte>)
    requires |b| == 4
    ensures FromLE(b) == b[0] + 0x100 * (b[1] as int) + 0x1_0000 * (b[2] as int) + 0x100_0000 * (b[3] as int)
    ensures FromBE(b) == 0x100_0000 * (b[0] as int) + 0x1_0000 * (b[1] as int) + 0x100 * (b[2] as int) + b[3]
  {
    Unfold2(b[2..]);
    Unfold2(b[..2]);
    assert b[1..][1..] == b[2..];
    assert b[..3][..2] == b[..2];
    assert FromLE(b[1..]) == b[1] + 0x100 * FromLE(b[2..]);
    assert FromBE(b[..3]) == 0x100 * FromBE(b[..2]) + b[2];
  }

  lemma Unfold8(b: seq<byte>)
    requires |b| == 8
    ensures FromLE(b) == b[0] + 0x100 * (b[1] as int) + 0x1_0000 * (b[2] as int) + 0x100_0000 * (b[3] as int)
                         + 0x1_0000_0000 * (b[4] as int) + 0x100_0000_0000 * (b[5] as int)
                         + 0x1_0000_0000_0000 * (b[6] as int) + 0x100_0000_0000_0000 * (b[7] as int)
    ensures FromBE(b) == 0x100_0000_0000_0000 * (b[0] as int) + 0x1_0000_0000_0000 * (b[1] as int)
                         + 0x100_0000_0000 * (b[2] as int) + 0x1_0000_0000 * (b[3] as int)
                         + 0x100_0000 * (b[4] as int) + 0x1_0000 * (b[5] as int) + 0x100 * (b[6] as int) + b[7]
  {
    Unfold4(b[4..]);
    Unfold4(b[..4]);
    assert b[1..][1..] == b[2..] && b[2..][1..] == b[3..] && b[3..][1..] == b[4..];
    assert FromLE(b[3..]) == b[3] + 0x100 * FromLE(b[4..]);
    assert FromLE(b[2..]) == b[2] + 0x100 * FromLE(b[3..]);
    assert FromLE(b[1..]) == b[1] + 0x100 * FromLE(b[2..]);
    assert b[..7][..6] == b[..6] && b[..6][..5] == b[..5] && b[..5][..4] == b[..4];
    assert FromBE(b[..5]) == 0x100 * FromBE(b[..4]) + b[4];
    assert FromBE(b[..6]) == 0x100 * FromBE(b[..5]) + b[5];
    assert FromBE(b[..7]) == 0x100 * FromBE(b[..6]) + b[6];
  }

  /** The four base-256 digits of a 32-bit value. */
  lemma Digits(x: u32, b0: byte, b1: byte, b2: byte, b3: byte)
    requires x == b0 + 0x100 * (b1 as int) + 0x1_0000 * (b2 as int) + 0x100_0000 * (b3 as int)
    ensures Swap32(x) == 0x100_0000 * (b0 as int) + 0x1_0000 * (b1 as int) + 0x100 * (b2 as int) + b3
  {
    var y: int := b1 + 0x100 * (b2 as int) + 0x1_0000 * (b3 as int);
    var z: int := b2 + 0x100 * (b3 as int);
    assert x / 0x100 == y && x % 0x100 == b0;
    assert x / 0x1_0000 == z && y % 0x100 == b1;
    assert x / 0x100_0000 == b3 && z % 0x100 == b2;
  }

  /** The swap macros turn a value read in host order into the value the bytes spell in the other order. */
  lemma SwapMacros(b: seq<byte>)
    ensures |b| == 2 ==> Swap16(U16(b)) == FromBE(b)
    ensures |b| == 4 ==> Swap32(U32(b)) == FromBE(b)
    ensures |b| == 8 ==> Swap64(U64(b)) == FromBE(b)
  {
    if |b| == 2 {
      Unfold2(b);
    } else if |b| == 4 {
      Unfold4(b);
      Digits(U32(b), b[0], b[1], b[2], b[3]);
    } else if |b| == 8 {
      SwapMacro64(b);
    }
  }

  /** The macros are the general byte swap, so applying one twice is the identity. */
  lemma SwapTwice(x: u16, y: u32, z: u64)
    ensures Swap16(x) == Swap(x, 2) && Swap16(Swap16(x)) == x
    ensures Swap32(y) == Swap(y, 4) && Swap32(Swap32(y)) == y
    ensures Swap64(z) == Swap(z, 8) && Swap64(Swap64(z)) == z
  {
    hide Swap16, Swap32, Swap64, Swap;
    Pow256Values();
    SwapIsMacro16(x);
    SwapIsMacro16(Swap16(x));
    SwapIsOtherBytes(x, 2);
    Swap32Twice(y);
    SwapIsMacro64(z);
    SwapIsMacro64(Swap64(z));
    SwapIsOtherBytes(z, 8);
  }

  lemma Swap32Twice(y: u32)
    ensures Swap32(y) == Swap(y, 4) && Swap32(Swap32(y)) == y
  {
    hide Swap32, Swap;
    Pow256Values();
    SwapIsMacro32(y);
    SwapIsMacro32(Swap32(y));
    SwapIsOtherBytes(y, 4);
  }

  /** Eight bytes are two runs of four. */
  lemma SwapMacro64(b: seq<byte>)
    requires |b| == 8
    ensures Swap64(U64(b)) == FromBE(b)
  {
    hide Swap32, FromLE, FromBE;
    var low, high := b[..4], b[4..];
    Unfold8(b);
    Unfold4(low);
    Unfold4(high);
    Digits(U32(low), b[0], b[1], b[2], b[3]);
    Digits(U32(high), b[4], b[5], b[6], b[7]);
    assert U64(b) == U32(low) + 0x1_0000_0000 * (U32(high) as int);
    assert U64(b) % 0x1_0000_0000 == U32(low) && U64(b) / 0x1_0000_0000 == U32(high);
  }

  lemma SwapIsMacro16(x: u16)
    ensures Swap16(x) == Swap(x, 2)
  {
    Pow256Values();
    FromTo(Little, x, 2);
    SwapMacros(ToLE(x, 2));
    SwapIsOtherOrder(ToLE(x, 2));
  }

  lemma SwapIsMacro64(z: u64)
    ensures Swap64(z) == Swap(z, 8)
  {
    Pow256Values();
    FromTo(Little, z, 8);
    SwapMacros(ToLE(z, 8));
    SwapIsOtherOrder(ToLE(z, 8));
  }

  lemma SwapIsMacro32(y: u32)
    ensures Swap32(y) == Swap(y, 4)
  {
    Pow256Values();
    FromTo(Little, y, 4);
    SwapMacros(ToLE(y, 4));
    SwapIsOtherOrder(ToLE(y, 4));
  }

  function U64(b: seq<byte>): (v: u64)
    requires |b| == 8
  {
    Pow256Values(); FromLE(b)
  }

  // ---- two's complement ----

  /** The signed value with the same w-byte pattern as u. */
  function ToSigned(u: nat, w: nat): int
    requires u < Pow256(w)
  {
    if 2 * u < Pow256(w) then u else u - Pow256(w)
  }

  function ToUnsigned(x: int, w: nat): (u: int)
  {
    if x < 0 then x + Pow256(w) else x
  }
}
