/**
 * Fixed-width unsigned integers of the C program (bytes included), modelled as
 * bounded `int`s,
 * together with the little-endian byte codec that the bitmap file format uses.
 * Arithmetic that the program performs in `uint32_t` is written out with `Wrap32`.
 */
module Ints {

  type u8 = x: int | 0 <= x < 0x100
  type u16 = x: int | 0 <= x < 0x1_0000
  type u32 = x: int | 0 <= x < 0x1_0000_0000
  type u64 = x: int | 0 <= x < 0x1_0000_0000_0000_0000

  const TWO32: int := 0x1_0000_0000

  datatype Option<T> = None | Some(value: T)

  /** Result of an unsigned 32-bit operation: the value modulo 2^32. */
  function Wrap32(x: int): (r: u32)
    ensures 0 <= x < TWO32 ==> r == x
  {
    x % TWO32
  }

  /** 2^k, used for the palette size bound `1 << bpp`. */
  function Pow2(k: nat): (r: nat)
    ensures r >= 1
  {
    if k == 0 then 1 else 2 * Pow2(k - 1)
  }

  /** 2^k is at most 256 for the shift amounts of packed pixel depths. */
  lemma {:induction false} Pow2Bound(k: nat)
    requires k <= 8
    ensures Pow2(k) <= 256
    decreases 8 - k
  {
    if k < 8 {
      Pow2Bound(k + 1);
    } else {
      assert Pow2(8) == 256 by {
        assert Pow2(4) == 16 by { assert Pow2(2) == 4; }
      }
    }
  }

  /** `v >> k` on an unsigned value. */
  function Shr(v: nat, k: nat): nat
  {
    if k == 0 then v else Shr(v / 2, k - 1)
  }

  /** A right shift by `k` leaves nothing exactly when the value is below 2^k. */
  lemma {:induction false} ShrZero(v: nat, k: nat)
    ensures Shr(v, k) == 0 <==> v < Pow2(k)
  {
    if k > 0 {
      ShrZero(v / 2, k - 1);
    }
  }

  /** The unsigned 16-bit value stored little-endian at `s[i..i+2]`. */
  function U16At(s: seq<u8>, i: nat): u16
    requires i + 2 <= |s|
  {
    s[i] as int + 256 * (s[i + 1] as int)
  }

  /** The unsigned 32-bit value stored little-endian at `s[i..i+4]`. */
  function U32At(s: seq<u8>, i: nat): u32
    requires i + 4 <= |s|
  {
    U16At(s, i) + 65536 * U16At(s, i + 2)
  }

  /** Two bytes, low byte first, that `U16At` reads back as `v`. */
  function LE16(v: u16): (r: seq<u8>)
    ensures |r| == 2 && U16At(r, 0) == v
  {
    [v % 256, v / 256]
  }

  /** Four bytes, low half first, that `U32At` reads back as `v`. */
  function LE32(v: u32): (r: seq<u8>)
    ensures |r| == 4 && U32At(r, 0) == v
  {
    LE16(v % 65536) + LE16(v / 65536)
  }

  /** Reading a little-endian 16-bit value after writing it gives back the bytes. */
  lemma LE16OfU16At(s: seq<u8>, i: nat)
    requires i + 2 <= |s|
    ensures LE16(U16At(s, i)) == s[i..i + 2]
  {
    var v := U16At(s, i);
    assert v % 256 == s[i];
    assert v / 256 == s[i + 1];
  }

  lemma LE32OfU32At(s: seq<u8>, i: nat)
    requires i + 4 <= |s|
    ensures LE32(U32At(s, i)) == s[i..i + 4]
  {
    var v := U32At(s, i);
    assert v % 65536 == U16At(s, i);
    assert v / 65536 == U16At(s, i + 2);
    LE16OfU16At(s, i);
    LE16OfU16At(s, i + 2);
    assert s[i..i + 4] == s[i..i + 2] + s[i + 2..i + 4];
  }

  /** Number of `true` entries of a sequence of flags. */
  function Count(b: seq<bool>): (r: nat)
    ensures r <= |b|
  {
    if b == [] then 0 else (if b[0] then 1 else 0) + Count(b[1..])
  }

  lemma {:induction false} CountAppend(a: seq<bool>, b: seq<bool>)
    ensures Count(a + b) == Count(a) + Count(b)
  {
    if a == [] {
      assert a + b == b;
    } else {
      assert (a + b)[1..] == a[1..] + b;
      CountAppend(a[1..], b);
    }
  }
}
