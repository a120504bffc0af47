/**
 * The in-memory bitmap: a header record, a colour table and a pixel array
 * whose rows are padded to whole 32-bit words. Pixels of 1, 4 or 8 bits are
 * packed most significant bits first within a byte; 16-, 24- and 32-bit
 * pixels are stored as little-endian words, the pixel array being viewed
 * as 32-bit words on a little-endian host.
 */
module Bitmaps {
  import opened Ints

  /** A colour table entry, blue first as in the file format. */
  datatype Rgba = Rgba(b: u8, g: u8, r: u8, a: u8)

  const Blank: Rgba := Rgba(0, 0, 0, 0)

  /** The header of a bitmap. */
  datatype BitmapInfo = BitmapInfo(width: u32, height: u32, bitsPerPixel: u16,
                                   wPpm: u32, hPpm: u32, colorsInColorMap: u32)

  const NoInfo: BitmapInfo := BitmapInfo(0, 0, 0, 0, 0, 0)

  // ---------------------------------------------------------------------
  // Creation rules and the row layout
  // ---------------------------------------------------------------------

  /** The supported pixel depths. */
  predicate BppOK(bpp: int) {
    bpp == 1 || bpp == 4 || bpp == 8 || bpp == 16 || bpp == 24 || bpp == 32
  }

  /** Depths whose pixels share a byte and index the colour table. */
  predicate Packed(bpp: int) {
    bpp == 1 || bpp == 4 || bpp == 8
  }

  /** The validation of a header at creation, as written: a supported depth, and a colour table of 1 to `2^bpp` entries for packed depths, none otherwise. */
  predicate Creatable(rbi: BitmapInfo)
    ensures Creatable(rbi) ==> BppOK(rbi.bitsPerPixel) && (rbi.colorsInColorMap == 0 <==> rbi.bitsPerPixel > 8)
  {
    var bpp, colors := rbi.bitsPerPixel, rbi.colorsInColorMap;
    BppOK(bpp) &&
    if bpp <= 8 then colors != 0 && Shr(colors - 1, bpp) == 0 else colors == 0
  }

  /** The creation test accepts exactly the supported depths with a colour table of 1 to `2^bpp` entries for packed depths and none otherwise. */
  lemma CreatableIff(rbi: BitmapInfo)
    ensures Creatable(rbi) <==>
            BppOK(rbi.bitsPerPixel) &&
            (rbi.bitsPerPixel <= 8 ==> 1 <= rbi.colorsInColorMap <= Pow2(rbi.bitsPerPixel)) &&
            (rbi.bitsPerPixel > 8 ==> rbi.colorsInColorMap == 0)
  {
    if rbi.colorsInColorMap != 0 {
      ShrZero(rbi.colorsInColorMap - 1, rbi.bitsPerPixel);
    }
  }

  /** Words per row: the row's bits rounded up to whole 32-bit words. */
  function LineWords(width: nat, bpp: nat): (r: nat)
    ensures 32 * r >= width * bpp && 32 * r < width * bpp + 32
  {
    (width * bpp + 31) / 32
  }
  /** The 32-bit size computations of creation (`width * bpp + 31` and the pixel array's byte size) do not wrap around. */
  predicate SizesFit(rbi: BitmapInfo) {
    rbi.width * rbi.bitsPerPixel + 31 < TWO32 &&
    4 * LineWords(rbi.width, rbi.bitsPerPixel) * rbi.height < TWO32
  }

  /** The byte of its row holding packed pixel `x`: `x / (8 / bpp)`. */
  function ByteIndex(bpp: nat, x: nat): nat
    requires Packed(bpp)
  {
    if bpp == 1 then x / 8 else if bpp == 4 then x / 2 else x
  }

  /**
   * Words `[First, Reach)` of its row that the accesses to pixel `x` touch:
   * the word holding its byte or half-word for packed and 16-bit depths, its
   * own word at 32 bits, and one or two of the three words of its group of
   * four pixels at 24 bits.
   */
  function First(bpp: nat, x: nat): (r: nat)
    requires BppOK(bpp)
  {
    if Packed(bpp) then ByteIndex(bpp, x) / 4
    else if bpp == 16 then x / 2
    else if bpp == 32 then x
    else 3 * (x / 4) + GroupFirst(x % 4)
  }

  /** Words `[GroupFirst, GroupReach)` of its group of three that 24-bit pixel `m` of the group touches. */
  function GroupFirst(m: nat): nat
    requires m < 4
  {
    if m <= 1 then 0 else m - 1
  }

  function GroupReach(m: nat): (r: nat)
    requires m < 4
    ensures GroupFirst(m) < r <= 3
  {
    if m == 0 then 1 else if m == 1 then 2 else 3
  }

  function Reach(bpp: nat, x: nat): (r: nat)
    requires BppOK(bpp)
    ensures r > First(bpp, x)
  {
    if bpp == 24 then 3 * (x / 4) + GroupReach(x % 4)
    else First(bpp, x) + 1
  }

  /** Every pixel of a row lies within the row's padded words. */
  lemma ReachInRow(bpp: nat, width: nat, x: nat)
    requires BppOK(bpp) && x < width
    ensures Reach(bpp, x) <= LineWords(width, bpp)
  {
    var lw := LineWords(width, bpp);
    assert 32 * lw >= width * bpp >= (x + 1) * bpp;
    if Packed(bpp) {
      var i := ByteIndex(bpp, x);
      assert 32 * lw > 8 * i by {
        if bpp == 1 {
          assert x + 1 > 8 * (x / 8);
        } else if bpp == 4 {
          assert 4 * (x + 1) > 8 * (x / 2);
        }
      }
      assert 32 * (i / 4) <= 8 * i;
    } else if bpp == 24 {
      var q, m := x / 4, x % 4;
      assert x == 4 * q + m;
      assert 4 * lw >= 3 * (x + 1);
    }
  }

  /** A row's first word index is a natural number. */
  lemma NatProduct(a: nat, b: nat)
    ensures 0 <= a * b
  {
  }

  /** Distinct rows do not overlap: row `y` ends before row `y'` starts. */
  lemma {:induction false} RowsApart(y: nat, y': nat, rb: nat)
    requires y < y'
    ensures y * rb + rb <= y' * rb
    decreases y' - y
  {
    assert (y + 1) * rb == y * rb + rb;
    if y + 1 < y' {
      RowsApart(y + 1, y', rb);
    }
  }

  /** Every row of a bitmap lies within its pixel array. */
  lemma RowInArray(y: nat, height: nat, rb: nat)
    requires y < height
    ensures y * rb + rb <= rb * height
  {
    RowsApart(y, height, rb);
  }

  // ---------------------------------------------------------------------
  // Packed pixels inside one byte
  // ---------------------------------------------------------------------

  /** The depth of a packed pixel as an 8-bit shift amount. */
  function Depth8(bpp: nat): (r: bv8)
    requires Packed(bpp)
  {
    if bpp == 1 then 1 else if bpp == 4 then 4 else 8
  }

  /** Bit offset, from the most significant bit, of packed pixel `x` in its byte: `(x % (8 / bpp)) * bpp`. */
  function BitShift(bpp: nat, x: nat): (r: bv8)
    requires Packed(bpp)
  {
    if bpp == 8 then 0
    else if bpp == 4 then (if x % 2 == 0 then 0 else 4)
    else var m := x % 8;
      if m == 0 then 0 else if m == 1 then 1 else if m == 2 then 2 else if m == 3 then 3
      else if m == 4 then 4 else if m == 5 then 5 else if m == 6 then 6 else 7
  }

  /** A bit offset a packed pixel of depth `d` can have. */
  predicate Aligned(d: bv8, s: bv8) {
    (d == 1 && s < 8) || (d == 4 && (s == 0 || s == 4)) || (d == 8 && s == 0)
  }

  /** The pixel of depth `d` at bit offset `s` of byte `b`: shifted to the top, then down to the bottom. */
  function GetBits(b: bv8, d: bv8, s: bv8): bv8
    requires Aligned(d, s)
  {
    (b << s) >> (8 - d)
  }

  /** Byte `b` with the pixel of depth `d` at bit offset `s` replaced by the low bits of `c`. */
  function SetBits(b: bv8, d: bv8, s: bv8, c: bv8): bv8
    requires Aligned(d, s)
  {
    var ci := (c << (8 - d)) >> s;
    var mask := (0xff as bv8 << (8 - d)) >> s;
    (b & !mask) | ci
  }

  /** Reading back a packed pixel gives the low `d` bits of what was written. */
  lemma GetSetBits(b: bv8, d: bv8, s: bv8, c: bv8)
    requires Aligned(d, s)
    ensures GetBits(SetBits(b, d, s, c), d, s) == c & ((1 << d) - 1)
  {
    if d == 1 {} else if d == 4 {} else {}
  }

  /** Writing a packed pixel leaves the other pixels of its byte alone. */
  lemma GetOtherBits(b: bv8, d: bv8, s: bv8, t: bv8, c: bv8)
    requires Aligned(d, s) && Aligned(d, t) && s != t
    ensures GetBits(SetBits(b, d, s, c), d, t) == GetBits(b, d, t)
  {
    if d == 1 {} else if d == 4 {} else {}
  }

  /** Two packed pixels of the same byte sit at different bit offsets. */
  lemma BitShiftsDiffer(bpp: nat, x: nat, x': nat)
    requires Packed(bpp) && x != x' && ByteIndex(bpp, x) == ByteIndex(bpp, x')
    ensures BitShift(bpp, x) != BitShift(bpp, x') && Aligned(Depth8(bpp), BitShift(bpp, x))
  {
    if bpp == 1 {
      assert x % 8 != x' % 8 by {
        assert x == 8 * (x / 8) + x % 8 && x' == 8 * (x' / 8) + x' % 8;
      }
    } else if bpp == 4 {
      assert x % 2 != x' % 2 by {
        assert x == 2 * (x / 2) + x % 2 && x' == 2 * (x' / 2) + x' % 2;
      }
    }
  }

  // ---------------------------------------------------------------------
  // Bytes and half-words of a 32-bit word, on a little-endian host
  // ---------------------------------------------------------------------

  /** Shift amounts of the byte and half-word moves, as 32-bit values. */
  const Shift8: bv32 := 8
  const Shift16: bv32 := 16
  const Shift24: bv32 := 24

  /** Bit position of byte `j` of a word. */
  function ByteShift(j: nat): bv32
    requires j < 4
  {
    if j == 0 then 0 else if j == 1 then 8 else if j == 2 then 16 else 24
  }

  /** Byte `j` (the lowest first) of word `w`. */
  function ByteIn(w: bv32, j: nat): bv8
    requires j < 4
  {
    ((w >> ByteShift(j)) & 0xff) as bv8
  }

  /** Word `w` with its byte `j` replaced by `b`. */
  function WithByte(w: bv32, j: nat, b: bv8): bv32
    requires j < 4
  {
    (w & !(0xff << ByteShift(j))) | ((b as bv32) << ByteShift(j))
  }

  /** Replacing a byte of a word changes that byte and no other. */
  lemma ByteInWithByte(w: bv32, j: nat, k: nat, b: bv8)
    requires j < 4 && k < 4
    ensures ByteIn(WithByte(w, j, b), k) == if j == k then b else ByteIn(w, k)
  {
    if j == 0 {
      if k == 0 {} else if k == 1 {} else if k == 2 {} else {}
    } else if j == 1 {
      if k == 0 {} else if k == 1 {} else if k == 2 {} else {}
    } else if j == 2 {
      if k == 0 {} else if k == 1 {} else if k == 2 {} else {}
    } else {
      if k == 0 {} else if k == 1 {} else if k == 2 {} else {}
    }
  }

  /** Bit position of half-word `h` of a word. */
  function HalfShift(h: nat): bv32
    requires h < 2
  {
    if h == 0 then 0 else 16
  }

  /** Half-word `h` (the lower first) of word `w`. */
  function HalfIn(w: bv32, h: nat): bv32
    requires h < 2
  {
    (w >> HalfShift(h)) & 0xffff
  }

  /** Word `w` with its half-word `h` replaced by the low 16 bits of `c`. */
  function WithHalf(w: bv32, h: nat, c: bv32): bv32
    requires h < 2
  {
    (w & !(0xffff << HalfShift(h))) | ((c & 0xffff) << HalfShift(h))
  }

  /** Replacing a half-word changes that half-word and not the other one. */
  lemma HalfInWithHalf(w: bv32, h: nat, k: nat, c: bv32)
    requires h < 2 && k < 2
    ensures HalfIn(WithHalf(w, h, c), k) == if h == k then c & 0xffff else HalfIn(w, k)
  {
    if h == 0 {
      if k == 0 {} else {}
    } else {
      if k == 0 {} else {}
    }
  }

  // ---------------------------------------------------------------------
  // One pixel of a row of the pixel array
  // ---------------------------------------------------------------------

  /** Packed pixel `x` within the word of its row that holds it. */
  function PackedIn(w: bv32, bpp: nat, x: nat): bv32
    requires Packed(bpp)
  {
    var i := ByteIndex(bpp, x);
    GetBits(ByteIn(w, i % 4), Depth8(bpp), BitShift(bpp, x)) as bv32
  }

  /** A packed pixel is a colour index of the depth's width. */
  lemma PackedInFits(w: bv32, bpp: nat, x: nat)
    requires Packed(bpp)
    ensures PackedIn(w, bpp, x) & ValueMask(bpp) == PackedIn(w, bpp, x)
  {
    var b, s := ByteIn(w, ByteIndex(bpp, x) % 4), BitShift(bpp, x);
    var v := GetBits(b, Depth8(bpp), s);
    if bpp == 1 {
      assert v == (b << s) >> 7;
      assert v & 1 == v;
    } else if bpp == 4 {
      assert v == (b << s) >> 4;
      assert v & 0xf == v;
    }
  }

  /** The word holding packed pixel `x` with that pixel set to the low bits of `c`. */
  function PackedStore(w: bv32, bpp: nat, x: nat, c: bv32): bv32
    requires Packed(bpp)
  {
    var i := ByteIndex(bpp, x);
    WithByte(w, i % 4, SetBits(ByteIn(w, i % 4), Depth8(bpp), BitShift(bpp, x), ByteIn(c, 0)))
  }

  /** Bit offsets within a byte are the ones a packed pixel can have. */
  lemma BitShiftAligned(bpp: nat, x: nat)
    requires Packed(bpp)
    ensures Aligned(Depth8(bpp), BitShift(bpp, x))
  {
  }

  /** Reading back a packed pixel just stored gives the colour cut to the depth. */
  lemma PackedInStore(w: bv32, bpp: nat, x: nat, c: bv32)
    requires Packed(bpp)
    ensures PackedIn(PackedStore(w, bpp, x, c), bpp, x) == c & ValueMask(bpp)
  {
    var j := ByteIndex(bpp, x) % 4;
    var d, s := Depth8(bpp), BitShift(bpp, x);
    BitShiftAligned(bpp, x);
    var b := SetBits(ByteIn(w, j), d, s, ByteIn(c, 0));
    ByteInWithByte(w, j, j, b);
    GetSetBits(ByteIn(w, j), d, s, ByteIn(c, 0));
    LowBits(c, bpp);
  }

  /** Storing a packed pixel leaves the other pixels of its word alone. */
  lemma PackedInOther(w: bv32, bpp: nat, x: nat, x': nat, c: bv32)
    requires Packed(bpp) && x != x' && ByteIndex(bpp, x) / 4 == ByteIndex(bpp, x') / 4
    ensures PackedIn(PackedStore(w, bpp, x, c), bpp, x') == PackedIn(w, bpp, x')
  {
    var i, i' := ByteIndex(bpp, x), ByteIndex(bpp, x');
    var d, s, s' := Depth8(bpp), BitShift(bpp, x), BitShift(bpp, x');
    BitShiftAligned(bpp, x);
    BitShiftAligned(bpp, x');
    var b := SetBits(ByteIn(w, i % 4), d, s, ByteIn(c, 0));
    ByteInWithByte(w, i % 4, i' % 4, b);
    if i == i' {
      BitShiftsDiffer(bpp, x, x');
      GetOtherBits(ByteIn(w, i % 4), d, s, s', ByteIn(c, 0));
    } else {
      assert i % 4 != i' % 4 by {
        assert i == 4 * (i / 4) + i % 4 && i' == 4 * (i' / 4) + i' % 4;
      }
    }
  }

  /** Pixel `x` of the row that starts at word `o` lies within the pixel array. */
  predicate InData(bpp: nat, w: seq<bv32>, o: nat, x: nat) {
    BppOK(bpp) && o + Reach(bpp, x) <= |w|
  }

  /** The bits a pixel of depth `bpp` holds: the colour index of a packed pixel, the colour itself otherwise. */
  function ValueMask(bpp: nat): bv32
    requires BppOK(bpp)
  {
    if bpp == 1 then 0x1 else if bpp == 4 then 0xf else if bpp == 8 then 0xff
    else if bpp == 16 then 0xffff else if bpp == 24 then 0xff_ffff else 0xffff_ffff
  }

  /**
   * Pixel `x` of the row starting at word `o`: its bits in their byte for
   * packed depths, its half-word, its word, or its three bytes of the group
   * of three words that holds four 24-bit pixels.
   */
  function PixelIn(bpp: nat, w: seq<bv32>, o: nat, x: nat): (r: bv32)
    requires InData(bpp, w, o, x)
    ensures r & ValueMask(bpp) == r
  {
    if Packed(bpp) then
      PackedInFits(w[o + First(bpp, x)], bpp, x);
      PackedIn(w[o + First(bpp, x)], bpp, x)
    else if bpp == 32 then w[o + x]
    else if bpp == 16 then HalfIn(w[o + x / 2], x % 2)
    else Read24(w, o + 3 * (x / 4), x % 4)
  }

  /** Pixel `m` of the group of three words at `q` holding four 24-bit pixels. */
  function Read24(w: seq<bv32>, q: nat, m: nat): (r: bv32)
    requires m < 4 && q + GroupReach(m) <= |w|
    ensures r & 0xff_ffff == r
  {
    if m == 0 then w[q] & 0xff_ffff
    else if m == 1 then (w[q] >> Shift24) | ((w[q + 1] & 0xffff) << Shift8)
    else if m == 2 then (w[q + 1] >> Shift16) | ((w[q + 2] & 0xff) << Shift16)
    else w[q + 2] >> Shift8
  }

  /** The 24-bit read as the source writes it, the three other residues shifting the wrong way. */
  function PixelIn24AsWritten(w: seq<bv32>, o: nat, x: nat): (r: bv32)
    requires InData(24, w, o, x)
    ensures x % 4 == 0 ==> r == PixelIn(24, w, o, x)
  {
    var q := o + 3 * (x / 4);
    if x % 4 == 0 then w[q] & 0xff_ffff
    else if x % 4 == 1 then (w[q] << Shift24) | ((w[q + 1] & 0xffff) >> Shift8)
    else if x % 4 == 2 then (w[q + 1] << Shift16) | ((w[q + 2] & 0xff) >> Shift16)
    else w[q + 2] << Shift8
  }

  /** The row starting at word `o` with pixel `x` set to `c`; only the words the pixel touches change. */
  function StoreIn(bpp: nat, w: seq<bv32>, o: nat, x: nat, c: bv32): (r: seq<bv32>)
    requires InData(bpp, w, o, x)
    ensures |r| == |w|
    ensures forall i :: 0 <= i < |w| && !(o + First(bpp, x) <= i < o + Reach(bpp, x)) ==> r[i] == w[i]
  {
    if Packed(bpp) then w[o + First(bpp, x) := PackedStore(w[o + First(bpp, x)], bpp, x, c)]
    else if bpp == 32 then w[o + x := c]
    else if bpp == 16 then w[o + x / 2 := WithHalf(w[o + x / 2], x % 2, c)]
    else Store24(w, o + 3 * (x / 4), x % 4, c)
  }

  /** The group of three words at `q` with its pixel `m` set to `c`, merging the colour's bytes into one or two words. */
  function Store24(w: seq<bv32>, q: nat, m: nat, c: bv32): (r: seq<bv32>)
    requires m < 4 && q + GroupReach(m) <= |w|
    ensures |r| == |w|
    ensures forall i :: 0 <= i < |w| && !(q + GroupFirst(m) <= i < q + GroupReach(m)) ==> r[i] == w[i]
  {
    if m == 0 then w[q := Merge(w[q], 0xff00_0000, c & 0x00ff_ffff)]
    else if m == 1 then
      w[q := Merge(w[q], 0x00ff_ffff, c << Shift24)][q + 1 := Merge(w[q + 1], 0xffff_0000, (c >> Shift8) & 0x0000_ffff)]
    else if m == 2 then
      w[q + 1 := Merge(w[q + 1], 0x0000_ffff, c << Shift16)][q + 2 := Merge(w[q + 2], 0xffff_ff00, (c >> Shift16) & 0x0000_00ff)]
    else w[q + 2 := Merge(w[q + 2], 0x0000_00ff, c << Shift8)]
  }

  /** Word `w` with the bits outside `keep` cleared, then the bits of `v` set. */
  function Merge(w: bv32, keep: bv32, v: bv32): bv32 {
    (w & keep) | v
  }

  /** A pixel read only looks at the words the pixel touches. */
  lemma ReadLocal(bpp: nat, w: seq<bv32>, w': seq<bv32>, o: nat, x: nat)
    requires InData(bpp, w, o, x) && InData(bpp, w', o, x)
    requires forall i :: o + First(bpp, x) <= i < o + Reach(bpp, x) ==> w[i] == w'[i]
    ensures PixelIn(bpp, w, o, x) == PixelIn(bpp, w', o, x)
  {
    if bpp == 24 {
      ReadLocal24(bpp, w, w', o, x);
    } else {
      ReadLocalWord(bpp, w, w', o, x);
    }
  }

  lemma ReadLocalWord(bpp: nat, w: seq<bv32>, w': seq<bv32>, o: nat, x: nat)
    requires InData(bpp, w, o, x) && InData(bpp, w', o, x) && bpp != 24
    requires w[o + First(bpp, x)] == w'[o + First(bpp, x)]
    ensures PixelIn(bpp, w, o, x) == PixelIn(bpp, w', o, x)
  {
  }

  lemma ReadLocal24(bpp: nat, w: seq<bv32>, w': seq<bv32>, o: nat, x: nat)
    requires InData(bpp, w, o, x) && InData(bpp, w', o, x) && bpp == 24
    requires forall i :: o + First(bpp, x) <= i < o + Reach(bpp, x) ==> w[i] == w'[i]
    ensures PixelIn(bpp, w, o, x) == PixelIn(bpp, w', o, x)
  {
    var q := o + 3 * (x / 4);
    if x % 4 == 1 {
      assert w[q] == w'[q] && w[q + 1] == w'[q + 1];
    } else if x % 4 == 2 {
      assert w[q + 1] == w'[q + 1] && w[q + 2] == w'[q + 2];
    } else if x % 4 == 3 {
      assert w[q + 2] == w'[q + 2];
    } else {
      assert w[q] == w'[q];
    }
  }

  /** The low byte of a colour, cut to the depth of a packed pixel, is the colour cut to that depth. */
  lemma LowBits(c: bv32, bpp: nat)
    requires Packed(bpp)
    ensures (ByteIn(c, 0) & ((1 << Depth8(bpp)) - 1)) as bv32 == c & ValueMask(bpp)
  {
    if bpp == 1 {} else if bpp == 4 {} else {}
  }

  /** Setting a pixel and reading it back gives the colour cut to the pixel's depth. */
  lemma GetSetPixel(bpp: nat, w: seq<bv32>, o: nat, x: nat, c: bv32)
    requires InData(bpp, w, o, x)
    ensures PixelIn(bpp, StoreIn(bpp, w, o, x, c), o, x) == c & ValueMask(bpp)
  {
    if bpp == 16 {
      GetSet16(bpp, w, o, x, c);
    } else if bpp == 24 {
      GetSet24(bpp, w, o, x, c);
    } else if bpp == 32 {
    } else {
      GetSetPacked(bpp, w, o, x, c);
    }
  }

  lemma GetSetPacked(bpp: nat, w: seq<bv32>, o: nat, x: nat, c: bv32)
    requires InData(bpp, w, o, x) && Packed(bpp)
    ensures PixelIn(bpp, StoreIn(bpp, w, o, x, c), o, x) == c & ValueMask(bpp)
  {
    PackedInStore(w[o + First(bpp, x)], bpp, x, c);
  }

  lemma GetSet16(bpp: nat, w: seq<bv32>, o: nat, x: nat, c: bv32)
    requires InData(bpp, w, o, x) && bpp == 16
    ensures PixelIn(bpp, StoreIn(bpp, w, o, x, c), o, x) == c & ValueMask(bpp)
  {
    HalfInWithHalf(w[o + x / 2], x % 2, x % 2, c);
  }

  lemma GetSet24(bpp: nat, w: seq<bv32>, o: nat, x: nat, c: bv32)
    requires InData(bpp, w, o, x) && bpp == 24
    ensures PixelIn(bpp, StoreIn(bpp, w, o, x, c), o, x) == c & ValueMask(bpp)
  {
    var q, m := o + 3 * (x / 4), x % 4;
    var w' := StoreIn(bpp, w, o, x, c);
    assert w' == Store24(w, q, m, c);
    assert PixelIn(bpp, w', o, x) == Read24(w', q, m);
    Get24Set24(w, q, m, c);
  }

  lemma Get24Set24(w: seq<bv32>, q: nat, m: nat, c: bv32)
    requires m < 4 && q + GroupReach(m) <= |w|
    ensures Read24(Store24(w, q, m, c), q, m) == c & 0xff_ffff
  {
    if m == 0 {
      Get24Set24At0(w, q, c);
    } else if m == 1 {
      Get24Set24At1(w, q, c);
    } else if m == 2 {
      Get24Set24At2(w, q, c);
    } else {
      Get24Set24At3(w, q, c);
    }
  }

  lemma Get24Set24At0(w: seq<bv32>, q: nat, c: bv32)
    requires q + 1 <= |w|
    ensures Read24(Store24(w, q, 0, c), q, 0) == c & 0xff_ffff
  {
    var w' := Store24(w, q, 0, c);
    StoredWords24(w, q, 0, c);
    Merged24At0(w'[q], w[q], c);
  }

  lemma Get24Set24At1(w: seq<bv32>, q: nat, c: bv32)
    requires q + 2 <= |w|
    ensures Read24(Store24(w, q, 1, c), q, 1) == c & 0xff_ffff
  {
    var w' := Store24(w, q, 1, c);
    StoredWords24(w, q, 1, c);
    Merged24At1(w'[q], w'[q + 1], w[q], w[q + 1], c);
  }

  lemma Get24Set24At2(w: seq<bv32>, q: nat, c: bv32)
    requires q + 3 <= |w|
    ensures Read24(Store24(w, q, 2, c), q, 2) == c & 0xff_ffff
  {
    var w' := Store24(w, q, 2, c);
    StoredWords24(w, q, 2, c);
    Merged24At2(w'[q + 1], w'[q + 2], w[q + 1], w[q + 2], c);
  }

  lemma Get24Set24At3(w: seq<bv32>, q: nat, c: bv32)
    requires q + 3 <= |w|
    ensures Read24(Store24(w, q, 3, c), q, 3) == c & 0xff_ffff
  {
    var w' := Store24(w, q, 3, c);
    StoredWords24(w, q, 3, c);
    Merged24At3(w'[q + 2], w[q + 2], c);
  }

  /** The words of its group that a 24-bit store merges the colour into. */
  lemma StoredWords24(w: seq<bv32>, q: nat, m: nat, c: bv32)
    requires m < 4 && q + GroupReach(m) <= |w|
    ensures var w' := Store24(w, q, m, c);
            (m == 0 ==> w'[q] == Merge(w[q], 0xff00_0000, c & 0x00ff_ffff)) &&
            (m == 1 ==> w'[q] == Merge(w[q], 0x00ff_ffff, c << Shift24) &&
                        w'[q + 1] == Merge(w[q + 1], 0xffff_0000, (c >> Shift8) & 0x0000_ffff)) &&
            (m == 2 ==> w'[q + 1] == Merge(w[q + 1], 0x0000_ffff, c << Shift16) &&
                        w'[q + 2] == Merge(w[q + 2], 0xffff_ff00, (c >> Shift16) & 0x0000_00ff)) &&
            (m == 3 ==> w'[q + 2] == Merge(w[q + 2], 0x0000_00ff, c << Shift8))
  {
  }

  /** The words a 24-bit store merges give back the colour's low three bytes, for each of the four residues. */
  lemma Merged24At0(a': bv32, a: bv32, c: bv32)
    requires a' == Merge(a, 0xff00_0000, c & 0x00ff_ffff)
    ensures a' & 0xff_ffff == c & 0xff_ffff
  {
  }

  lemma Merged24At1(a': bv32, b': bv32, a: bv32, b: bv32, c: bv32)
    requires a' == Merge(a, 0x00ff_ffff, c << Shift24)
    requires b' == Merge(b, 0xffff_0000, (c >> Shift8) & 0x0000_ffff)
    ensures (a' >> Shift24) | ((b' & 0xffff) << Shift8) == c & 0xff_ffff
  {
  }

  lemma Merged24At2(b': bv32, d': bv32, b: bv32, d: bv32, c: bv32)
    requires b' == Merge(b, 0x0000_ffff, c << Shift16)
    requires d' == Merge(d, 0xffff_ff00, (c >> Shift16) & 0x0000_00ff)
    ensures (b' >> Shift16) | ((d' & 0xff) << Shift16) == c & 0xff_ffff
  {
  }

  lemma Merged24At3(d': bv32, d: bv32, c: bv32)
    requires d' == Merge(d, 0x0000_00ff, c << Shift8)
    ensures d' >> Shift8 == c & 0xff_ffff
  {
  }

  /** Setting one pixel leaves every other pixel of its row as it was. */
  lemma GetSetOther(bpp: nat, w: seq<bv32>, o: nat, x: nat, x': nat, c: bv32)
    requires InData(bpp, w, o, x) && InData(bpp, w, o, x') && x != x'
    ensures PixelIn(bpp, StoreIn(bpp, w, o, x, c), o, x') == PixelIn(bpp, w, o, x')
  {
    if bpp == 16 {
      GetSetOther16(bpp, w, o, x, x', c);
    } else if bpp == 24 {
      GetSetOther24(bpp, w, o, x, x', c);
    } else if bpp == 32 {
      ReadApart(bpp, w, o, x, x', c);
    } else {
      GetSetOtherPacked(bpp, w, o, x, x', c);
    }
  }

  /** A pixel whose words the store does not touch reads the same after it. */
  lemma ReadApart(bpp: nat, w: seq<bv32>, o: nat, x: nat, x': nat, c: bv32)
    requires InData(bpp, w, o, x) && InData(bpp, w, o, x')
    requires Reach(bpp, x) <= First(bpp, x') || Reach(bpp, x') <= First(bpp, x)
    ensures PixelIn(bpp, StoreIn(bpp, w, o, x, c), o, x') == PixelIn(bpp, w, o, x')
  {
    ReadLocal(bpp, w, StoreIn(bpp, w, o, x, c), o, x');
  }

  lemma GetSetOtherPacked(bpp: nat, w: seq<bv32>, o: nat, x: nat, x': nat, c: bv32)
    requires InData(bpp, w, o, x) && InData(bpp, w, o, x') && x != x' && Packed(bpp)
    ensures PixelIn(bpp, StoreIn(bpp, w, o, x, c), o, x') == PixelIn(bpp, w, o, x')
  {
    if First(bpp, x) == First(bpp, x') {
      SameWordPacked(bpp, w, o, x, x', c);
    } else {
      ReadApart(bpp, w, o, x, x', c);
    }
  }

  lemma SameWordPacked(bpp: nat, w: seq<bv32>, o: nat, x: nat, x': nat, c: bv32)
    requires InData(bpp, w, o, x) && InData(bpp, w, o, x') && x != x' && Packed(bpp)
    requires First(bpp, x) == First(bpp, x')
    ensures PixelIn(bpp, StoreIn(bpp, w, o, x, c), o, x') == PixelIn(bpp, w, o, x')
  {
    var p := o + First(bpp, x);
    var w' := StoreIn(bpp, w, o, x, c);
    assert w'[p] == PackedStore(w[p], bpp, x, c);
    assert PixelIn(bpp, w', o, x') == PackedIn(w'[p], bpp, x');
    PackedInOther(w[p], bpp, x, x', c);
  }

  lemma GetSetOther16(bpp: nat, w: seq<bv32>, o: nat, x: nat, x': nat, c: bv32)
    requires InData(bpp, w, o, x) && InData(bpp, w, o, x') && x != x' && bpp == 16
    ensures PixelIn(bpp, StoreIn(bpp, w, o, x, c), o, x') == PixelIn(bpp, w, o, x')
  {
    if x / 2 == x' / 2 {
      assert x % 2 != x' % 2;
      HalfInWithHalf(w[o + x / 2], x % 2, x' % 2, c);
    } else {
      ReadApart(bpp, w, o, x, x', c);
    }
  }

  lemma GetSetOther24(bpp: nat, w: seq<bv32>, o: nat, x: nat, x': nat, c: bv32)
    requires InData(bpp, w, o, x) && InData(bpp, w, o, x') && x != x' && bpp == 24
    ensures PixelIn(bpp, StoreIn(bpp, w, o, x, c), o, x') == PixelIn(bpp, w, o, x')
  {
    if x / 4 == x' / 4 {
      SameGroup24(bpp, w, o, x, x', c);
    } else {
      assert Reach(bpp, x) <= First(bpp, x') || Reach(bpp, x') <= First(bpp, x);
      ReadApart(bpp, w, o, x, x', c);
    }
  }

  lemma SameGroup24(bpp: nat, w: seq<bv32>, o: nat, x: nat, x': nat, c: bv32)
    requires InData(bpp, w, o, x) && InData(bpp, w, o, x') && x != x' && bpp == 24 && x / 4 == x' / 4
    ensures PixelIn(bpp, StoreIn(bpp, w, o, x, c), o, x') == PixelIn(bpp, w, o, x')
  {
    var q := o + 3 * (x / 4);
    var w' := StoreIn(bpp, w, o, x, c);
    assert x % 4 != x' % 4;
    assert w' == Store24(w, q, x % 4, c);
    assert PixelIn(bpp, w', o, x') == Read24(w', q, x' % 4);
    Read24Other(w, q, x % 4, x' % 4, c);
  }

  /** Within a group of four 24-bit pixels, storing one leaves the other three alone. */
  lemma Read24Other(w: seq<bv32>, q: nat, m: nat, m': nat, c: bv32)
    requires m < 4 && m' < 4 && m != m' && q + GroupReach(m) <= |w| && q + GroupReach(m') <= |w|
    ensures Read24(Store24(w, q, m, c), q, m') == Read24(w, q, m')
  {
    if GroupReach(m) <= GroupFirst(m') || GroupReach(m') <= GroupFirst(m) {
      Read24Local(w, Store24(w, q, m, c), q, m');
    } else if m == 0 {
      Read24Of0At1(w, q, c);
    } else if m == 1 && m' == 0 {
      Read24Of1At0(w, q, c);
    } else if m == 1 {
      Read24Of1At2(w, q, c);
    } else if m == 2 && m' == 1 {
      Read24Of2At1(w, q, c);
    } else if m == 2 {
      Read24Of2At3(w, q, c);
    } else {
      Read24Of3At2(w, q, c);
    }
  }

  /** A 24-bit read only looks at the words of its group that the pixel touches. */
  lemma Read24Local(w: seq<bv32>, w': seq<bv32>, q: nat, m: nat)
    requires m < 4 && q + GroupReach(m) <= |w| && q + GroupReach(m) <= |w'|
    requires forall i :: q + GroupFirst(m) <= i < q + GroupReach(m) ==> w[i] == w'[i]
    ensures Read24(w, q, m) == Read24(w', q, m)
  {
    if m == 1 {
      assert w[q] == w'[q] && w[q + 1] == w'[q + 1];
    } else if m == 2 {
      assert w[q + 1] == w'[q + 1] && w[q + 2] == w'[q + 2];
    } else if m == 3 {
      assert w[q + 2] == w'[q + 2];
    } else {
      assert w[q] == w'[q];
    }
  }

  lemma Read24Of0At1(w: seq<bv32>, q: nat, c: bv32)
    requires q + 2 <= |w|
    ensures Read24(Store24(w, q, 0, c), q, 1) == Read24(w, q, 1)
  {
    var w' := Store24(w, q, 0, c);
    StoredWords24(w, q, 0, c);
    KeepTop8(w'[q], w[q], c & 0x00ff_ffff);
  }

  lemma Read24Of1At0(w: seq<bv32>, q: nat, c: bv32)
    requires q + 2 <= |w|
    ensures Read24(Store24(w, q, 1, c), q, 0) == Read24(w, q, 0)
  {
    var w' := Store24(w, q, 1, c);
    StoredWords24(w, q, 1, c);
    KeepLow24(w'[q], w[q], c << Shift24);
  }

  lemma Read24Of1At2(w: seq<bv32>, q: nat, c: bv32)
    requires q + 3 <= |w|
    ensures Read24(Store24(w, q, 1, c), q, 2) == Read24(w, q, 2)
  {
    var w' := Store24(w, q, 1, c);
    StoredWords24(w, q, 1, c);
    KeepTop16(w'[q + 1], w[q + 1], (c >> Shift8) & 0x0000_ffff);
  }

  lemma Read24Of2At1(w: seq<bv32>, q: nat, c: bv32)
    requires q + 3 <= |w|
    ensures Read24(Store24(w, q, 2, c), q, 1) == Read24(w, q, 1)
  {
    var w' := Store24(w, q, 2, c);
    StoredWords24(w, q, 2, c);
    KeepLow16(w'[q + 1], w[q + 1], c << Shift16);
  }

  lemma Read24Of2At3(w: seq<bv32>, q: nat, c: bv32)
    requires q + 3 <= |w|
    ensures Read24(Store24(w, q, 2, c), q, 3) == Read24(w, q, 3)
  {
    var w' := Store24(w, q, 2, c);
    StoredWords24(w, q, 2, c);
    KeepTop24(w'[q + 2], w[q + 2], (c >> Shift16) & 0x0000_00ff);
  }

  lemma Read24Of3At2(w: seq<bv32>, q: nat, c: bv32)
    requires q + 3 <= |w|
    ensures Read24(Store24(w, q, 3, c), q, 2) == Read24(w, q, 2)
  {
    var w' := Store24(w, q, 3, c);
    StoredWords24(w, q, 3, c);
    KeepLow8(w'[q + 2], w[q + 2], c << Shift8);
  }

  /** Merging into the bits a mask keeps clear leaves the kept bits as they were. */
  lemma KeepTop8(a': bv32, a: bv32, v: bv32)
    requires v & 0xff00_0000 == 0 && a' == Merge(a, 0xff00_0000, v)
    ensures a' >> Shift24 == a >> Shift24
  {
  }

  lemma KeepLow24(a': bv32, a: bv32, v: bv32)
    requires v & 0x00ff_ffff == 0 && a' == Merge(a, 0x00ff_ffff, v)
    ensures a' & 0xff_ffff == a & 0xff_ffff
  {
  }

  lemma KeepTop16(b': bv32, b: bv32, v: bv32)
    requires v & 0xffff_0000 == 0 && b' == Merge(b, 0xffff_0000, v)
    ensures b' >> Shift16 == b >> Shift16
  {
  }

  lemma KeepLow16(b': bv32, b: bv32, v: bv32)
    requires v & 0x0000_ffff == 0 && b' == Merge(b, 0x0000_ffff, v)
    ensures b' & 0xffff == b & 0xffff
  {
  }

  lemma KeepTop24(d': bv32, d: bv32, v: bv32)
    requires v & 0xffff_ff00 == 0 && d' == Merge(d, 0xffff_ff00, v)
    ensures d' >> Shift8 == d >> Shift8
  {
  }

  lemma KeepLow8(d': bv32, d: bv32, v: bv32)
    requires v & 0x0000_00ff == 0 && d' == Merge(d, 0x0000_00ff, v)
    ensures d' & 0xff == d & 0xff
  {
  }

  /** The 24-bit read as written does not give back the colour just set at an odd pixel. */
  lemma Get24AsWrittenLoses()
    ensures var w := StoreIn(24, [0, 0, 0], 0, 1, 0x12_3456);
            PixelIn24AsWritten(w, 0, 1) == 0x12 != 0x12_3456
  {
    var w := StoreIn(24, [0, 0, 0], 0, 1, 0x12_3456);
    assert w[0] == 0x5600_0000 && w[1] == 0x1234;
  }

  /** The 24-bit read as written does invert the set at the first pixel of each group of four. */
  lemma Get24AsWrittenAtGroupStart(w: seq<bv32>, o: nat, x: nat, c: bv32)
    requires InData(24, w, o, x) && x % 4 == 0
    ensures PixelIn24AsWritten(StoreIn(24, w, o, x, c), o, x) == c & 0xff_ffff
  {
    GetSet24(24, w, o, x, c);
  }

  /** Under the 24-bit read as written, setting pixel 0 changes what pixel 1 reads. */
  lemma Set24AsWrittenMovesNeighbour()
    ensures var w := StoreIn(24, [0, 0, 0], 0, 0, 0x12_3456);
            PixelIn24AsWritten([0, 0, 0], 0, 1) == 0 && PixelIn24AsWritten(w, 0, 1) == 0x5600_0000
  {
    var w := StoreIn(24, [0, 0, 0], 0, 0, 0x12_3456);
    assert w[0] == 0x12_3456 && w[1] == 0;
  }

  // ---------------------------------------------------------------------
  // Pixels of the whole pixel array
  // ---------------------------------------------------------------------

  /** A pixel array of `height` rows of `LineWords(width, bpp)` words. */
  predicate Shaped(bpp: nat, width: nat, height: nat, w: seq<bv32>) {
    BppOK(bpp) && |w| == LineWords(width, bpp) * height
  }

  /** Pixel (x, y) of a pixel array lies within its own row. */
  lemma PixelInArray(bpp: nat, width: nat, height: nat, w: seq<bv32>, x: nat, y: nat)
    requires Shaped(bpp, width, height, w) && x < width && y < height
    ensures InData(bpp, w, y * LineWords(width, bpp), x)
    ensures Reach(bpp, x) <= LineWords(width, bpp)
  {
    var lw := LineWords(width, bpp);
    ReachInRow(bpp, width, x);
    RowInArray(y, height, lw);
  }

  /** Pixel (x, y) of a pixel array. */
  function PixelAt(bpp: nat, width: nat, height: nat, w: seq<bv32>, x: nat, y: nat): bv32
    requires Shaped(bpp, width, height, w) && x < width && y < height
  {
    PixelInArray(bpp, width, height, w, x, y);
    PixelIn(bpp, w, y * LineWords(width, bpp), x)
  }

  /** A pixel array with pixel (x, y) set to `c`. */
  function StoreAt(bpp: nat, width: nat, height: nat, w: seq<bv32>, x: nat, y: nat, c: bv32): (r: seq<bv32>)
    requires Shaped(bpp, width, height, w) && x < width && y < height
    ensures Shaped(bpp, width, height, r)
  {
    PixelInArray(bpp, width, height, w, x, y);
    StoreIn(bpp, w, y * LineWords(width, bpp), x, c)
  }

  /**
   * Setting pixel (x, y) to `c` and then reading pixel (x', y') gives `c` cut
   * to the depth when they are the same pixel, and what was there before
   * otherwise.
   */
  lemma SetThenGet(bpp: nat, width: nat, height: nat, w: seq<bv32>, x: nat, y: nat, c: bv32, x': nat, y': nat)
    requires Shaped(bpp, width, height, w)
    requires x < width && y < height && x' < width && y' < height
    ensures PixelAt(bpp, width, height, StoreAt(bpp, width, height, w, x, y, c), x', y') ==
            if x == x' && y == y' then c & ValueMask(bpp) else PixelAt(bpp, width, height, w, x', y')
  {
    var lw := LineWords(width, bpp);
    NatProduct(y, lw);
    NatProduct(y', lw);
    var o: nat, o': nat := y * lw, y' * lw;
    PixelInArray(bpp, width, height, w, x, y);
    PixelInArray(bpp, width, height, w, x', y');
    var w' := StoreIn(bpp, w, o, x, c);
    assert StoreAt(bpp, width, height, w, x, y, c) == w';
    assert PixelAt(bpp, width, height, w', x', y') == PixelIn(bpp, w', o', x');
    assert PixelAt(bpp, width, height, w, x', y') == PixelIn(bpp, w, o', x');
    if y == y' {
      SetThenGetInRow(bpp, w, o, x, x', c);
    } else {
      SetThenGetOtherRow(bpp, width, height, w, x, y, c, x', y');
    }
  }

  lemma SetThenGetInRow(bpp: nat, w: seq<bv32>, o: nat, x: nat, x': nat, c: bv32)
    requires InData(bpp, w, o, x) && InData(bpp, w, o, x')
    ensures InData(bpp, StoreIn(bpp, w, o, x, c), o, x')
    ensures PixelIn(bpp, StoreIn(bpp, w, o, x, c), o, x') ==
            if x == x' then c & ValueMask(bpp) else PixelIn(bpp, w, o, x')
  {
    if x == x' {
      GetSetPixel(bpp, w, o, x, c);
    } else {
      GetSetOther(bpp, w, o, x, x', c);
    }
  }

  lemma SetThenGetOtherRow(bpp: nat, width: nat, height: nat, w: seq<bv32>, x: nat, y: nat, c: bv32, x': nat, y': nat)
    requires Shaped(bpp, width, height, w)
    requires x < width && y < height && x' < width && y' < height && y != y'
    ensures InData(bpp, w, y * LineWords(width, bpp), x) && InData(bpp, w, y' * LineWords(width, bpp), x')
    ensures var lw := LineWords(width, bpp);
            PixelIn(bpp, StoreIn(bpp, w, y * lw, x, c), y' * lw, x') == PixelIn(bpp, w, y' * lw, x')
  {
    var lw := LineWords(width, bpp);
    NatProduct(y, lw);
    NatProduct(y', lw);
    var o: nat, o': nat := y * lw, y' * lw;
    PixelInArray(bpp, width, height, w, x, y);
    PixelInArray(bpp, width, height, w, x', y');
    var w' := StoreIn(bpp, w, o, x, c);
    if y < y' {
      RowsApart(y, y', lw);
    } else {
      RowsApart(y', y, lw);
    }
    ReadLocal(bpp, w, w', o', x');
  }

  // ---------------------------------------------------------------------
  // The pixel array as the bytes of a caller's buffer
  // ---------------------------------------------------------------------

  /** The word whose bytes, lowest first, are `b0` to `b3`. */
  function WordOfBytes(b0: bv8, b1: bv8, b2: bv8, b3: bv8): bv32 {
    (b0 as bv32) | ((b1 as bv32) << Shift8) | ((b2 as bv32) << Shift16) | ((b3 as bv32) << Shift24)
  }

  /** The word stored at byte `p` of a buffer, on a little-endian host. */
  function WordAt(b: seq<bv8>, p: nat): bv32
    requires p + 4 <= |b|
  {
    WordOfBytes(b[p], b[p + 1], b[p + 2], b[p + 3])
  }

  /** A buffer of whole words copied into a word array. */
  function WordsOf(b: seq<bv8>): (r: seq<bv32>)
    requires |b| % 4 == 0
    ensures |r| == |b| / 4
  {
    seq(|b| / 4, i requires 0 <= i < |b| / 4 => WordAt(b, 4 * i))
  }

  /** A word array copied out as bytes, lowest byte of each word first. */
  function BytesOf(w: seq<bv32>): (r: seq<bv8>)
    ensures |r| == 4 * |w|
  {
    seq(4 * |w|, i requires 0 <= i < 4 * |w| => ByteIn(w[i / 4], i % 4))
  }

  lemma ByteOfWord0(b0: bv8, b1: bv8, b2: bv8, b3: bv8)
    ensures ByteIn(WordOfBytes(b0, b1, b2, b3), 0) == b0
  {
  }

  lemma ByteOfWord1(b0: bv8, b1: bv8, b2: bv8, b3: bv8)
    ensures ByteIn(WordOfBytes(b0, b1, b2, b3), 1) == b1
  {
  }

  lemma ByteOfWord2(b0: bv8, b1: bv8, b2: bv8, b3: bv8)
    ensures ByteIn(WordOfBytes(b0, b1, b2, b3), 2) == b2
  {
  }

  lemma ByteOfWord3(b0: bv8, b1: bv8, b2: bv8, b3: bv8)
    ensures ByteIn(WordOfBytes(b0, b1, b2, b3), 3) == b3
  {
  }

  /** A word is rebuilt from its four bytes. */
  lemma WordOfItsBytes(w: bv32)
    ensures WordOfBytes(ByteIn(w, 0), ByteIn(w, 1), ByteIn(w, 2), ByteIn(w, 3)) == w
  {
  }

  lemma WordOfTheseBytes(w: bv32, b0: bv8, b1: bv8, b2: bv8, b3: bv8)
    requires b0 == ByteIn(w, 0) && b1 == ByteIn(w, 1) && b2 == ByteIn(w, 2) && b3 == ByteIn(w, 3)
    ensures WordOfBytes(b0, b1, b2, b3) == w
  {
    WordOfItsBytes(w);
  }

  /** Copying bytes into words and back out gives the same bytes. */
  lemma BytesOfWordsOf(b: seq<bv8>)
    requires |b| % 4 == 0
    ensures BytesOf(WordsOf(b)) == b
  {
    var w := WordsOf(b);
    forall i | 0 <= i < |b|
      ensures BytesOf(w)[i] == b[i]
    {
      var k, j := i / 4, i % 4;
      assert i == 4 * k + j;
      var b0, b1, b2, b3 := b[4 * k], b[4 * k + 1], b[4 * k + 2], b[4 * k + 3];
      assert w[k] == WordOfBytes(b0, b1, b2, b3);
      if j == 0 {
        ByteOfWord0(b0, b1, b2, b3);
      } else if j == 1 {
        ByteOfWord1(b0, b1, b2, b3);
      } else if j == 2 {
        ByteOfWord2(b0, b1, b2, b3);
      } else {
        ByteOfWord3(b0, b1, b2, b3);
      }
    }
  }

  lemma WordsOfBytesOfAt(w: seq<bv32>, k: nat)
    requires k < |w|
    ensures WordsOf(BytesOf(w))[k] == w[k]
  {
    var b := BytesOf(w);
    var b0, b1, b2, b3 := b[4 * k], b[4 * k + 1], b[4 * k + 2], b[4 * k + 3];
    assert (4 * k) / 4 == k && (4 * k) % 4 == 0 && (4 * k + 1) / 4 == k && (4 * k + 1) % 4 == 1;
    assert (4 * k + 2) / 4 == k && (4 * k + 2) % 4 == 2 && (4 * k + 3) / 4 == k && (4 * k + 3) % 4 == 3;
    assert WordsOf(b)[k] == WordOfBytes(b0, b1, b2, b3);
    WordOfTheseBytes(w[k], b0, b1, b2, b3);
  }

  /** Copying words out as bytes and back in gives the same words. */
  lemma WordsOfBytesOf(w: seq<bv32>)
    ensures WordsOf(BytesOf(w)) == w
  {
    forall k | 0 <= k < |w|
      ensures WordsOf(BytesOf(w))[k] == w[k]
    {
      WordsOfBytesOfAt(w, k);
    }
  }

  // ---------------------------------------------------------------------
  // The bitmap object and its operations
  // ---------------------------------------------------------------------

  /**
   * A bitmap in memory: its header, its colour table and its pixel array of
   * `height` rows of `lineWords` words. A missing bitmap is `null`.
   */
  class RawBitmap {
    const info: BitmapInfo
    const lineWords: nat
    const colorMap: array<Rgba>
    const pixels: array<bv32>

    /** The header passed the creation test, the rows are padded to whole words and the two tables have their sizes. */
    predicate Valid() {
      Creatable(info) && SizesFit(info) &&
      lineWords == LineWords(info.width, info.bitsPerPixel) &&
      colorMap.Length == info.colorsInColorMap &&
      pixels.Length == lineWords * info.height
    }

    /** A bitmap for a header that passed the creation test, every colour and pixel zero. */
    constructor (rbi: BitmapInfo)
      requires Creatable(rbi) && SizesFit(rbi)
      ensures Valid() && info == rbi
      ensures colorMap[..] == seq(rbi.colorsInColorMap, _ => Blank)
      ensures pixels[..] == seq(LineWords(rbi.width, rbi.bitsPerPixel) * rbi.height, _ => 0)
      ensures fresh(colorMap) && fresh(pixels)
    {
      var lw := LineWords(rbi.width, rbi.bitsPerPixel);
      info := rbi;
      lineWords := lw;
      colorMap := new Rgba[rbi.colorsInColorMap](_ => Blank);
      pixels := new bv32[lw * rbi.height](_ => 0);
    }
  }

  /** The header of a bitmap, or an all-zero header when there is none. */
  function GetRawBitmapInfo(bm: RawBitmap?): (r: BitmapInfo)
    ensures bm == null ==> r == NoInfo
    ensures bm != null ==> r == bm.info
  {
    if bm != null then bm.info else NoInfo
  }

  /** Creation gives a new zero-filled bitmap exactly when the header passes the creation test. */
  method CreateRawBitmap(rbi: BitmapInfo) returns (bm: RawBitmap?)
    requires Creatable(rbi) ==> SizesFit(rbi)
    ensures bm != null <==> Creatable(rbi)
    ensures bm != null ==> bm.Valid() && bm.info == rbi && fresh(bm.colorMap) && fresh(bm.pixels)
    ensures bm != null ==> forall i :: 0 <= i < bm.colorMap.Length ==> bm.colorMap[i] == Blank
    ensures bm != null ==> forall i :: 0 <= i < bm.pixels.Length ==> bm.pixels[i] == 0
  {
    if !BppOK(rbi.bitsPerPixel) {
      return null;
    }
    if rbi.bitsPerPixel <= 8 {
      if rbi.colorsInColorMap == 0 {
        return null;
      }
      if Shr(rbi.colorsInColorMap - 1, rbi.bitsPerPixel) > 0 {
        return null;
      }
    } else {
      if rbi.colorsInColorMap > 0 {
        return null;
      }
    }
    bm := new RawBitmap(rbi);
  }

  /** The pixel array of a bitmap as a sequence of words. */
  function PixelWords(bm: RawBitmap): seq<bv32>
    reads bm.pixels
  {
    bm.pixels[..]
  }

  /** Pixel (x, y) of a bitmap; `None` (the source's -1) without a bitmap or outside it. */
  function GetPixel(bm: RawBitmap?, x: u32, y: u32): (r: Option<bv32>)
    requires bm != null ==> bm.Valid()
    reads if bm != null then {bm.pixels} else {}
    ensures r.Some? <==> bm != null && x < bm.info.width && y < bm.info.height
  {
    if bm == null then None
    else if y >= bm.info.height then None
    else if x >= bm.info.width then None
    else Some(PixelAt(bm.info.bitsPerPixel, bm.info.width, bm.info.height, bm.pixels[..], x, y))
  }

  /**
   * Sets pixel (x, y) of a bitmap to `c`, cut to the depth; returns -1 and
   * changes nothing without a bitmap or outside it. Afterwards that pixel
   * reads back as `c` cut to the depth and every other pixel as before.
   */
  method SetPixel(bm: RawBitmap?, x: u32, y: u32, c: bv32) returns (status: int)
    requires bm != null ==> bm.Valid()
    modifies if bm != null then {bm.pixels} else {}
    ensures status == 0 || status == -1
    ensures status == 0 <==> bm != null && x < bm.info.width && y < bm.info.height
    ensures bm != null && status == 0 ==>
              bm.pixels[..] == StoreAt(bm.info.bitsPerPixel, bm.info.width, bm.info.height, old(bm.pixels[..]), x, y, c)
    ensures bm != null && status != 0 ==> bm.pixels[..] == old(bm.pixels[..])
    ensures bm != null ==> forall x': u32, y': u32 {:trigger GetPixel(bm, x', y')} ::
              GetPixel(bm, x', y') ==
              if status == 0 && x' == x && y' == y then Some(c & ValueMask(bm.info.bitsPerPixel))
              else old(GetPixel(bm, x', y'))
  {
    if bm == null {
      return -1;
    }
    if y >= bm.info.height || x >= bm.info.width {
      return -1;
    }
    var bpp, width, height := bm.info.bitsPerPixel, bm.info.width, bm.info.height;
    ghost var w := bm.pixels[..];
    PixelInArray(bpp, width, height, w, x, y);
    var line := y * bm.lineWords;
    assert line == y * LineWords(width, bpp) by {
      assert bm.lineWords == LineWords(width, bpp);
    }
    assert 0 <= line by {
      NatProduct(y, bm.lineWords);
    }
    StorePixel(bm.pixels, bpp, line, x, c);
    status := 0;
    assert bm.pixels[..] == StoreAt(bpp, width, height, w, x, y, c);
    forall x': u32, y': u32 | x' < width && y' < height
      ensures PixelAt(bpp, width, height, bm.pixels[..], x', y') ==
              if x' == x && y' == y then c & ValueMask(bpp) else PixelAt(bpp, width, height, w, x', y')
    {
      SetThenGet(bpp, width, height, w, x, y, c, x', y');
    }
  }

  /** The store into pixel `x` of the row starting at word `o`, by depth. */
  method StorePixel(a: array<bv32>, bpp: nat, o: nat, x: nat, c: bv32)
    requires InData(bpp, a[..], o, x)
    modifies a
    ensures a[..] == StoreIn(bpp, old(a[..]), o, x, c)
  {
    if bpp <= 8 {
      var i := o + ByteIndex(bpp, x) / 4;
      a[i] := PackedStore(a[i], bpp, x, c);
    } else if bpp == 32 {
      a[o + x] := c;
    } else if bpp == 16 {
      var i := o + x / 2;
      a[i] := WithHalf(a[i], x % 2, c);
    } else {
      var q := o + (x / 4) * 3;
      SetPixel24(a, q, x % 4, c);
    }
  }

  /** The 24-bit store into pixel `m` of the group of three words at `q`, merging the colour's bytes into one or two words. */
  method SetPixel24(a: array<bv32>, q: nat, m: nat, c: bv32)
    requires m < 4 && q + GroupReach(m) <= a.Length
    modifies a
    ensures a[..] == Store24(old(a[..]), q, m, c)
  {
    if m == 0 {
      a[q] := Merge(a[q], 0xff00_0000, c & 0x00ff_ffff);
    } else if m == 1 {
      a[q] := Merge(a[q], 0x00ff_ffff, c << Shift24);
      a[q + 1] := Merge(a[q + 1], 0xffff_0000, (c >> Shift8) & 0x0000_ffff);
    } else if m == 2 {
      a[q + 1] := Merge(a[q + 1], 0x0000_ffff, c << Shift16);
      a[q + 2] := Merge(a[q + 2], 0xffff_ff00, (c >> Shift16) & 0x0000_00ff);
    } else {
      a[q + 2] := Merge(a[q + 2], 0x0000_00ff, c << Shift8);
    }
  }

  /** Entry `index` of a bitmap's colour table; `None` (the source's -1) without a bitmap or past the table. */
  function GetColor(bm: RawBitmap?, index: u32): (r: Option<Rgba>)
    requires bm != null ==> bm.Valid()
    reads if bm != null then {bm.colorMap} else {}
    ensures r.Some? <==> bm != null && index < bm.info.colorsInColorMap
  {
    if bm == null then None
    else if index >= bm.info.colorsInColorMap then None
    else Some(bm.colorMap[index])
  }

  /** Sets entry `index` of the colour table; -1 and no change without a bitmap or past the table. */
  method SetColor(bm: RawBitmap?, index: u32, color: Rgba) returns (status: int)
    requires bm != null ==> bm.Valid()
    modifies if bm != null then {bm.colorMap} else {}
    ensures status == 0 || status == -1
    ensures status == 0 <==> bm != null && index < bm.info.colorsInColorMap
    ensures bm != null ==> bm.colorMap[..] == if status == 0 then old(bm.colorMap[..])[index := color] else old(bm.colorMap[..])
    ensures bm != null ==> forall i: u32 {:trigger GetColor(bm, i)} ::
              GetColor(bm, i) == if status == 0 && i == index then Some(color) else old(GetColor(bm, i))
  {
    if bm == null {
      return -1;
    }
    if index >= bm.info.colorsInColorMap {
      return -1;
    }
    bm.colorMap[index] := color;
    return 0;
  }

  /** Replaces the whole colour table; -1 and no change without a bitmap or when the sizes differ. */
  method SetColorMap(bm: RawBitmap?, colors: seq<Rgba>) returns (status: int)
    requires bm != null ==> bm.Valid()
    modifies if bm != null then {bm.colorMap} else {}
    ensures status == 0 || status == -1
    ensures status == 0 <==> bm != null && bm.info.colorsInColorMap == |colors|
    ensures bm != null ==> bm.colorMap[..] == if status == 0 then colors else old(bm.colorMap[..])
    ensures status == 0 ==> GetColorMap(bm, |colors|) == Some(colors)
  {
    if bm == null {
      return -1;
    }
    if bm.info.colorsInColorMap != |colors| {
      return -1;
    }
    if |colors| == 0 {
      return 0;
    }
    forall i | 0 <= i < |colors| {
      bm.colorMap[i] := colors[i];
    }
    return 0;
  }

  /** A copy of the whole colour table; `None` (the source's -1) without a bitmap or when the sizes differ. */
  function GetColorMap(bm: RawBitmap?, size: nat): (r: Option<seq<Rgba>>)
    requires bm != null ==> bm.Valid()
    reads if bm != null then {bm.colorMap} else {}
    ensures r.Some? <==> bm != null && bm.info.colorsInColorMap == size
    ensures r.Some? ==> |r.value| == size && forall i: u32 :: i < size ==> GetColor(bm, i) == Some(r.value[i])
  {
    if bm == null then None
    else if bm.info.colorsInColorMap != size then None
    else if size == 0 then Some([])
    else Some(bm.colorMap[..])
  }

  /** Size in bytes of a bitmap's pixel array. */
  function ArrayBytes(bm: RawBitmap): nat {
    bm.lineWords * bm.info.height * 4
  }

  /** Loads the pixel array from a buffer of exactly its size; -1 and no change without a bitmap or when the sizes differ. */
  method SetBitmap(bm: RawBitmap?, bytes: seq<bv8>) returns (status: int)
    requires bm != null ==> bm.Valid()
    modifies if bm != null then {bm.pixels} else {}
    ensures status == 0 || status == -1
    ensures status == 0 <==> bm != null && |bytes| == ArrayBytes(bm)
    ensures bm != null && status == 0 ==> |bytes| % 4 == 0 && bm.pixels[..] == WordsOf(bytes)
    ensures bm != null && status != 0 ==> bm.pixels[..] == old(bm.pixels[..])
    ensures status == 0 ==> GetBitmap(bm, |bytes|) == Some(bytes)
  {
    if bm == null {
      return -1;
    }
    if ArrayBytes(bm) != |bytes| {
      return -1;
    }
    if |bytes| == 0 {
      assert WordsOf(bytes) == [];
      return 0;
    }
    forall i | 0 <= i < bm.pixels.Length {
      bm.pixels[i] := WordAt(bytes, 4 * i);
    }
    BytesOfWordsOf(bytes);
    return 0;
  }

  /** A copy of the pixel array as bytes; `None` (the source's -1) without a bitmap or when the sizes differ. */
  function GetBitmap(bm: RawBitmap?, size: nat): (r: Option<seq<bv8>>)
    requires bm != null ==> bm.Valid()
    reads if bm != null then {bm.pixels} else {}
    ensures r.Some? <==> bm != null && size == ArrayBytes(bm)
    ensures r.Some? ==> |r.value| == size && WordsOf(r.value) == bm.pixels[..]
  {
    if bm == null then None
    else if ArrayBytes(bm) != size then None
    else if size == 0 then Some([])
    else
      WordsOfBytesOf(bm.pixels[..]);
      Some(BytesOf(bm.pixels[..]))
  }
}
