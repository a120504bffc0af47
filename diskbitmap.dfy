/**
 * The Windows bitmap file header codec: a 14-byte file header followed by a
 * 40-byte information header for uncompressed images, every field stored
 * little-endian and read or written through a byte cursor. The colour table
 * follows the 54 header bytes and the pixel array starts at the offset the
 * file header gives.
 */
module DiskBitmap {
  import opened Ints
  import opened Bitmaps

  /** Size of the two headers together. */
  const HeaderBytes: nat := 54

  /** The "BM" magic number, read as a little-endian 16-bit value. */
  const Magic: u16 := 0x4d42

  /** The fields of the two headers, in file order. */
  datatype FileHeader = FileHeader(
    magic: u16, fileSize: u32, reserved: u32, pixelsAt: u32,
    headerSize: u32, width: u32, height: u32, planes: u16, bitsPerPixel: u16,
    compression: u32, imageSize: u32, wPpm: u32, hPpm: u32,
    colors: u32, importantColors: u32)

  /** What a successful parse yields: the bitmap header, where the colour table starts and where the pixel array starts. */
  datatype Parsed = Parsed(info: BitmapInfo, colorMapAt: nat, pixelsAt: nat)

  // ---------------------------------------------------------------------
  // The little-endian cursor
  // ---------------------------------------------------------------------

  /** Reads two bytes at the cursor, low byte first, and moves the cursor past them. */
  method Read16LE(data: seq<u8>, offset: nat) returns (v: u16, next: nat)
    requires offset + 2 <= |data|
    ensures v == U16At(data, offset) && next == offset + 2
  {
    var low: int := data[offset];
    var high: int := data[offset + 1];
    v := high * 256 + low;
    next := offset + 2;
  }

  /** Reads four bytes at the cursor, low half first, and moves the cursor past them. */
  method Read32LE(data: seq<u8>, offset: nat) returns (v: u32, next: nat)
    requires offset + 4 <= |data|
    ensures v == U32At(data, offset) && next == offset + 4
  {
    var low: int, high: int;
    low, next := Read16LE(data, offset);
    high, next := Read16LE(data, next);
    v := high * 65536 + low;
  }

  /** Writes `val` at the cursor, low byte first, and moves the cursor past it; the bytes after it do not change. */
  method Write16LE(data: array<u8>, offset: nat, val: u16) returns (next: nat)
    requires offset + 2 <= data.Length
    modifies data
    ensures next == offset + 2
    ensures data[..next] == old(data[..offset]) + LE16(val)
    ensures forall i :: next <= i < data.Length ==> data[i] == old(data[i])
  {
    data[offset] := val % 256;
    data[offset + 1] := val / 256;
    next := offset + 2;
    assert data[..next] == data[..offset] + data[offset..next];
  }

  /** Writes `val` at the cursor, low half first, and moves the cursor past it; the bytes after it do not change. */
  method Write32LE(data: array<u8>, offset: nat, val: u32) returns (next: nat)
    requires offset + 4 <= data.Length
    modifies data
    ensures next == offset + 4
    ensures data[..next] == old(data[..offset]) + LE32(val)
    ensures forall i :: next <= i < data.Length ==> data[i] == old(data[i])
  {
    ghost var before := data[..offset];
    var mid := Write16LE(data, offset, val % 65536);
    ghost var low := data[..mid];
    next := Write16LE(data, mid, val / 65536);
    assert data[..next] == low + LE16(val / 65536);
    assert low == before + LE16(val % 65536);
  }

  /** Writing a little-endian value at an offset and reading it back there gives the value. */
  lemma ReadAfterWrite32(pre: seq<u8>, val: u32, post: seq<u8>)
    ensures U32At(pre + LE32(val) + post, |pre|) == val
  {
    var s := pre + LE32(val) + post;
    var e := LE32(val);
    assert s[|pre|] == e[0] && s[|pre| + 1] == e[1] && s[|pre| + 2] == e[2] && s[|pre| + 3] == e[3];
  }

  /** Writing a 16-bit value little-endian at an offset and reading it back there gives the value. */
  lemma ReadAfterWrite16(pre: seq<u8>, val: u16, post: seq<u8>)
    ensures U16At(pre + LE16(val) + post, |pre|) == val
  {
    var s := pre + LE16(val) + post;
    var e := LE16(val);
    assert s[|pre|] == e[0] && s[|pre| + 1] == e[1];
  }

  // ---------------------------------------------------------------------
  // The header fields and the row stride
  // ---------------------------------------------------------------------

  /** The header fields of a buffer of at least 54 bytes. */
  function HeaderOf(s: seq<u8>): FileHeader
    requires |s| >= HeaderBytes
  {
    FileHeader(
      U16At(s, 0), U32At(s, 2), U32At(s, 6), U32At(s, 10),
      U32At(s, 14), U32At(s, 18), U32At(s, 22), U16At(s, 26), U16At(s, 28),
      U32At(s, 30), U32At(s, 34), U32At(s, 38), U32At(s, 42),
      U32At(s, 46), U32At(s, 50))
  }

  /** The 14 bytes of the file header of `h`: magic, file size, reserved word and pixel-array offset. */
  function EncodeFileHeader(h: FileHeader): (r: seq<u8>)
    ensures |r| == 14
  {
    LE16(h.magic) + LE32(h.fileSize) + LE32(h.reserved) + LE32(h.pixelsAt)
  }

  /** `prefix` followed by the 40 bytes of the information header of `h`, in file order. */
  function WithInfoHeader(prefix: seq<u8>, h: FileHeader): (r: seq<u8>)
    ensures |r| == |prefix| + 40
  {
    prefix + LE32(h.headerSize) + LE32(h.width) + LE32(h.height) + LE16(h.planes) + LE16(h.bitsPerPixel) +
    LE32(h.compression) + LE32(h.imageSize) + LE32(h.wPpm) + LE32(h.hPpm) +
    LE32(h.colors) + LE32(h.importantColors)
  }

  /** The 54 header bytes holding the fields of `h`, in file order. */
  function Encode(h: FileHeader): (r: seq<u8>)
    ensures |r| == HeaderBytes
  {
    WithInfoHeader(EncodeFileHeader(h), h)
  }

  /** Bytes per row of the pixel array, computed in 32-bit arithmetic: `((width * bpp + 31) >> 5) << 2`. */
  function Stride(width: u32, bpp: u16): (r: u32)
    ensures r % 4 == 0 && 8 * r <= Wrap32(width * bpp + 31)
  {
    (Wrap32(width * bpp + 31) / 32) * 4
  }

  /** Without wrap-around the stride is four bytes per row word: a multiple of 4 holding the row's bits, with less than a word of padding. */
  lemma StrideIsRowWords(width: u32, bpp: u16)
    requires width * bpp + 31 < TWO32
    ensures Stride(width, bpp) == 4 * LineWords(width, bpp)
    ensures Stride(width, bpp) % 4 == 0
    ensures 8 * Stride(width, bpp) >= width * bpp
    ensures 8 * Stride(width, bpp) < width * bpp + 32
  {
  }

  // ---------------------------------------------------------------------
  // Parsing
  // ---------------------------------------------------------------------

  /** The colour count a header stands for: a count of zero at 8 bits per pixel or less means the full `2^bpp` table. */
  function ColorsUsed(h: FileHeader): u32
  {
    if h.bitsPerPixel <= 8 && h.colors == 0 then
      Pow2Bound(h.bitsPerPixel);
      Pow2(h.bitsPerPixel)
    else h.colors
  }

  /** Where the pixel array ends by the header, computed as the source does in 32-bit arithmetic. */
  function PixelsEnd(h: FileHeader): (r: u32)
    ensures Stride(h.width, h.bitsPerPixel) * h.height + h.pixelsAt < TWO32 ==>
            r == Stride(h.width, h.bitsPerPixel) * h.height + h.pixelsAt
  {
    Wrap32(Wrap32(Stride(h.width, h.bitsPerPixel) * h.height) + h.pixelsAt)
  }

  /** The validating parse, check by check: `None` is the source's -1. */
  function Parse(s: seq<u8>): (r: Option<Parsed>)
    ensures r.Some? ==> |s| >= HeaderBytes && BppOK(r.value.info.bitsPerPixel) && r.value.pixelsAt <= |s|
  {
    if |s| < HeaderBytes then None else Check(HeaderOf(s), |s|)
  }

  /** The checks on the header fields of a file of `size` bytes, in the source's order: first the file header's. */
  function Check(h: FileHeader, size: nat): (r: Option<Parsed>)
    ensures r.Some? ==> h.magic == Magic && h.fileSize == size && h.pixelsAt <= size
    ensures r.Some? ==> r.value.info.width == h.width && r.value.info.height == h.height &&
                        r.value.info.bitsPerPixel == h.bitsPerPixel && r.value.pixelsAt == h.pixelsAt
  {
    if h.magic != Magic then None
    else if h.fileSize != size then None
    else if h.pixelsAt > size then None
    else CheckInfo(h)
  }

  /** The info header's checks: its size, one plane, a supported depth, no compression and a pixel array inside the file. */
  function CheckInfo(h: FileHeader): (r: Option<Parsed>)
  {
    if h.headerSize != 40 then None
    else if h.planes != 1 then None
    else if !BppOK(h.bitsPerPixel) then None
    else if h.compression != 0 then None
    else if PixelsEnd(h) > h.fileSize then None
    else CheckPalette(h)
  }

  /** The colour table's checks: a table that fits the depth, none above 8 bits, and room for it before the pixels. */
  function CheckPalette(h: FileHeader): (r: Option<Parsed>)
  {
    var colors := ColorsUsed(h);
    if h.bitsPerPixel <= 8 && Shr(colors - 1, h.bitsPerPixel) > 0 then None
    else if h.bitsPerPixel > 8 && colors > 0 then None
    else if h.pixelsAt < colors * 4 + HeaderBytes then None
    else Some(Parsed(BitmapInfo(h.width, h.height, h.bitsPerPixel, h.wPpm, h.hPpm, colors),
                     HeaderBytes, h.pixelsAt))
  }

  /** When the colour-table tests pass, the parse yields the header's fields with the colour count in use. */
  lemma PaletteAccepted(h: FileHeader)
    requires var colors := ColorsUsed(h);
             (h.bitsPerPixel <= 8 ==> Shr(colors - 1, h.bitsPerPixel) == 0) &&
             (h.bitsPerPixel > 8 ==> colors == 0) &&
             h.pixelsAt >= colors * 4 + HeaderBytes
    ensures CheckPalette(h) == Some(Parsed(BitmapInfo(h.width, h.height, h.bitsPerPixel, h.wPpm, h.hPpm, ColorsUsed(h)),
                                          HeaderBytes, h.pixelsAt))
  {
  }

  /** Every rule the header fields of a file of `size` bytes must meet, stated as one conjunction. */
  predicate Acceptable(h: FileHeader, size: nat)
  {
    h.magic == Magic && h.fileSize == size && h.pixelsAt <= size &&
    h.headerSize == 40 && h.planes == 1 && BppOK(h.bitsPerPixel) && h.compression == 0 &&
    PixelsEnd(h) <= h.fileSize &&
    (h.bitsPerPixel <= 8 ==> h.colors <= Pow2(h.bitsPerPixel)) &&
    (h.bitsPerPixel > 8 ==> h.colors == 0) &&
    HeaderBytes + 4 * ColorsUsed(h) <= h.pixelsAt
  }

  /** A buffer is well formed when it holds the two headers and their fields are acceptable. */
  predicate WellFormed(s: seq<u8>)
  {
    |s| >= HeaderBytes && Acceptable(HeaderOf(s), |s|)
  }

  /**
   * The checks pass exactly when the fields are acceptable; the parsed
   * header then carries the file's fields and a colour count that passes
   * the creation test, the colour table starts right after the 54 header
   * bytes and ends at or before the pixel array, which starts at the offset
   * field, within the file.
   */
  lemma CheckIff(h: FileHeader, size: nat)
    ensures Check(h, size).Some? <==> Acceptable(h, size)
    ensures Check(h, size).Some? ==>
              var p := Check(h, size).value;
              p.info == BitmapInfo(h.width, h.height, h.bitsPerPixel, h.wPpm, h.hPpm, ColorsUsed(h)) &&
              Creatable(p.info) &&
              p.colorMapAt == HeaderBytes && p.pixelsAt == h.pixelsAt &&
              p.colorMapAt + 4 * p.info.colorsInColorMap <= p.pixelsAt <= size
  {
    var bpp := h.bitsPerPixel;
    var info := BitmapInfo(h.width, h.height, bpp, h.wPpm, h.hPpm, ColorsUsed(h));
    if bpp <= 8 {
      PaletteBound(bpp, h.colors);
    }
    CreatableIff(info);
  }

  /** A buffer parses exactly when it is well formed, and then as `CheckIff` states for its header fields. */
  lemma ParseIff(s: seq<u8>)
    ensures Parse(s).Some? <==> WellFormed(s)
    ensures Parse(s).Some? ==> Parse(s) == Check(HeaderOf(s), |s|)
  {
    if |s| >= HeaderBytes {
      CheckIff(HeaderOf(s), |s|);
    }
  }

  /** A buffer whose header fields are `h`, acceptable for its size, parses to those fields, with the colour count in use and the colour table at 54. */
  lemma ParseAcceptable(s: seq<u8>, h: FileHeader)
    requires |s| >= HeaderBytes && HeaderOf(s) == h && Acceptable(h, |s|)
    ensures Parse(s) == Some(Parsed(BitmapInfo(h.width, h.height, h.bitsPerPixel, h.wPpm, h.hPpm, ColorsUsed(h)),
                                    HeaderBytes, h.pixelsAt))
  {
    CheckIff(h, |s|);
  }

  /** The palette test for packed depths: after a zero count is widened to `2^bpp`, `(colors - 1) >> bpp` is zero exactly when the count is at most `2^bpp`. */
  lemma PaletteBound(bpp: u16, colors: u32)
    requires bpp <= 8
    ensures var used := if colors == 0 then Pow2(bpp) else colors;
            1 <= used && (Shr(used - 1, bpp) == 0 <==> colors <= Pow2(bpp))
  {
    var used := if colors == 0 then Pow2(bpp) else colors;
    ShrZero(used - 1, bpp);
  }

  /** When the 32-bit sums do not wrap, the overflow test says the pixel array ends within the file. */
  lemma PixelsWithinFile(s: seq<u8>)
    requires WellFormed(s)
    requires var h := HeaderOf(s);
             h.width * h.bitsPerPixel + 31 < TWO32 &&
             Stride(h.width, h.bitsPerPixel) * h.height + h.pixelsAt < TWO32
    ensures var h := HeaderOf(s);
            h.pixelsAt + 4 * LineWords(h.width, h.bitsPerPixel) * h.height <= |s|
  {
    var h := HeaderOf(s);
    StrideIsRowWords(h.width, h.bitsPerPixel);
  }

  /**
   * The parse through the byte cursor: reads each field in file order and
   * stops at the first rule the file breaks. The cursor ends at 54, where
   * the colour table starts.
   */
  method ParseBitmapInfo(data: seq<u8>) returns (r: Option<Parsed>)
    ensures r == Parse(data)
  {
    if |data| < HeaderBytes {
      return None;
    }
    ghost var h := HeaderOf(data);
    var offset := 0;
    var magic;
    magic, offset := Read16LE(data, offset);
    assert magic == h.magic;
    if magic != Magic {
      return None;
    }
    var checkSize;
    assert offset == 2;
    checkSize, offset := Read32LE(data, offset);
    assert checkSize == h.fileSize;
    if checkSize != |data| {
      return None;
    }
    var ignored, pixelsAtField;
    assert offset == 6;
    ignored, offset := Read32LE(data, offset);
    assert offset == 10;
    pixelsAtField, offset := Read32LE(data, offset);
    assert pixelsAtField == h.pixelsAt;
    if pixelsAtField > |data| {
      return None;
    }
    assert Parse(data) == CheckInfo(h);
    var headerSize;
    assert offset == 14;
    headerSize, offset := Read32LE(data, offset);
    assert headerSize == h.headerSize;
    if headerSize != 40 {
      return None;
    }
    var width, height, planes, bpp;
    assert offset == 18;
    width, offset := Read32LE(data, offset);
    assert offset == 22;
    height, offset := Read32LE(data, offset);
    assert offset == 26;
    planes, offset := Read16LE(data, offset);
    assert width == h.width && height == h.height && planes == h.planes;
    if planes != 1 {
      return None;
    }
    assert offset == 28;
    bpp, offset := Read16LE(data, offset);
    assert bpp == h.bitsPerPixel;
    if !BppOK(bpp) {
      return None;
    }
    var compression;
    assert offset == 30;
    compression, offset := Read32LE(data, offset);
    assert compression == h.compression;
    if compression != 0 {
      return None;
    }
    assert offset == 34;
    ignored, offset := Read32LE(data, offset);
    var lineWidth: int := Stride(width, bpp);
    var theoreticSize: int := Wrap32(lineWidth * height);
    assert Wrap32(theoreticSize + pixelsAtField) == PixelsEnd(h);
    if Wrap32(theoreticSize + pixelsAtField) > checkSize {
      return None;
    }
    assert Parse(data) == CheckPalette(h);
    var wPpm, hPpm, colors;
    assert offset == 38;
    wPpm, offset := Read32LE(data, offset);
    assert offset == 42;
    hPpm, offset := Read32LE(data, offset);
    assert offset == 46;
    colors, offset := Read32LE(data, offset);
    assert offset == 50;
    ignored, offset := Read32LE(data, offset);
    assert offset == HeaderBytes;
    assert wPpm == h.wPpm && hPpm == h.hPpm && colors == h.colors;
    if bpp <= 8 {
      if colors == 0 {
        Pow2Bound(bpp);
        colors := Pow2(bpp);
      }
      assert colors == ColorsUsed(h);
      if Shr(colors - 1, bpp) > 0 {
        return None;
      }
    } else {
      if colors > 0 {
        return None;
      }
    }
    assert colors == ColorsUsed(h);
    var colorMapSize: int := colors * 4;
    if pixelsAtField < colorMapSize + offset {
      return None;
    }
    PaletteAccepted(h);
    return Some(Parsed(BitmapInfo(width, height, bpp, wPpm, hPpm, colors), offset, pixelsAtField));
  }

  // ---------------------------------------------------------------------
  // Dumping
  // ---------------------------------------------------------------------

  /** The header written for a bitmap header in a file of `fileSize` bytes; sizes are stored as 32-bit values. */
  function HeaderFor(rbi: BitmapInfo, fileSize: nat): (r: FileHeader)
    ensures r.width == rbi.width && r.height == rbi.height && r.bitsPerPixel == rbi.bitsPerPixel
    ensures r.colors == rbi.colorsInColorMap && r.compression == 0 && r.planes == 1 && r.headerSize == 40
    ensures fileSize < TWO32 ==> r.fileSize == fileSize
  {
    FileHeader(Magic, Wrap32(fileSize), 0, Wrap32(HeaderBytes + rbi.colorsInColorMap * 4),
               40, rbi.width, rbi.height, 1, rbi.bitsPerPixel,
               0, 0, rbi.wPpm, rbi.hPpm, rbi.colorsInColorMap, 0)
  }

  /** Size of the file written for a bitmap: headers, colour table and pixel array. */
  function FileSize(rbi: BitmapInfo): (r: nat)
    ensures r >= HeaderBytes + 4 * rbi.colorsInColorMap
  {
    NatProduct(Stride(rbi.width, rbi.bitsPerPixel), rbi.height);
    HeaderBytes + 4 * rbi.colorsInColorMap + Stride(rbi.width, rbi.bitsPerPixel) * rbi.height
  }

  /**
   * Writes the 54 header bytes for `rbi` at the start of a buffer through
   * the byte cursor, leaving the rest of the buffer alone, and returns where
   * the colour table and the pixel array go.
   */
  method DumpBitmapInfo(data: array<u8>, rbi: BitmapInfo) returns (colorMapAt: nat, pixelsAt: nat)
    requires data.Length >= HeaderBytes
    modifies data
    ensures data[..HeaderBytes] == Encode(HeaderFor(rbi, data.Length))
    ensures data[HeaderBytes..] == old(data[HeaderBytes..])
    ensures colorMapAt == HeaderBytes && pixelsAt == Wrap32(HeaderBytes + rbi.colorsInColorMap * 4)
  {
    var offset;
    offset, pixelsAt := DumpFileHeader(data, rbi);
    offset := DumpInfoHeader(data, offset, rbi);
    colorMapAt := offset;
  }

  /** The file-header half of the dump: bytes 0 to 14, and the pixel-array offset it records. */
  method DumpFileHeader(data: array<u8>, rbi: BitmapInfo) returns (offset: nat, pixelsAt: nat)
    requires data.Length >= HeaderBytes
    modifies data
    ensures offset == 14 && pixelsAt == Wrap32(HeaderBytes + rbi.colorsInColorMap * 4)
    ensures data[..offset] == EncodeFileHeader(HeaderFor(rbi, data.Length))
    ensures forall i :: offset <= i < data.Length ==> data[i] == old(data[i])
  {
    ghost var h := HeaderFor(rbi, data.Length);
    offset := 0;
    assert data[..offset] == [];
    offset := Write16LE(data, offset, Magic);
    ghost var p := LE16(h.magic);
    assert data[..offset] == p;
    offset := Write32LE(data, offset, Wrap32(data.Length));
    p := p + LE32(h.fileSize);
    assert data[..offset] == p;
    offset := Write32LE(data, offset, 0);
    p := p + LE32(h.reserved);
    assert data[..offset] == p;
    pixelsAt := Wrap32(HeaderBytes + rbi.colorsInColorMap * 4);
    offset := Write32LE(data, offset, pixelsAt);
    p := p + LE32(h.pixelsAt);
    assert data[..offset] == p;
  }

  /** The information-header half of the dump: the 40 bytes after the cursor. */
  method DumpInfoHeader(data: array<u8>, offset: nat, rbi: BitmapInfo) returns (next: nat)
    requires offset + 40 <= data.Length
    modifies data
    ensures next == offset + 40
    ensures data[..next] == WithInfoHeader(old(data[..offset]), HeaderFor(rbi, data.Length))
    ensures forall i :: next <= i < data.Length ==> data[i] == old(data[i])
  {
    ghost var h := HeaderFor(rbi, data.Length);
    ghost var p := data[..offset];
    next := Write32LE(data, offset, 40);
    p := p + LE32(h.headerSize);
    assert data[..next] == p;
    next := Write32LE(data, next, rbi.width);
    p := p + LE32(h.width);
    assert data[..next] == p;
    next := Write32LE(data, next, rbi.height);
    p := p + LE32(h.height);
    assert data[..next] == p;
    next := Write16LE(data, next, 1);
    p := p + LE16(h.planes);
    assert data[..next] == p;
    next := Write16LE(data, next, rbi.bitsPerPixel);
    p := p + LE16(h.bitsPerPixel);
    assert data[..next] == p;
    next := Write32LE(data, next, 0);
    p := p + LE32(h.compression);
    assert data[..next] == p;
    next := Write32LE(data, next, 0);
    p := p + LE32(h.imageSize);
    assert data[..next] == p;
    next := Write32LE(data, next, rbi.wPpm);
    p := p + LE32(h.wPpm);
    assert data[..next] == p;
    next := Write32LE(data, next, rbi.hPpm);
    p := p + LE32(h.hPpm);
    assert data[..next] == p;
    next := Write32LE(data, next, rbi.colorsInColorMap);
    p := p + LE32(h.colors);
    assert data[..next] == p;
    next := Write32LE(data, next, 0);
    p := p + LE32(h.importantColors);
    assert data[..next] == p;
  }

  /** The fields decoded from the bytes of an encoded header are the header's fields. */
  lemma HeaderOfEncode(h: FileHeader, rest: seq<u8>)
    ensures HeaderOf(Encode(h) + rest) == h
  {
    var s := Encode(h) + rest;
    var p2 := LE16(h.magic);
    var p6 := p2 + LE32(h.fileSize);
    var p10 := p6 + LE32(h.reserved);
    var p14 := p10 + LE32(h.pixelsAt);
    var p18 := p14 + LE32(h.headerSize);
    var p22 := p18 + LE32(h.width);
    var p26 := p22 + LE32(h.height);
    var p28 := p26 + LE16(h.planes);
    var p30 := p28 + LE16(h.bitsPerPixel);
    var p34 := p30 + LE32(h.compression);
    var p38 := p34 + LE32(h.imageSize);
    var p42 := p38 + LE32(h.wPpm);
    var p46 := p42 + LE32(h.hPpm);
    var p50 := p46 + LE32(h.colors);
    ReadAfterWrite16([], h.magic, s[2..]);
    ReadAfterWrite32(p2, h.fileSize, s[6..]);
    ReadAfterWrite32(p6, h.reserved, s[10..]);
    ReadAfterWrite32(p10, h.pixelsAt, s[14..]);
    ReadAfterWrite32(p14, h.headerSize, s[18..]);
    ReadAfterWrite32(p18, h.width, s[22..]);
    ReadAfterWrite32(p22, h.height, s[26..]);
    ReadAfterWrite16(p26, h.planes, s[28..]);
    ReadAfterWrite16(p28, h.bitsPerPixel, s[30..]);
    ReadAfterWrite32(p30, h.compression, s[34..]);
    ReadAfterWrite32(p34, h.imageSize, s[38..]);
    ReadAfterWrite32(p38, h.wPpm, s[42..]);
    ReadAfterWrite32(p42, h.hPpm, s[46..]);
    ReadAfterWrite32(p46, h.colors, s[50..]);
    ReadAfterWrite32(p50, h.importantColors, s[54..]);
  }

  /** A buffer starting with the encoded header of `h` decodes to `h`. */
  lemma HeaderOfDumped(s: seq<u8>, h: FileHeader)
    requires |s| >= HeaderBytes && s[..HeaderBytes] == Encode(h)
    ensures HeaderOf(s) == h
  {
    assert s == Encode(h) + s[HeaderBytes..];
    HeaderOfEncode(h, s[HeaderBytes..]);
  }

  /** The header dumped for a creatable bitmap whose file size fits in 32 bits passes every check of the parse, with the bitmap's own colour count. */
  lemma HeaderForAcceptable(rbi: BitmapInfo, size: nat)
    requires Creatable(rbi) && SizesFit(rbi)
    requires size == FileSize(rbi) < TWO32
    ensures Acceptable(HeaderFor(rbi, size), size)
    ensures ColorsUsed(HeaderFor(rbi, size)) == rbi.colorsInColorMap
    ensures HeaderFor(rbi, size).pixelsAt == HeaderBytes + 4 * rbi.colorsInColorMap
  {
    var h := HeaderFor(rbi, size);
    StrideIsRowWords(rbi.width, rbi.bitsPerPixel);
    CreatableIff(rbi);
    if rbi.bitsPerPixel <= 8 {
      PaletteBound(rbi.bitsPerPixel, rbi.colorsInColorMap);
    }
    var rows := Stride(rbi.width, rbi.bitsPerPixel) * rbi.height;
    NatProduct(Stride(rbi.width, rbi.bitsPerPixel), rbi.height);
    assert h.pixelsAt == HeaderBytes + 4 * rbi.colorsInColorMap;
    assert PixelsEnd(h) == rows + h.pixelsAt == size;
  }

  /** A buffer of the file's size whose header fields are those dumped for a bitmap parses back to the bitmap's header. */
  lemma ParseHeaderFor(rbi: BitmapInfo, s: seq<u8>)
    requires Creatable(rbi) && SizesFit(rbi)
    requires |s| == FileSize(rbi) < TWO32
    requires HeaderOf(s) == HeaderFor(rbi, |s|)
    ensures Parse(s) == Some(Parsed(rbi, HeaderBytes, HeaderBytes + 4 * rbi.colorsInColorMap))
  {
    var h := HeaderFor(rbi, |s|);
    HeaderForAcceptable(rbi, |s|);
    ParseAcceptable(s, h);
    assert BitmapInfo(h.width, h.height, h.bitsPerPixel, h.wPpm, h.hPpm, ColorsUsed(h)) == rbi;
  }

  /**
   * A buffer of the file's size whose first 54 bytes were dumped from the
   * header of a bitmap parses back to that header, with the colour table at
   * 54 and the pixel array right after it, when the file size fits in 32 bits.
   */
  lemma DumpThenParse(rbi: BitmapInfo, s: seq<u8>)
    requires Creatable(rbi) && SizesFit(rbi)
    requires |s| == FileSize(rbi) < TWO32
    requires s[..HeaderBytes] == Encode(HeaderFor(rbi, |s|))
    ensures Parse(s) == Some(Parsed(rbi, HeaderBytes, HeaderBytes + 4 * rbi.colorsInColorMap))
  {
    HeaderOfDumped(s, HeaderFor(rbi, |s|));
    ParseHeaderFor(rbi, s);
  }
}
