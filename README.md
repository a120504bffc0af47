# fourier_lineart, modelled in Dafny

fourier_lineart turns a line drawing into a series of pictures. The stages are:

1. It reads an uncompressed Windows bitmap.
2. It collects the pixels of colour index 1.
3. It links them into a short closed walk, using a greedy shortest-edge heuristic over the complete graph.
4. It splits the walk into an X and a Y sequence.
5. It projects both sequences onto an orthogonal basis (Fourier, Legendre or Heaviside).
6. It writes one picture per frame. Each frame redraws the walk from the modes accumulated so far.
7. A schedule of modes decides how many modes each frame adds. It is controlled by the starting mode, the increment, a quadratic step and the number of pictures.

This project models the integer and data-structure core of that program and proves its properties. It covers these parts:

- **`ints.dfy`** (`Ints`): fixed-width integer types. It covers 32-bit wrap-around, powers of two and shifts, and little-endian byte views.
- **`pointslist.dfy`** and **`doubleslist.dfy`** (`PointsList`, `DoublesList`): the fixed-length, zero-initialised, bounds-checked point and number lists. Each is a class over an array.
- **`bitmap.dfy`** (`Bitmaps`): the bit-packed pixel container.
  - The `RawBitmap` class holds a colour table and a pixel array of 32-bit words, with rows padded to whole words.
  - Pixels of 1, 4 and 8 bits are packed most significant bits first within a byte.
  - 16-bit pixels are half-words, 24-bit pixels are spread over groups of three words, and 32-bit pixels are whole words.
  - It also has the exact-size copy-in and copy-out of the colour table and the pixel array.
- **`diskbitmap.dfy`** (`DiskBitmap`): the 54-byte header of the Windows bitmap file format.
  - This is a 14-byte file header followed by a 40-byte information header with no compression.
  - Each field is read or written little-endian through a byte cursor.
  - It covers the validating parser and the serialiser.
- **`bitmappoints.dfy`** (`BitmapPoints`):
  - the two-pass, row-major scan that lists the pixels of one colour;
  - drawing a list of points onto a bitmap, which counts the points that fall off the canvas.
- **`edgeheap.dfy`** (`EdgeHeap`):
  - the complete graph of a point list, every pair keyed by squared distance;
  - an array-based binary min-heap of edges with sift-up insertion and sift-down removal of the shortest edge.
- **`rings.dfy`**, **`cycles.dfy`** and **`tour.dfy`** (`Rings`, `Cycles`, `Tour`): the short-cycle translator.
  - The `CycleArena` class holds `3n - 2` steps with union-find root links and ring links.
  - Each successful merge copies the two endpoint steps and splices the two rings.
  - The greedy loop adds edges until one fragment remains.
  - The walk of `2n - 2` hops emits the closed doubled walk back to front.
- **`minifourier.dfy`** (`MiniFourier`):
  - the option table;
  - the argument state as the `ArgsState` class with one parser per option;
  - the command-line reader and the defaults.
- **`minifourier_main.dfy`** (`MiniFourierMain`): the driver `main`.
  - It covers the closed-form bound on the modes and the checks made before any file is read.
  - It covers the frame schedule (`omode`, `cmode`), the output file names and the frame loop, where the first failing step ends the run.

Three choices shape the model:

- **Integers.** Integers are unbounded. Where the C code relies on a fixed width, the model writes the wrap-around out: the squared distance in `uint32_t`, the 32-bit header arithmetic and the `size_t` bound on the modes.
- **Pixel storage.** The pixel array is a sequence of 32-bit words, as in the source. Byte and half-word accesses are views of those words.
- **Outside the model.** Floating-point work, file I/O and the numeric conversion of option parameters enter as parameters. See "Left out".

In three places the code does something other than the obvious reading of the program's interface. The model follows the code each time:

- **One-point input.** A closed walk through a single point would hold that point. The code allocates `2n - 2 = 0` points, so `Tour.ShortCycle` returns an empty list.
- **Default destination prefix.** The help text at mini_fourier.c:271 says the default is the source name with `.bmp` stripped. `set_deflts` sets it to the source name itself. The stripping happens later, because `main` keeps only the first `strlen(source) - 4` characters of the prefix in every picture name. `MiniFourierMain.FileName` and `MiniFourierMain.Keep` model that.
- **Picture names.** A name is not the whole prefix followed by `_<mode>.bmp`. The prefix is cut as just described, and the mode is printed with at least six digits (mini_fourier.c:663).

## Model

| member | source | states |
|---|---|---|
| DoublesList.DoublesList.constructor | types/doubleslist.c:11-19 | a new list has the requested length and every entry 0.0 |
| DoublesList.DoublesNum | types/doubleslist.c:29-34 | the length is 0 for an absent list, the length fixed at creation otherwise |
| DoublesList.GetDouble | types/doubleslist.c:36-44 | 0.0 for an absent list or an index at or past the end, the stored value otherwise |
| DoublesList.SetDouble | types/doubleslist.c:46-54 | stores the value at an in-range index; an absent list or an out-of-range index is ignored and the contents stay |
| DoublesList.DoubleAt | types/doubleslist.c:36-44 | reading contents gives the slot's value in range and 0.0 outside |
| DoublesList.UpdateAt | types/doubleslist.c:50-52 | writing keeps the length, changes the written slot only, and only when it is in range |
| DoublesList.DoubleAfterUpdate | types/doubleslist.c:46-54 | a get after a set returns the value at that in-range index and the old value at every other index |
| PointsList.PointsList.constructor | types/pointslist.c:11-19 | a new list has the requested length and every point is the origin (the memset) |
| PointsList.PointsNum | types/pointslist.c:29-34 | the length is 0 for an absent list, the length fixed at creation otherwise |
| PointsList.GetPoint | types/pointslist.c:36-48 | status 0 and the stored point for an index below the length; -1 with the out-point untouched for an absent list or an index past the end |
| PointsList.SetPoint | types/pointslist.c:50-62 | status 0 and the point stored at an in-range index; -1 and nothing changed for an absent list or an index past the end |
| PointsList.GetAt | types/pointslist.c:43-47 | the status is 0 exactly for an in-range index, then with the stored point, else -1 with the out-point unchanged |
| PointsList.SetAt | types/pointslist.c:57-61 | an in-range write changes that slot only; an out-of-range write gives -1 and the same contents |
| PointsList.GetAfterSet | types/pointslist.c:36-62 | a get after a set sees the written point at that in-range index and the old result at every other index |
| Ints.Wrap32 | translators/shortcycle.c:21-25 | a 32-bit unsigned result equals the exact value when that value fits in 32 bits |
| Ints.Pow2 | translators/disk_bitmap.c:198 | the palette size `1 << bpp` is at least 1 |
| Ints.Pow2Bound | types/bitmap.c:185 | 2^bpp is at most 256 for the packed depths |
| Ints.ShrZero | types/bitmap.c:185 | `(colors - 1) >> bpp` is zero exactly when `colors - 1` is below 2^bpp |
| Ints.LE16 | translators/disk_bitmap.c:112-118 | the two bytes written for a 16-bit value, low byte first, read back as that value |
| Ints.LE32 | translators/disk_bitmap.c:120-124 | the four bytes written for a 32-bit value, low half first, read back as that value |
| Ints.LE16OfU16At | translators/disk_bitmap.c:98-104 | writing back the 16-bit value read at an offset reproduces the two bytes there |
| Ints.LE32OfU32At | translators/disk_bitmap.c:106-110 | writing back the 32-bit value read at an offset reproduces the four bytes there |
| Bitmaps.Creatable | types/bitmap.c:166-193 | a header that passes creation has a supported depth, and a colour table exactly when the depth is at most 8 bits |
| Bitmaps.CreatableIff | types/bitmap.c:166-193 | creation is accepted exactly for bpp in {1,4,8,16,24,32}, with 1 to 2^bpp colours for bpp at most 8 and no colour table above 8 |
| Bitmaps.LineWords | types/bitmap.c:178 | the words per row are the row's bits rounded up to whole 32-bit words: at least the bits, less than a word more |
| Bitmaps.ReachInRow | types/bitmap.c:37-72 | every pixel of a row lies within the row's padded words, at every depth |
| Bitmaps.RowsApart | types/bitmap.c:37 | rows `y < y'` of `line_words` words each do not overlap |
| Bitmaps.RowInArray | types/bitmap.c:37 | every row below the height lies within the pixel array |
| Bitmaps.PixelInArray | types/bitmap.c:37 | pixel (x, y) in range lies within row y of the pixel array |
| Bitmaps.GetSetBits | types/bitmap.c:88-102 | reading back a packed pixel just stored in a byte gives the colour cut to the depth |
| Bitmaps.GetOtherBits | types/bitmap.c:94-101 | storing a packed pixel leaves the other pixels of its byte alone |
| Bitmaps.BitShiftsDiffer | types/bitmap.c:90-93 | two packed pixels of the same byte have different bit offsets |
| Bitmaps.ByteInWithByte | types/bitmap.c:89-101 | writing one byte of a word through the byte view changes that byte only |
| Bitmaps.HalfInWithHalf | types/bitmap.c:108-111 | writing one half-word of a word through the 16-bit view changes that half only |
| Bitmaps.PackedInStore | types/bitmap.c:88-102 | a packed pixel read after its store gives the colour cut to the depth, seen at word level |
| Bitmaps.PackedInOther | types/bitmap.c:88-102 | a packed store leaves every other pixel of its word alone |
| Bitmaps.PixelIn | types/bitmap.c:24-75 | a pixel read gives a value of the depth's width: an index of 1, 4 or 8 bits, a half-word, 24 bits or a word; at 24 bits it is the corrected read of the Findings, not lines 64-70 |
| Bitmaps.PackedInFits | types/bitmap.c:38-46 | a packed pixel read gives a colour index no wider than the depth |
| Bitmaps.Read24 | types/bitmap.c:57-71 | the corrected 24-bit read (see Findings) gives a colour of 24 bits |
| Bitmaps.PixelIn24AsWritten | types/bitmap.c:57-71 | the 24-bit read exactly as written; it agrees with the corrected read at the first pixel of each group of four |
| Bitmaps.StoreIn | types/bitmap.c:87-137 | a pixel store keeps the row length and changes no word outside the words the pixel touches |
| Bitmaps.Store24 | types/bitmap.c:113-136 | a 24-bit store changes only the one or two words of its group that the pixel touches |
| Bitmaps.StoredWords24 | types/bitmap.c:113-136 | for each residue of x mod 4, the exact masks and shifted colour bytes merged into each touched word |
| Bitmaps.ReadLocal | types/bitmap.c:37-72 | a pixel read depends only on the words that pixel touches |
| Bitmaps.GetSetPixel | types/bitmap.c:24-139 | set_pixel then get_pixel at the same pixel gives the colour cut to the depth, for every supported depth; at 24 bits this holds of the corrected read (see Findings) |
| Bitmaps.GetSet16 | types/bitmap.c:52-56 | the 16-bit round trip gives the low half of the colour |
| Bitmaps.GetSet24 | types/bitmap.c:113-136 | the 24-bit round trip, with the read that undoes the store, gives the low three bytes of the colour |
| Bitmaps.Get24Set24 | types/bitmap.c:113-136 | for each of the four residues, reading back a 24-bit pixel through the corrected read (see Findings) gives the colour's low three bytes |
| Bitmaps.GetSetOther | types/bitmap.c:77-139 | setting one pixel leaves every other pixel of its row as it was; at 24 bits this holds of the corrected read (see Findings) |
| Bitmaps.Read24Other | types/bitmap.c:113-136 | within a group of four 24-bit pixels, storing one leaves the other three alone as the corrected read (see Findings) sees them |
| Bitmaps.Get24AsWrittenLoses | types/bitmap.c:63-65 | the 24-bit read as written gives 0x12, not 0x123456, after storing 0x123456 at x = 1 |
| Bitmaps.Get24AsWrittenAtGroupStart | types/bitmap.c:57-62 | the source's 24-bit read gives back the colour set at a pixel whose x is a multiple of 4 |
| Bitmaps.Set24AsWrittenMovesNeighbour | types/bitmap.c:63-71 | with the source's 24-bit read, setting pixel 0 changes what pixel 1 reads |
| Bitmaps.StoreAt | types/bitmap.c:77-139 | setting a pixel keeps the shape of the pixel array |
| Bitmaps.SetThenGet | types/bitmap.c:24-139 | after setting (x, y) to c, pixel (x', y') reads c cut to the depth if it is (x, y) and its old value otherwise; at 24 bits this holds of the corrected read (see Findings) |
| Bitmaps.SetThenGetInRow | types/bitmap.c:87-137 | within one row, the set/get law: the set pixel reads the cut colour, others read as before; at 24 bits this holds of the corrected read (see Findings) |
| Bitmaps.SetThenGetOtherRow | types/bitmap.c:87 | a set in row y leaves every pixel of another row unchanged |
| Bitmaps.WordsOf | types/bitmap.c:253 | a byte buffer copied into the word array gives a quarter as many words |
| Bitmaps.BytesOf | types/bitmap.c:270 | the word array copied out gives four bytes per word |
| Bitmaps.BytesOfWordsOf | types/bitmap.c:240-272 | copying bytes into words and back out gives the same bytes |
| Bitmaps.WordsOfBytesOf | types/bitmap.c:240-272 | copying words out as bytes and back in gives the same words |
| Bitmaps.WordOfItsBytes | types/bitmap.c:253 | a word is rebuilt from its four bytes, lowest first |
| Bitmaps.RawBitmap.constructor | types/bitmap.c:194-203 | a new bitmap has the given header, a zeroed colour table of the header's size and a zeroed pixel array of line_words × height words |
| Bitmaps.GetRawBitmapInfo | types/bitmap.c:16-22 | the header of a bitmap, or the all-zero header for none |
| Bitmaps.CreateRawBitmap | types/bitmap.c:166-204 | a new zero-filled bitmap exactly when the header passes the depth and palette tests, otherwise none |
| Bitmaps.GetPixel | types/bitmap.c:24-75 | a value exactly for a bitmap and x < width, y < height; -1 (None) without a bitmap or outside it |
| Bitmaps.SetPixel | types/bitmap.c:77-139 | 0 exactly inside the canvas; then that pixel reads the colour cut to the depth and every other pixel reads as before (at 24 bits, through the corrected read); -1 and no change otherwise |
| Bitmaps.StorePixel | types/bitmap.c:87-137 | the in-place store into the row's words by depth equals the store function |
| Bitmaps.SetPixel24 | types/bitmap.c:113-136 | the in-place 24-bit store merges the colour bytes as the store function says |
| Bitmaps.GetColor | types/bitmap.c:141-153 | a colour exactly for a bitmap and an index below the table size |
| Bitmaps.SetColor | types/bitmap.c:155-164 | 0 exactly for a bitmap and an index in the table; then that entry is the colour and the others are unchanged; -1 and no change otherwise |
| Bitmaps.SetColorMap | types/bitmap.c:212-224 | 0 exactly when the size equals the table size, and the table is then the given colours and reads back by get_color_map; -1 and no change otherwise |
| Bitmaps.GetColorMap | types/bitmap.c:226-238 | the table exactly when the size equals the table size, each entry as get_color reads it |
| Bitmaps.SetBitmap | types/bitmap.c:240-255 | 0 exactly when the byte count equals line_words × height × 4; then the words are the bytes and get_bitmap gives them back; -1 and no change otherwise |
| Bitmaps.GetBitmap | types/bitmap.c:257-272 | the pixel bytes exactly when the size equals the array's byte count, and they copy back into the same words |
| DiskBitmap.Read16LE | translators/disk_bitmap.c:98-104 | reads the 16-bit value low byte first at the cursor and advances the cursor by 2 |
| DiskBitmap.Read32LE | translators/disk_bitmap.c:106-110 | reads the 32-bit value low half first at the cursor and advances the cursor by 4 |
| DiskBitmap.Write16LE | translators/disk_bitmap.c:112-118 | writes the two bytes low first at the cursor, advances by 2, leaves the bytes after it alone |
| DiskBitmap.Write32LE | translators/disk_bitmap.c:120-124 | writes the four bytes low half first, advances by 4, leaves the bytes after it alone |
| DiskBitmap.ReadAfterWrite16 | translators/disk_bitmap.c:98-118 | a 16-bit value written at an offset reads back as that value |
| DiskBitmap.ReadAfterWrite32 | translators/disk_bitmap.c:106-124 | a 32-bit value written at an offset reads back as that value |
| DiskBitmap.EncodeFileHeader | translators/disk_bitmap.c:222-226 | the file header takes 14 bytes |
| DiskBitmap.WithInfoHeader | translators/disk_bitmap.c:227-237 | the information header adds 40 bytes |
| DiskBitmap.Encode | translators/disk_bitmap.c:219-237 | the two headers take the 54 header bytes |
| DiskBitmap.Stride | translators/disk_bitmap.c:185 | the row stride computed in 32 bits is a whole number of 4-byte words, and its bits are at most the 32-bit value of width × bpp + 31 |
| DiskBitmap.StrideIsRowWords | translators/disk_bitmap.c:185 | without wrap-around the stride `((w·bpp+31)>>5)<<2` is four bytes per row word, a multiple of 4 holding the row's bits with less than a word of padding |
| DiskBitmap.PaletteBound | translators/disk_bitmap.c:196-202 | after a zero count is widened to 2^bpp, the shift test passes exactly when the count is at most 2^bpp |
| DiskBitmap.PaletteAccepted | translators/disk_bitmap.c:196-215 | when the palette tests pass, the parse yields the header's fields, the colour table at 54 and the pixel array at the offset field |
| DiskBitmap.PixelsEnd | translators/disk_bitmap.c:185-187 | the end of the pixel array computed in 32 bits is the exact end whenever that fits in 32 bits |
| DiskBitmap.Check | translators/disk_bitmap.c:126-217 | a header that passes has the right magic, the file's size and a pixel offset inside the file, and gives back its size, depth and pixel offset |
| DiskBitmap.Parse | translators/disk_bitmap.c:126-217 | a buffer that parses holds the 54 header bytes, a supported depth and a pixel offset within the buffer |
| DiskBitmap.CheckIff | translators/disk_bitmap.c:127-215 | the checks pass exactly for an acceptable header (magic, size, offset, header size, planes, depth, compression, overflow, palette, table placement) and then carry its fields, a creatable header, the table at 54 and the pixels at the offset |
| DiskBitmap.ParseIff | translators/disk_bitmap.c:126-217 | a buffer parses exactly when it is well formed, and then as the field checks say |
| DiskBitmap.ParseAcceptable | translators/disk_bitmap.c:126-217 | a buffer whose fields are acceptable parses to those fields with the colour count in use |
| DiskBitmap.PixelsWithinFile | translators/disk_bitmap.c:185-190 | when the 32-bit sums do not wrap, the overflow test means the pixel array ends within the file |
| DiskBitmap.ParseBitmapInfo | translators/disk_bitmap.c:126-217 | the cursor-driven parse, reading each field in file order and stopping at the first broken rule, equals the parse function |
| DiskBitmap.FileSize | translators/disk_bitmap.c:75-77 | the file size covers at least the headers and the colour table |
| DiskBitmap.DumpBitmapInfo | translators/disk_bitmap.c:219-241 | the 54 header bytes hold the encoded header for the bitmap, the rest of the buffer is unchanged, the table goes at 54 and the pixels at 54 + 4·colours |
| DiskBitmap.DumpFileHeader | translators/disk_bitmap.c:220-226 | bytes 0 to 14 are the file header, with pixel offset 54 + 4·colours in 32 bits |
| DiskBitmap.DumpInfoHeader | translators/disk_bitmap.c:227-237 | the 40 bytes after the cursor are the information header |
| DiskBitmap.HeaderFor | translators/disk_bitmap.c:219-237 | the header written carries the bitmap's size, depth and colour count, one plane, no compression, a 40-byte info header and, below 2^32, the exact file size |
| DiskBitmap.HeaderOfEncode | translators/disk_bitmap.c:219-237 | decoding the fields of an encoded header gives the header back |
| DiskBitmap.HeaderForAcceptable | translators/disk_bitmap.c:219-237 | the header dumped for a creatable bitmap whose file size fits in 32 bits passes every parse check, with the bitmap's own colour count |
| DiskBitmap.ParseHeaderFor | translators/disk_bitmap.c:126-237 | a buffer with the dumped header fields parses back to the bitmap's header |
| DiskBitmap.DumpThenParse | translators/disk_bitmap.c:219-237 | a file-sized buffer whose first 54 bytes were dumped from a creatable bitmap parses back to its width, height, depth, resolution and colour count, with the table at 54 and the pixels right after it |
| BitmapPoints.CanvasOf | translators/bitmap_pointslist.c:17 | the canvas has the bitmap's size and each pixel as get_pixel reads it (at 24 bits, the corrected read) |
| BitmapPoints.RowMatches | translators/bitmap_pointslist.c:15-28 | a row yields at most one match per column scanned |
| BitmapPoints.RowMatchesExact | translators/bitmap_pointslist.c:15-28 | a row's matches are exactly its pixels of that colour before column n, left to right |
| BitmapPoints.RowMatchesStep | translators/bitmap_pointslist.c:15-27 | scanning one more column appends its point exactly when it has the colour |
| BitmapPoints.MatchesExact | translators/bitmap_pointslist.c:14-29 | the matches of the first rows are exactly their pixels of that colour, in row-major order |
| BitmapPoints.AllMatches | translators/bitmap_pointslist.c:5-41 | every point the scan lists lies on the bitmap's canvas, and there is none without a bitmap |
| BitmapPoints.AllMatchesExact | translators/bitmap_pointslist.c:5-31 | the scan's result is exactly the canvas pixels of that colour, each once, in row-major order |
| BitmapPoints.Overlay | translators/bitmap_pointslist.c:19-25 | writing matches at the running count fills the leading slots, as far as the list reaches |
| BitmapPoints.OverlayStep | translators/bitmap_pointslist.c:19-26 | writing the next match at the running count extends the overlay by that match |
| BitmapPoints.GetPoints | translators/bitmap_pointslist.c:5-31 | returns the number of matching pixels; a given list holds the matches in its leading slots, with writes past its end dropped |
| BitmapPoints.ScanRows | translators/bitmap_pointslist.c:14-29 | the outer loop counts the canvas's matches, row by row, and leaves them in the leading slots of a given list |
| BitmapPoints.ScanRow | translators/bitmap_pointslist.c:15-28 | the inner loop adds the row's matches to the count and to the list |
| BitmapPoints.ScanPixel | translators/bitmap_pointslist.c:16-27 | one column adds its pixel to the count and to the list exactly when the pixel has the colour |
| BitmapPoints.Record | translators/bitmap_pointslist.c:19-25 | writing a match at the running count extends the list by that match |
| BitmapPoints.GetPointsList | translators/bitmap_pointslist.c:33-41 | the count pass sizes a new list, which the second pass fills with exactly the matching pixels in row-major order (at 24 bits, matching through the corrected read, see Findings) |
| BitmapPoints.Paint | translators/bitmap_pointslist.c:52-58 | setting the listed points keeps the shape of the pixel array |
| BitmapPoints.Outside | translators/bitmap_pointslist.c:51-59 | the count of points off the canvas is at most the number of points |
| BitmapPoints.OutsideBound | translators/bitmap_pointslist.c:51-59 | at most all points fall off the canvas, and all of them do exactly when none lies on it |
| BitmapPoints.PaintLast | translators/bitmap_pointslist.c:52-58 | painting a list reads at (x, y) as painting all but the last point, unless that last point is (x, y) |
| BitmapPoints.PaintReadBack | translators/bitmap_pointslist.c:52-58 | after drawing, a canvas pixel holds the colour cut to the depth if listed and its old value otherwise (at 24 bits, through the corrected read) |
| BitmapPoints.DrawPointsList | translators/bitmap_pointslist.c:43-60 | -1 without a bitmap or a list; otherwise returns the number of points off the canvas, and each canvas pixel reads the colour if listed and its old value otherwise (at 24 bits, through the corrected read) |
| EdgeHeap.Delta | translators/shortcycle.c:17-19 | the absolute difference: zero exactly for equal coordinates, and one plus it gives the other |
| EdgeHeap.Sqd | translators/shortcycle.c:21-25 | the 32-bit key is zero from a point to itself and never more than the exact squared distance |
| EdgeHeap.SqdSymmetric | translators/shortcycle.c:21-25 | the squared distance is symmetric and zero from a point to itself |
| EdgeHeap.SqdExact | translators/shortcycle.c:21-25 | with coordinate differences of at most 46340 the 32-bit sum does not wrap and is dx² + dy² |
| EdgeHeap.HeapRootIsMin | translators/shortcycle.c:64-68 | the root of a heap holds a shortest edge |
| EdgeHeap.HeapMin | translators/shortcycle.c:68 | no edge of a heap is shorter than its root |
| EdgeHeap.SiftUpStep | translators/shortcycle.c:47-53 | moving the parent down into the hole keeps the sift-up invariant one level up |
| EdgeHeap.SiftUpDone | translators/shortcycle.c:49-57 | a sift-up that stops below a parent no longer than the edge leaves a heap |
| EdgeHeap.SiftingUpDone | translators/shortcycle.c:55-58 | writing the edge into the hole gives a heap holding the old edges plus that one |
| EdgeHeap.SiftingDownStep | translators/shortcycle.c:86-88 | moving the shorter child up into the hole keeps the sift-down invariant |
| EdgeHeap.SiftingDownDone | translators/shortcycle.c:89-105 | filling the hole with the old last edge leaves a heap of the old edges less the root |
| EdgeHeap.RowPairs | translators/shortcycle.c:42-59 | row i yields the pairs (i, k) for k from j below n, in order |
| EdgeHeap.Keyed | translators/shortcycle.c:45-57 | every pair becomes one edge |
| EdgeHeap.PairsBeforeMember | translators/shortcycle.c:39-60 | the pairs of the rows before i are exactly the pairs with first index below i |
| EdgeHeap.PairsBeforeLength | translators/shortcycle.c:39-60 | the rows before i hold i(2n-i-1)/2 pairs |
| EdgeHeap.LastRowEmpty | translators/shortcycle.c:39 | the loop may stop at row n-2, since row n-1 has no pair |
| EdgeHeap.EdgeCount | translators/shortcycle.c:32 | the capacity `((n-1)·n)/2` is exactly half of n(n-1) |
| EdgeHeap.CompleteEdgesLength | translators/shortcycle.c:32-59 | the complete graph has n(n-1)/2 edges, exactly the capacity allocated |
| EdgeHeap.CompleteEdgesMember | translators/shortcycle.c:39-59 | an edge is present exactly when it joins src < dst below n with their squared distance |
| EdgeHeap.CompleteEdgesSorted | translators/shortcycle.c:39-59 | the edges come in strictly increasing (src, dst) order, so each pair occurs once |
| EdgeHeap.CompleteGraph.constructor | translators/shortcycle.c:33-38 | an empty heap with the given capacity for n points |
| EdgeHeap.CompleteGraph.Insert | translators/shortcycle.c:45-58 | sift-up insertion adds exactly that edge to the multiset, increments the count and keeps the heap property |
| EdgeHeap.CompleteGraph.PopShortest | translators/shortcycle.c:64-107 | -1 and no change on an empty heap; otherwise 0, returns the old root (an edge of minimal key), removes exactly it from the multiset, decrements the count and keeps the heap property |
| EdgeHeap.CompleteGraph.SiftDownLast | translators/shortcycle.c:70-105 | re-inserting the old last edge from the root leaves a heap of the old edges less the root |
| EdgeHeap.CompleteGraph.MoveUp | translators/shortcycle.c:86-88 | one sift-down step keeps the sift-down invariant with the hole at the child |
| EdgeHeap.CompleteGraph.FillHole | translators/shortcycle.c:89-105 | writing the re-inserted edge into the hole ends the pop correctly |
| EdgeHeap.GetCompleteGraph | translators/shortcycle.c:27-62 | null for an absent or empty list; otherwise a heap of exactly the n(n-1)/2 edges, one per pair i < j with its squared distance, filling the allocated capacity |
| EdgeHeap.InsertRow | translators/shortcycle.c:40-59 | one pass of the outer loop adds row i's edges |
| EdgeHeap.InsertRowAfter | translators/shortcycle.c:42-59 | the inner loop adds the pairs (i, j) for every j > i |
| EdgeHeap.InsertPair | translators/shortcycle.c:43-58 | one inner step inserts the edge (i, j) keyed by its squared distance |
| Rings.RotRing | translators/shortcycle.c:205 | a ring read from any of its slots is a ring of the same slots |
| Rings.Relinked | translators/shortcycle.c:147-150 | the relinking keeps the arena size |
| Rings.RelinkedFrame | translators/shortcycle.c:147-150 | the relinking changes no slot below the new ones other than src and dst |
| Rings.AfterOK | translators/shortcycle.c:147-150 | the rest of a ring after a slot is a path of distinct slots leading back to it |
| Rings.SideOK | translators/shortcycle.c:147-150 | each side of the splice is a path of distinct slots under the new links |
| Rings.SplicedMembers | translators/shortcycle.c:147-150 | the merged ring holds the slots of both rings and the two new steps |
| Rings.SidesDisjoint | translators/shortcycle.c:147-150 | the two sides of a splice of disjoint rings share no slot |
| Rings.ConcatRing | translators/shortcycle.c:149-150 | two disjoint paths, each linked to the start of the other, form one ring |
| Rings.SpliceRing | translators/shortcycle.c:147-151 | copying src and dst and crossing their links turns two disjoint rings into one ring of all their steps and the two copies |
| Cycles.Merge | translators/shortcycle.c:137 | linking root d under s moves exactly the points of fragment d into fragment s |
| Cycles.Copied | translators/shortcycle.c:147-148 | appending copies of two steps keeps the arena size |
| Cycles.Redirect | translators/shortcycle.c:127-131 | pointing a non-root point straight at its root keeps the forest and every root |
| Cycles.Link | translators/shortcycle.c:137 | linking root d under root s merges their fragments, keeps a forest, and removes d from the roots |
| Cycles.LinkStep | translators/shortcycle.c:136-137 | after the link both endpoints share a root; the roots merge only when they differed |
| Cycles.CompressStep | translators/shortcycle.c:127-131 | one compression step keeps the forest and moves strictly closer to the root |
| Cycles.CompressedRoots | translators/shortcycle.c:127-143 | path compression changes no root |
| Cycles.ForestFrame | translators/shortcycle.c:122-143 | the union-find state depends only on the root links below n |
| Cycles.SpliceRefs | translators/shortcycle.c:147-150 | the copies refer to the points of the steps they copy |
| Cycles.SpliceFrag | translators/shortcycle.c:147-151 | after the splice the copies and the whole of fragment dr belong to sr |
| Cycles.SpliceRings | translators/shortcycle.c:147-151 | after the splice each remaining fragment has one ring, the merged one holding both old rings |
| Cycles.SpliceInv | translators/shortcycle.c:144-151 | a merge keeps the arena invariant with two more steps and one fragment fewer |
| Cycles.Initial | translators/shortcycle.c:166-171 | after the first loop every point is its own root, alone in its ring |
| Cycles.InitialRings | translators/shortcycle.c:166-171 | self-linked steps form one singleton ring per point |
| Cycles.TwoRoots | translators/shortcycle.c:159 | two distinct roots leave room for one more merge within 3n-2 steps |
| Cycles.CycleArena.constructor | translators/shortcycle.c:159-165 | an arena of 3n-2 steps for n points, none in use |
| Cycles.CycleArena.InitSteps | translators/shortcycle.c:165-171 | n steps in use, each its own point, root and ring |
| Cycles.CycleArena.SelfLink | translators/shortcycle.c:166-171 | the loop self-links steps 0 to n-1 |
| Cycles.CycleArena.AddEdge | translators/shortcycle.c:121-153 | src and dst end with the same root; a same-fragment edge leaves steps_num, the rings and the step links unchanged; otherwise steps_num grows by exactly 2, the fragments merge, one root is gone and the two rings are spliced |
| Cycles.CycleArena.Unite | translators/shortcycle.c:122-143 | finds both roots, compresses both paths and links the root of dst under the root of src, keeping the forest |
| Cycles.CycleArena.Splice | translators/shortcycle.c:147-151 | copies src and dst into the next two steps and crosses their links, restoring the arena invariant |
| Cycles.CycleArena.CopySteps | translators/shortcycle.c:147-150 | the two new steps copy src and dst, and src and dst link to the copies of each other |
| Cycles.CycleArena.FindRoot | translators/shortcycle.c:123-125 | the root-following loop ends at the root of the point's fragment |
| Cycles.CycleArena.Compress | translators/shortcycle.c:127-131 | every point on the path from x to its root is linked straight to the root |
| Tour.QueuedInitially | translators/shortcycle.c:166-172 | before the greedy loop every point is alone and every edge is in the heap |
| Tour.QueuedStep | translators/shortcycle.c:174-175 | popping an edge and adding it keeps every cross-fragment pair in the heap |
| Tour.CrossEdgeRemains | translators/shortcycle.c:172-177 | while the arena is not full the heap is not empty, so the pop never fails and the loop terminates |
| Tour.OneFragment | translators/shortcycle.c:159-172 | with 3n-2 steps in use exactly one fragment is left |
| Tour.GetCycle | translators/shortcycle.c:155-179 | null for no point; otherwise a valid arena for n points with steps_num = 3n-2 and a single fragment |
| Tour.GreedyStep | translators/shortcycle.c:173-176 | one round pops (which cannot fail) and adds an edge, keeping the greedy invariant with fewer edges |
| Tour.Hop | translators/shortcycle.c:205-208 | a hop lands on a step of the arena |
| Tour.WalkRefs | translators/shortcycle.c:194-208 | the walk emits one point reference per hop |
| Tour.NoTwoOriginals | translators/shortcycle.c:205-208 | on the final ring an original step is followed by a copy |
| Tour.LastIsCopyOfZero | translators/shortcycle.c:191-208 | the last step of the final ring is a copy of point 0 |
| Tour.WalkAlongRing | translators/shortcycle.c:205-208 | the hops, which skip a repeated point, emit exactly the kept steps of the rest of the ring |
| Tour.WalkAfterHop | translators/shortcycle.c:205-208 | after one hop from a kept step the walk emits the rest of the kept steps, the hop skipping an original |
| Tour.KeptTotal | translators/shortcycle.c:185 | the final ring without its last step has 2n-2 kept steps |
| Tour.EveryPointKept | translators/shortcycle.c:194-208 | every input point is among the kept steps |
| Tour.WalkCoversAll | translators/shortcycle.c:185-209 | the 2n-2 hops from step 0 emit every point, starting with point 0 |
| Tour.FinishedRing | translators/shortcycle.c:172-178 | the finished arena's single ring from step 0 holds every step |
| Tour.FragIsRoot | translators/shortcycle.c:122-143 | the fragment of every step in use is a root |
| Tour.LinkPoints | translators/shortcycle.c:181-211 | 2n-2 points written back to front from the walk; for n ≥ 2 every input point occurs and point 0 is last |
| Tour.WalkBack | translators/shortcycle.c:193-209 | the walk loop writes each emitted point just below the ones already written |
| Tour.WalkLoopStep | translators/shortcycle.c:195-208 | one turn of the loop emits the point of the current step and advances one hop |
| Tour.NextSlot | translators/shortcycle.c:205-208 | the hop on the arena's arrays equals the hop function and stays among the steps in use |
| Tour.WriteBack | translators/shortcycle.c:195-204 | writing the next reference's point just below extends the written-back part by it |
| Tour.Covered | translators/shortcycle.c:204 | written back from a walk covering every point and starting at 0, every point occurs and point 0 is last |
| Tour.Emitted | translators/shortcycle.c:196-204 | every point written is one of the input points |
| Tour.ShortCycle | translators/shortcycle.c:213-226 | null for an absent or empty list; otherwise 2n-2 points, each an input point; for n ≥ 2 every input point occurs and point 0 is in the last place |
| MiniFourier.KindNamed | mini_fourier.c:394-404 | the option found has the name searched for, and none is found only when no option has it |
| MiniFourier.KindNamedName | mini_fourier.c:258-345 | option names are distinct, so each option is found from its name |
| MiniFourier.TableListsAll | mini_fourier.c:258-345 | the table lists every option exactly once |
| MiniFourier.FindOption | mini_fourier.c:394-400 | the linear search stops at the first entry with that name, or at the end of the table |
| MiniFourier.FoundOption | mini_fourier.c:394-404 | the search result designates the option called by that name, or none |
| MiniFourier.BasisNamed | mini_fourier.c:72-81 | `fourier`, `heaviside` and `legendre` select their bases, and nothing else selects one |
| MiniFourier.Convert | mini_fourier.c:94-100 | a converted parameter has the shape of its option's field |
| MiniFourier.Apply | mini_fourier.c:37-248 | a parser accepts its option only when it was not given before and has a parameter exactly when the option takes one |
| MiniFourier.ApplyRefuses | mini_fourier.c:38-45 | a repeated option or a missing parameter is refused and changes nothing |
| MiniFourier.ApplyOnlyItsOption | mini_fourier.c:37-248 | an accepted option was not given before and is given afterwards; every other option's field is unchanged |
| MiniFourier.ApplyAllAppend | mini_fourier.c:385-420 | applying two runs of options is applying the second from where the first left off |
| MiniFourier.ApplyAllStep | mini_fourier.c:413-416 | after an accepted run the next option's parser decides, and a refusal ends the run |
| MiniFourier.ApplyAllOthers | mini_fourier.c:385-420 | an option that does not occur keeps its field |
| MiniFourier.ApplyAllAccepted | mini_fourier.c:383-421 | an accepted command line repeats no option and gives none given before, and each one is given afterwards |
| MiniFourier.Split | mini_fourier.c:385-418 | reading the command line gives options each with a parameter exactly when it takes one, and no more options than words |
| MiniFourier.WordsOfSplit | mini_fourier.c:385-418 | a command line read completely is spelled back as the same words |
| MiniFourier.SplitOfWords | mini_fourier.c:385-418 | spelling well-formed options and reading them back gives the same options, completely |
| MiniFourier.SplitStops | mini_fourier.c:386-407 | reading stops at a word that is not `--name` for a known option or lacks its parameter |
| MiniFourier.SplitTakes | mini_fourier.c:394-417 | a known `--name` takes its parameter when it has one, and reading goes on after it |
| MiniFourier.ReadOption | mini_fourier.c:386-412 | reading word i either stops or yields one option and the index of the next word |
| MiniFourier.ParsedEnd | mini_fourier.c:385-420 | a run ending after accepted options is the parse's outcome |
| MiniFourier.ParsedRefused | mini_fourier.c:413-416 | a run ending at a refused option is a failed parse |
| MiniFourier.ArgsState.constructor | mini_fourier.c:470 | the state starts all zero |
| MiniFourier.ArgsState.ParseSource | mini_fourier.c:37-48 | 0 exactly when the source was not set and a parameter is present, which is then stored; -1 otherwise, leaving the state |
| MiniFourier.ArgsState.ParseDestinationPrefix | mini_fourier.c:50-61 | 0 exactly when not yet set and a parameter is present, which is stored |
| MiniFourier.ArgsState.ParseBase | mini_fourier.c:63-83 | 0 exactly when not yet set and the parameter names a known basis, which is stored |
| MiniFourier.ArgsState.ParseStartingMode | mini_fourier.c:85-102 | 0 exactly when not yet set and the conversion consumes the parameter; the converted number is stored even on a conversion failure, and the flag only on success |
| MiniFourier.ArgsState.ParseModeIncrement | mini_fourier.c:104-121 | as for the starting mode, on the increment |
| MiniFourier.ArgsState.ParseModeQuad | mini_fourier.c:123-140 | as for the starting mode, on the quadratic step |
| MiniFourier.ArgsState.ParsePictures | mini_fourier.c:142-159 | as for the starting mode, on the number of pictures |
| MiniFourier.ArgsState.ParseXScale | mini_fourier.c:161-178 | as for the starting mode, with a real conversion |
| MiniFourier.ArgsState.ParseXShift | mini_fourier.c:180-197 | as for the x scale |
| MiniFourier.ArgsState.ParseYScale | mini_fourier.c:199-216 | as for the x scale |
| MiniFourier.ArgsState.ParseYShift | mini_fourier.c:218-235 | as for the x scale |
| MiniFourier.ArgsState.ParseHelp | mini_fourier.c:237-248 | 0 exactly when help is not yet set and no parameter is given; then help is set |
| MiniFourier.ArgsState.ParseOption | mini_fourier.c:413 | the parser that the table names for the option does what that option's parser does |
| MiniFourier.ArgsState.ParseArgs | mini_fourier.c:383-421 | 0 exactly when the whole line reads as known options with their parameters and every parser accepts; the state is what the parsers left, up to the first refusal |
| MiniFourier.ArgsState.SetDefaults | mini_fourier.c:423-467 | fails and changes nothing exactly when no source is set; otherwise fills the defaults |
| MiniFourier.Defaults | mini_fourier.c:427-466 | the source and help are kept and a destination prefix is set |
| MiniFourier.DefaultsFill | mini_fourier.c:423-467 | afterwards every option but help is given: a given one keeps its value, others take the default (prefix = source, base fourier, start 0, increment 1, quad 0, pictures 1, scales 1.0, shifts 0.0) |
| MiniFourier.DefaultsIdempotent | mini_fourier.c:427-466 | filling the defaults twice changes nothing more |
| MiniFourierMain.LastMode | mini_fourier.c:485 | the bound on the modes, computed exactly, is at least start + pictures × increment |
| MiniFourierMain.CMode | mini_fourier.c:610-673 | the mode of frame k is at least the starting mode, and at least k above it when the increment is positive |
| MiniFourierMain.Gap | mini_fourier.c:673 | the step between frames is at least the increment |
| MiniFourierMain.GapClosedForm | mini_fourier.c:673 | the step after frame k is increment + k·quad |
| MiniFourierMain.CModeClosedForm | mini_fourier.c:610-673 | at frame k, cmode = start + k·increment + quad·k(k-1)/2 |
| MiniFourierMain.CModeExample | mini_fourier.c:610-673 | start 0, increment 2, quad 1 give modes 0, 2, 5 |
| MiniFourierMain.CModeBound | mini_fourier.c:485 | no frame up to pictures exceeds last_mode = pictures·(pictures·quad + increment) + start |
| MiniFourierMain.CModeIncreasing | mini_fourier.c:672-673 | with increment at least 1 the modes strictly increase from frame to frame |
| MiniFourierMain.PaddedValue | mini_fourier.c:663 | the zero-padded decimal reads back as the number |
| MiniFourierMain.PaddedLength | mini_fourier.c:663 | a number below 10^w takes exactly w digits |
| MiniFourierMain.PaddedAtLeast | mini_fourier.c:663 | a number of at least 10^m takes more than m digits |
| MiniFourierMain.PaddedRoundTrip | mini_fourier.c:663 | `%06zu` reads back as the mode and takes six digits for modes up to 999999 |
| MiniFourierMain.FileName | mini_fourier.c:663 | a picture name starts with the prefix cut to keep characters, then `_`, and ends in `.bmp` |
| MiniFourierMain.FileNameShape | mini_fourier.c:663 | a picture name for a mode up to 999999 takes at most keep + 11 characters and ends in `.bmp` |
| MiniFourierMain.FileNameInjective | mini_fourier.c:663 | two modes up to 999999 get different names |
| MiniFourierMain.Names | mini_fourier.c:608-663 | frame k's picture is named after its cmode |
| MiniFourierMain.NamesDistinct | mini_fourier.c:663-673 | with increment at least 1 and modes of six digits, no two frames share a name |
| MiniFourierMain.Validate | mini_fourier.c:485-507 | with the bound computed exactly (see Findings): the first refusal is for too many modes exactly when the bound exceeds 999999; a run that passes has increment at least 1, a bound of six digits and a prefix that leaves room for the name in the buffer |
| MiniFourierMain.ValidatedPlan | mini_fourier.c:485-507 | options that pass the checks have increment at least 1, every frame's mode within last_mode ≤ 999999, and every name with its terminating zero fits the 256-byte buffer |
| MiniFourierMain.Wrap64 | mini_fourier.c:485 | a `size_t` result equals the exact value when it fits in 64 bits |
| MiniFourierMain.LastModeAsWritten | mini_fourier.c:485 | the bound as `main` computes it in `size_t` is the exact bound modulo 2^64 |
| MiniFourierMain.LastModeNoWrap | mini_fourier.c:485 | while the bound fits in 64 bits, the computation in `main` gives it exactly |
| MiniFourierMain.LastModeWrapMissed | mini_fourier.c:485-489 | with 2^32 pictures and increment 2^32 the computed bound wraps to 0 and passes, while frame 1 draws mode 2^32, whose name is at least four characters longer than the check allows for |
| MiniFourierMain.StopFrom | mini_fourier.c:611-670 | the loop runs to the first failing frame, or to pictures when none fails |
| MiniFourierMain.StopAt | mini_fourier.c:611-670 | the loop stops at a frame that fails after frames that did not |
| MiniFourierMain.Accumulation | mini_fourier.c:614-620 | modes 0 to n-1 are handed over in increasing order, each with the coefficient read from the list |
| MiniFourierMain.SpanBound | mini_fourier.c:567 | the accumulated modes stay within the last_mode + 1 coefficients |
| MiniFourierMain.Projection | mini_fourier.c:582-587 | the list holds the coefficient of each mode below the count |
| MiniFourierMain.Project | mini_fourier.c:567-587 | two new lists of last_mode + 1 coefficients, one per mode, for X and for Y |
| MiniFourierMain.Accumulate | mini_fourier.c:614-620 | the inner loop extends the accumulated modes from omode up to cmode |
| MiniFourierMain.Render | mini_fourier.c:622-669 | the frame fails exactly when its merge, canvas, drawing or write fails; otherwise the picture's name is the file name of cmode |
| MiniFourierMain.FramesStart | mini_fourier.c:608-610 | before the first frame omode = 0, cmode = start and nothing is written |
| MiniFourierMain.FramesNext | mini_fourier.c:614-673 | a frame that does not fail accumulates its modes, writes its picture, sets omode = cmode + 1 and advances cmode by the gap |
| MiniFourierMain.RanUntilFailure | mini_fourier.c:622-670 | a failing frame ends the loop with -1 after accumulating its modes and without moving omode or cmode |
| MiniFourierMain.RanToEnd | mini_fourier.c:611 | the loop ends with 0 after the last frame when none failed |
| MiniFourierMain.Advance | mini_fourier.c:673 | the loop's `increment + k·quad` is the gap of the schedule |
| MiniFourierMain.Frames | mini_fourier.c:608-674 | the frame loop ends as the schedule says: -1 at the first failing frame, 0 otherwise, with the pictures written and the modes accumulated up to there |
| MiniFourierMain.Frame | mini_fourier.c:610-673 | one pass of the frame loop: a failing step gives the loop's result -1, otherwise the state before the next frame, with the picture named and the modes accumulated |
| MiniFourierMain.Configured | mini_fourier.c:470-483 | the options `main` continues with have a source, a destination prefix and no help request |
| MiniFourierMain.ReadArguments | mini_fourier.c:470-483 | reading the line and filling the defaults gives the configured options, or none when either fails or help is asked |
| MiniFourierMain.Run | mini_fourier.c:469-683 | the program's outcome is the session the options, the checks, the loading and the frames decide |
| MiniFourierMain.RefusedBeforeLoading | mini_fourier.c:485-507 | with the bound computed exactly (see Findings), a bound above 999999 or a zero increment refuses the run before anything is loaded |
| MiniFourierMain.Session | mini_fourier.c:469-683 | a run ends with 0 or -1, and writes a picture only after the options are read, pass the checks and the source is loaded |
| MiniFourierMain.SessionResult | mini_fourier.c:469-683 | the result is 0 or -1, and 0 exactly when the options are read and pass the checks, the source loads and no frame fails |
| MiniFourierMain.FirstFailure | mini_fourier.c:622-670 | the first failing frame k ends the run with -1, k pictures written and the modes up to cmode(k) accumulated |
| MiniFourierMain.ValidatedNames | mini_fourier.c:491-503 | for options that pass the checks the names of the frames are well formed |
| MiniFourierMain.SessionNames | mini_fourier.c:663 | with the bound computed exactly (see Findings), every picture written has a name ending in `.bmp` that fits the buffer, and no two pictures share a name |
| MiniFourierMain.SessionModes | mini_fourier.c:614-620 | the run hands over modes 0, 1, 2, … once each in order, with their coefficients, never beyond last_mode |
| MiniFourierMain.FrameRangesApart | mini_fourier.c:672-673 | the modes of an earlier frame all come before the first mode of a later one |
| MiniFourierMain.FrameRangesDisjoint | mini_fourier.c:614 | no mode lies in the ranges of two different frames |
| MiniFourierMain.FrameOfMode | mini_fourier.c:609-673 | the ranges [omode, cmode] follow each other without gap: every mode up to the last cmode belongs to one frame |

## Left out

- File I/O is not part of this model:
  - `disk_to_bitmap` and `bitmap_to_disk` (`open`, `lseek`, `read`, `write`), and so also how they chain parse, create, `set_color_map` and `set_bitmap`;
  - the `dprintf` diagnostics;
  - `show_help`.
- The floating-point work is not part of this model: the basis functions (types/fbase.c), `scalar_product`, `add_base_vector`, `merge_doubles_list`, `split_points_list` and `homothetie`.
  - The projection enters as two coefficient functions given to `MiniFourierMain.Project`.
  - The accumulation is recorded as the list of (mode, coefficient) terms handed over.
  - The outcome of each frame's merge, canvas, drawing and write is given as a map from frame to first failing step (`Failures`).
  - Loading and preparing the source picture before the loop is one flag (`Env.prepared`).
- The diagnostic CLI check_base.c is not part of this model.
- `strtoull` and `strtod` are not defined: they enter as `Converters`, giving a value and whether the whole parameter was consumed.
- C strings are `seq<char>`. The empty-argument and `--` prefix tests of `parse_args` become a test on the word.
- NULL out-pointers are not modelled (`color_index`, `color` and `pt` passed as NULL). Out-parameters are results.
- Bitmaps.SetBitmap, Bitmaps.GetBitmap: a NULL `bitmap` buffer is not modelled. The buffers are sequences, so the -1 these functions return for a NULL buffer with a matching size (types/bitmap.c:250-251, 267-268) has no counterpart.
- `malloc` failures are not modelled: every allocation succeeds. The same holds for the copy-paste test of `sx` instead of `sy` at mini_fourier.c:576, which only matters when an allocation fails.
- The `destroy_*` functions only free and clear memory, and are left out.
- `lsqd` in `link_points_` is a diagnostic the code never uses, and is left out.
- No bound on the total length of the walk is modelled, such as being no longer than a random doubled walk. The greedy heuristic makes no such promise in the code, and it would be a statement about optimality.
- Bitmaps.CreateRawBitmap: requires that the `uint32_t` arithmetic for `line_words` and `bitmap_size` at types/bitmap.c:178-179 does not wrap (`SizesFit`) for headers that pass the tests. It does not model a wrapped allocation size.
- Bitmaps.RawBitmap.constructor: the same no-wrap assumption on the sizes as `CreateRawBitmap`.
- Bitmaps.GetSetPixel: at 24 bits the round trip holds of the corrected read. With the read at types/bitmap.c:63-71 it holds only for x mod 4 = 0 (`Get24AsWrittenAtGroupStart`).
- Bitmaps.GetSetOther: at 24 bits, pixels are left unchanged as the corrected read sees them. With the read at types/bitmap.c:63-71, setting a pixel can change a neighbour in its group of four (`Set24AsWrittenMovesNeighbour`).
- Bitmaps.SetThenGet: at 24 bits, both halves hold of the corrected read only, as for `GetSetPixel` and `GetSetOther`.
- Bitmaps.SetThenGetInRow: at 24 bits, both halves hold of the corrected read only, as for `GetSetPixel` and `GetSetOther`.
- Bitmaps.SetPixel: at 24 bits, the read-back clauses hold of the corrected read only. The stored words are those of the source's `set_pixel`.
- BitmapPoints.PaintReadBack: at 24 bits, holds of the corrected read only.
- BitmapPoints.DrawPointsList: at 24 bits, the read-back clause holds of the corrected read only. The count of points off the canvas does not depend on the read.
- Bitmaps.Get24Set24: the round trip holds of the corrected read `Read24`. With the read at types/bitmap.c:64-70 it fails for x mod 4 in {1, 2, 3} (`Get24AsWrittenLoses`).
- Bitmaps.Read24Other: the other three pixels are unchanged as `Read24` sees them. With the read at types/bitmap.c:64-70, storing pixel 0 changes what pixel 1 reads (`Set24AsWrittenMovesNeighbour`).
- BitmapPoints.CanvasOf: at 24 bits the canvas holds the pixels as the corrected read gives them, not as types/bitmap.c:64-70 reads them.
- BitmapPoints.GetPointsList: on a 24-bit bitmap the list is exact for the corrected read. The source's read can list other pixels, or miss some, at x mod 4 in {1, 2, 3}.
- BitmapPoints.GetPoints: the same as `GetPointsList` for the count and the filled list.
- Bitmaps.ByteInWithByte, Bitmaps.HalfInWithHalf, Bitmaps.PackedIn, Bitmaps.PackedStore, Bitmaps.WordsOf, Bitmaps.BytesOf, Bitmaps.SetBitmap, Bitmaps.GetBitmap: these assume a little-endian host. The source reaches bytes and half-words of a 32-bit word through pointer casts (types/bitmap.c:39-44, 53-55, 89-111) and copies the pixel array with `memcpy` (types/bitmap.c:253, 270). The model fixes byte `i` of a word as bits `8i` to `8i + 7`. A big-endian host, where the same code would address other bits, is not modelled.
- Bitmaps.GetPixel: for 24-bit pixels at x mod 4 in {1, 2, 3} it uses the corrected read that inverts `set_pixel` (see Findings). `BitmapPoints.GetPoints` and the scan lemmas read through it as well.
- DiskBitmap.DumpThenParse: proved only for file sizes below 2^32, where the 32-bit size field and the overflow sums at translators/disk_bitmap.c:185-187 do not wrap.
- DiskBitmap.ParseHeaderFor: the same 32-bit file-size assumption as `DumpThenParse`.
- DiskBitmap.HeaderForAcceptable: the same 32-bit file-size assumption as `DumpThenParse`.
- DiskBitmap.StrideIsRowWords: stated only where `width·bpp + 31` fits in 32 bits. The parse itself computes the stride with wrap-around.
- DiskBitmap.PixelsWithinFile: stated only where the 32-bit sums of the overflow test do not wrap.
- EdgeHeap.SqdExact: stated only for coordinate differences of at most 46340. The key itself wraps modulo 2^32 as in the source (`Sqd`).
- EdgeHeap.CompleteGraph.PopShortest: slot indices are unbounded. A heap of more than 2^32 edges, where the `uint32_t` slot at translators/shortcycle.c:71-73 would wrap, is not modelled.
- Tour.ShortCycle: arena slots and point references are unbounded, as in `PopShortest`.
- MiniFourierMain.Project: the coefficients are given functions of the mode, not computed.
- MiniFourierMain.Frames: the steps of each frame after the accumulation succeed or fail as the `Failures` map says. Which pixels are drawn is not modelled.
- MiniFourierMain.RefusedBeforeLoading: stated for the exact bound on the modes. With the `size_t` bound of mini_fourier.c:485-489 a schedule whose bound wraps below 999999 is not refused (`LastModeWrapMissed`, see Findings).
- MiniFourierMain.SessionNames: stated for the exact bound on the modes. With the wrapped bound a name can outgrow the buffer at mini_fourier.c:663 (see Findings).
- MiniFourierMain.Run: the checks use the exact bound on the modes. The `size_t` wrap of that bound is covered by the Findings.
- MiniFourierMain.ReadArguments: the help text shown on a refusal is not modelled, only that the run stops with -1.

## Findings

| source | as written | input that shows it | evidently intended | confidence | as-written member | corrected member |
|---|---|---|---|---|---|---|
| types/bitmap.c:63-71 | For a 24-bit pixel at x mod 4 = 1, 2 or 3, `get_pixel` shifts the low part of the first word left (`<< 24`, `<< 16`, `<< 8`) and masks the next word before shifting it right. `set_pixel` stores the colour the other way round, at types/bitmap.c:120-135. | A 24-bit bitmap, `set_pixel(x = 1, 0x123456)`, then `get_pixel(x = 1)` reads 0x12. | The read reassembles the three bytes `set_pixel` stored, e.g. `(line[s] >> 24) \| ((line[s+1] & 0xffff) << 8)` for x mod 4 = 1, so that reading back gives the colour's low 24 bits. | not executed | Bitmaps.Get24AsWrittenLoses | Bitmaps.GetSet24 |
| mini_fourier.c:485-489 | `last_mode` is computed in `size_t` and wraps modulo 2^64 before it is compared with 999999. | `--pictures 4294967296 --mode_increment 4294967296` gives `last_mode` = 0, which passes the check. Frame 1 then draws mode 4294967296, whose name has 10 digits. With a 248-character source name it needs 260 bytes of the 256-byte `file_name` buffer at mini_fourier.c:663. | The bound is compared without wrap-around, so any schedule that passes keeps every mode within six digits and every name within the buffer. | not executed | MiniFourierMain.LastModeWrapMissed | MiniFourierMain.ValidatedPlan |
