# TGA to Master System bitplanes: a Dafny model

This project models the core of two small converters that turn uncompressed
24- or 32-bit Truevision TGA images into data for the SEGA Master System's
4-bit planar graphics. It proves properties of that model.

- `tga2sms.cpp` has a `TGA_File` object, which:
  - loads and checks the 18-byte header;
  - reads the raw raster;
  - reduces every pixel to a 6-bit `00BBGGRR` colour (`toBGR8`);
  - builds a 16-slot colour palette in first-seen order;
  - fills plane 0 with the reduced pixels (optionally below an 8-row palette band);
  - fills three mirrored copies of plane 0 (horizontal, vertical, both);
  - counts the distinct colours of plane 0.
- `tga2bp.c`, whose whole program is in `main`:
  - applies the same header checks;
  - reads the raster;
  - samples a 16-entry palette from columns 0, 8, …, 120 of the first stored row;
  - dumps width·(height − 8) pixels, starting at pixel 1024, as the bytes R, G, B (the whole rest of the image only when the width is 128).

The modules follow the programs:

| file | module | contents |
|---|---|---|
| `bytes.dfy` | `Bytes` | the C types `BYTE` and `WORD` as bounded integers |
| `arith.dfy` | `Arith` | multiplication facts for the row-major index arithmetic |
| `wrappers.dfy` | `Wrappers` | `Option` and `Result` |
| `tga_header.dfy` | `TgaHeader` | `read_word`; decoding and encoding of the header, which the two programs share; the three checks in source order; skip length and raster size |
| `files.dfy` | `Files` | what `fread` delivers from a file given as a byte sequence |
| `colour.dfy` | `Colour` | `toBGR8` |
| `palette.dfy` | `Palette` | the meaning of `isColorIndexed`, `assignIndex` and the palette scan, on slot sequences |
| `pixels.dfy` | `Pixels` | the B, G, R[, A] pixel layout and the reduced colours of a run of pixels |
| `planes.dfy` | `Planes` | the three mirror images, defined row by row, with their index laws |
| `tga2sms.dfy` | `Tga2Sms` | class `TgaFile`: the object with its arrays and loop methods |
| `tga2bp.dfy` | `Tga2Bp` | class `Converter`: the globals of `tga2bp.c`, the two loops of `main`, and `main` from `fopen` on |

A file is an `Option<seq<Byte>>`, where `None` means that `fopen` failed. The
dump to `raw.img` is the returned byte sequence. Each imperative part of the
source is a method over the model's arrays, proved against a specification
function on sequences. The properties of those functions are proved as lemmas.

Three details of the code that the model keeps as written:
- `tga2bp.c` never checks the count of its header `fread` (tga2bp.c:69).
- The tile-multiple check and the minimum-size check are two separate rejections, made in that order (tga2sms.cpp:175, 180; tga2bp.c:75, 80).
- `loadFromFile` ignores the result of `to8bits` (tga2sms.cpp:203).

## Model

| member | source | states |
|---|---|---|
| `TgaHeader.ReadWord` | tga2sms.cpp:41 | the word's low byte is the byte at the offset and its high byte is the next byte (little-endian) |
| `TgaHeader.ReadWordIsBitwise` | tga2sms.cpp:41 | the arithmetic word equals the low byte ORed with the high byte shifted left by 8, on 16-bit values |
| `TgaHeader.WordBytes` | tga2sms.cpp:41 | the two bytes of a word, low first, which read back as that word |
| `TgaHeader.Decode` | tga2sms.cpp:165-196 | the header fields at the offsets both programs read them: bytes for type, colour-map type and depth, little-endian words for the colour-map length, width and height (tga2bp.c:69-72 reads the same fields from its packed struct) |
| `TgaHeader.DecodeEncode` | tga2bp.c:21-34 | decoding the 18-byte layout of a header (the packed struct's field offsets) gives back the header |
| `TgaHeader.EncodeDecode` | tga2sms.cpp:25-36 | every 18 header bytes are the layout of their decoding, so the two views are equivalent |
| `TgaHeader.Check` | tga2sms.cpp:165-185 | no error exactly when the header is accepted. Indexed-or-compressed exactly when colour-map type ≠ 0 or image type ≠ 2. Not-a-tile-multiple exactly when that check passes and width or height is not a multiple of 8. Too-small exactly when both earlier checks pass and width < 128 or height < 16. tga2bp.c makes the same checks in the same order |
| `TgaHeader.SkipLength` | tga2sms.cpp:186 | the `fseek` distance past the image ID and the colour map: the ID length plus the colour-map length field (tga2bp.c:85 is the same) |
| `TgaHeader.RasterSize` | tga2sms.cpp:187 | the raster byte count depth/8 · width · height, computed exactly (tga2bp.c:86 is the same expression) |
| `TgaHeader.RowBytesFitInt` | tga2sms.cpp:187 | the first product depth/8 · width always fits a signed 32-bit int |
| `TgaHeader.RasterSizeInt` | tga2sms.cpp:187 | the C computation in signed int: defined exactly when the exact size is below 2^31, and then equal to it; None (undefined behaviour) otherwise |
| `TgaHeader.PixelCountsFitInt` | tga2sms.cpp:98 | for depth 24 or 32, where the size product is defined, width · rows fits an int for every rows ≤ height, so `width*height` (tga2sms.cpp:98, 112), `width*actual_height` (tga2sms.cpp:121, 131) and `width*(height-8)` (tga2bp.c:116) do not overflow |
| `TgaHeader.PixelCountsNeedDepth` | tga2sms.cpp:98 | the depth condition is needed: an accepted depth-0 header of 65528 × 65528 has a size product of 0 but a width × height above 2^31 |
| `TgaHeader.RasterSizeDword` | tga2sms.cpp:187 | the size a build whose int arithmetic wraps stores in the DWORD: below 2^32, and the int value wherever that is defined |
| `TgaHeader.AcceptedRasterSize` | tga2sms.cpp:180-187 | an accepted 24/32-bit header has 3 or 4 bytes per pixel and a raster of at least that times 128 × 16 bytes |
| `TgaHeader.RasterSizeDwordExact` | tga2sms.cpp:187 | on a wrapping build the stored size is exact for every raster below 4 GiB |
| `TgaHeader.RasterSizeDwordWraps` | tga2sms.cpp:187 | an accepted 32768 × 32768 32-bit header needs 2^32 bytes: its int product overflows (undefined), and a wrapping build stores 0 |
| `TgaHeader.RasterSizeHoldsPixels` | tga2sms.cpp:187 | the exact raster size leaves room for every one of the width × height pixels |
| `Files.ReadCount` | tga2sms.cpp:197 | fread returns at most the requested count; short only when it reaches the end of the file |
| `Files.ReadBytes` | tga2sms.cpp:197 | fread's bytes are the file's bytes from the read position, as many as ReadCount |
| `Files.BufferAfterRead` | tga2sms.cpp:160 | after fread into a buffer, each position holds the file's byte if the file reaches it, and otherwise keeps its old value |
| `Colour.ToBgr8` | tga2sms.cpp:45-46 | the reduced colour is below 64, and its bit fields 0-1, 2-3 and 4-5 are r/64, g/64 and b/64 |
| `Colour.ToBgr8IsBitwise` | tga2sms.cpp:46 | the arithmetic form equals the shifts right by 6 of r, g and b, placed at bits 0, 2 and 4 and ORed, on bytes |
| `Colour.SameReducedColour` | tga2sms.cpp:45-46 | two pixels reduce to the same colour exactly when each channel has the same two top bits |
| `Palette.SlotColourIsBitwise` | tga2sms.cpp:53 | the slot colour equals the COLOR_PALETTE macro's `& 0xff`, on every value a slot can hold |
| `Palette.TakenSlot` | tga2sms.cpp:88 | a taken slot is nonzero and holds colour c |
| `Palette.TakenSlotIsBitwise` | tga2sms.cpp:88 | the taken slot equals 0x100 OR c on a WORD |
| `Palette.FirstFree` | tga2sms.cpp:86-87 | the lowest free slot (every earlier slot is taken), or 16 when the palette is full |
| `Palette.Empty` | tga2sms.cpp:65 | the zero-initialised palette is the layout of no colours |
| `Palette.IndexedLayout` | tga2sms.cpp:75-82 | in a palette laid out from colours cs, a colour is indexed exactly when it is in cs |
| `Palette.Assign` | tga2sms.cpp:84-93 | assignIndex on a slot sequence: the new slots and the result; its meaning is stated by Palette.AssignOutcome |
| `Palette.AssignOutcome` | tga2sms.cpp:84-93 | assignIndex returns true exactly when c was absent and a slot was free. Then the lowest free slot, and only it, becomes 0x100 OR c; otherwise the palette is unchanged |
| `Palette.AssignPreservesWellFormed` | tga2sms.cpp:84-93 | assignIndex keeps the invariant: taken slots form a prefix and hold distinct colours, at most 16. A new colour is appended to the entries |
| `Palette.FullPaletteRejects` | tga2sms.cpp:86-92 | with 16 colours taken, a 17th distinct colour returns false and changes nothing |
| `Palette.SeenProperties` | tga2sms.cpp:112-119 | the first-seen list is duplicate-free, extends the known colours, and holds exactly the colours met |
| `Palette.Scan` | tga2sms.cpp:112-119 | assignIndex applied to each colour in turn; keeps the number of slots. Its meaning is stated by Palette.ScanLayout and Palette.ScanFromEmpty |
| `Palette.ScanLayout` | tga2sms.cpp:112-119 | assigning colours one after another leaves the layout of the first 16 of (known colours, then new colours in first-seen order) |
| `Palette.ScanFromEmpty` | tga2sms.cpp:112-119 | from the empty palette, the scan leaves the first (at most 16) distinct colours in first-seen order, and a well-formed palette |
| `Pixels.PixelInside` | tga2sms.cpp:112-117 | pixel i of the first n starts at byte (3 + skipAttributes) · i, and its three colour bytes lie inside a raster that holds n pixels |
| `Pixels.Quantised` | tga2sms.cpp:131-138 | the reduced colours of n consecutive pixels, one per pixel; entry by entry stated by Pixels.QuantisedAt |
| `Pixels.QuantisedAt` | tga2sms.cpp:133-137 | entry i of a run's reduced colours is toBGR8 of the stored bytes at +2, +1 and +0 of pixel i (read B, G, R, passed as r, g, b) |
| `Pixels.AttributeByteIgnored` | tga2sms.cpp:136 | 32-bit and 24-bit rasters with the same B, G, R bytes reduce to the same colours |
| `Planes.FlipH` | tga2sms.cpp:142 | plane 1 as rows, each row reversed; same size as plane 0. The per-cell law is Planes.FlipHAt |
| `Planes.FlipV` | tga2sms.cpp:143 | plane 2 as the rows in reverse order; same size as plane 0. The per-cell law is Planes.FlipVAt |
| `Planes.FlipHV` | tga2sms.cpp:144 | plane 3, both mirrors; same size as plane 0. The per-cell law is Planes.FlipHVAt |
| `Planes.FlipHAt` | tga2sms.cpp:142 | `p1[y*w+(w-1-x)] == p0[y*w+x]` for every cell |
| `Planes.FlipVAt` | tga2sms.cpp:143 | `p2[(h-1-y)*w+x] == p0[y*w+x]` for every cell |
| `Planes.FlipHVAt` | tga2sms.cpp:144 | `p3[(h-1-y)*w+(w-1-x)] == p0[y*w+x]` for every cell |
| `Planes.FlipHMultiset` | tga2sms.cpp:142 | the horizontal mirror is a permutation of plane 0 |
| `Planes.FlipVMultiset` | tga2sms.cpp:143 | the vertical mirror is a permutation of plane 0 |
| `Planes.FlipHVMultiset` | tga2sms.cpp:144 | the double mirror is a permutation of plane 0 |
| `Planes.FlipsCommute` | tga2sms.cpp:144 | mirroring horizontally then vertically equals the other order |
| `Tga2Sms.MirrorRow` | tga2sms.cpp:140-145 | one pass of the inner loop writes row y of each mirror from row y of plane 0 and touches no other cell |
| `Tga2Sms.MirrorPlanes` | tga2sms.cpp:139-146 | after the nested loop, planes 1, 2 and 3 are exactly the three mirrors of plane 0 |
| `Tga2Sms.MirroredPlanes` | tga2sms.cpp:122-146 | three fresh planes, filled by the mirroring loop with the three mirrors of plane 0 |
| `Tga2Sms.RasterBytesRead` | tga2sms.cpp:197 | the raster fread count: at most sizeOfRaster, short only at the end of the file |
| `Tga2Sms.RasterBytes` | tga2sms.cpp:197 | the raster bytes read are the file's bytes just after header, image ID and colour map |
| `Tga2Sms.Outcome` | tga2sms.cpp:156-201 | the error loadFromFile reports, in the order it checks: cannot open, header truncated (with the count read), rejected (with the failing check), raster truncated (with a count below sizeOfRaster), or none |
| `Tga2Sms.TgaFile.constructor` | tga2sms.cpp:55-65 | the initial fields: zero header, zero sizes, empty buffers, skipAttributes set, no palette row, free palette |
| `Tga2Sms.TgaFile.LoadedGeometry` | tga2sms.cpp:129-131 | once loaded, header depth/8 is the stride, the raster holds width × height pixels, and plane 0 ends where the raster does |
| `Tga2Sms.TgaFile.IsColorIndexed` | tga2sms.cpp:75-82 | true exactly when some taken slot holds colour c; changes nothing |
| `Tga2Sms.TgaFile.AssignIndex` | tga2sms.cpp:84-93 | the palette array and the result move as Palette.Assign says, which keeps the invariant |
| `Tga2Sms.TgaFile.SumUniqueColors` | tga2sms.cpp:95-105 | the number of distinct values among the plane-0 entries scanned (at most 256); changes nothing |
| `Tga2Sms.TgaFile.PalRowOverrun` | tga2sms.cpp:98 | with the palette row, the width × height bound of sumUniqueColors is 8 × width entries longer than plane 0 |
| `Tga2Sms.TgaFile.BuildPalette` | tga2sms.cpp:111-119 | the palette becomes the scan of the reduced colours of all width × height pixels, palette row included |
| `Tga2Sms.TgaFile.QuantisePlane` | tga2sms.cpp:129-138 | plane 0 entry i is the reduced colour of pixel i + (hasPalRow ? width·8 : 0) |
| `Tga2Sms.TgaFile.BuildPlanes` | tga2sms.cpp:121-146 | four fresh planes: plane 0 quantised, planes 1-3 its mirrors |
| `Tga2Sms.TgaFile.ToBits` | tga2sms.cpp:107-148 | false with nothing changed when sizeOfRaster is 0; otherwise true, with the palette scanned and the four planes built |
| `Tga2Sms.TgaFile.ReadHeader` | tga2sms.cpp:160 | up to 18 file bytes are copied into the header array; the count is returned |
| `Tga2Sms.TgaFile.ReadRaster` | tga2sms.cpp:197 | the raster gets the file's bytes from the start offset; the count is min(available, size) |
| `Tga2Sms.TgaFile.CheckHeader` | tga2sms.cpp:165-185 | passes exactly for acceptable headers, else records the first failing check. Width, height and actual_height (a WORD, so `% 65536`) are set once the first check passes |
| `Tga2Sms.TgaFile.AllocateRaster` | tga2sms.cpp:186-197 | a fresh raster of `depth/8·width·height` bytes, skipAttributes from depth 32, and the file's bytes after the ID and colour map read into it |
| `Tga2Sms.TgaFile.LoadRaster` | tga2sms.cpp:197-204 | a short raster read is an error; otherwise to8bits converts the raster (its result unused) |
| `Tga2Sms.TgaFile.LoadChecked` | tga2sms.cpp:165-203 | the three checks then the raster stage; which fields are set in each case, and the conversion on success |
| `Tga2Sms.TgaFile.LoadFromFile` | tga2sms.cpp:151-205 | true exactly when Outcome is none, else lastError is Outcome. What each stage leaves in the header, dimensions, raster, palette and planes, whether the load fails or succeeds |
| `Tga2Bp.SampleAdvanceIsEightPixels` | tga2bp.c:101-105 | for depths 24 and 32, the per-sample advance `3 + attrByteSkip + 7*depth/8` is 8 pixels |
| `Tga2Bp.SampleAdvanceAtDepth16` | tga2bp.c:104-105 | at depth 16 the advance is 17 bytes, not 8 pixels |
| `Tga2Bp.HeaderOf` | tga2bp.c:69 | the header struct after the unchecked `fread`: the file's bytes where it has them, the old struct bytes elsewhere; stated by Tga2Bp.HeaderOfFullFile and Tga2Bp.ShortFileAccepted |
| `Tga2Bp.HeaderOfFullFile` | tga2bp.c:69 | from a file of at least 18 bytes, the header struct is the decoding of the first 18 bytes |
| `Tga2Bp.ShortFileAccepted` | tga2bp.c:69-84 | since the header fread is unchecked, a 16-byte file passes all three checks with depth 0 and a 0-byte raster |
| `Tga2Bp.DataStart` | tga2bp.c:85-86 | where the raster `fread` starts: after the header bytes actually read and the `fseek` of TgaHeader.SkipLength |
| `Tga2Bp.Outcome` | tga2bp.c:65-97 | where main aborts, in order: cannot open; rejected (with the failing check); raster truncated (when the file ends before the raster does), or it goes on to the loops |
| `Tga2Bp.RasterHoldsPixels` | tga2bp.c:86 | for depths 24 and 32, bytesToRead is width × height pixels of 3 + attrByteSkip bytes |
| `Tga2Bp.SamplesInFirstRow` | tga2bp.c:100-106 | with width ≥ 128, every sample column 8i is below the width, and the 16 samples end inside the first stored row, inside the raster |
| `Tga2Bp.Samples` | tga2bp.c:99-106 | the 16 palette samples, sample i the stored pixel at column 8i; always 16 of them |
| `Tga2Bp.Dump` | tga2bp.c:116-124 | the dump of n pixels is 3n bytes |
| `Tga2Bp.DumpAt` | tga2bp.c:117-123 | dump bytes 3k, 3k+1 and 3k+2 are the R, G and B bytes (stored at +2, +1, +0) of pixel first + k |
| `Tga2Bp.DumpQuantised` | tga2bp.c:116-124 | toBGR8 of a dumped triple is the reduced colour tga2sms gives the same pixel |
| `Tga2Bp.DumpInside` | tga2bp.c:112-116 | 1024 + width·(height − 8) ≤ width·height exactly when width ≥ 128 |
| `Tga2Bp.SkipIsPaletteBand` | tga2bp.c:112 | the fixed 1024-pixel skip equals the 8-row band only when width is 128 |
| `Tga2Bp.Converter.constructor` | tga2bp.c:48-49 | the zero-initialised globals: zero header, no raster, palette of zero pixels |
| `Tga2Bp.Converter.SamplePalette` | tga2bp.c:99-106 | palette entry i is the stored pixel at column 8i of the first row |
| `Tga2Bp.Converter.Extract` | tga2bp.c:112-124 | the bytes written are the dump of width·(height − 8) pixels from pixel 1024 on, all inside the raster; changes nothing |
| `Tga2Bp.Converter.ReadRaster` | tga2bp.c:93 | the raster gets the file's bytes from the read position; the count is fread's |
| `Tga2Bp.Converter.Load` | tga2bp.c:69-97 | the header struct after the unchecked fread, the abort main takes (as Outcome), and the raster read from just after the header bytes read, the ID and the colour map |
| `Tga2Bp.Converter.Run` | tga2bp.c:65-126 | aborts exactly as Outcome says, leaving the palette alone. Otherwise the palette holds the 16 samples and the result is the dump of the raster read from the file |

## Left out

- The command lines of both programs are left out as CLI and reporting: `main` of tga2sms.cpp (lines 208-248), argument counting (tga2bp.c:61-64), the banner `printf`s, and the `%p` prints (tga2bp.c:111, 113).
- The text of the error messages, `getLastError` and `file_name` are left out; a `LoadError` or `Abort` value stands for each message.
- `fclose` is left out, as are the opening of `raw.img` and a failure to open it (tga2bp.c:114). Each `fputc` is an append to the returned dump.
- Allocation failures of `new` and `malloc` are left out (tga2sms.cpp:120-128, 188-194; tga2bp.c:88-92), because Dafny allocation does not fail. So are the destructor and the `nullptr` initial buffers, which are modelled as empty arrays.
- The unused `changeExtension` and the global `tga_file` object are left out.
- Tga2Sms.TgaFile.LoadFromFile: requires depth 24 or 32 for a header that passes the checks. The source does not check depth, and with any other depth its loops would walk the raster with a stride that does not match its size.
- Tga2Bp.Converter.Run: requires depth 24 or 32 for a header that passes the checks, for the same reason. This also excludes the 16-byte file of Tga2Bp.ShortFileAccepted, on which the source would read past a 0-byte raster.
- Tga2Sms.TgaFile.SumUniqueColors: scans min(width × height, plane length) entries. With the palette row, the source bound of width × height reads 8 × width entries past plane 0 (Tga2Sms.TgaFile.PalRowOverrun); that read is undefined and not modelled.
- TgaHeader.RasterSizeDwordExact: states what a build whose signed int arithmetic wraps (two's complement) stores, and is exact up to 2^32. In C and C++ the int product overflows from 2^31 on, and the behaviour is then undefined (TgaHeader.RasterSizeInt is None there). The loading methods allocate the exact TgaHeader.RasterSize, which is what a wrapping build stores below 2^32. The other int products are taken as unbounded too: `width*height` (tga2sms.cpp:98, 112), `width*actual_height` (tga2sms.cpp:121, 131) and `width*(height-8)` (tga2bp.c:116). For depth 24 or 32, each of them overflows only when the size product already has (TgaHeader.PixelCountsFitInt). For other depths it need not: an accepted depth-0 header of 65528 × 65528 has a size product of 0, while width × height passes 2^31 (TgaHeader.PixelCountsNeedDepth).
- A short header fread in tga2bp.c is assumed to copy the bytes it got and leave the rest of the zero-initialised struct as it was. C leaves a partly read element indeterminate.
- The palette of tga2bp.c is never used after it is sampled; the model keeps it as the program leaves it.

## Findings

| source | as written | input that shows it | evidently intended | confidence | as-written member | corrected member |
|---|---|---|---|---|---|---|
| tga2sms.cpp:187 | `sizeOfRaster = header[PIXEL_DEPTH_8] / 8 * width * height` is a signed int product, stored in a DWORD. tga2bp.c:86 computes `bytesToRead` the same way | a 32-bit image of 32768 × 32768 pixels passes every check and needs 4 · 2^30 = 2^32 bytes. The int product overflows, which is undefined behaviour; a build that wraps stores 0. tga2bp.c then reads a 0-byte raster and its loops run past it | the exact byte count, `depth/8 · width · height` | not executed | `TgaHeader.RasterSizeDwordWraps` | `TgaHeader.RasterSizeHoldsPixels` |
