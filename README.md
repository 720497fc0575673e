# psd-tools composer fills, vector masks and filter effects in Dafny

This project models two parts of psd-tools.

The first is the vector composer (`src/psd_tools/composer/vector.py`):
- how a vector mask is composited from its sub-paths;
- the SVG-like symbol list each sub-path is drawn from;
- opacity handling;
- solid-colour and pattern fills;
- the stop-list preparation of custom-stop gradients.

The second is the filter-effects structure of the PSD format (`src/psd_tools2/psd/filter_effects.py`): its readers and writers over a byte stream.

Modules:

- `Wrappers`: `Option` and `Result`.
- `Arith`: a few facts about integer division.
- `Strings`: `str.rstrip` and `str.endswith` for one character.
- `Imaging`: the part of PIL the mask compositor uses, stated on values:
  - 8-bit planes;
  - the `ImageChops` operators `difference`, `lighter`, `subtract`, `darker` and `invert`;
  - `Image.new` with one colour;
  - `crop`.
- `Vector`: `_generate_symbol`, `_draw_subpath` and `draw_vector_mask`.
  - The mask loop is a method with loop invariants. It is proved against a per-pixel fold (`MaskPixel`).
  - On binary planes, that fold is proved equal to the boolean path algebra on regions.
- `ColorMap`: the loops that collect colour and transparency stops. A stop at the same location as the previous one replaces it. An empty list fails the assertion, and a single stop is spread over [0, 1].
  - The colour stops are scaled by the mode table as written (`ModeScalarAsWritten`). The corrected factor of "## Findings" (`ModeScalar`) is defined beside it.
- `Fill`: an `Image` class whose bands the PIL operations update in place (`putalpha`, `paste`, `rectangle`), plus:
  - `_apply_opacity`;
  - `draw_solid_color_fill`;
  - the tiling loop of `draw_pattern_fill`.
  - The fills follow `_apply_opacity` as written (`OpacityAppliedAsWritten`). The corrected opacity of "## Findings" (`OpacityApplied`, `UniformAlpha`) is defined beside it, with its own lemmas.
- `Stream`: the byte-stream helpers the PSD structures use:
  - big-endian integers;
  - length blocks padded to a divisor;
  - Pascal strings;
  - a `Reader` and a `Writer` class.
- `FilterEffects`: the filter-effects records.
  - They are stated as decoders and encoders on bytes, with round-trip lemmas.
  - The stream methods are proved to agree with those decoders and encoders.

## Model

| member | source | states |
|---|---|---|
| Vector.Zip | src/psd_tools/composer/vector.py:65-68 | `zip(a, b)` has the length of the shorter input and pairs equal indices |
| Vector.Segments | src/psd_tools/composer/vector.py:65-68 | one segment per knot when closed (the last wraps to the first), one fewer when open; segment k joins knot k to its successor |
| Vector.GenerateSymbol | src/psd_tools/composer/vector.py:53-80 | definition (no contract): the token sequence the generator yields; its full layout is proved in `GenerateSymbolShape` |
| Vector.CurveTokens | src/psd_tools/composer/vector.py:71-77 | six numbers per segment |
| Vector.CurveTokensAt | src/psd_tools/composer/vector.py:71-77 | block k of six numbers is: the leaving handle of p1, then the preceding handle and anchor of p2, each as horizontal*width then vertical*height |
| Vector.SymbolParts | src/psd_tools/composer/vector.py:58-80 | a non-empty path's symbol is the header, then the curve tokens, then the closing `Z` when closed |
| Vector.SymbolSegment | src/psd_tools/composer/vector.py:71-77 | tokens 4+6k to 10+6k are segment k's six numbers |
| Vector.GenerateSymbolShape | src/psd_tools/composer/vector.py:53-80 | an empty path yields nothing; otherwise `M x0 y0 <command>`, six numbers per segment, and `Z` exactly for closed paths, with the total length |
| Vector.DrawSubpath | src/psd_tools/composer/vector.py:39-50 | a width by height plane whose pixels are the rasteriser's coverage of the symbol |
| Vector.CombineSnoc | src/psd_tools/composer/vector.py:21-35 | folding one more sub-path applies its operator last; `first` holds only before the first sub-path |
| Vector.CombineIgnoresUnknown | src/psd_tools/composer/vector.py:23-34 | sub-paths whose operation is not 0..3 leave the mask unchanged |
| Vector.CombineIsRegionFold | src/psd_tools/composer/vector.py:23-34 | on 0/255 levels, the operators are symmetric difference, union, difference and intersection of regions, with inversion of the start region before a leading subtract or intersect |
| Vector.ApplyOperation | src/psd_tools/composer/vector.py:23-34 | definition (no contract): one turn of the if-chain on one pixel; its meaning on 0/255 levels is proved in `CombineIsRegionFold` |
| Vector.Combine | src/psd_tools/composer/vector.py:21-35 | definition (no contract): the loop's fold over one pixel's column of sub-path covers; its step and its region meaning are proved in `CombineSnoc`, `CombineIgnoresUnknown` and `CombineIsRegionFold` |
| Vector.FoldStart | src/psd_tools/composer/vector.py:17-20 | the uniform plane at 255 times the fill rule is the fold of no sub-paths |
| Vector.FoldStep | src/psd_tools/composer/vector.py:21-35 | applying sub-path i's operator at every pixel extends a fold of i sub-paths to i+1 |
| Vector.MaskFoldStep | src/psd_tools/composer/vector.py:21-35 | one turn of the loop keeps the invariant: the accumulator is the fold of the sub-paths seen so far |
| Vector.CombineSubpath | src/psd_tools/composer/vector.py:23-35 | the if-chain on the operation code: each pixel becomes the operator applied to the accumulator and the plane, inverting first where the source does |
| Vector.DrawVectorMask | src/psd_tools/composer/vector.py:13-36 | the result has the layer box's size; each pixel inside the canvas is the fold of its column of sub-path planes from the fill rule, and pixels outside are 0; an empty path list gives the cropped uniform plane |
| Vector.CroppedFold | src/psd_tools/composer/vector.py:36 | cropping the folded accumulator to the box gives the mask pixels inside the canvas and 0 outside |
| Vector.BinaryMaskIsRegionAlgebra | src/psd_tools/composer/vector.py:17-35 | when every plane is 0/255, each mask pixel is 255 exactly when the pixel lies in the region fold of the sub-path regions, starting from the whole canvas or nothing |
| Imaging.Uniform | src/psd_tools/composer/vector.py:19 | `Image.new('L', size, color)`: every pixel is the colour |
| Imaging.Chops | src/psd_tools/composer/vector.py:24-34 | the chop operators work pixel by pixel, keeping the size |
| Imaging.Invert | src/psd_tools/composer/vector.py:28-33 | each pixel becomes 255 minus itself |
| Imaging.Crop | src/psd_tools/composer/vector.py:36 | the box's size; pixels inside the source come from it, and pixels outside are 0 |
| Strings.RStrip | src/psd_tools/composer/vector.py:114 | the result is a prefix without the trailing character, and everything it drops is that character |
| ColorMap.KeepLast | src/psd_tools/composer/vector.py:274-281 | never longer than the input, and non-empty for non-empty input |
| ColorMap.KeepLastHead | src/psd_tools/composer/vector.py:274-281 | the first kept stop is at the first location |
| ColorMap.KeepLastLast | src/psd_tools/composer/vector.py:274-281 | the last stop read is always kept, at the end |
| ColorMap.KeepLastSnoc | src/psd_tools/composer/vector.py:278-281 | appending a stop replaces the last kept one when their locations are equal, and is appended otherwise |
| ColorMap.KeepLastNoAdjacentRepeat | src/psd_tools/composer/vector.py:278-281 | no two adjacent kept stops share a location |
| ColorMap.KeepLastMembers | src/psd_tools/composer/vector.py:274-281 | a stop is kept exactly when it ends a run of equal locations |
| ColorMap.KeepLastOfNoRepeat | src/psd_tools/composer/vector.py:274-281 | stops without adjacent repeats pass through unchanged |
| ColorMap.KeepLastIdempotent | src/psd_tools/composer/vector.py:274-281 | collapsing twice is collapsing once |
| ColorMap.KeepLastStrictlySorted | src/psd_tools/composer/vector.py:274-281 | sorted stops collapse to strictly increasing locations |
| ColorMap.PrepareShape | src/psd_tools/composer/vector.py:274-285 | the assertion fails exactly on an empty list; otherwise there are at least two parallel entries, no repeated adjacent location, and the last stop's value comes last |
| ColorMap.PrepareSingle | src/psd_tools/composer/vector.py:283-285 | one stop gives locations [0, 1] with its value twice |
| ColorMap.PrepareKept | src/psd_tools/composer/vector.py:282-285 | with two or more kept stops, the lists are exactly their locations and values |
| ColorMap.PrepareSorted | src/psd_tools/composer/vector.py:274-285 | sorted non-empty stops always succeed, with strictly increasing locations |
| ColorMap.CollapseStops | src/psd_tools/composer/vector.py:274-285 | the pop/append loop, the assertion and the single-stop expansion compute `Prepare` of the stops; it is used for both the colour and the transparency loop |
| ColorMap.Prepare | src/psd_tools/composer/vector.py:274-285 | definition (no contract): collapse, assert non-empty, widen a single stop; its properties are `PrepareShape`, `PrepareSingle`, `PrepareKept` and `PrepareSorted` |
| ColorMap.ModeScalarAsWritten | src/psd_tools/composer/vector.py:269-273 | definition (no contract): the table `.get(mode, 1.0)`; `ModeScalarAsWrittenMissesAlpha` states its behaviour on alpha modes |
| ColorMap.ModeScalar | src/psd_tools/composer/vector.py:269-273 | definition (no contract): the corrected factor, the table applied to the mode without its alpha suffix; `ModeScalarIgnoresAlpha` states it |
| ColorMap.ModeScalarAsWrittenMissesAlpha | src/psd_tools/composer/vector.py:269-273 | as written, 'LA' and 'CMYKA' get factor 1.0, unlike 'L' and 'CMYK' |
| ColorMap.ModeScalarIgnoresAlpha | src/psd_tools/composer/vector.py:269-273 | corrected: an alpha suffix never changes the factor, and modes without it keep the table's value |
| ColorMap.ColorStops | src/psd_tools/composer/vector.py:275-277 | each location is divided by 4096 and each component multiplied by the table's factor for the mode as written (1.0 for 'LA') |
| ColorMap.OpacityStops | src/psd_tools/composer/vector.py:296-298 | each location is divided by 4096 and each opacity multiplied by 2.55 |
| ColorMap.PrepareGradientStops | src/psd_tools/composer/vector.py:274-306 | fails when the colours are missing or empty, or when the transparency list used is empty; the colour ramp is `Prepare` of the colour stops scaled as written; an alpha ramp is present exactly when there is transparency and the mode ends in 'A' |
| Fill.Trunc | src/psd_tools/composer/vector.py:84 | Python's `int` of a float truncates toward zero |
| Fill.PutAlphaSpec | src/psd_tools/composer/vector.py:89 | `putalpha` replaces the alpha band, or adds it after the colour bands and switches to the alpha mode |
| Fill.Point | src/psd_tools/composer/vector.py:88 | `point(f)`: every pixel becomes f of itself, clamped |
| Fill.OpacityOf | src/psd_tools/composer/vector.py:84 | definition (no contract): `int(setting.get(Opacity, 100))` |
| Fill.ScaleAlpha | src/psd_tools/composer/vector.py:88 | definition (no contract): `int(x * opacity / 100.)` stored clamped; `ScaleAlphaFull`, `ScaleAlphaBounds` and `ScaleAlphaNegative` state its behaviour |
| Fill.UniformAlphaAsWritten | src/psd_tools/composer/vector.py:91 | definition (no contract): `int(opacity * 255)` stored clamped; `UniformAlphaAsWrittenIgnoresOpacity` states its behaviour |
| Fill.UniformAlpha | src/psd_tools/composer/vector.py:91 | definition (no contract): the corrected uniform alpha, `opacity * 2.55` rounded; `UniformAlphaRounds` states it |
| Fill.ScaledAlphaBand | src/psd_tools/composer/vector.py:87-88 | the alpha band scaled pixel by pixel, keeping the image size |
| Fill.OpacityAppliedAsWritten | src/psd_tools/composer/vector.py:83-91 | `_apply_opacity` as written keeps a well-formed picture; used by all the fills |
| Fill.OpacityApplied | src/psd_tools/composer/vector.py:83-91 | the corrected `_apply_opacity` keeps a well-formed picture |
| Fill.ScaleAlphaFull | src/psd_tools/composer/vector.py:88 | 100 percent keeps the alpha |
| Fill.ScaleAlphaBounds | src/psd_tools/composer/vector.py:88 | between 0 and 100 percent the alpha never rises, grows with both alpha and opacity, and is 0 at 0 percent |
| Fill.ScaleAlphaNegative | src/psd_tools/composer/vector.py:88 | a negative opacity clears the alpha |
| Fill.UniformAlphaAsWrittenIgnoresOpacity | src/psd_tools/composer/vector.py:91 | as written, every opacity of at least 1 percent gives alpha 255; at 50 the corrected value is 128 |
| Fill.UniformAlphaRounds | src/psd_tools/composer/vector.py:91 | corrected: for 0..100 percent the uniform alpha is the level nearest to `opacity * 2.55` (halves up), grows with the opacity, runs from 0 to 255 (128 at 50), and is at most one above what an opaque pixel gets from the alpha branch |
| Fill.Opaque | src/psd_tools/composer/vector.py:90-91 | adds a fully opaque alpha band after the colour bands |
| Fill.OpacityTreatsNoAlphaAsOpaque | src/psd_tools/composer/vector.py:85-91 | corrected: on an image without alpha, the mode and colour bands are those of the image made opaque and then scaled, and the alpha is the rounded `opacity * 2.55`, at most one above that of the scaled opaque image |
| Fill.OpacityAsWrittenDiffers | src/psd_tools/composer/vector.py:91 | at 50 percent, the written branch leaves alpha 255 where the corrected one gives 128 |
| Fill.OpacityAppliedAlpha | src/psd_tools/composer/vector.py:84-89 | as written, on an image with alpha: nothing changes at 100; otherwise the colour bands stay and each alpha pixel becomes `int(a * opacity / 100)`, never above the old value for opacities up to 100 |
| Fill.PastePlane | src/psd_tools/composer/vector.py:132 | `paste` on one band: the panel's pixels replace those under it, and all others stay |
| Fill.Tiled | src/psd_tools/composer/vector.py:129-132 | the canvas has the requested size and mode, and each pixel is the panel pixel at its coordinates modulo the panel size |
| Fill.TiledPeriodic | src/psd_tools/composer/vector.py:129-132 | the tiled canvas repeats with the panel's period both ways and starts with the panel itself |
| Fill.PasteStep | src/psd_tools/composer/vector.py:130-132 | a paste at a multiple of the panel size extends the tiled strip by one panel |
| Fill.Image.New | src/psd_tools/composer/vector.py:97 | `Image.new(mode, size)`: every band is 0 |
| Fill.Image.Of | src/psd_tools/composer/vector.py:119 | an image holding a converted pattern |
| Fill.Image.FillRectangle | src/psd_tools/composer/vector.py:99 | every pixel of band b becomes ink b; mode and size stay |
| Fill.Image.PutAlpha | src/psd_tools/composer/vector.py:89 | the image's new contents are `PutAlphaSpec` of the old ones |
| Fill.Image.Paste | src/psd_tools/composer/vector.py:132 | each band becomes `PastePlane` of the old band with the panel's band |
| Fill.Image.Resize | src/psd_tools/composer/vector.py:123-126 | a fresh image with the same mode, the given size, and each band resampled |
| Fill.ApplyOpacity | src/psd_tools/composer/vector.py:83-91 | the image's new contents are `OpacityAppliedAsWritten` of the old ones |
| Fill.Ink | src/psd_tools/composer/vector.py:96 | each colour component truncated to an integer and stored clamped |
| Fill.SolidFill | src/psd_tools/composer/vector.py:94-102 | the returned picture is well formed |
| Fill.SolidFillPixels | src/psd_tools/composer/vector.py:96-101 | every pixel of a colour band holds that band's ink |
| Fill.SolidFillAlpha | src/psd_tools/composer/vector.py:101 | at 100 percent the mode stays; otherwise a fill without an alpha band gets one after its colour bands, uniform at `int(opacity * 255)` clamped: 255 for every opacity of at least 1, 0 below |
| Fill.DrawSolidColorFill | src/psd_tools/composer/vector.py:94-102 | a fresh canvas whose contents are `SolidFill` |
| Fill.TilePattern | src/psd_tools/composer/vector.py:129-134 | the nested tiling loops raise exactly when the panel has no rows, or no columns while the canvas has rows; otherwise the canvas is `Tiled` |
| Fill.Resized | src/psd_tools/composer/vector.py:123-126 | resizing keeps the mode and gives the requested size |
| Fill.PanelDim | src/psd_tools/composer/vector.py:124-125 | `max(1, int(dim * scale))`: at least 1, and the truncated product when that is at least 1 |
| Fill.ScaledPanel | src/psd_tools/composer/vector.py:121-126 | scaling keeps the mode |
| Fill.FillPanel | src/psd_tools/composer/vector.py:121-127 | the scaled panel with opacity applied as written is well formed |
| Fill.OpacityKeepsSize | src/psd_tools/composer/vector.py:127 | opacity never changes the panel's size |
| Fill.PatternFillTiles | src/psd_tools/composer/vector.py:114-134 | for a known pattern: a scaled panel is never empty and an unscaled one keeps the pattern's size; it fails exactly when the panel has no rows, or no columns while the canvas has rows; otherwise the canvas has the requested size and mode and repeats the panel |
| Fill.PatternFillUnknown | src/psd_tools/composer/vector.py:114-118 | the result is `None` exactly when the id, with trailing NULs stripped, names no pattern |
| Fill.PatternFill | src/psd_tools/composer/vector.py:105-134 | definition (no contract): `None` for an unknown id, the zero-step error, or the tiled panel; `PatternFillTiles` and `PatternFillUnknown` state it |
| Fill.DrawPatternFill | src/psd_tools/composer/vector.py:105-134 | agrees with `PatternFill` on failure, on `None`, and on the contents of the image it returns |
| Stream.EncUInt | src/psd_tools2/psd/filter_effects.py:38 | `write_fmt` of an unsigned field gives n bytes |
| Stream.DecUInt | src/psd_tools2/psd/filter_effects.py:29 | n bytes decode to a value below 256^n |
| Stream.DecEncUInt | src/psd_tools2/psd/filter_effects.py:29 | decoding an encoded value that fits its width gives it back |
| Stream.EncDecUInt | src/psd_tools2/psd/filter_effects.py:38 | encoding decoded bytes gives them back |
| Stream.DecEncI32 | src/psd_tools2/psd/filter_effects.py:80 | a signed 32-bit value survives encode then decode |
| Stream.DecodeUInt | src/psd_tools2/psd/filter_effects.py:29 | fails exactly when fewer than n bytes remain; otherwise consumes exactly n |
| Stream.DecodeU8 | src/psd_tools2/psd/filter_effects.py:168 | `'B'`: fails exactly on empty input; otherwise the first byte and the rest |
| Stream.DecodeU16 | src/psd_tools2/psd/filter_effects.py:131 | `'H'`: fails exactly on fewer than 2 bytes, and consumes 2 |
| Stream.DecodeU32 | src/psd_tools2/psd/filter_effects.py:124 | `'I'`: fails exactly on fewer than 4 bytes, and consumes 4 |
| Stream.DecodeI32 | src/psd_tools2/psd/filter_effects.py:80 | `'i'`: fails exactly on fewer than 4 bytes, and consumes 4 |
| Stream.EncI32 | src/psd_tools2/psd/filter_effects.py:102 | `'i'` writes 4 bytes |
| Stream.DecodeUIntOfEnc | src/psd_tools2/psd/filter_effects.py:29 | reading an encoded field returns the value and leaves the rest |
| Stream.DecodeU32OfEnc | src/psd_tools2/psd/filter_effects.py:69 | the same for `'I'` fields |
| Stream.DecodeU16OfEnc | src/psd_tools2/psd/filter_effects.py:131 | the same for `'H'` fields |
| Stream.DecodeU8OfEnc | src/psd_tools2/psd/filter_effects.py:168 | the same for `'B'` fields |
| Stream.DecodeI32OfEnc | src/psd_tools2/psd/filter_effects.py:80 | the same for `'i'` fields |
| Stream.PadLen | src/psd_tools2/psd/filter_effects.py:40-41 | padding is always shorter than the divisor |
| Stream.PadLenAligns | src/psd_tools2/psd/filter_effects.py:40-41 | content plus padding is a multiple of the divisor |
| Stream.EncodeLengthBlock | src/psd_tools2/psd/filter_effects.py:95 | a block's size is the length field plus the content plus the padding |
| Stream.DecodeLengthBlock | src/psd_tools2/psd/filter_effects.py:71 | a successful read consumes at least the field and the content |
| Stream.DecodeLengthBlockOfEnc | src/psd_tools2/psd/filter_effects.py:33 | reading a written block returns its content and skips its padding |
| Stream.DecodeLengthBlockShort | src/psd_tools2/psd/filter_effects.py:71 | with fewer bytes than the length field, the read fails |
| Stream.AsciiOnly | src/psd_tools2/psd/filter_effects.py:88-89 | keeps only characters below 128, never growing the string |
| Stream.AsciiRoundTrip | src/psd_tools2/psd/filter_effects.py:68 | decoding the ASCII encoding gives the string without its non-ASCII characters |
| Stream.AsciiOnlyIdempotent | src/psd_tools2/psd/filter_effects.py:88-89 | dropping non-ASCII characters twice is dropping them once |
| Stream.EncodePascal | src/psd_tools2/psd/filter_effects.py:88-89 | a length byte and then the ASCII part of the string |
| Stream.DecodePascal | src/psd_tools2/psd/filter_effects.py:68 | a successful read consumes at least the length byte |
| Stream.DecodePascalOfEnc | src/psd_tools2/psd/filter_effects.py:68 | reading a written Pascal string returns its ASCII part and leaves the rest |
| Stream.EncodePascalAscii | src/psd_tools2/psd/filter_effects.py:88-89 | writing a string or its ASCII part gives the same bytes |
| Stream.Reader.constructor | src/psd_tools2/psd/filter_effects.py:130 | `io.BytesIO(data)`: a reader whose remaining bytes are all of data |
| Stream.Reader.IsReadable | src/psd_tools2/psd/filter_effects.py:32 | definition (no contract): `is_readable(fp, n)`, at least n bytes remain; `ReadEffects` and `ReadEffect` are proved against the decoders that test it |
| Stream.Reader.ReadUInt | src/psd_tools2/psd/filter_effects.py:29 | agrees with `DecodeUInt` on the bytes that remain |
| Stream.Reader.ReadU8 | src/psd_tools2/psd/filter_effects.py:168 | agrees with `DecodeU8` |
| Stream.Reader.ReadU16 | src/psd_tools2/psd/filter_effects.py:131 | agrees with `DecodeU16` |
| Stream.Reader.ReadU32 | src/psd_tools2/psd/filter_effects.py:124 | agrees with `DecodeU32` |
| Stream.Reader.ReadI32 | src/psd_tools2/psd/filter_effects.py:80 | agrees with `DecodeI32` |
| Stream.Reader.ReadRest | src/psd_tools2/psd/filter_effects.py:132 | `f.read()`: everything that remains |
| Stream.Reader.ReadLengthBlock | src/psd_tools2/psd/filter_effects.py:127 | agrees with `DecodeLengthBlock` |
| Stream.Reader.ReadPascalString | src/psd_tools2/psd/filter_effects.py:68 | agrees with `DecodePascal` |
| Stream.Writer.WriteUInt | src/psd_tools2/psd/filter_effects.py:136 | appends `EncUInt` and returns its size |
| Stream.Writer.WriteI32 | src/psd_tools2/psd/filter_effects.py:102 | appends `EncI32` and returns 4 |
| Stream.Writer.WriteBytes | src/psd_tools2/psd/filter_effects.py:144 | appends the bytes and returns their count |
| Stream.Writer.WritePascalString | src/psd_tools2/psd/filter_effects.py:88-89 | appends `EncodePascal` and returns its size |
| Stream.Writer.ReserveLength | src/psd_tools2/psd/filter_effects.py:95 | appends a zeroed length field and returns where it starts |
| Stream.Writer.FinishLength | src/psd_tools2/psd/filter_effects.py:147 | patches the reserved field with the content's length, pads, and returns the block size |
| Stream.LengthBlockAppends | src/psd_tools2/psd/filter_effects.py:95 | reserving, writing content and finishing appends exactly `EncodeLengthBlock` |
| FilterEffects.EncRect | src/psd_tools2/psd/filter_effects.py:102 | four signed fields, 16 bytes |
| FilterEffects.DecodeRect | src/psd_tools2/psd/filter_effects.py:80 | fails exactly on fewer than 16 bytes, and consumes 16 |
| FilterEffects.DecodeChannel | src/psd_tools2/psd/filter_effects.py:123-133 | a successful read always consumes bytes |
| FilterEffects.DecodeItems | src/psd_tools2/psd/filter_effects.py:31-34 | effects are read until fewer than 8 bytes remain |
| FilterEffects.EncChannel | src/psd_tools2/psd/filter_effects.py:135-148 | definition (no contract): the flag, then the block only for a written channel; `DecodeChannelOfEnc` is its round trip |
| FilterEffects.EncChannels | src/psd_tools2/psd/filter_effects.py:104-105 | definition (no contract): the channels one after the other; `EncChannelsSnoc` and `DecodeChannelsOfEnc` state it |
| FilterEffects.EncBody | src/psd_tools2/psd/filter_effects.py:101-106 | definition (no contract): rectangle, depth, max_channels and every channel; `DecodeBodyOfEnc` is its round trip |
| FilterEffects.EncExtra | src/psd_tools2/psd/filter_effects.py:181-192 | definition (no contract): the flag byte, then rectangle and block only when set; `DecodeExtraOfEnc` is its round trip |
| FilterEffects.EncEffect | src/psd_tools2/psd/filter_effects.py:87-99 | definition (no contract): uuid, version, the body block and the optional extra; `DecodeEffectOfEnc` is its round trip |
| FilterEffects.EncItems | src/psd_tools2/psd/filter_effects.py:39-41 | definition (no contract): each effect in a block padded to 4; `EncItemsSnoc` and `DecodeItemsOfEnc` state it |
| FilterEffects.EncEffects | src/psd_tools2/psd/filter_effects.py:37-42 | definition (no contract): the version, then the items; `DecodeEffectsOfEnc` is its round trip |
| FilterEffects.DecodeChannels | src/psd_tools2/psd/filter_effects.py:83-84 | definition (no contract): `count` channels in a row; `RepeatSplit`, `RepeatCount` and `DecodeChannelsOfEnc` state it |
| FilterEffects.DecodeBody | src/psd_tools2/psd/filter_effects.py:79-85 | definition (no contract): `_read_body`; `DecodeBodyChannels` and `DecodeBodyOfEnc` state it |
| FilterEffects.DecodeExtra | src/psd_tools2/psd/filter_effects.py:167-179 | definition (no contract): `FilterEffectExtra.read`; `DecodeExtraOfEnc` is its round trip |
| FilterEffects.DecodeEffect | src/psd_tools2/psd/filter_effects.py:67-76 | definition (no contract): `FilterEffect.read`; `DecodeEffectShape`, `DecodeEffectRejectsVersion` and `DecodeEffectOfEnc` state it |
| FilterEffects.DecodeEffects | src/psd_tools2/psd/filter_effects.py:28-35 | definition (no contract): `FilterEffects.read`; `DecodeEffectsVersion` and `DecodeEffectsOfEnc` state it |
| FilterEffects.RepeatCount | src/psd_tools2/psd/filter_effects.py:83-84 | a channel loop that succeeds yields exactly `count` channels |
| FilterEffects.DecodeBodyChannels | src/psd_tools2/psd/filter_effects.py:81-85 | a body that reads holds `max_channels + 2` channels |
| FilterEffects.DecodeEffectShape | src/psd_tools2/psd/filter_effects.py:67-76 | an effect that reads has version at most 1 and `max_channels + 2` channels, and an extra block exactly when bytes remain after the body block |
| FilterEffects.DecodeRectOfEnc | src/psd_tools2/psd/filter_effects.py:80 | a written rectangle reads back |
| FilterEffects.DecodeChannelOfEnc | src/psd_tools2/psd/filter_effects.py:123-148 | a written channel reads back normalised: unwritten gives flag only, and no compression gives no data |
| FilterEffects.DecodeChannelsOfEnc | src/psd_tools2/psd/filter_effects.py:83-84 | a written channel list reads back |
| FilterEffects.DecodeBodyOfEnc | src/psd_tools2/psd/filter_effects.py:79-85 | a written body with `max_channels + 2` channels reads back |
| FilterEffects.DecodeExtraOfEnc | src/psd_tools2/psd/filter_effects.py:167-192 | a written extra block reads back, with the defaults when unwritten |
| FilterEffects.DecodeEffectOfEnc | src/psd_tools2/psd/filter_effects.py:67-106 | a well-formed effect reads back normalised, with the extra block found exactly when it was written |
| FilterEffects.DecodeItemOfEnc | src/psd_tools2/psd/filter_effects.py:33-34 | a padded effect block reads back and leaves what follows |
| FilterEffects.DecodeItemsOfEnc | src/psd_tools2/psd/filter_effects.py:31-41 | a written effect list reads back when fewer than 8 bytes trail |
| FilterEffects.DecodeEffectsOfEnc | src/psd_tools2/psd/filter_effects.py:28-42 | `read(write(x))` is x normalised, for a version in 1..3 and well-formed effects |
| FilterEffects.EncChannelNorm | src/psd_tools2/psd/filter_effects.py:135-148 | writing a channel depends only on its normal form |
| FilterEffects.EncExtraNorm | src/psd_tools2/psd/filter_effects.py:181-192 | writing an extra block depends only on its normal form |
| FilterEffects.EncChannelsNorm | src/psd_tools2/psd/filter_effects.py:104-105 | the same for channel lists |
| FilterEffects.EncEffectNorm | src/psd_tools2/psd/filter_effects.py:87-99 | the same for effects, including the UUID's ASCII part |
| FilterEffects.UnwrittenIsFlagOnly | src/psd_tools2/psd/filter_effects.py:136-138 | an unwritten channel writes only its four-byte flag, and an unwritten extra block only its flag byte |
| FilterEffects.UncompressedChannelIsEmptyBlock | src/psd_tools2/psd/filter_effects.py:140-147 | a written channel without compression writes an empty block |
| FilterEffects.DecodeEffectsVersion | src/psd_tools2/psd/filter_effects.py:29-30 | the read succeeds only on versions 1..3, and rejects any other with that version |
| FilterEffects.DecodeEffectRejectsVersion | src/psd_tools2/psd/filter_effects.py:69-70 | an effect version above 1 is rejected, whatever follows |
| FilterEffects.DecodeChannelShortBlock | src/psd_tools2/psd/filter_effects.py:127-131 | a one-byte channel block cannot hold the compression code, and the read fails |
| FilterEffects.RepeatSplit | src/psd_tools2/psd/filter_effects.py:83-84 | reading i channels, then j more, is reading i + j |
| FilterEffects.RepeatStep | src/psd_tools2/psd/filter_effects.py:83-84 | one more channel either fails the whole loop or extends the list |
| FilterEffects.ReadRect | src/psd_tools2/psd/filter_effects.py:80 | agrees with `DecodeRect` |
| FilterEffects.ReadChannel | src/psd_tools2/psd/filter_effects.py:123-133 | agrees with `DecodeChannel` |
| FilterEffects.ReadChannels | src/psd_tools2/psd/filter_effects.py:82-84 | the loop agrees with `DecodeChannels` |
| FilterEffects.ReadBody | src/psd_tools2/psd/filter_effects.py:79-85 | agrees with `DecodeBody` |
| FilterEffects.ReadExtra | src/psd_tools2/psd/filter_effects.py:167-179 | agrees with `DecodeExtra` |
| FilterEffects.ReadEffect | src/psd_tools2/psd/filter_effects.py:67-76 | agrees with `DecodeEffect` |
| FilterEffects.ReadEffects | src/psd_tools2/psd/filter_effects.py:28-35 | the while loop agrees with `DecodeEffects` |
| FilterEffects.WriteRect | src/psd_tools2/psd/filter_effects.py:102 | appends `EncRect` |
| FilterEffects.WriteChannelBlock | src/psd_tools2/psd/filter_effects.py:140-147 | appends the channel's length block |
| FilterEffects.WriteChannel | src/psd_tools2/psd/filter_effects.py:135-148 | appends `EncChannel` and returns its size |
| FilterEffects.EncChannelsSnoc | src/psd_tools2/psd/filter_effects.py:104-105 | one more channel appends its encoding |
| FilterEffects.WriteChannels | src/psd_tools2/psd/filter_effects.py:104-105 | appends `EncChannels` |
| FilterEffects.WriteBody | src/psd_tools2/psd/filter_effects.py:101-106 | appends `EncBody` and returns its size |
| FilterEffects.WriteExtraBlock | src/psd_tools2/psd/filter_effects.py:184-191 | appends the extra block's length block |
| FilterEffects.WriteExtra | src/psd_tools2/psd/filter_effects.py:181-192 | appends `EncExtra` and returns its size |
| FilterEffects.WriteBodyBlock | src/psd_tools2/psd/filter_effects.py:92-95 | appends the body's length block |
| FilterEffects.WriteEffect | src/psd_tools2/psd/filter_effects.py:87-99 | appends `EncEffect` and returns its size |
| FilterEffects.WriteItem | src/psd_tools2/psd/filter_effects.py:40-41 | appends the effect as a block padded to 4 |
| FilterEffects.EncItemsSnoc | src/psd_tools2/psd/filter_effects.py:39-41 | one more effect appends its padded block |
| FilterEffects.WriteItems | src/psd_tools2/psd/filter_effects.py:39-41 | appends `EncItems` |
| FilterEffects.WriteEffects | src/psd_tools2/psd/filter_effects.py:37-42 | appends `EncEffects` and returns its size |

## Left out

- `src/psd_tools2/utils.py` is not part of this model. `Stream` states the behaviour assumed of its helpers:
  - `read_fmt`/`write_fmt`: big-endian fixed-width fields; a short read fails its assertion (`ShortRead`);
  - `read_length_block`/`write_length_block`: a length field, the content, then zero padding to a multiple of the divisor; on reading, the padding is skipped as far as it is present;
  - `read_pascal_string`/`write_pascal_string`: one length byte, then the ASCII bytes, with non-ASCII characters dropped;
  - `is_readable(fp, n)`: at least n bytes remain.
- Stream.EncUInt: a value too wide for its field is truncated to the low bytes, where `struct.pack` raises `struct.error`. The round-trip lemmas assume every field fits (`ChannelFits`, `ExtraFits`, `EffectWellFormed`, `|AsciiOnly(uuid)| < 256`).
- Exceptions (`AssertionError`, `struct.error`, `ValueError`) become `Result` errors without their messages; logging is left out.
- `BaseElement`/`ListElement` behaviour (repr, equality, list protocol) and attrs defaults other than those the readers produce are left out. Fields are typed, so writing a `None` field or a rectangle without four entries cannot be expressed.
- `io.BytesIO` becomes a fresh `Reader` over the block's bytes. Streams are in memory, with no seeking beyond the cursor.
- aggdraw rasterisation is a parameter of `Vector.DrawSubpath` (coverage of a pixel by the symbol). The symbol is kept as a token sequence instead of the joined string, and number formatting by `str` is left out.
- Floats are exact reals. `int(x * opacity / 100.)` is modelled as exact truncating division, which ignores floating-point rounding.
- PIL is modelled, not used. Assumed of it:
  - 8-bit stores clamp to 0..255;
  - `crop` fills outside the image with 0;
  - `putalpha` turns 'L' into 'LA' and 'RGB' into 'RGBA';
  - `resize` is a band-wise resampler passed as a parameter.
  Modes are restricted to 'L', 'LA', 'RGB' and 'RGBA'. CMYK and other modes are left out, because `putalpha` converts their colours.
- Fill.DrawSolidColorFill: requires one colour component per band, although PIL also accepts other tuple lengths for some modes.
- `convert_pattern_to_pil` and `psd._get_pattern`: the document's patterns are given as a map from id to converted picture.
- `draw_gradient_fill` and the rest of `_apply_color_map` are left out. That means the gradient geometry, noise gradients, `interp1d` evaluation, `astype(np.uint8)` and `Image.fromarray`. They are floating-point numerics and numpy.
- Vector.DrawVectorMask: takes the canvas size, the vector mask and the layer box as values instead of the layer object.

## Findings

| source | as written | input that shows it | evidently intended | confidence | as-written member | corrected member |
|---|---|---|---|---|---|---|
| src/psd_tools/composer/vector.py:91 | an image without alpha gets the uniform alpha `int(opacity * 255)`, with opacity in percent, so every opacity of at least 1 clamps to 255 | a solid fill in 'RGB' with opacity 50 stays fully opaque (alpha 255) | a uniform alpha of `opacity * 2.55` rounded, 128 at 50; ties are rounded up, which may differ by one from floating-point rounding at some opacities | high (not executed) | Fill.UniformAlphaAsWrittenIgnoresOpacity | Fill.OpacityTreatsNoAlphaAsOpaque |
| src/psd_tools/composer/vector.py:269-273 | the colour scale table has entries only for 'RGB', 'L' and 'CMYK' and falls back to 1.0, so colours of an 'LA' gradient are not scaled to 0..255 as those of 'L' are | mode 'LA' gives factor 1.0 while 'L' gives 2.55 | the factor of the colour bands, ignoring the alpha suffix (the colour image is built in mode `mode.rstrip('A')` at line 293) | low (not executed): it assumes 'LA' colour stops carry the same percentages as 'L' ones | ColorMap.ModeScalarAsWrittenMissesAlpha | ColorMap.ModeScalarIgnoresAlpha |
