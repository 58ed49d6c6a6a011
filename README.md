# SPT image codec and .dat archive tools, modelled in Dafny

This project models the core of a small set of Python tools for a game's
assets.

- **The SPT image format.**
  - `read_spt_file` decodes an `.spt` file. Its bytes hold:
    - a header: type byte, image count, width and height, and, in a
      multi-image file, the x and y offsets;
    - a colour table of ARGB4444 entries;
    - zero padding;
    - one chunk per frame: a 4-byte big-endian length, then run-length
      coded palette indices.
    It folds every index into the palette and names the pictures it saves.
  - `create_spt_file` encodes frames. In order, it:
    - validates them;
    - counts their colours;
    - ranks the colours by frequency (a stable sort);
    - cuts the palette to `palette_size`;
    - packs each colour into two bytes;
    - writes the header;
    - maps every pixel to its palette entry or the nearest one;
    - writes the run-length codes of every frame.
  - `process_png_to_spt` groups the names of a directory listing:
    - by the part before `__frame`, or by the name without `.png`;
    - sorts each group;
    - reads the `[[x;y]]` offsets from a group's key.
- **The `.dat` archive.** The archive is:
  - a directory of 32-byte entries, each eight little-endian signed
    32-bit words;
  - then the names, each followed by a NUL;
  - then the file contents.

  `repack_thing` writes it, in the directory listing's order or in the
  order of a reference archive. `get_file_order_from_dat` reads that
  order back. `unpack_thing` writes every member out.

Each loop of the source is a `method` with a `while` loop. Each method is
proved equal to a specification function (`ReadSptFile == DecodeSpt`,
`CreateSptFile == EncodeSpt`, `RepackThing == Repack`,
`UnpackThing == Unpack`, …). The properties the tools promise are lemmas
about those functions. The main ones are:

- the RLE round trip;
- the whole-file round trip `DecodeSpt(EncodeSpt(images))`;
- the decoder's output names regrouping to the encoder's input;
- the archive round trips `Unpack(Repack(...))` and
  `FileOrder(Repack(...))`.

Python's failures are modelled as error results, not as preconditions:
- numpy's `IndexError` on reads past the end;
- `int()` raising `ValueError` on anything but a signed digit string;
- `OverflowError` from `to_bytes`;
- `struct.error`;
- a negative `seek`, and a `read` of a length below -1;
- `max()` of an empty table.

Files are byte sequences passed in as parameters. A directory is a listing
of names plus a map from name to contents.

Modules, one per file:
- `Results`: Result and Option.
- `Bytes`: bytes, endianness, `to_bytes`, `struct` `<i`.
- `Text`: Python string operations and string order.
- `Colour`: ARGB4444.
- `SptFormat`: the SPT constants and error kinds.
- `Rle`: the run-length grammar, its decoder and its encoder.
- `SptDecoder`, `SptEncoder` and `SptRoundTrip`: the SPT codec.
- `PngGrouping`: directory grouping.
- `DatFormat`, `DatRepack`, `DatUnpack` and `DatRoundTrip`: the archive.

Dafny's verifier proves every contract. No part of the Python code was run.

## Model

| member | source | states |
|---|---|---|
| Bytes.ToBytes | png_to_spt.py:62-77 | `int.to_bytes(n, order)` succeeds exactly for `0 <= v < 256^n`; the bytes then have length `n` and read back, big- or little-endian, as `v` |
| Bytes.BigEndianBytes | png_to_spt.py:127 | `to_bytes(n, 'big')` of a value that fits has `n` bytes whose big-endian value is the value, last byte `v % 256` |
| Bytes.LittleEndianBytes | png_to_spt.py:62-64 | `to_bytes(n, 'little')` of a value that fits has `n` bytes whose little-endian value is the value, first byte `v % 256` |
| Bytes.BigEndianBytesOfValue | spt_to_png_3.py:89-96 | every byte string is the big-endian encoding of the value `get_chunk_length` reads from it |
| Bytes.PackInt32 | repacker.py:59-66 | `struct.pack('<i', v)` succeeds exactly for signed 32-bit values and gives four bytes |
| Bytes.UnpackInt32 | unpacker.py:28-31 | `struct.unpack('<i', ...)` of four bytes is a signed 32-bit value |
| Bytes.Int32RoundTrip | repacker.py:59-66 | a word packed with `'<i'` unpacks to itself |
| Colour.ParseColor | spt_to_png_3.py:54-65 | `parse_color` gives channels that are multiples of 16, at most 240 |
| Colour.PackColor | png_to_spt.py:44-52 | the two bytes the encoder packs for a colour parse back, through the decoder, as the colour with each channel's low nibble cleared |
| Colour.Truncated | png_to_spt.py:46-51 | clearing the low nibbles (`(v >> 4) << 4`) lands on the grid and leaves a colour already on it unchanged |
| Colour.PackParsed | spt_to_png_3.py:59-65 | every two-byte palette entry is the packing of the colour the decoder reads from it |
| Colour.RepresentableRoundTrip | png_to_spt.py:46-52 | a colour on the nibble grid survives packing and parsing unchanged |
| Colour.TwoBytes | png_to_spt.py:52 | `to_bytes(2, 'big')` of `high * 256 + low` is `[high, low]` |
| Text.Decimal | spt_to_png_3.py:206 | `str(n)` is one or more digits with no leading zero, one digit exactly for `n < 10` |
| Text.DecimalValue | spt_to_png_3.py:206 | the digits printed for `n` have the value `n` |
| Text.DecimalInjective | spt_to_png_3.py:206 | distinct numbers print differently |
| Text.ParseInt | png_to_spt.py:178 | `int(s)` succeeds exactly on an optional `+` or `-` followed by one or more digits, and its value is the digits' value with that sign; anything else raises |
| Text.ParseSigned | png_to_spt.py:178 | `int('-' + str(n)) == -n` and `int('+' + str(n)) == n` |
| Text.ParseDecimal | png_to_spt.py:178 | `int(str(n)) == n` |
| Text.Find | png_to_spt.py:161 | the first position where the separator occurs, none before it; none at all when absent |
| Text.Split | png_to_spt.py:162 | `split` gives at least one piece, and the whole string when the separator is absent |
| Text.SplitHead | png_to_spt.py:162 | the first piece of `split` is everything before the first occurrence and holds no separator |
| Text.SplitAt | png_to_spt.py:177 | splitting at a known first occurrence gives the part before it, then the split of the rest |
| Text.Replace | png_to_spt.py:164 | `replace` leaves a string without the pattern unchanged |
| Text.SplitJoin | png_to_spt.py:162 | `sep.join(s.split(sep)) == s` |
| Text.SplitPiecesClean | png_to_spt.py:162 | no piece of `s.split(sep)` contains `sep` |
| Text.ReplaceIsJoin | png_to_spt.py:164 | `s.replace(pat, repl) == repl.join(s.split(pat))`: every occurrence, left to right, replaced |
| Text.DropLast | spt_to_png_3.py:202 | `s[:-n]` is all but the last `n` characters, empty when `s` is shorter |
| Text.FindConcat | png_to_spt.py:161 | in `a + b` where `a` holds no separator and none straddles the seam, the first occurrence is the first one in `b`, shifted |
| Text.LessEqTotal | png_to_spt.py:168 | string order is total |
| Text.LessEqTrans | png_to_spt.py:168 | string order is transitive |
| Text.LessEqAntisymmetric | png_to_spt.py:168 | string order is antisymmetric |
| Text.Insert | png_to_spt.py:168 | inserting into a sorted list keeps it sorted and adds exactly that element |
| Text.SortStrings | png_to_spt.py:168 | `list.sort()` gives a sorted permutation |
| Text.SortedUnique | png_to_spt.py:168 | a list has only one sorted arrangement, so the sort's result is determined |
| Rle.Repeat | spt_to_png_3.py:144 | `np.tile([v], n)` is `n` copies of `v` |
| Rle.FilterUpperBits | spt_to_png_3.py:101-109 | the fold gives an index below 128, below 16 for palettes under 16 colours, keeps the low four bits, and leaves an index already inside the palette unchanged |
| Rle.InlineRun | spt_to_png_3.py:118-123 | the inline run is bits 4 to 6 of the marker, below 8, and 0 for palettes over 16 colours |
| Rle.DecodeToken | spt_to_png_3.py:116-155 | one code read at the cursor: a literal below 128 is one pixel, a marker's pixels are all its folded index, the cursor moves on by 1 to 3 bytes, and a read past the end is IndexError |
| Rle.Fit | spt_to_png_3.py:157-170 | padding with index 0 or truncating gives exactly `image_x * image_y` indices and keeps the decoded prefix |
| Rle.FoldSteps | spt_to_png_3.py:102-109 | each of the four `%` steps of the fold keeps the stated bounds and the low four bits |
| Rle.ReadImage | spt_to_png_3.py:111-172 | the cursor loop plus the reconciliation equals `ReadImageSpec`, and a frame read without error has exactly the pixel count |
| Rle.ReadFails | spt_to_png_3.py:116-138 | a code that cannot be read makes the whole frame fail with IndexError |
| Rle.ReadDone | spt_to_png_3.py:157-172 | once the cursor reaches the chunk's end, the frame is the decoded indices fitted to the pixel count |
| Rle.RunLengthAt | png_to_spt.py:95-101 | the run measured at `i` is 1 to 16383 equal indices and cannot be extended: it ends the frame, reaches the cap or meets a different index |
| Rle.RunEndMaximal | png_to_spt.py:100-101 | growing a run of equal indices stops at a run of equal indices that cannot grow |
| Rle.RunLengthUnique | png_to_spt.py:95-101 | the capped maximal run is the only run length with those properties |
| Rle.RepeatIsSlice | png_to_spt.py:95-101 | a stretch of equal indices is that many copies of its first |
| Rle.EncodeRun | png_to_spt.py:103-123 | a run is coded in 1 to 3 bytes, in one byte exactly for a single pixel or an inline run (2 to 7 pixels, at most 16 colours) |
| Rle.RunCode | png_to_spt.py:103-123 | the branches appending a run's bytes give `EncodeRun` |
| Rle.MeasureRun | png_to_spt.py:97-101 | the inner loop measures the capped maximal run |
| Rle.RleEncode | png_to_spt.py:91-125 | the run loop writes `EncodeFrame` of the indices |
| Rle.EncodeAppend | png_to_spt.py:121-125 | appending one run's code keeps the loop's account of the chunk |
| Rle.DecodeOneRun | spt_to_png_3.py:115-155 | decoding the code of one encoded run reads exactly its bytes and gives indices that agree with the run |
| Rle.DecodeInline | spt_to_png_3.py:119-148 | an inline byte comes back as its run, each index equal or 16 higher |
| Rle.FoldInline | spt_to_png_3.py:101-109 | with 16 colours the fold of an inline byte leaves `v` or `v + 16` |
| Rle.DecodeMarker | spt_to_png_3.py:127-144 | a marker with one length byte, or two for a run over 127, decodes to exactly the run |
| Rle.MarkerByte | spt_to_png_3.py:118-125 | the marker `0x80 | v` of an index inside the palette holds no inline run and folds to `v` |
| Rle.LongLength | png_to_spt.py:117-120 | the decoder's `low + 128 * (high - 1)` undoes the encoder's two length bytes |
| Rle.TokenShift | spt_to_png_3.py:115-155 | reading a code further into the buffer gives the same pixels with the cursor shifted |
| Rle.DecodeShift | spt_to_png_3.py:115-155 | the decoder never looks back: decoding inside `p + q` is decoding `q` |
| Rle.DecodeExtend | spt_to_png_3.py:115-155 | a decoding that succeeds is not changed by bytes after it |
| Rle.DecodeChunk | png_to_spt.py:91-125 | the chunk of `s[i..]` decodes on its own to indices that agree with `s[i..]` |
| Rle.FrameAgrees | png_to_spt.py:91-125 | the chunk of a whole frame decodes to indices that agree with the frame |
| Rle.RleRoundTrip | png_to_spt.py:91-128 | wherever the encoder's chunk sits in a file, decoding it succeeds and agrees with the frame, and gives exactly the frame unless the palette has 16 colours |
| Rle.ChunkRoundTrip | png_to_spt.py:91-125 | away from 16 colours, a frame's chunk decodes to exactly the frame |
| Rle.AgreeExact | spt_to_png_3.py:119-125 | away from 16 colours, agreement is equality |
| Rle.SixteenColourQuirk | spt_to_png_3.py:119-125 | with 16 colours, three pixels of index 0 are coded as `0xB0` and decoded as index 16 |
| SptDecoder.ParseHeader | spt_to_png_3.py:15-50 | an empty file stops early; a file too short for its type's fields is IndexError; otherwise bytes 0, 4, 8 and 12 give the header, offsets are 0 for type 2 and bytes 16 and 20 otherwise, and the palette length follows at 13 or 21 |
| SptDecoder.PaletteEntry | spt_to_png_3.py:54-65 | `parse_color` gives a colour exactly when two bytes are left, on the grid, and packing it gives those bytes |
| SptDecoder.ColorTable | spt_to_png_3.py:68-77 | the table has one entry per visited byte pair, entry `k` read at `at + 2k` |
| SptDecoder.ParseColorChunk | spt_to_png_3.py:68-77 | the loop in steps of two fills `ColorTable` with `(until + 1) / 2` entries |
| SptDecoder.TableComplete | spt_to_png_3.py:68-77 | a palette that ends inside the file has every entry |
| SptDecoder.SkipFrom | spt_to_png_3.py:81-87 | the zero-skip stops at the first multiple of four past the palette whose byte `+3` is nonzero, every earlier one being zero; a read past the end is IndexError |
| SptDecoder.SkipPadding | spt_to_png_3.py:86-87 | the `while` loop computes `SkipFrom` |
| SptDecoder.ChunkLength | spt_to_png_3.py:89-96 | the big-endian value of the four bytes at `at`, of fewer bytes near the end, and ValueError when none is left |
| SptDecoder.ChunkWalk | spt_to_png_3.py:174-180 | one chunk per stored image, the first right after the skip, each next length field right after the previous frame |
| SptDecoder.LocateChunks | spt_to_png_3.py:176-180 | the `for` loop computes `ChunkWalk` |
| SptDecoder.Frames | spt_to_png_3.py:184-185 | one decoded frame per chunk, each `read_image` of its chunk |
| SptDecoder.ReadFrames | spt_to_png_3.py:184-185 | the loop computes `Frames` |
| SptDecoder.ResolveFrame | spt_to_png_3.py:192-199 | every index is looked up modulo the table length; an empty table fails on the first pixel |
| SptDecoder.ResolveAll | spt_to_png_3.py:188-199 | every frame is looked up in turn, and the error is the empty table |
| SptDecoder.ResolveFrames | spt_to_png_3.py:188-199 | the outer loop computes `ResolveAll` |
| SptDecoder.ResolvePixels | spt_to_png_3.py:194-197 | the inner loop computes `ResolveFrame` |
| SptDecoder.ResolveAgreeing | spt_to_png_3.py:195-197 | indices that agree look up the same colour, so the lookup undoes the 16-colour quirk |
| SptDecoder.OutputNames | spt_to_png_3.py:201-207 | one name per frame: `<name>.png` for one frame, `<name>[[x;y]]__frame<i>.png` otherwise |
| SptDecoder.FrameNamesDistinct | spt_to_png_3.py:205-207 | distinct frames are saved under distinct names |
| SptDecoder.DecodeSpt | spt_to_png_3.py:17-19 | an empty file decodes to nothing, with the early return |
| SptDecoder.DecodedShape | spt_to_png_3.py:157-207 | a decoded file has as many pictures as byte 4 says, each `byte 8 × byte 12` pixels, every pixel on the grid |
| SptDecoder.ReadSptFile | spt_to_png_3.py:13-208 | the whole function (header, palette loop, zero-skip, chunk loop, frame loop, lookup loops, names) computes `DecodeSpt` |
| SptDecoder.ReadChunks | spt_to_png_3.py:174-208 | the part after the zero-skip computes its part of `DecodeSpt` |
| SptEncoder.Validate | png_to_spt.py:14-23 | no images, a palette size over 256 and a size mismatch are reported in that order; the images pass exactly otherwise |
| SptEncoder.CheckSizes | png_to_spt.py:20-23 | the loop decides that every image has the first one's size |
| SptEncoder.GatherPixels | png_to_spt.py:27-29 | `all_pixels` is every image's pixels, image after image |
| SptEncoder.FirstSeen | png_to_spt.py:31-33 | the dict's keys are the distinct colours of the pixels, each once |
| SptEncoder.Counts | png_to_spt.py:31-33 | each colour's count is how often it occurs |
| SptEncoder.CountColours | png_to_spt.py:31-33 | the `+= 1` loop builds exactly those keys, in insertion order, and those counts |
| SptEncoder.Items | png_to_spt.py:36 | `items()` pairs each key with its count, in key order |
| SptEncoder.InsertDescending | png_to_spt.py:36 | insertion into a descending list keeps it descending and adds exactly that item |
| SptEncoder.InsertStable | png_to_spt.py:36 | the inserted item lands behind the items with the same count |
| SptEncoder.RankByCount | png_to_spt.py:36 | `sorted(..., key=count, reverse=True)` is a permutation with counts descending |
| SptEncoder.RankStable | png_to_spt.py:36 | items with equal counts keep their original order, as Python's stable sort does |
| SptEncoder.Tallies | png_to_spt.py:31-36 | one tally per distinct colour, with its true count, and every colour has one |
| SptEncoder.RankingFacts | png_to_spt.py:31-36 | the ranking holds every colour once, with its count, most frequent first |
| SptEncoder.SlicePrefix | png_to_spt.py:41 | Python's `s[:n]` for any `n`, negative `n` included |
| SptEncoder.Palette | png_to_spt.py:41 | the palette is the colours of the first ranked tallies |
| SptEncoder.PaletteSize | png_to_spt.py:38-41 | the palette has `palette_size` entries, or every colour when fewer occur |
| SptEncoder.PaletteDistinct | png_to_spt.py:41 | the palette holds distinct colours of the image |
| SptEncoder.PaletteByFrequency | png_to_spt.py:36-41 | the palette runs from the most frequent colour to the least |
| SptEncoder.PaletteMostFrequent | png_to_spt.py:36-41 | a colour left out occurs at most as often as every colour kept |
| SptEncoder.PaletteComplete | png_to_spt.py:38-41 | with room for every colour, every colour of the image is in the palette |
| SptEncoder.PaletteBytes | png_to_spt.py:43-52 | the colour table is two bytes per colour, entry `k` the packing of colour `k` |
| SptEncoder.PackPalette | png_to_spt.py:43-52 | the loop computes `PaletteBytes` |
| SptEncoder.FieldBytes | png_to_spt.py:62-77 | a header field is `n` little-endian bytes of its value, or OverflowError naming the field |
| SptEncoder.HeaderBytes | png_to_spt.py:55-77 | the header is written exactly when every field fits its width (height and y in one byte where the code says so); it is 14 bytes for one image and 22 otherwise |
| SptEncoder.IndexOf | png_to_spt.py:85 | `palette.index` is the first position holding the colour; ValueError exactly when it is absent |
| SptEncoder.Nearest | png_to_spt.py:87-88 | `min` by squared distance: an entry at least as near as every other, the first of the nearest |
| SptEncoder.Quantise | png_to_spt.py:84-89 | a pixel is written with its own entry when the palette has it, with a nearest entry otherwise |
| SptEncoder.QuantiseAll | png_to_spt.py:82-89 | one index per pixel, each inside the palette; an empty palette fails on the first pixel |
| SptEncoder.QuantiseAllAt | png_to_spt.py:82-89 | index `m` is the index of pixel `m` |
| SptEncoder.QuantisePixels | png_to_spt.py:82-89 | the pixel loop computes `QuantiseAll` |
| SptEncoder.FrameChunk | png_to_spt.py:91-128 | a frame fails only on an empty palette or a chunk too long for its 4-byte length field |
| SptEncoder.EncodeImages | png_to_spt.py:80-128 | the image loop computes `ImageData` |
| SptEncoder.EncodeSpt | png_to_spt.py:14-15 | no images raises ValueError first |
| SptEncoder.CreateSptFile | png_to_spt.py:7-132 | the whole function, step by step, computes `EncodeSpt` |
| SptEncoder.WriteFile | png_to_spt.py:60-132 | header, colour table and image data are written one after another, computing `Assemble` |
| SptRoundTrip.HeaderLayout | png_to_spt.py:60-77 | where the encoder's header puts each field, at the positions the decoder reads |
| SptRoundTrip.ParseEncodedHeader | spt_to_png_3.py:21-50 | the encoder's header parses back to its own fields when each fits the one byte the decoder reads |
| SptRoundTrip.DecodedPalette | spt_to_png_3.py:68-77 | the packed colour table reads back entry by entry, each colour cut to the grid |
| SptRoundTrip.NoSkip | spt_to_png_3.py:86-87 | a first chunk whose length does not end in a zero byte stops the zero-skip where it starts |
| SptRoundTrip.SkipsLength | spt_to_png_3.py:86-87 | a first chunk whose length ends in a zero byte (256, 512, ...) is skipped over as padding |
| SptRoundTrip.WalkChunks | spt_to_png_3.py:176-180 | the chunk walk finds each frame where the encoder wrote it, with the length written |
| SptRoundTrip.FramesOfChunks | spt_to_png_3.py:184-185 | the frames read from the written chunks agree with the indices written |
| SptRoundTrip.FrameAt | spt_to_png_3.py:111-172 | one frame's codes read back as indices agreeing with the ones written |
| SptRoundTrip.ResolveAgreeingAll | spt_to_png_3.py:192-199 | frames that agree with the written indices look up the same colours |
| SptRoundTrip.EncodedParts | png_to_spt.py:14-132 | a file that is written passed validation and is assembled from the palette the encoder chose |
| SptRoundTrip.AssembledLaid | png_to_spt.py:130-132 | header, colour table and image data stand one after another in the written file |
| SptRoundTrip.ReconstructedAt | png_to_spt.py:84-89 | a pixel after the trip is its palette entry cut to the nibble grid |
| SptRoundTrip.RoundTrip | png_to_spt.py:7-132 | decoding the encoder's output gives one picture per image, with the images' size, the names for the offsets written, and every pixel the grid form of its palette entry |
| PngGrouping.PngFilesSelect | png_to_spt.py:151-152 | the selection holds exactly the PNG names of the listing |
| PngGrouping.AllPng | png_to_spt.py:151-152 | a listing made only of PNG names is kept whole |
| PngGrouping.FrameKey | png_to_spt.py:161-162 | a frame name's key is the part before its first `__frame`, which holds none |
| PngGrouping.KeysCover | png_to_spt.py:159-165 | every file's key is a group |
| PngGrouping.KeysDistinct | png_to_spt.py:159-167 | no group key is listed twice |
| PngGrouping.KeyOfSome | png_to_spt.py:159-167 | every group key is the key of some file |
| PngGrouping.MembersSelect | png_to_spt.py:165 | a group holds exactly the files of its key |
| PngGrouping.MembersOutside | png_to_spt.py:159-165 | a key no file has has no files |
| PngGrouping.GroupsPartition | png_to_spt.py:159-167 | the groups partition the files: distinct keys, none empty, each only files of its key, every file in its key's group |
| PngGrouping.OneKey | png_to_spt.py:159-167 | files sharing one key form a single group, in listing order |
| PngGrouping.GrowListing | png_to_spt.py:160-165 | one more file extends its key's list and adds its key when new |
| PngGrouping.GroupFiles | png_to_spt.py:159-167 | the grouping loop over a dict of lists computes `Groups` |
| PngGrouping.JobNeedsOffsets | png_to_spt.py:176-177 | a group of several files whose key has no `[[` fails with IndexError |
| PngGrouping.JobSorted | png_to_spt.py:168-178 | a group that converts does so with exactly its files, sorted, palette size 256 |
| PngGrouping.PlanFrom | png_to_spt.py:167-181 | one call per group, in group order, until the first group that fails, whose error ends processing |
| PngGrouping.ProcessDirectory | png_to_spt.py:151-181 | the directory branch makes exactly the calls of `DirectoryPlan` and stops on the same grouping exception, provided every image opens and every conversion returns |
| PngGrouping.OutcomeAt | png_to_spt.py:167-178 | outcome `k` is what group `k` converts to |
| PngGrouping.PlanStops | png_to_spt.py:167-178 | a failing group ends the plan with its error |
| PngGrouping.PlanGoesOn | png_to_spt.py:167-181 | a group that converts adds its call |
| PngGrouping.FrameNameKey | png_to_spt.py:161-162 | every frame saved from one decoded file is keyed by its stem and offsets |
| PngGrouping.KeyBeforeTag | png_to_spt.py:162 | the key of a name `stem + m + "__frame" + rest` is `stem + m` |
| PngGrouping.OpenSplit | png_to_spt.py:176-177 | splitting `stem[[q` at `[[` gives the stem and `q` |
| PngGrouping.OffsetFields | png_to_spt.py:177 | the offsets part between the brackets splits at `;` into the two numbers |
| PngGrouping.CloseSplit | png_to_spt.py:177 | the part before the first `]]` of `p]]` is `p` |
| PngGrouping.FieldSplit | png_to_spt.py:177 | `dx;dy` splits at `;` into its two parts |
| PngGrouping.OffsetKeyJob | png_to_spt.py:174-178 | a group of several files keyed by a stem and offsets converts to `<stem>.spt` with exactly those offsets |
| PngGrouping.SingleNameJob | png_to_spt.py:164-173 | the picture of a single-frame file is keyed by its stem and converts to `<stem>.spt` with the default offsets |
| PngGrouping.DecodedFramesRegroup | png_to_spt.py:151-181 | a directory holding the frames decoded from one multi-frame file leads to one call, under the file's stem, with the offsets its header held |
| PngGrouping.DecodedPictureRegroup | png_to_spt.py:151-181 | a directory holding the picture decoded from a single-frame file leads to one call, under the file's stem |
| PngGrouping.FrameNumberOf | spt_to_png_3.py:206 | frame `i`'s saved name carries the number `i` |
| PngGrouping.SortBy | png_to_spt.py:168 | sorting by a key gives a permutation in ascending key order |
| PngGrouping.SortByKeeps | png_to_spt.py:168 | names already in increasing key order keep their order |
| PngGrouping.FramesKeepOrder | png_to_spt.py:168 | sorting by frame number leaves the decoded frames in decoded order |
| PngGrouping.LessEqCommonPrefix | png_to_spt.py:168 | names with a common prefix compare as their rests do |
| PngGrouping.TenBeforeTwo | png_to_spt.py:168 | the name of frame 10 sorts before that of frame 2 |
| PngGrouping.SortedAfter | png_to_spt.py:168 | when an earlier name is greater than a later one, sorting reverses them, so the sorted list differs |
| PngGrouping.SortedFramesOutOfOrder | png_to_spt.py:168 | as written: with eleven frames or more, the sorted group puts frame 10 before frame 2 and is not in decoded order |
| PngGrouping.DecodedFramesInOrder | png_to_spt.py:168-178 | corrected: ordering by frame number converts the decoded frames back in decoded order, with the file's stem and offsets |
| DatFormat.ReadAt | repacker.py:18-19 | `seek(off); read(n)` on a binary file: a negative offset raises at the seek, a size below -1 raises at the read, a size of -1 or one running past the end reads to the end, a read from past the end is empty, and a read inside the file is that slice |
| DatFormat.WordAt | unpacker.py:28-31 | `unpack('<i', header[at:at+4])` succeeds exactly when four bytes are there and gives a signed 32-bit word |
| DatFormat.PackRead | repacker.py:59-66 | a packed word unpacks to itself |
| DatFormat.PackIsPackInt32 | repacker.py:59-66 | the spelt-out packing is `struct.pack('<i', ...)` |
| DatFormat.EncodeEntry | repacker.py:59-66 | an entry packs exactly when all eight words fit, into 32 bytes |
| DatFormat.EntryRead | unpacker.py:25-32 | an entry packed and read back word by word gives its name and content lengths and offsets and words 6 and 7 |
| DatFormat.EntryWordsAt | unpacker.py:28-31 | the words of a packed entry read back where it is stored |
| DatFormat.HeaderLength | unpacker.py:11-12 | the directory length is the word at bytes 4 to 8, if eight bytes are there |
| DatFormat.HeaderBytes | unpacker.py:14-15 | `seek(0); read(header_len)` is the first `header_len` bytes, the whole file for -1 or a length past the end, and raises exactly for a length below -1 |
| DatFormat.HeaderFromFirst | unpacker.py:11-12 | the length read is the name offset of the first entry |
| DatFormat.ConcatAt | repacker.py:73-84 | part `i` sits in the concatenation right after the parts before it |
| DatRepack.TerminatedAt | repacker.py:45 | stored name `i` is the name followed by a NUL |
| DatRepack.ContentsAt | repacker.py:81-84 | part `i` of the contents is file `i`'s bytes |
| DatRepack.Block | repacker.py:59-68 | an entry that fits packs to 32 bytes |
| DatRepack.Entries | repacker.py:48-68 | entries that all fit make a directory of 32 bytes per file |
| DatRepack.LayoutEntryAt | repacker.py:73-75 | in the archive, entry `i` sits at `32 * i` |
| DatRepack.LayoutNameAt | repacker.py:41-46 | stored name `i` sits at the name offset its entry gives |
| DatRepack.LayoutContentAt | repacker.py:42-71 | file `i`'s contents sit at the content offset its entry gives |
| DatRepack.SmallArchiveFits | repacker.py:41-71 | packing succeeds whenever the whole archive fits a signed 32-bit offset |
| DatRepack.NoProblem | repacker.py:48-68 | when the entry loop raises nothing, every file is there and every entry fits |
| DatRepack.NameOfStored | repacker.py:14-21 | a packed entry gives back the name stored at its name offset, without its NUL |
| DatRepack.OrderRead | repacker.py:14-23 | entries that each give their name give the names in order |
| DatRepack.GetFileOrder | repacker.py:5-23 | the reading loop computes `FileOrder` |
| DatRepack.ChooseOrder | repacker.py:28-38 | the reference archive's order when it can be read, the listing otherwise |
| DatRepack.PackStep | repacker.py:48-71 | one turn of the entry loop packs file `i` and advances both offsets by its name and content lengths |
| DatRepack.PackStops | repacker.py:52-66 | the loop stops at the first missing file or word that does not fit |
| DatRepack.PackDone | repacker.py:48-71 | a loop that ran to the end packed every entry |
| DatRepack.PackEntries | repacker.py:40-71 | the entry loop fails exactly on the first exception and otherwise builds the whole directory |
| DatRepack.WriteArchive | repacker.py:73-84 | the output is the entries, then every name with its NUL, then every file's contents |
| DatRepack.RepackThing | repacker.py:26-84 | `repack_thing` writes `Repack` of the chosen order |
| DatUnpack.SlotAt | unpacker.py:28-31 | an entry's words 0, 1, 3 and 4 can be read exactly when its first 20 bytes are there |
| DatUnpack.SlotOfStored | unpacker.py:25-32 | a packed entry reads back as its name and content lengths and offsets |
| DatUnpack.SlotsRead | unpacker.py:25-32 | entries that each read as a slot give the slots in order |
| DatUnpack.ExtractFrom | unpacker.py:34-47 | at most one file per entry, one for each when nothing fails |
| DatUnpack.ExtractAll | unpacker.py:34-47 | slots that each point at a name with its NUL and at contents write those files, in order, and stop on nothing |
| DatUnpack.UnpackThing | unpacker.py:5-47 | the loops of `unpack_thing` compute `Unpack`: the files written, in order, and the exception that stops them |
| DatRoundTrip.MembersAt | repacker.py:77-84 | member `i` is file `i`'s name and contents |
| DatRoundTrip.SlotsOfAt | repacker.py:59-66 | slot `i` is entry `i`'s kept words |
| DatRoundTrip.Packed | repacker.py:40-84 | a packed archive is the layout of the names with their NULs and of the contents, and every listed file was there |
| DatRoundTrip.HeaderOf | unpacker.py:11-15 | in an archive of at least one file, the directory length is `32 * n` and the directory is the first `32 * n` bytes |
| DatRoundTrip.EntryInHeader | unpacker.py:25-29 | entry `i` of the archive is stored at `32 * i` of that directory |
| DatRoundTrip.SlotsOfArchive | unpacker.py:25-32 | the entry loop reads entry `k` of the archive as slot `k` |
| DatRoundTrip.NameStored | unpacker.py:35-38 | entry `k` points at name `k` and its NUL |
| DatRoundTrip.ContentStored | unpacker.py:42-43 | entry `k` points at file `k`'s contents |
| DatRoundTrip.StoredMembers | unpacker.py:34-47 | every entry points at its file's name and contents |
| DatRoundTrip.UnpackRepack | unpacker.py:5-47 | unpacking an archive `repack_thing` wrote for at least one file writes every listed file back with its contents, in order, and stops on nothing |
| DatRoundTrip.OrderOfArchive | repacker.py:14-21 | `get_file_order_from_dat` reads entry `k` as name `k` |
| DatRoundTrip.NameInArchive | repacker.py:14-21 | the name read from entry `k` is name `k` |
| DatRoundTrip.FileOrderRepack | repacker.py:5-23 | the order read from an archive `repack_thing` wrote is the order it packed |
| DatRoundTrip.ReferenceKeepsOrder | repacker.py:34-36 | repacking with such an archive as the reference packs in its order, whatever the listing says |
| DatRoundTrip.EmptyDirectory | repacker.py:41-84 | an empty directory packs to an empty archive, which neither reader can read: its first eight bytes are missing |
| DatRoundTrip.NegativeDirectoryLength | unpacker.py:12-15 | an archive announcing a directory length below -1 stops at `read(header_len)`: `unpack_thing` writes nothing, `get_file_order_from_dat` raises and `repack_thing` keeps its listing |
| DatRoundTrip.MinusTwoDirectory | unpacker.py:12 | the bytes `FE FF FF FF` at offset 4 announce a directory length of -2 |

## Left out

- File and console I/O is left out, and the files and listings become parameters. This covers:
  - `np.fromfile`, `Image.open`/`save`, `open`/`write`, `os.listdir`, `os.path.isfile`, `os.makedirs` and argparse `main`;
  - the `print` messages, the progress dots and the warnings;
  - `process_spt_files`;
  - the single-file branch of `process_png_to_spt`, which is `splitext` plus one call.
- `os.listdir` order is a parameter, not a fixed order.
- PIL image conversion (`convert("RGBA")`, `getdata()`) and the reshape into a picture are left out: an image is its width, height and a sequence of RGBA colours.
- Path joins are left out, including the Windows-style `out_dir\\name` path of `unpack_thing`: a written file is a name with its contents.
- Names in the archive are opaque byte strings: the `unicode_escape` encode and decode are left out.
- In `repack_thing`:
  - a reference archive that cannot be read is modelled: the listing is kept;
  - the Python truthiness of `reference_dat` is reduced to present or absent;
  - which exception is printed is left out.
- Exceptions are modelled as error results that end the operation. Which Python exception class is raised appears only as an error tag.
- `int()` also accepts surrounding whitespace, underscores between digits and non-ASCII decimal digits. `ParseInt` models an optional `+` or `-` followed by one or more ASCII digits, and fails on anything else.
- `str.lower()` beyond ASCII is left out.
- PngGrouping.ProcessDirectory: the plan assumes that every `Image.open` and `create_spt_file` call returns. As in the Python code, every file is grouped first (png_to_spt.py:159-165) and the groups are then converted one by one (png_to_spt.py:167-181). The two differences:
  - an exception raised inside `Image.open` (png_to_spt.py:169) or `create_spt_file` (png_to_spt.py:173, 178) ends the Python loop there, but the plan still lists the later groups' calls;
  - `Image.open` runs before the offsets are parsed, so for a group where both fail the Python code raises the former, while the plan reports the offset error.
- Rle.DecodeToken: the length `L + 128 * (H - 1)` of a long run (spt_to_png_3.py:129-138) is computed on unbounded integers. That is what NumPy 1.x does: a `uint8` element combined with a Python `int` gives a 64-bit integer. Under NumPy 2 (NEP 50) the sum stays `uint8` and wraps modulo 256, so runs of 256 pixels or more would decode to other lengths there.
- SptDecoder.DecodeSpt: its own contract states only the empty-file case. The full behaviour is the body, reached through `ReadSptFile`, and the properties are the `DecodedShape` and `SptRoundTrip.RoundTrip` lemmas.
- SptEncoder.EncodeSpt: its own contract states only the no-images case. The rest is `CreateSptFile` and the `SptRoundTrip` and palette lemmas.
- SptRoundTrip.RoundTrip requires `Decodable`. Every field must survive the decoder's one-byte reads, every index must fit the 7-bit codes, every frame must hold `width * height` pixels, and the first chunk's length must not end in a zero byte. Outside that range the decoder reads other values (see the header layout lemmas).
- DatRepack.WriteArchive requires every file to be in the directory. It runs only after the entry loop, which raises on a missing file first.
- Rle.RleRoundTrip: with exactly 16 colours an inline run may decode 16 higher. The contract states agreement, and `SptDecoder.ResolveAgreeing` shows the colour lookup undoes it.

## Findings

| source | as written | input that shows it | evidently intended | confidence | as-written member | corrected member |
|---|---|---|---|---|---|---|
| png_to_spt.py:168 | `files.sort()` orders a group's frame names character by character | a file decoded into eleven frames or more: `x[[0;0]]__frame10.png` sorts before `x[[0;0]]__frame2.png` | frames converted back in frame-number order, the order the decoder wrote them | likely; not executed | PngGrouping.SortedFramesOutOfOrder | PngGrouping.DecodedFramesInOrder |
