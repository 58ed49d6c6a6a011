/** `read_spt_file`: the header, the palette, the padding before the first
    chunk, the walk over the length-prefixed chunks, the frames, the lookup of
    every index in the palette and the names of the images written. */
module SptDecoder {
  import opened Results
  import opened Bytes
  import opened Colour
  import opened SptFormat
  import opened Rle
  import opened Text

  // ---------------------------------------------------------------------------
  // Header
  // ---------------------------------------------------------------------------

  /** The header fields as the decoder reads them: every one a single byte,
      so a wider field contributes only its lowest byte. `colorOffset` is the
      position of the palette length byte. */
  datatype Header = Header(sptType: Byte, imageCount: Byte, width: Byte, height: Byte,
                           xOffset: Byte, yOffset: Byte, colorOffset: nat, colorCount: Byte)

  /** The position of the palette length byte: 13 in a single-image file,
      21 in any other. */
  function ColorOffset(sptType: Byte): nat
  {
    if sptType == SingleType then 13 else 21
  }

  /** The header reads at the start of `read_spt_file`. An empty file ends
      the function early; a file too short for the fields its type byte calls
      for fails with IndexError. */
  function ParseHeader(data: seq<Byte>): (r: Result<Header, DecodeError>)
    ensures data == [] <==> r == Err(EmptyInput)
    ensures data != [] ==> (r.Ok? <==> ColorOffset(data[0]) < |data|)
    ensures r.Err? && data != [] ==> r.error == IndexOutOfRange
    ensures r.Ok? ==> var h := r.value;
      h.sptType == data[0] && h.imageCount == data[4] && h.width == data[8] && h.height == data[12]
      && h.colorOffset == ColorOffset(data[0]) && h.colorCount == data[h.colorOffset]
    ensures r.Ok? && data[0] == SingleType ==> r.value.xOffset == 0 && r.value.yOffset == 0
    ensures r.Ok? && data[0] != SingleType ==> r.value.xOffset == data[16] && r.value.yOffset == data[20]
  {
    if data == [] then Err(EmptyInput)
    else if ColorOffset(data[0]) >= |data| then Err(IndexOutOfRange)
    else if data[0] == SingleType then
      Ok(Header(data[0], data[4], data[8], data[12], 0, 0, 13, data[13]))
    else
      Ok(Header(data[0], data[4], data[8], data[12], data[16], data[20], 21, data[21]))
  }

  // ---------------------------------------------------------------------------
  // Palette
  // ---------------------------------------------------------------------------

  /** `parse_color(at)`: the colour of the two bytes at `at`, or `None` when
      fewer than two bytes are left there. */
  function PaletteEntry(data: seq<Byte>, at: nat): (c: Option<Color>)
    ensures c.Some? <==> at + 2 <= |data|
    ensures c.Some? ==> Representable(c.value) && PackColor(c.value) == data[at..at + 2]
  {
    if at + 2 <= |data| then
      PackParsed(data[at], data[at + 1]);
      Some(ParseColor(data[at], data[at + 1]))
    else None
  }

  /** The table `parse_color_chunk(at, until)` fills: one entry for every
      pair of bytes the loop visits, keyed from 0. */
  function ColorTable(data: seq<Byte>, at: nat, count: nat): (t: seq<Option<Color>>)
    ensures |t| == count
    ensures forall k :: 0 <= k < count ==> t[k] == PaletteEntry(data, at + 2 * k)
  {
    seq(count, k requires 0 <= k < count => PaletteEntry(data, at + 2 * k))
  }

  /** `parse_color_chunk(parseAt, parseUntil)`: a cursor walks the palette in
      steps of two bytes and every step adds the next key to the table. */
  method ParseColorChunk(data: seq<Byte>, parseAt: nat, parseUntil: nat) returns (table: seq<Option<Color>>)
    ensures table == ColorTable(data, parseAt, (parseUntil + 1) / 2)
  {
    table := [];
    var colorId := 0;
    var i := parseAt;
    while i < parseAt + parseUntil
      invariant i == parseAt + 2 * colorId
      invariant colorId <= (parseUntil + 1) / 2
      invariant table == ColorTable(data, parseAt, colorId)
      decreases parseAt + parseUntil - i
    {
      table := table + [PaletteEntry(data, i)];
      i := i + 2;
      colorId := colorId + 1;
    }
  }

  /** The colours of a table with no missing entry. */
  function Colors(table: seq<Option<Color>>): (p: seq<Color>)
    requires forall k :: 0 <= k < |table| ==> table[k].Some?
    ensures |p| == |table| && forall k :: 0 <= k < |p| ==> table[k] == Some(p[k])
  {
    seq(|table|, k requires 0 <= k < |table| => table[k].value)
  }

  /** A palette that ends inside the file has every entry. */
  lemma TableComplete(data: seq<Byte>, at: nat, count: nat)
    requires at + 2 * count <= |data|
    ensures forall k :: 0 <= k < count ==> ColorTable(data, at, count)[k].Some?
  {
  }

  // ---------------------------------------------------------------------------
  // Padding and chunk walk
  // ---------------------------------------------------------------------------

  /** The byte at `j + 3`, the low byte of a big-endian word at `j`, is zero. */
  predicate ZeroLowByte(data: seq<Byte>, j: nat)
  {
    j + 3 < |data| && data[j + 3] == 0
  }

  /** The zero-skip loop from cursor `k`: move on in steps of four while the
      byte at `+3` is zero; IndexError when that byte is past the end. */
  function SkipFrom(data: seq<Byte>, k: nat): (r: Result<nat, DecodeError>)
    ensures r.Err? ==> r.error == IndexOutOfRange
    ensures r.Ok? ==> k <= r.value && (r.value - k) % 4 == 0 && r.value + 3 < |data| && data[r.value + 3] != 0
    ensures r.Ok? ==> forall j :: k <= j < r.value && (j - k) % 4 == 0 ==> ZeroLowByte(data, j)
    decreases |data| - k
  {
    if k + 3 >= |data| then Err(IndexOutOfRange)
    else if data[k + 3] == 0 then SkipFrom(data, k + 4)
    else Ok(k)
  }

  /** The zero-skip `while data[init_offset+3] == 0` after the palette. */
  method SkipPadding(data: seq<Byte>, start: nat) returns (r: Result<nat, DecodeError>)
    ensures r == SkipFrom(data, start)
  {
    var initOffset := start;
    while true
      invariant start <= initOffset
      invariant SkipFrom(data, start) == SkipFrom(data, initOffset)
      decreases |data| - initOffset
    {
      if initOffset + 3 >= |data| {
        return Err(IndexOutOfRange);
      }
      if data[initOffset + 3] != 0 {
        return Ok(initOffset);
      }
      initOffset := initOffset + 4;
    }
  }

  /** `get_chunk_length(at)`: the big-endian value of the (up to) four bytes
      at `at`. With no byte left numpy refuses to vectorise the empty slice
      (ValueError); with one to three left their value is used. */
  function ChunkLength(data: seq<Byte>, at: nat): (r: Result<nat, DecodeError>)
    ensures r.Err? <==> at >= |data|
    ensures r.Err? ==> r.error == EmptyLengthField
    ensures at + 4 <= |data| ==> r == Ok(BigEndian(data[at..at + 4]))
    ensures r.Ok? ==> r.value < Pow256(4)
  {
    if at >= |data| then Err(EmptyLengthField)
    else if at + 4 <= |data| then Ok(BigEndian(data[at..at + 4]))
    else
      PowMonotone(|data| - at, 4);
      Ok(BigEndian(data[at..]))
  }

  lemma {:induction false} PowMonotone(m: nat, n: nat)
    requires m <= n
    ensures Pow256(m) <= Pow256(n)
    decreases n
  {
    if m < n {
      PowMonotone(m, n - 1);
    }
  }

  /** `EncodedImage`: where a frame's bytes start and how many there are. */
  datatype EncodedImage = EncodedImage(offset: nat, length: nat)

  /** Chunk `next` comes right after chunk `prev`: its length field follows
      the bytes of `prev`, and its length is what that field says. */
  predicate Follows(data: seq<Byte>, prev: EncodedImage, next: EncodedImage)
  {
    next.offset == prev.offset + prev.length + 4 && next.offset >= 4
    && ChunkLength(data, next.offset - 4) == Ok(next.length)
  }

  /** The chunk walk over `count` frames from cursor `at`: the length field,
      then the frame from four bytes on; the next field follows that frame. */
  function ChunkWalk(data: seq<Byte>, at: nat, count: nat): (r: Result<seq<EncodedImage>, DecodeError>)
    ensures r.Err? ==> r.error == EmptyLengthField
    ensures r.Ok? ==> |r.value| == count
    ensures r.Ok? && count > 0 ==> r.value[0].offset == at + 4 && ChunkLength(data, at) == Ok(r.value[0].length)
    ensures r.Ok? ==> forall k :: 0 < k < count ==> Follows(data, r.value[k - 1], r.value[k])
    decreases count
  {
    if count == 0 then Ok([])
    else
      match ChunkLength(data, at)
      case Err(e) => Err(e)
      case Ok(len) =>
        var rest := ChunkWalk(data, at + len + 4, count - 1);
        WalkCons(data, EncodedImage(at + 4, len), rest);
        Prepend([EncodedImage(at + 4, len)], rest)
  }

  /** A chunk placed before the rest of the walk keeps it chained. */
  lemma WalkCons(data: seq<Byte>, c: EncodedImage, rest: Result<seq<EncodedImage>, DecodeError>)
    requires rest.Ok? && rest.value != [] ==>
      (rest.value[0].offset == c.offset + c.length + 4 && ChunkLength(data, rest.value[0].offset - 4) == Ok(rest.value[0].length))
    requires rest.Ok? ==> forall k :: 0 < k < |rest.value| ==> Follows(data, rest.value[k - 1], rest.value[k])
    ensures Prepend([c], rest).Ok? ==> var w := Prepend([c], rest).value;
      forall k :: 0 < k < |w| ==> Follows(data, w[k - 1], w[k])
  {
    if rest.Ok? {
      var w := [c] + rest.value;
      forall k | 0 < k < |w|
        ensures Follows(data, w[k - 1], w[k])
      {
        if k > 1 {
          assert w[k - 1] == rest.value[k - 2] && w[k] == rest.value[k - 1];
        }
      }
    }
  }

  /** The `for i in range(images_stored)` loop collecting the chunks. */
  method LocateChunks(data: seq<Byte>, start: nat, imagesStored: nat) returns (r: Result<seq<EncodedImage>, DecodeError>)
    ensures r == ChunkWalk(data, start, imagesStored)
  {
    var encodedImages: seq<EncodedImage> := [];
    var currentReadOffset := start;
    PrependNothing(ChunkWalk(data, start, imagesStored));
    for i := 0 to imagesStored
      invariant WalkSoFar(data, start, imagesStored, encodedImages, currentReadOffset, imagesStored - i)
    {
      var chunkLen := ChunkLength(data, currentReadOffset);
      if chunkLen.Err? {
        WalkFails(data, start, imagesStored, encodedImages, currentReadOffset, imagesStored - i);
        return Err(chunkLen.error);
      }
      ghost var before, at := encodedImages, currentReadOffset;
      encodedImages := encodedImages + [EncodedImage(currentReadOffset + 4, chunkLen.value)];
      currentReadOffset := currentReadOffset + chunkLen.value + 4;
      WalkStep(data, start, imagesStored, before, at, imagesStored - i, chunkLen.value, encodedImages, currentReadOffset);
    }
    WalkDone(data, start, imagesStored, encodedImages, currentReadOffset);
    r := Ok(encodedImages);
  }

  /** The chunks found so far, followed by the walk over the `left` frames
      still to come, are the whole walk. */
  predicate WalkSoFar(data: seq<Byte>, start: nat, count: nat, found: seq<EncodedImage>, at: nat, left: nat)
  {
    ChunkWalk(data, start, count) == Prepend(found, ChunkWalk(data, at, left))
  }

  lemma WalkStep(data: seq<Byte>, start: nat, count: nat, found: seq<EncodedImage>, at: nat, left: nat,
                 len: nat, found': seq<EncodedImage>, at': nat)
    requires left > 0 && WalkSoFar(data, start, count, found, at, left)
    requires ChunkLength(data, at) == Ok(len)
    requires found' == found + [EncodedImage(at + 4, len)] && at' == at + len + 4
    ensures WalkSoFar(data, start, count, found', at', left - 1)
  {
    assert ChunkWalk(data, at, left) == Prepend([EncodedImage(at + 4, len)], ChunkWalk(data, at', left - 1));
    PrependAppend(found, [EncodedImage(at + 4, len)], ChunkWalk(data, at', left - 1));
  }

  lemma WalkFails(data: seq<Byte>, start: nat, count: nat, found: seq<EncodedImage>, at: nat, left: nat)
    requires left > 0 && WalkSoFar(data, start, count, found, at, left)
    requires ChunkLength(data, at).Err?
    ensures ChunkWalk(data, start, count) == Err(ChunkLength(data, at).error)
  {
  }

  lemma WalkDone(data: seq<Byte>, start: nat, count: nat, found: seq<EncodedImage>, at: nat)
    requires WalkSoFar(data, start, count, found, at, 0)
    ensures ChunkWalk(data, start, count) == Ok(found)
  {
    assert found + [] == found;
  }

  // ---------------------------------------------------------------------------
  // Frames
  // ---------------------------------------------------------------------------

  /** `read_image` on every chunk in turn. */
  function Frames(data: seq<Byte>, chunks: seq<EncodedImage>, colorCount: nat, pixelCount: nat)
    : (r: Result<seq<seq<nat>>, DecodeError>)
    ensures r.Ok? ==> |r.value| == |chunks|
    ensures r.Ok? ==> forall k :: 0 <= k < |chunks| ==>
      ReadImageSpec(data, chunks[k].offset, chunks[k].length, colorCount, pixelCount) == Ok(r.value[k])
    decreases |chunks|
  {
    if chunks == [] then Ok([])
    else
      match ReadImageSpec(data, chunks[0].offset, chunks[0].length, colorCount, pixelCount)
      case Err(e) => Err(e)
      case Ok(f) =>
        Prepend([f], Frames(data, chunks[1..], colorCount, pixelCount))
  }

  /** The loop `for enc_i in encoded_images: read_image(...)`. */
  method ReadFrames(data: seq<Byte>, chunks: seq<EncodedImage>, colorCount: nat, pixelCount: nat)
    returns (r: Result<seq<seq<nat>>, DecodeError>)
    ensures r == Frames(data, chunks, colorCount, pixelCount)
  {
    var outputImages: seq<seq<nat>> := [];
    PrependNothing(Frames(data, chunks, colorCount, pixelCount));
    for i := 0 to |chunks|
      invariant Frames(data, chunks, colorCount, pixelCount)
             == Prepend(outputImages, Frames(data, chunks[i..], colorCount, pixelCount))
    {
      var frame := ReadImage(data, chunks[i].offset, chunks[i].length, colorCount, pixelCount);
      assert chunks[i..][0] == chunks[i] && chunks[i..][1..] == chunks[i + 1..];
      if frame.Err? {
        assert Frames(data, chunks[i..], colorCount, pixelCount) == Err(frame.error);
        return Err(frame.error);
      }
      PrependAppend(outputImages, [frame.value], Frames(data, chunks[i + 1..], colorCount, pixelCount));
      outputImages := outputImages + [frame.value];
    }
    assert chunks[|chunks|..] == [];
    assert outputImages + [] == outputImages;
    r := Ok(outputImages);
  }

  // ---------------------------------------------------------------------------
  // Palette lookup
  // ---------------------------------------------------------------------------

  /** A frame's indices looked up as `color_table[j % (max(keys) + 1)]`; the
      keys are 0 to `|palette| - 1`, so that is `j` modulo the palette length.
      An empty palette makes `max` fail on the first pixel. */
  function ResolveFrame(palette: seq<Color>, frame: seq<nat>): (r: Result<seq<Color>, DecodeError>)
    ensures r.Ok? <==> palette != [] || frame == []
    ensures r.Err? ==> r.error == EmptyColorTable
    ensures r.Ok? ==> |r.value| == |frame| && forall k :: 0 <= k < |frame| ==> r.value[k] == palette[frame[k] % |palette|]
  {
    if frame == [] then Ok([])
    else if palette == [] then Err(EmptyColorTable)
    else Ok(seq(|frame|, k requires 0 <= k < |frame| => palette[frame[k] % |palette|]))
  }

  /** Every frame looked up in turn. */
  function ResolveAll(palette: seq<Color>, frames: seq<seq<nat>>): (r: Result<seq<seq<Color>>, DecodeError>)
    ensures r.Ok? ==> |r.value| == |frames| && forall k :: 0 <= k < |frames| ==> ResolveFrame(palette, frames[k]) == Ok(r.value[k])
    ensures r.Err? ==> r.error == EmptyColorTable
    decreases |frames|
  {
    if frames == [] then Ok([])
    else
      match ResolveFrame(palette, frames[0])
      case Err(e) => Err(e)
      case Ok(c) => Prepend([c], ResolveAll(palette, frames[1..]))
  }

  /** The nested loops building `output_images_colored`. */
  method ResolveFrames(palette: seq<Color>, frames: seq<seq<nat>>) returns (r: Result<seq<seq<Color>>, DecodeError>)
    ensures r == ResolveAll(palette, frames)
  {
    var outputImagesColored: seq<seq<Color>> := [];
    PrependNothing(ResolveAll(palette, frames));
    for i := 0 to |frames|
      invariant ResolveAll(palette, frames) == Prepend(outputImagesColored, ResolveAll(palette, frames[i..]))
    {
      var frame := frames[i];
      var coloredImg := ResolvePixels(palette, frame);
      if coloredImg.Err? {
        ResolveFails(palette, frames[i..]);
        return Err(EmptyColorTable);
      }
      ResolveNext(palette, frames, i, outputImagesColored, coloredImg.value);
      outputImagesColored := outputImagesColored + [coloredImg.value];
    }
    assert frames[|frames|..] == [];
    assert outputImagesColored + [] == outputImagesColored;
    r := Ok(outputImagesColored);
  }

  /** The inner loop `for j in i`, looking every index of one frame up. */
  method ResolvePixels(palette: seq<Color>, frame: seq<nat>) returns (r: Result<seq<Color>, DecodeError>)
    ensures r == ResolveFrame(palette, frame)
  {
    var coloredImg: seq<Color> := [];
    for k := 0 to |frame|
      invariant palette != [] || k == 0
      invariant |coloredImg| == k
      invariant forall m :: 0 <= m < k ==> coloredImg[m] == palette[frame[m] % |palette|]
    {
      if palette == [] {
        return Err(EmptyColorTable);
      }
      coloredImg := coloredImg + [palette[frame[k] % |palette|]];
    }
    ResolvedIs(palette, frame, coloredImg);
    r := Ok(coloredImg);
  }

  lemma ResolveFails(palette: seq<Color>, rest: seq<seq<nat>>)
    requires rest != [] && ResolveFrame(palette, rest[0]).Err?
    ensures ResolveAll(palette, rest) == Err(EmptyColorTable)
  {
  }

  lemma ResolveNext(palette: seq<Color>, frames: seq<seq<nat>>, i: nat, done: seq<seq<Color>>, colored: seq<Color>)
    requires i < |frames| && ResolveFrame(palette, frames[i]) == Ok(colored)
    requires ResolveAll(palette, frames) == Prepend(done, ResolveAll(palette, frames[i..]))
    ensures ResolveAll(palette, frames) == Prepend(done + [colored], ResolveAll(palette, frames[i + 1..]))
  {
    assert frames[i..][0] == frames[i] && frames[i..][1..] == frames[i + 1..];
    PrependAppend(done, [colored], ResolveAll(palette, frames[i + 1..]));
  }

  /** The colours the inner loop collected are the frame looked up. */
  lemma ResolvedIs(palette: seq<Color>, frame: seq<nat>, colored: seq<Color>)
    requires palette != [] || frame == []
    requires |colored| == |frame| && forall m :: 0 <= m < |frame| ==> colored[m] == palette[frame[m] % |palette|]
    ensures ResolveFrame(palette, frame) == Ok(colored)
  {
    if frame != [] {
      assert ResolveFrame(palette, frame).value == colored;
    }
  }

  /** Indices that agree (equal, or 16 apart in a 16-colour palette) look up
      the same colour: the lookup modulo the palette length undoes the
      16-colour quirk of the run-length grammar. */
  lemma ResolveAgreeing(palette: seq<Color>, t: seq<nat>, s: seq<nat>)
    requires AllAgree(t, s, |palette|)
    ensures ResolveFrame(palette, t) == ResolveFrame(palette, s)
  {
    if t != [] && palette != [] {
      forall k | 0 <= k < |t|
        ensures t[k] % |palette| == s[k] % |palette|
      {
        if t[k] != s[k] {
          assert t[k] == s[k] + 16;
        }
      }
      assert ResolveFrame(palette, t).value == ResolveFrame(palette, s).value;
    }
  }

  // ---------------------------------------------------------------------------
  // Output
  // ---------------------------------------------------------------------------

  /** An image `read_spt_file` saves: its file name, its size and its RGBA
      pixels row by row. */
  datatype Picture = Picture(name: string, width: nat, height: nat, pixels: seq<Color>)

  /** The name of frame `i` of a multi-frame file `stem.spt`. */
  function FrameName(stem: string, x: nat, y: nat, i: nat): string
  {
    stem + "[[" + Decimal(x) + ";" + Decimal(y) + "]]__frame" + Decimal(i) + ".png"
  }

  /** The names the images are saved under: `<name>.png` for a file with
      exactly one frame, otherwise `<name>[[x;y]]__frame<i>.png` in chunk
      order, `<name>` being the input name without its last four characters. */
  function OutputNames(imgName: string, x: nat, y: nat, count: nat): (names: seq<string>)
    ensures |names| == count
    ensures count == 1 ==> names == [DropLast(imgName, 4) + ".png"]
    ensures count != 1 ==> forall i :: 0 <= i < count ==> names[i] == FrameName(DropLast(imgName, 4), x, y, i)
  {
    if count == 1 then [DropLast(imgName, 4) + ".png"]
    else seq(count, i requires 0 <= i < count => FrameName(DropLast(imgName, 4), x, y, i))
  }

  /** Distinct frames are saved under distinct names. */
  lemma FrameNamesDistinct(stem: string, x: nat, y: nat, i: nat, j: nat)
    requires FrameName(stem, x, y, i) == FrameName(stem, x, y, j)
    ensures i == j
  {
    var p := stem + "[[" + Decimal(x) + ";" + Decimal(y) + "]]__frame";
    var a, b := FrameName(stem, x, y, i), FrameName(stem, x, y, j);
    assert a == p + (Decimal(i) + ".png") && b == p + (Decimal(j) + ".png");
    assert a[|p|..] == Decimal(i) + ".png" && b[|p|..] == Decimal(j) + ".png";
    CancelSuffix(Decimal(i), Decimal(j), ".png");
    DecimalInjective(i, j);
  }

  /** Equal strings with equal suffixes have equal prefixes. */
  lemma CancelSuffix(d: string, e: string, suffix: string)
    requires d + suffix == e + suffix
    ensures d == e
  {
    assert d == (d + suffix)[..|d|] && e == (e + suffix)[..|e|];
  }

  /** Name and size attached to each coloured frame. */
  function Pictures(names: seq<string>, width: nat, height: nat, frames: seq<seq<Color>>): (p: seq<Picture>)
    requires |names| == |frames|
    ensures |p| == |frames|
    ensures forall k :: 0 <= k < |p| ==> p[k] == Picture(names[k], width, height, frames[k])
  {
    seq(|frames|, k requires 0 <= k < |frames| => Picture(names[k], width, height, frames[k]))
  }

  // ---------------------------------------------------------------------------
  // The whole file
  // ---------------------------------------------------------------------------

  /** `image_x * image_y`, the number of indices every frame is made to have. */
  function PixelCount(h: Header): nat
  {
    h.width as int * h.height as int
  }

  /** Where the zero-skip starts: right after the palette. */
  function PaletteEnd(h: Header): nat
  {
    h.colorCount as int * 2 + h.colorOffset + 1
  }

  /** What `read_spt_file` saves for the bytes `data` of a file named
      `imgName`, or the reason it stops first. */
  function DecodeSpt(data: seq<Byte>, imgName: string): (r: Result<seq<Picture>, DecodeError>)
    ensures data == [] ==> r == Err(EmptyInput)
  {
    match ParseHeader(data)
    case Err(e) => Err(e)
    case Ok(h) =>
      match SkipFrom(data, PaletteEnd(h))
      case Err(e) => Err(e)
      case Ok(first) => DecodeChunks(data, h, first, imgName)
  }

  /** The part after the zero-skip: the palette has every entry, because the
      skip read a byte beyond it. */
  function DecodeChunks(data: seq<Byte>, h: Header, first: nat, imgName: string): (r: Result<seq<Picture>, DecodeError>)
    requires ParseHeader(data) == Ok(h) && SkipFrom(data, PaletteEnd(h)) == Ok(first)
  {
    TableComplete(data, h.colorOffset + 1, h.colorCount);
    var palette := Colors(ColorTable(data, h.colorOffset + 1, h.colorCount));
    match ChunkWalk(data, first, h.imageCount)
    case Err(e) => Err(e)
    case Ok(chunks) =>
      match Frames(data, chunks, h.colorCount, PixelCount(h))
      case Err(e) => Err(e)
      case Ok(frames) =>
        match ResolveAll(palette, frames)
        case Err(e) => Err(e)
        case Ok(colored) => Ok(Pictures(OutputNames(imgName, h.xOffset, h.yOffset, |colored|), h.width, h.height, colored))
  }

  /** A decoded file has as many images as byte 4 says, each of the size bytes
      8 and 12 give, and every pixel on the palette's nibble grid. */
  lemma DecodedShape(data: seq<Byte>, imgName: string)
    requires DecodeSpt(data, imgName).Ok?
    ensures var p := DecodeSpt(data, imgName).value;
      |p| == data[4]
      && (forall k :: 0 <= k < |p| ==> p[k].width == data[8] && p[k].height == data[12] && |p[k].pixels| == data[8] as int * data[12] as int)
      && (forall k, m :: 0 <= k < |p| && 0 <= m < |p[k].pixels| ==> Representable(p[k].pixels[m]))
  {
    var h := ParseHeader(data).value;
    var first := SkipFrom(data, PaletteEnd(h)).value;
    assert DecodeSpt(data, imgName) == DecodeChunks(data, h, first, imgName);
    ChunksShape(data, h, first, imgName);
  }

  lemma ChunksShape(data: seq<Byte>, h: Header, first: nat, imgName: string)
    requires ParseHeader(data) == Ok(h) && SkipFrom(data, PaletteEnd(h)) == Ok(first)
    requires DecodeChunks(data, h, first, imgName).Ok?
    ensures var p := DecodeChunks(data, h, first, imgName).value;
      |p| == h.imageCount
      && (forall k :: 0 <= k < |p| ==> p[k].width == h.width && p[k].height == h.height && |p[k].pixels| == PixelCount(h))
      && (forall k, m :: 0 <= k < |p| && 0 <= m < |p[k].pixels| ==> Representable(p[k].pixels[m]))
  {
    var at := h.colorOffset + 1;
    TableComplete(data, at, h.colorCount);
    var palette := Colors(ColorTable(data, at, h.colorCount));
    var chunks := ChunkWalk(data, first, h.imageCount).value;
    var frames := Frames(data, chunks, h.colorCount, PixelCount(h)).value;
    var colored := ResolveAll(palette, frames).value;
    ColoredRepresentable(data, at, h.colorCount, palette, frames, colored);
    FramesSized(data, chunks, h.colorCount, PixelCount(h), frames);
    ResolvedSized(palette, frames, colored);
  }

  /** Every frame read has exactly the pixel count. */
  lemma FramesSized(data: seq<Byte>, chunks: seq<EncodedImage>, colorCount: nat, pixelCount: nat, frames: seq<seq<nat>>)
    requires Frames(data, chunks, colorCount, pixelCount) == Ok(frames)
    ensures forall k :: 0 <= k < |frames| ==> |frames[k]| == pixelCount
  {
    forall k | 0 <= k < |frames|
      ensures |frames[k]| == pixelCount
    {
      assert ReadImageSpec(data, chunks[k].offset, chunks[k].length, colorCount, pixelCount) == Ok(frames[k]);
    }
  }

  /** Looking a frame up keeps its length. */
  lemma ResolvedSized(palette: seq<Color>, frames: seq<seq<nat>>, colored: seq<seq<Color>>)
    requires ResolveAll(palette, frames) == Ok(colored)
    ensures |colored| == |frames| && forall k :: 0 <= k < |frames| ==> |colored[k]| == |frames[k]|
  {
    forall k | 0 <= k < |frames|
      ensures |colored[k]| == |frames[k]|
    {
      assert ResolveFrame(palette, frames[k]) == Ok(colored[k]);
    }
  }

  /** Every colour looked up comes from the palette, so lies on the grid. */
  lemma ColoredRepresentable(data: seq<Byte>, at: nat, count: nat, palette: seq<Color>,
                             frames: seq<seq<nat>>, colored: seq<seq<Color>>)
    requires at + 2 * count <= |data|
    requires forall k :: 0 <= k < count ==> ColorTable(data, at, count)[k].Some?
    requires palette == Colors(ColorTable(data, at, count))
    requires ResolveAll(palette, frames) == Ok(colored)
    ensures forall k, m :: 0 <= k < |colored| && 0 <= m < |colored[k]| ==> Representable(colored[k][m])
  {
    forall k, m | 0 <= k < |colored| && 0 <= m < |colored[k]|
      ensures Representable(colored[k][m])
    {
      assert ResolveFrame(palette, frames[k]) == Ok(colored[k]);
      var j := frames[k][m] % |palette|;
      assert colored[k][m] == palette[j];
      assert ColorTable(data, at, count)[j] == PaletteEntry(data, at + 2 * j);
    }
  }

  /** `read_spt_file` step by step: header, palette loop, zero-skip loop,
      chunk loop, frame loop, lookup loops, names. */
  method ReadSptFile(data: seq<Byte>, imgName: string) returns (r: Result<seq<Picture>, DecodeError>)
    ensures r == DecodeSpt(data, imgName)
  {
    if |data| == 0 {
      return Err(EmptyInput);
    }
    var header := ParseHeader(data);
    if header.Err? {
      return Err(header.error);
    }
    var h := header.value;
    var table := ParseColorChunk(data, h.colorOffset + 1, h.colorCount as int * 2);
    assert (h.colorCount as int * 2 + 1) / 2 == h.colorCount;
    var initOffset := SkipPadding(data, PaletteEnd(h));
    if initOffset.Err? {
      return Err(initOffset.error);
    }
    assert DecodeSpt(data, imgName) == DecodeChunks(data, h, initOffset.value, imgName);
    r := ReadChunks(data, h, initOffset.value, table, imgName);
  }

  /** The remainder of `read_spt_file` once the first length field is found. */
  method ReadChunks(data: seq<Byte>, h: Header, first: nat, table: seq<Option<Color>>, imgName: string)
    returns (r: Result<seq<Picture>, DecodeError>)
    requires ParseHeader(data) == Ok(h) && SkipFrom(data, PaletteEnd(h)) == Ok(first)
    requires table == ColorTable(data, h.colorOffset + 1, h.colorCount)
    ensures r == DecodeChunks(data, h, first, imgName)
  {
    TableComplete(data, h.colorOffset + 1, h.colorCount);
    var palette := Colors(table);
    var encodedImages := LocateChunks(data, first, h.imageCount);
    if encodedImages.Err? {
      return Err(encodedImages.error);
    }
    var outputImages := ReadFrames(data, encodedImages.value, h.colorCount, PixelCount(h));
    if outputImages.Err? {
      return Err(outputImages.error);
    }
    var colored := ResolveFrames(palette, outputImages.value);
    if colored.Err? {
      return Err(colored.error);
    }
    var names := OutputNames(imgName, h.xOffset, h.yOffset, |colored.value|);
    r := Ok(Pictures(names, h.width, h.height, colored.value));
  }
}
