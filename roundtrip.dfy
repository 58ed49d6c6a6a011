/** What the decoder makes of a file the encoder writes: the same number of
    frames, the same size and offsets, and every pixel replaced by the palette
    entry it was mapped to, cut to the 4-bit channels the file stores. */
module SptRoundTrip {
  import opened Results
  import opened Bytes
  import opened Colour
  import opened SptFormat
  import opened Rle
  import D = SptDecoder
  import E = SptEncoder

  // ---------------------------------------------------------------------------
  // Header
  // ---------------------------------------------------------------------------

  /** Where the encoder's header puts each field: the low bytes of the type,
      count, width and height at 0, 4, 8 and 12, in a multi-image file the
      offsets at 16 and 20, and the palette length last, at the position the
      type byte tells the decoder to look. */
  lemma {:induction false} HeaderLayout(n: nat, w: nat, h: nat, x: int, y: int, plen: nat)
    requires E.HeaderBytes(n, w, h, x, y, plen).Ok?
    ensures var hb := E.HeaderBytes(n, w, h, x, y, plen).value;
      |hb| == D.ColorOffset(hb[0]) + 1 && hb[0] == E.SptType(n)
      && hb[4] == n % 256 && hb[8] == w % 256 && hb[12] == h % 256 && hb[|hb| - 1] == plen
      && (n != 1 ==> hb[16] == x % 256 && hb[20] == y)
  {
    var t := E.SptType(n);
    var a := E.FieldBytes(t, 4, ImageCount).value;
    var b := E.FieldBytes(n, 4, ImageCount).value;
    var c := E.FieldBytes(w, 4, Width).value;
    var d := E.FieldBytes(h, if t == MultiType then 4 else 1, Height).value;
    var xy := if t == MultiType then Then(E.FieldBytes(x, 4, XOffset), E.FieldBytes(y, 1, YOffset)) else Ok([]);
    var f := E.FieldBytes(plen, 1, PaletteLength).value;
    var hb := E.HeaderBytes(n, w, h, x, y, plen).value;
    assert hb == a + (b + (c + (d + (xy.value + f))));
    if t == MultiType {
      assert xy.value[4] == y % 256;
    }
  }

  /** The header the encoder writes parses back to its own fields, each
      within the one byte the decoder reads of it. */
  lemma {:induction false} ParseEncodedHeader(n: nat, w: nat, h: nat, x: int, y: int, plen: nat, data: seq<Byte>)
    requires E.HeaderBytes(n, w, h, x, y, plen).Ok?
    requires 0 < n < 256 && w < 256 && h < 256 && (n != 1 ==> x < 256)
    requires Placed(data, 0, E.HeaderBytes(n, w, h, x, y, plen).value)
    ensures var hb := E.HeaderBytes(n, w, h, x, y, plen).value;
      plen < 256 && (n != 1 ==> 0 <= x && 0 <= y < 256)
      && D.ParseHeader(data)
         == Ok(D.Header(E.SptType(n), n, w, h, if n == 1 then 0 else x, if n == 1 then 0 else y, |hb| - 1, plen))
  {
    HeaderLayout(n, w, h, x, y, plen);
    var hb := E.HeaderBytes(n, w, h, x, y, plen).value;
    PlacedIff(data, 0, hb);
    ParseLaidHeader(data, hb, n, w, h, x, y, plen);
  }

  /** A file that starts with a header laid out as the encoder lays it out
      parses back to that header's fields. */
  lemma ParseLaidHeader(data: seq<Byte>, hb: seq<Byte>, n: nat, w: nat, h: nat, x: int, y: int, plen: nat)
    requires 0 < n < 256 && w < 256 && h < 256 && plen < 256 && (n != 1 ==> 0 <= x < 256 && 0 <= y < 256)
    requires hb != [] && |hb| == D.ColorOffset(hb[0]) + 1 && hb[0] == E.SptType(n)
    requires hb[4] == n % 256 && hb[8] == w % 256 && hb[12] == h % 256 && hb[|hb| - 1] == plen
    requires n != 1 ==> hb[16] == x % 256 && hb[20] == y
    requires |hb| <= |data| && data[0..|hb|] == hb
    ensures D.ParseHeader(data)
         == Ok(D.Header(E.SptType(n), n, w, h, if n == 1 then 0 else x, if n == 1 then 0 else y, |hb| - 1, plen))
  {
    assert forall i :: 0 <= i < |hb| ==> data[i] == data[0..|hb|][i];
  }

  /** The parsed header of a file that starts with the encoder's header for
      `images` and a palette of `p`'s length. */
  lemma {:induction false} HeaderRead(data: seq<Byte>, hb: seq<Byte>, images: seq<E.Image>, p: seq<Color>, x: int, y: int)
    returns (hd: D.Header)
    requires images != [] && |images| < 256 && images[0].width < 256 && images[0].height < 256 && (|images| != 1 ==> x < 256)
    requires E.HeaderBytes(|images|, images[0].width, images[0].height, x, y, |p|) == Ok(hb)
    requires Placed(data, 0, hb)
    ensures D.ParseHeader(data) == Ok(hd) && HeaderAgrees(hd, images, p, x, y)
    ensures |hb| == hd.colorOffset + 1 && |hb| + 2 * |p| == D.PaletteEnd(hd)
  {
    ParseEncodedHeader(|images|, images[0].width, images[0].height, x, y, |p|, data);
    hd := D.ParseHeader(data).value;
  }

  // ---------------------------------------------------------------------------
  // Palette
  // ---------------------------------------------------------------------------

  /** The bytes of `s` stand in `data` from position `at` on, one by one. */
  predicate Placed(data: seq<Byte>, at: nat, s: seq<Byte>)
    decreases |s|
  {
    if s == [] then at <= |data|
    else at < |data| && data[at] == s[0] && Placed(data, at + 1, s[1..])
  }

  /** `s` is placed at `at` exactly when it is the slice of `data` there. */
  lemma {:induction false} PlacedIff(data: seq<Byte>, at: nat, s: seq<Byte>)
    ensures Placed(data, at, s) <==> at + |s| <= |data| && data[at..at + |s|] == s
    decreases |s|
  {
    if s != [] {
      PlacedIff(data, at + 1, s[1..]);
      if at + |s| <= |data| {
        var d := data[at..at + |s|];
        assert d[0] == data[at] && d[1..] == data[at + 1..at + |s|];
        assert s == [s[0]] + s[1..] && d == [d[0]] + d[1..];
      }
    }
  }

  /** Every colour of `p` cut to the nibble grid. */
  function TruncatedAll(p: seq<Color>): (t: seq<Color>)
    ensures |t| == |p| && forall k {:trigger t[k]} :: 0 <= k < |p| ==> t[k] == Truncated(p[k])
  {
    seq(|p|, k requires 0 <= k < |p| => Truncated(p[k]))
  }

  /** `b` holds the packing of every colour of `p`, two bytes each. */
  predicate Packs(b: seq<Byte>, p: seq<Color>)
  {
    |b| == 2 * |p| && forall k :: 0 <= k < |p| ==> b[2 * k..2 * k + 2] == PackColor(p[k])
  }

  /** The colour table the encoder packs reads back entry by entry, each
      colour cut to the nibble grid. */
  lemma {:induction false} DecodedPalette(data: seq<Byte>, at: nat, p: seq<Color>)
    requires Placed(data, at, E.PaletteBytes(p))
    ensures TableReads(data, at, p)
  {
    var b := E.PaletteBytes(p);
    assert Packs(b, p);
    DecodedTable(data, at, b, p);
  }

  /** The colour table at `at` reads back as `p` cut to the nibble grid. */
  predicate TableReads(data: seq<Byte>, at: nat, p: seq<Color>)
  {
    (forall k :: 0 <= k < |p| ==> D.ColorTable(data, at, |p|)[k].Some?)
    && D.Colors(D.ColorTable(data, at, |p|)) == TruncatedAll(p)
  }

  lemma {:induction false} DecodedTable(data: seq<Byte>, at: nat, b: seq<Byte>, p: seq<Color>)
    requires Placed(data, at, b) && Packs(b, p)
    ensures (forall k :: 0 <= k < |p| ==> D.ColorTable(data, at, |p|)[k].Some?)
      && D.Colors(D.ColorTable(data, at, |p|)) == TruncatedAll(p)
  {
    var t := D.ColorTable(data, at, |p|);
    forall k | 0 <= k < |p|
      ensures t[k] == Some(Truncated(p[k]))
    {
      EntryDecoded(data, at, b, p, k);
    }
    ColorsAre(t, p);
  }

  /** Entry `k` of a placed colour table. */
  lemma {:induction false} EntryDecoded(data: seq<Byte>, at: nat, b: seq<Byte>, p: seq<Color>, k: nat)
    requires Placed(data, at, b) && Packs(b, p) && k < |p|
    ensures D.PaletteEntry(data, at + 2 * k) == Some(Truncated(p[k]))
  {
    PlacedSlice(data, at, b, 2 * k, 2 * k + 2);
    EntryOf(data, at + 2 * k, p[k]);
  }

  /** A table holding every colour of `p` cut to the grid has those colours. */
  lemma {:induction false} ColorsAre(t: seq<Option<Color>>, p: seq<Color>)
    requires |t| == |p| && forall k :: 0 <= k < |p| ==> t[k] == Some(Truncated(p[k]))
    ensures (forall k :: 0 <= k < |t| ==> t[k].Some?) && D.Colors(t) == TruncatedAll(p)
  {
    var c := D.Colors(t);
    assert forall k :: 0 <= k < |p| ==> c[k] == Truncated(p[k]);
  }

  /** A slice of bytes placed in `data` is that slice of `data`. */
  lemma {:induction false} PlacedSlice(data: seq<Byte>, at: nat, s: seq<Byte>, i: nat, j: nat)
    requires Placed(data, at, s) && i <= j <= |s|
    ensures at + j <= |data| && data[at + i..at + j] == s[i..j]
  {
    PlacedIff(data, at, s);
    var u, v := data[at + i..at + j], data[at..at + |s|][i..j];
    assert forall m :: 0 <= m < |u| ==> u[m] == v[m];
  }

  /** Two bytes holding the packing of `q` read back as `q` cut to the grid. */
  lemma {:induction false} EntryOf(data: seq<Byte>, at: nat, q: Color)
    requires at + 2 <= |data| && data[at..at + 2] == PackColor(q)
    ensures D.PaletteEntry(data, at) == Some(Truncated(q))
  {
    var packed := PackColor(q);
    assert data[at] == packed[0] && data[at + 1] == packed[1];
  }

  // ---------------------------------------------------------------------------
  // Image data
  // ---------------------------------------------------------------------------

  /** A frame's palette indices as the encoder maps them. */
  function Indices(palette: seq<Color>, img: E.Image): (q: seq<nat>)
    requires E.QuantiseAll(palette, img.pixels).Ok?
    ensures |q| == |img.pixels| && forall m :: 0 <= m < |q| ==> q[m] < |palette|
  {
    E.QuantiseAll(palette, img.pixels).value
  }

  /** A frame's run-length codes. */
  function Codes(palette: seq<Color>, img: E.Image): seq<Byte>
    requires E.QuantiseAll(palette, img.pixels).Ok?
  {
    EncodeFrame(Indices(palette, img), |palette|)
  }

  /** Every frame's pixels map into the palette. */
  predicate AllQuantised(palette: seq<Color>, imgs: seq<E.Image>)
  {
    forall k :: 0 <= k < |imgs| ==> E.QuantiseAll(palette, imgs[k].pixels).Ok?
  }

  /** Each frame's indices, in image order. */
  function AllIndices(palette: seq<Color>, imgs: seq<E.Image>): (qs: seq<seq<nat>>)
    requires AllQuantised(palette, imgs)
    ensures |qs| == |imgs|
  {
    seq(|imgs|, k requires 0 <= k < |imgs| => Indices(palette, imgs[k]))
  }

  /** Each frame's codes, in image order. */
  function AllCodes(palette: seq<Color>, imgs: seq<E.Image>): (cs: seq<seq<Byte>>)
    requires AllQuantised(palette, imgs)
    ensures |cs| == |imgs|
  {
    seq(|imgs|, k requires 0 <= k < |imgs| => Codes(palette, imgs[k]))
  }

  /** Every code sequence fits a four-byte length field. */
  predicate Short(codes: seq<seq<Byte>>)
  {
    forall k :: 0 <= k < |codes| ==> |codes[k]| < Pow256(4)
  }

  /** Chunks one after another, each its four-byte big-endian length and then
      its bytes. */
  function Chunked(codes: seq<seq<Byte>>): seq<Byte>
    requires Short(codes)
    decreases |codes|
  {
    if codes == [] then []
    else
      assert forall k :: 0 <= k < |codes| - 1 ==> codes[1..][k] == codes[k + 1];
      BigEndianBytes(|codes[0]|, 4) + codes[0] + Chunked(codes[1..])
  }

  /** Where each chunk of `Chunked(codes)` placed at `at` keeps its bytes. */
  function Spans(at: nat, codes: seq<seq<Byte>>): (l: seq<D.EncodedImage>)
    ensures |l| == |codes|
    decreases |codes|
  {
    if codes == [] then [] else [D.EncodedImage(at + 4, |codes[0]|)] + Spans(at + 4 + |codes[0]|, codes[1..])
  }

  /** The first chunk's span, then the rest's. */
  lemma {:induction false} SpansCons(at: nat, codes: seq<seq<Byte>>)
    requires codes != []
    ensures Spans(at, codes) == [D.EncodedImage(at + 4, |codes[0]|)] + Spans(at + 4 + |codes[0]|, codes[1..])
  {
  }

  /** The first chunk, then the rest. */
  lemma {:induction false} ChunkedCons(codes: seq<seq<Byte>>)
    requires Short(codes) && codes != []
    ensures Short(codes[1..])
    ensures Chunked(codes) == BigEndianBytes(|codes[0]|, 4) + codes[0] + Chunked(codes[1..])
  {
    assert forall k :: 0 <= k < |codes| - 1 ==> codes[1..][k] == codes[k + 1];
  }

  /** Image data is the first frame's length and codes, then the rest. */
  lemma {:induction false} ImageDataCons(palette: seq<Color>, imgs: seq<E.Image>)
    requires imgs != [] && E.ImageData(palette, imgs).Ok?
    ensures E.QuantiseAll(palette, imgs[0].pixels).Ok? && E.ImageData(palette, imgs[1..]).Ok?
    ensures |Codes(palette, imgs[0])| < Pow256(4)
    ensures E.ImageData(palette, imgs).value
      == BigEndianBytes(|Codes(palette, imgs[0])|, 4) + Codes(palette, imgs[0]) + E.ImageData(palette, imgs[1..]).value
  {
  }

  /** The encoder's image data is the chunks of the frames' codes. */
  lemma {:induction false} ImageDataChunked(palette: seq<Color>, imgs: seq<E.Image>)
    requires E.ImageData(palette, imgs).Ok?
    ensures AllQuantised(palette, imgs) && Short(AllCodes(palette, imgs))
    ensures E.ImageData(palette, imgs).value == Chunked(AllCodes(palette, imgs))
    decreases |imgs|
  {
    if imgs != [] {
      ImageDataCons(palette, imgs);
      ImageDataChunked(palette, imgs[1..]);
      AllCodesCons(palette, imgs);
      ChunkedOfCons(Codes(palette, imgs[0]), AllCodes(palette, imgs[1..]));
    }
  }

  /** The first frame's codes, then the rest's. */
  lemma {:induction false} AllCodesCons(palette: seq<Color>, imgs: seq<E.Image>)
    requires imgs != [] && E.QuantiseAll(palette, imgs[0].pixels).Ok? && AllQuantised(palette, imgs[1..])
    ensures AllQuantised(palette, imgs)
    ensures AllCodes(palette, imgs) == [Codes(palette, imgs[0])] + AllCodes(palette, imgs[1..])
  {
    assert forall k :: 0 < k < |imgs| ==> imgs[1..][k - 1] == imgs[k];
  }

  /** A chunk in front of the others. */
  lemma {:induction false} ChunkedOfCons(c: seq<Byte>, rest: seq<seq<Byte>>)
    requires |c| < Pow256(4) && Short(rest)
    ensures Short([c] + rest)
    ensures Chunked([c] + rest) == BigEndianBytes(|c|, 4) + c + Chunked(rest)
  {
    ChunkedCons([c] + rest);
    assert ([c] + rest)[1..] == rest;
  }

  /** Three parts placed together are each placed, one after another. */
  lemma {:induction false} PlacedSplit(data: seq<Byte>, at: nat, a: seq<Byte>, b: seq<Byte>, c: seq<Byte>)
    requires Placed(data, at, a + b + c)
    ensures Placed(data, at, a) && Placed(data, at + |a|, b) && Placed(data, at + |a| + |b|, c)
  {
    PlacedTwo(data, at, a + b, c);
    PlacedTwo(data, at, a, b);
  }

  /** Two parts placed together are each placed, one after the other. */
  lemma {:induction false} PlacedTwo(data: seq<Byte>, at: nat, a: seq<Byte>, b: seq<Byte>)
    requires Placed(data, at, a + b)
    ensures Placed(data, at, a) && Placed(data, at + |a|, b)
    decreases |a|
  {
    if a == [] {
      assert a + b == b;
    } else {
      assert (a + b)[0] == a[0] && (a + b)[1..] == a[1..] + b;
      PlacedTwo(data, at + 1, a[1..], b);
    }
  }

  /** Chunks placed at `at`: the first length field, its codes, the rest. */
  lemma {:induction false} PlacedChunks(data: seq<Byte>, at: nat, codes: seq<seq<Byte>>)
    requires Short(codes) && codes != [] && Placed(data, at, Chunked(codes))
    ensures Short(codes[1..])
    ensures Placed(data, at, BigEndianBytes(|codes[0]|, 4)) && Placed(data, at + 4, codes[0])
    ensures Placed(data, at + 4 + |codes[0]|, Chunked(codes[1..]))
  {
    ChunkedCons(codes);
    PlacedSplit(data, at, BigEndianBytes(|codes[0]|, 4), codes[0], Chunked(codes[1..]));
  }

  /** A first chunk whose length does not end in a zero byte stops the
      zero-skip where it starts. */
  lemma {:induction false} NoSkip(data: seq<Byte>, at: nat, codes: seq<seq<Byte>>)
    requires Short(codes) && codes != [] && |codes[0]| % 256 != 0 && Placed(data, at, Chunked(codes))
    ensures D.SkipFrom(data, at) == Ok(at)
  {
    PlacedChunks(data, at, codes);
    PlacedIff(data, at, BigEndianBytes(|codes[0]|, 4));
    assert data[at + 3] == data[at..at + 4][3];
  }

  /** A first chunk whose length ends in a zero byte (256, 512, ...) is
      taken for padding: the zero-skip moves past its length word. */
  lemma SkipsLength(data: seq<Byte>, at: nat, codes: seq<seq<Byte>>)
    requires Short(codes) && codes != [] && |codes[0]| % 256 == 0 && Placed(data, at, Chunked(codes))
    ensures D.SkipFrom(data, at) != Ok(at)
  {
    PlacedChunks(data, at, codes);
    PlacedIff(data, at, BigEndianBytes(|codes[0]|, 4));
    assert data[at + 3] == data[at..at + 4][3];
  }

  /** The chunk walk over chunks placed at `at` finds each frame where it was
      written, with the length written. */
  lemma {:induction false} WalkChunks(data: seq<Byte>, at: nat, codes: seq<seq<Byte>>)
    requires Short(codes) && Placed(data, at, Chunked(codes))
    ensures D.ChunkWalk(data, at, |codes|) == Ok(Spans(at, codes))
    decreases |codes|
  {
    if codes != [] {
      var c := codes[0];
      var next := at + 4 + |c|;
      PlacedChunks(data, at, codes);
      PlacedIff(data, at, BigEndianBytes(|c|, 4));
      assert D.ChunkLength(data, at) == Ok(|c|);
      WalkChunks(data, next, codes[1..]);
      SpansCons(at, codes);
    }
  }

  /** `codes` are the run-length codes of the index frames `qs`, each
      `pixelCount` long with every index below `colorCount`. */
  predicate Written(codes: seq<seq<Byte>>, qs: seq<seq<nat>>, colorCount: nat, pixelCount: nat)
  {
    |codes| == |qs|
    && forall k :: 0 <= k < |qs| ==>
      |qs[k]| == pixelCount && (forall m :: 0 <= m < |qs[k]| ==> qs[k][m] < colorCount)
      && codes[k] == EncodeFrame(qs[k], colorCount)
  }

  /** The encoder writes every frame's indices as its codes. */
  lemma {:induction false} AllWritten(palette: seq<Color>, imgs: seq<E.Image>, pixelCount: nat)
    requires AllQuantised(palette, imgs)
    requires forall k :: 0 <= k < |imgs| ==> |imgs[k].pixels| == pixelCount
    ensures Written(AllCodes(palette, imgs), AllIndices(palette, imgs), |palette|, pixelCount)
  {
  }

  /** Each chunk of `Chunked(codes)` placed at `at` holds its codes where its
      span says. */
  lemma {:induction false} SpansPlaced(data: seq<Byte>, at: nat, codes: seq<seq<Byte>>)
    requires Short(codes) && Placed(data, at, Chunked(codes))
    ensures forall k :: 0 <= k < |codes| ==>
      Spans(at, codes)[k].length == |codes[k]| && Placed(data, Spans(at, codes)[k].offset, codes[k])
    decreases |codes|
  {
    if codes != [] {
      var next := at + 4 + |codes[0]|;
      PlacedChunks(data, at, codes);
      SpansPlaced(data, next, codes[1..]);
      SpansCons(at, codes);
      var sp, rest := Spans(at, codes), Spans(next, codes[1..]);
      assert forall k :: 0 < k < |codes| ==> sp[k] == rest[k - 1] && codes[k] == codes[1..][k - 1];
    }
  }

  /** Reading chunks that each read to a frame gives those frames. */
  lemma {:induction false} FramesOk(data: seq<Byte>, chunks: seq<D.EncodedImage>, colorCount: nat, pixelCount: nat,
                                    ts: seq<seq<nat>>)
    requires |ts| == |chunks|
    requires forall k :: 0 <= k < |chunks| ==>
      ReadImageSpec(data, chunks[k].offset, chunks[k].length, colorCount, pixelCount) == Ok(ts[k])
    ensures D.Frames(data, chunks, colorCount, pixelCount) == Ok(ts)
    decreases |chunks|
  {
    if chunks != [] {
      var later, rest := chunks[1..], ts[1..];
      forall k | 0 <= k < |later|
        ensures ReadImageSpec(data, later[k].offset, later[k].length, colorCount, pixelCount) == Ok(rest[k])
      {
        assert later[k] == chunks[k + 1] && rest[k] == ts[k + 1];
      }
      FramesOk(data, later, colorCount, pixelCount, rest);
      assert ReadImageSpec(data, chunks[0].offset, chunks[0].length, colorCount, pixelCount) == Ok(ts[0]);
      assert ts == [ts[0]] + rest;
    }
  }

  /** The frames read from chunks placed at `at` agree with the indices
      written, position by position. */
  lemma {:induction false} FramesOfChunks(data: seq<Byte>, at: nat, codes: seq<seq<Byte>>, qs: seq<seq<nat>>,
                       colorCount: nat, pixelCount: nat)
    requires colorCount <= 128 && Written(codes, qs, colorCount, pixelCount)
    requires Short(codes) && Placed(data, at, Chunked(codes))
    ensures var f := D.Frames(data, Spans(at, codes), colorCount, pixelCount);
      f.Ok? && |f.value| == |qs| && forall k :: 0 <= k < |qs| ==> AllAgree(f.value[k], qs[k], colorCount)
  {
    var sp := Spans(at, codes);
    SpansPlaced(data, at, codes);
    forall k | 0 <= k < |codes|
      ensures ReadImageSpec(data, sp[k].offset, sp[k].length, colorCount, pixelCount).Ok?
      ensures AllAgree(ReadImageSpec(data, sp[k].offset, sp[k].length, colorCount, pixelCount).value, qs[k], colorCount)
    {
      assert codes[k] == EncodeFrame(qs[k], colorCount);
      var t := FrameAt(data, sp[k].offset, qs[k], colorCount, pixelCount);
    }
    var ts := seq(|codes|, k requires 0 <= k < |codes| =>
      ReadImageSpec(data, sp[k].offset, sp[k].length, colorCount, pixelCount).value);
    FramesOk(data, sp, colorCount, pixelCount, ts);
  }

  /** One frame's codes placed at `at` read back as indices agreeing with the
      ones written. */
  lemma {:induction false} FrameAt(data: seq<Byte>, at: nat, q: seq<nat>, colorCount: nat, pixelCount: nat) returns (t: seq<nat>)
    requires colorCount <= 128 && |q| == pixelCount && forall m :: 0 <= m < |q| ==> q[m] < colorCount
    requires Placed(data, at, EncodeFrame(q, colorCount))
    ensures ReadImageSpec(data, at, |EncodeFrame(q, colorCount)|, colorCount, pixelCount) == Ok(t)
    ensures AllAgree(t, q, colorCount)
  {
    var codes := EncodeFrame(q, colorCount);
    Around(data, at, codes);
    var pre, post := data[..at], data[at + |codes|..];
    RleRoundTrip(pre, q, post, colorCount);
    assert |pre| == at;
    var r := DecodeFrom(data, at, at + |codes|, colorCount);
    assert DecodeFrom(pre + codes + post, |pre|, |pre| + |codes|, colorCount) == r;
    t := r.value;
    FitExact(t, pixelCount);
    assert ReadImageSpec(data, at, |codes|, colorCount, pixelCount) == Ok(Fit(t, pixelCount));
  }

  /** Bytes placed at `at` split `data` into what comes before, themselves
      and what comes after. */
  lemma {:induction false} Around(data: seq<Byte>, at: nat, s: seq<Byte>)
    requires Placed(data, at, s)
    ensures at + |s| <= |data| && data == data[..at] + s + data[at + |s|..]
  {
    PlacedIff(data, at, s);
    var whole := data[..at] + s + data[at + |s|..];
    assert forall i :: 0 <= i < |data| ==> data[i] == whole[i];
  }

  /** Fitting a frame that already has `n` pixels leaves it as it is. */
  lemma {:induction false} FitExact(t: seq<nat>, n: nat)
    requires |t| == n
    ensures Fit(t, n) == t
  {
    assert t[..n] == t;
  }

  /** Frames that agree with the written indices look up the same colours. */
  lemma {:induction false} ResolveAgreeingAll(palette: seq<Color>, frames: seq<seq<nat>>, qs: seq<seq<nat>>)
    requires |frames| == |qs| && forall k :: 0 <= k < |qs| ==> AllAgree(frames[k], qs[k], |palette|)
    ensures D.ResolveAll(palette, frames) == D.ResolveAll(palette, qs)
    decreases |qs|
  {
    if qs != [] {
      D.ResolveAgreeing(palette, frames[0], qs[0]);
      ResolveAgreeingAll(palette, frames[1..], qs[1..]);
    }
  }

  /** The lookup succeeds when the palette is empty only for empty frames. */
  lemma {:induction false} ResolveAllOk(palette: seq<Color>, frames: seq<seq<nat>>)
    requires palette != [] || forall k :: 0 <= k < |frames| ==> frames[k] == []
    ensures D.ResolveAll(palette, frames).Ok?
    decreases |frames|
  {
    if frames != [] {
      assert palette != [] || frames[0] == [];
      ResolveAllOk(palette, frames[1..]);
    }
  }

  // ---------------------------------------------------------------------------
  // The whole file
  // ---------------------------------------------------------------------------

  /** The palette the encoder chooses. */
  function ChosenPalette(images: seq<E.Image>, paletteSize: int): seq<Color>
  {
    E.Palette(E.AllPixels(images), paletteSize)
  }

  /** The files for which every field survives the decoder's one-byte reads,
      every index fits the 7-bit codes, every frame holds `width * height`
      pixels, and the first chunk length does not end in a zero byte, which
      the decoder's zero-skip would take for padding. */
  predicate Decodable(images: seq<E.Image>, paletteSize: int, x: int, y: int)
  {
    E.EncodeSpt(images, paletteSize, x, y).Ok? && Fits(images, ChosenPalette(images, paletteSize), x, y)
  }

  /** The conditions of `Decodable` on the images and a chosen palette `p`. */
  predicate Fits(images: seq<E.Image>, p: seq<Color>, x: int, y: int)
  {
    images != [] && |images| < 256 && images[0].width < 256 && images[0].height < 256 && (|images| != 1 ==> x < 256)
    && (forall k :: 0 <= k < |images| ==> |images[k].pixels| == images[0].width * images[0].height)
    && |p| <= 128 && E.QuantiseAll(p, images[0].pixels).Ok? && |Codes(p, images[0])| % 256 != 0
  }

  /** With an empty palette every frame is empty and so is its code. */
  lemma {:induction false} EmptyPaletteNoCodes(p: seq<Color>, img: E.Image)
    requires E.QuantiseAll(p, img.pixels).Ok?
    ensures p == [] ==> Codes(p, img) == []
  {
    if p == [] {
      assert Indices(p, img) == [];
    }
  }

  /** A file that passes validation is assembled from the palette the encoder
      chooses. */
  lemma {:induction false} EncodedParts(images: seq<E.Image>, paletteSize: int, x: int, y: int)
    requires E.EncodeSpt(images, paletteSize, x, y).Ok?
    ensures images != [] && E.Validate(images, paletteSize).None?
    ensures E.EncodeSpt(images, paletteSize, x, y) == E.Assemble(images, ChosenPalette(images, paletteSize), x, y)
  {
  }

  /** `data` is the header `hb` for the images and palette `p`, the colour
      table of `p` and the image data of the frames, one after the other. */
  predicate Laid(data: seq<Byte>, hb: seq<Byte>, images: seq<E.Image>, p: seq<Color>, x: int, y: int)
    requires images != []
  {
    E.HeaderBytes(|images|, images[0].width, images[0].height, x, y, |p|) == Ok(hb)
    && E.ImageData(p, images).Ok?
    && Placed(data, 0, hb) && Placed(data, |hb|, E.PaletteBytes(p))
    && Placed(data, |hb| + 2 * |p|, E.ImageData(p, images).value)
  }

  /** Where the header, the colour table and the image data stand in an
      assembled file. */
  lemma {:induction false} AssembledLaid(images: seq<E.Image>, p: seq<Color>, x: int, y: int) returns (hb: seq<Byte>)
    requires images != [] && E.Assemble(images, p, x, y).Ok?
    ensures Laid(E.Assemble(images, p, x, y).value, hb, images, p, x, y)
  {
    var header, colours, pixels := E.HeaderBytes(|images|, images[0].width, images[0].height, x, y, |p|), E.PaletteBytes(p), E.ImageData(p, images);
    PlacedThen(E.Assemble(images, p, x, y), header, colours, pixels);
    hb := header.value;
    assert |hb| + |colours| == |hb| + 2 * |p|;
  }

  /** The three parts of `Then(a, Then(Ok(b), c))` stand one after the other
      in its value. */
  lemma {:induction false} PlacedThen<Err>(r: Result<seq<Byte>, Err>, a: Result<seq<Byte>, Err>, b: seq<Byte>, c: Result<seq<Byte>, Err>)
    requires r == Then(a, Then(Ok(b), c)) && r.Ok?
    ensures a.Ok? && c.Ok?
    ensures Placed(r.value, 0, a.value) && Placed(r.value, |a.value|, b) && Placed(r.value, |a.value| + |b|, c.value)
  {
    assert r.value == a.value + b + c.value;
    PlacedThree(r.value, a.value, b, c.value);
  }

  /** The pixels of frame `k` after the trip: each one the palette entry it
      was mapped to, cut to the nibble grid. */
  function Reconstructed(palette: seq<Color>, img: E.Image): (px: seq<Color>)
    requires E.QuantiseAll(palette, img.pixels).Ok?
    ensures |px| == |img.pixels|
  {
    LookUp(palette, Indices(palette, img))
  }

  /** Pixel `m` after the trip is the palette entry its colour was mapped
      to, cut to the nibble grid. */
  lemma {:induction false} ReconstructedAt(palette: seq<Color>, img: E.Image, m: nat)
    requires E.QuantiseAll(palette, img.pixels).Ok? && m < |img.pixels|
    ensures palette != [] && Reconstructed(palette, img)[m] == Truncated(palette[E.Quantise(palette, img.pixels[m])])
  {
    E.QuantiseAllAt(palette, img.pixels, m);
  }

  /** Indices looked up in `palette`, each colour cut to the nibble grid. */
  function LookUp(palette: seq<Color>, q: seq<nat>): (px: seq<Color>)
    requires forall m :: 0 <= m < |q| ==> q[m] < |palette|
    ensures |px| == |q| && forall m :: 0 <= m < |q| ==> px[m] == Truncated(palette[q[m]])
  {
    seq(|q|, m requires 0 <= m < |q| => Truncated(palette[q[m]]))
  }

  /** `r` is what decoding should give for `images` encoded with palette `p`
      and offsets `x`, `y`: the offsets fit the bytes they were written to,
      and there is one picture per image, with the images' size, the
      decoder's name for it, and every pixel the nibble-grid form of the
      palette entry it was mapped to. */
  predicate Trip(r: Result<seq<D.Picture>, DecodeError>, imgName: string,
                 images: seq<E.Image>, p: seq<Color>, x: int, y: int)
  {
    images != [] && (|images| != 1 ==> 0 <= x < 256 && 0 <= y < 256)
    && r.Ok? && |r.value| == |images|
    && var names := D.OutputNames(imgName, if |images| == 1 then 0 else x, if |images| == 1 then 0 else y, |images|);
    forall k :: 0 <= k < |images| ==>
      E.QuantiseAll(p, images[k].pixels).Ok?
      && r.value[k] == D.Picture(names[k], images[0].width, images[0].height, Reconstructed(p, images[k]))
  }

  /** Decoding the encoder's output gives back one picture per image, with
      the images' size, the decoder's names for the offsets written, and every
      pixel the nibble-grid form of its palette entry. */
  lemma {:induction false} RoundTrip(images: seq<E.Image>, paletteSize: int, x: int, y: int, imgName: string)
    requires Decodable(images, paletteSize, x, y)
    ensures Trip(D.DecodeSpt(E.EncodeSpt(images, paletteSize, x, y).value, imgName),
                 imgName, images, ChosenPalette(images, paletteSize), x, y)
  {
    var p := ChosenPalette(images, paletteSize);
    EncodedParts(images, paletteSize, x, y);
    var hb := AssembledLaid(images, p, x, y);
    TripOfParts(E.Assemble(images, p, x, y).value, hb, imgName, images, p, x, y);
  }

  /** The trip for a file holding the header `hb`, the colour table of `p`
      and the image data of the frames, one after the other. */
  lemma {:induction false} TripOfParts(data: seq<Byte>, hb: seq<Byte>, imgName: string,
                    images: seq<E.Image>, p: seq<Color>, x: int, y: int)
    requires Fits(images, p, x, y) && Laid(data, hb, images, p, x, y)
    ensures Trip(D.DecodeSpt(data, imgName), imgName, images, p, x, y)
  {
    var hd := HeaderRead(data, hb, images, p, x, y);
    TripAfterHeader(data, hd, hb, imgName, images, p, x, y);
  }

  /** The header `hd` holds the count and size of `images`, the length of
      `p` and the offsets as the decoder reports them. */
  predicate HeaderAgrees(hd: D.Header, images: seq<E.Image>, p: seq<Color>, x: int, y: int)
  {
    images != [] && hd.imageCount as int == |images| && hd.colorCount as int == |p|
    && hd.xOffset as int == (if |images| == 1 then 0 else x) && hd.yOffset as int == (if |images| == 1 then 0 else y)
    && hd.width as int == images[0].width && hd.height as int == images[0].height
  }

  /** The trip once the header is read: the colour table right after the
      header `hb`, then the frames. */
  lemma {:induction false} TripAfterHeader(data: seq<Byte>, hd: D.Header, hb: seq<Byte>, imgName: string,
                    images: seq<E.Image>, p: seq<Color>, x: int, y: int)
    requires D.ParseHeader(data) == Ok(hd) && HeaderAgrees(hd, images, p, x, y) && Fits(images, p, x, y)
    requires |hb| == hd.colorOffset + 1 && |hb| + 2 * |p| == D.PaletteEnd(hd)
    requires E.ImageData(p, images).Ok?
    requires Placed(data, |hb|, E.PaletteBytes(p))
    requires Placed(data, |hb| + 2 * |p|, E.ImageData(p, images).value)
    ensures Trip(D.DecodeSpt(data, imgName), imgName, images, p, x, y)
  {
    DecodedPalette(data, |hb|, p);
    TripAfterPalette(data, hd, imgName, images, p, x, y);
  }

  /** The trip once the colour table is read: the frames' chunks. */
  lemma {:induction false} TripAfterPalette(data: seq<Byte>, hd: D.Header, imgName: string,
                    images: seq<E.Image>, p: seq<Color>, x: int, y: int)
    requires D.ParseHeader(data) == Ok(hd) && HeaderAgrees(hd, images, p, x, y) && Fits(images, p, x, y)
    requires E.ImageData(p, images).Ok?
    requires TableReads(data, hd.colorOffset + 1, p)
    requires Placed(data, D.PaletteEnd(hd), E.ImageData(p, images).value)
    ensures Trip(D.DecodeSpt(data, imgName), imgName, images, p, x, y)
  {
    ChunksPlaced(data, D.PaletteEnd(hd), images, p);
    AfterHeader(data, hd, hd.colorOffset + 1, D.PaletteEnd(hd), imgName, images, p, x, y);
  }

  /** The image data, read as the frames' chunks. */
  lemma {:induction false} ChunksPlaced(data: seq<Byte>, at: nat, images: seq<E.Image>, p: seq<Color>)
    requires E.ImageData(p, images).Ok? && Placed(data, at, E.ImageData(p, images).value)
    ensures AllQuantised(p, images) && Short(AllCodes(p, images))
    ensures Placed(data, at, Chunked(AllCodes(p, images)))
  {
    ImageDataChunked(p, images);
    PlacedMoved(data, at, E.ImageData(p, images).value, at, Chunked(AllCodes(p, images)));
  }

  /** `a`, `b` and `c` sit one after the other in `a + b + c`. */
  lemma {:induction false} PlacedThree(data: seq<Byte>, a: seq<Byte>, b: seq<Byte>, c: seq<Byte>)
    requires data == a + b + c
    ensures Placed(data, 0, a) && Placed(data, |a|, b) && Placed(data, |a| + |b|, c)
  {
    assert data[0..|a|] == a;
    assert data[|a|..|a| + |b|] == b;
    assert data[|a| + |b|..] == c;
    PlacedIff(data, 0, a);
    PlacedIff(data, |a|, b);
    PlacedIff(data, |a| + |b|, c);
  }

  /** `Placed` read with the position and the bytes written another way. */
  lemma {:induction false} PlacedMoved(data: seq<Byte>, at: nat, s: seq<Byte>, at': nat, s': seq<Byte>)
    requires Placed(data, at, s) && at == at' && s == s'
    ensures Placed(data, at', s')
  {
  }

  /** The part of the trip after the header: the palette, the zero-skip and
      the chunks. */
  lemma {:induction false} AfterHeader(data: seq<Byte>, hd: D.Header, tableAt: nat, start: nat, imgName: string,
                    images: seq<E.Image>, p: seq<Color>, x: int, y: int)
    requires D.ParseHeader(data) == Ok(hd) && tableAt == hd.colorOffset + 1 && start == D.PaletteEnd(hd)
    requires HeaderAgrees(hd, images, p, x, y) && |p| <= 128
    requires forall k :: 0 <= k < |images| ==> |images[k].pixels| == images[0].width * images[0].height
    requires AllQuantised(p, images) && Short(AllCodes(p, images))
    requires |Codes(p, images[0])| % 256 != 0
    requires TableReads(data, tableAt, p) && Placed(data, start, Chunked(AllCodes(p, images)))
    ensures Trip(D.DecodeSpt(data, imgName), imgName, images, p, x, y)
  {
    var codes, qs := AllCodes(p, images), AllIndices(p, images);
    NoSkip(data, start, codes);
    WalkChunks(data, start, codes);
    AllWritten(p, images, D.PixelCount(hd));
    FramesOfChunks(data, start, codes, qs, |p|, D.PixelCount(hd));
    EmptyPaletteNoCodes(p, images[0]);
    var frames := D.Frames(data, Spans(start, codes), |p|, D.PixelCount(hd)).value;
    Finish(data, hd, start, imgName, images, p, x, y, frames);
  }

  /** The part of the trip after the frames are read: lookup and names. */
  lemma {:induction false} Finish(data: seq<Byte>, hd: D.Header, start: nat, imgName: string,
               images: seq<E.Image>, p: seq<Color>, x: int, y: int, frames: seq<seq<nat>>)
    requires D.ParseHeader(data) == Ok(hd) && D.SkipFrom(data, D.PaletteEnd(hd)) == Ok(start)
    requires HeaderAgrees(hd, images, p, x, y) && 0 < |p| <= 128
    requires TableReads(data, hd.colorOffset + 1, p)
    requires AllQuantised(p, images)
    requires D.ChunkWalk(data, start, |images|).Ok?
    requires D.Frames(data, D.ChunkWalk(data, start, |images|).value, |p|, D.PixelCount(hd)) == Ok(frames)
    requires |frames| == |images| && forall k :: 0 <= k < |images| ==> AllAgree(frames[k], AllIndices(p, images)[k], |p|)
    ensures Trip(D.DecodeSpt(data, imgName), imgName, images, p, x, y)
  {
    var qs := AllIndices(p, images);
    var palette := TruncatedAll(p);
    ResolveAgreeingAll(palette, frames, qs);
    ResolveAllOk(palette, qs);
    var colored := D.ResolveAll(palette, qs).value;
    forall k | 0 <= k < |images|
      ensures colored[k] == Reconstructed(p, images[k])
    {
      ColoredFrame(p, images[k], colored[k]);
    }
    assert D.DecodeSpt(data, imgName) == D.DecodeChunks(data, hd, start, imgName);
  }

  /** A frame's written indices, looked up in the decoded palette, give the
      frame's reconstructed pixels. */
  lemma {:induction false} ColoredFrame(p: seq<Color>, img: E.Image, colored: seq<Color>)
    requires E.QuantiseAll(p, img.pixels).Ok?
    requires D.ResolveFrame(TruncatedAll(p), Indices(p, img)) == Ok(colored)
    ensures colored == Reconstructed(p, img)
  {
    LookUpResolved(p, Indices(p, img), colored);
  }

  /** Looking indices below `|p|` up in the stored palette is looking them up
      in `p` and cutting to the grid. */
  lemma {:induction false} LookUpResolved(p: seq<Color>, q: seq<nat>, colored: seq<Color>)
    requires forall m :: 0 <= m < |q| ==> q[m] < |p|
    requires D.ResolveFrame(TruncatedAll(p), q) == Ok(colored)
    ensures colored == LookUp(p, q)
  {
    var want := LookUp(p, q);
    forall m | 0 <= m < |q|
      ensures colored[m] == want[m]
    {
      ModBelow(q[m], |p|);
    }
  }

  /** A value below the divisor is its own remainder. */
  lemma {:induction false} ModBelow(a: nat, n: nat)
    requires a < n
    ensures a % n == a
  {
  }
}
