/** `create_spt_file`: checking the images, ranking their colours by how often
    they occur, packing the palette, writing the header, mapping every pixel to
    a palette index and writing each frame as a length-prefixed chunk of
    run-length codes. */
module SptEncoder {
  import opened Results
  import opened Bytes
  import opened Colour
  import opened SptFormat
  import opened Rle

  /** A PIL image after `convert("RGBA")`: its size and its pixels row by row. */
  datatype Image = Image(width: nat, height: nat, pixels: seq<Color>)

  // ---------------------------------------------------------------------------
  // Validation
  // ---------------------------------------------------------------------------

  /** Every image has the size of the first. */
  predicate SameSize(images: seq<Image>)
    requires images != []
  {
    forall k :: 0 <= k < |images| ==> images[k].width == images[0].width && images[k].height == images[0].height
  }

  /** The three ValueErrors raised before anything is computed, in the order
      the checks run; `None` when the images pass. */
  function Validate(images: seq<Image>, paletteSize: int): (r: Option<EncodeError>)
    ensures images == [] <==> r == Some(NoImages)
    ensures images != [] && paletteSize > 256 ==> r == Some(PaletteTooLarge)
    ensures r.None? <==> images != [] && paletteSize <= 256 && SameSize(images)
    ensures r.Some? ==> r.value in {NoImages, PaletteTooLarge, DimensionMismatch}
  {
    if images == [] then Some(NoImages)
    else if paletteSize > 256 then Some(PaletteTooLarge)
    else if !SameSize(images) then Some(DimensionMismatch)
    else None
  }

  /** The loop `for img in images: if img.size != (width, height): raise`. */
  method CheckSizes(images: seq<Image>) returns (ok: bool)
    requires images != []
    ensures ok == SameSize(images)
  {
    var width, height := images[0].width, images[0].height;
    for i := 0 to |images|
      invariant forall k :: 0 <= k < i ==> images[k].width == width && images[k].height == height
    {
      if images[i].width != width || images[i].height != height {
        return false;
      }
    }
    return true;
  }

  // ---------------------------------------------------------------------------
  // Counting and ranking the colours
  // ---------------------------------------------------------------------------

  /** `all_pixels`: the pixels of every image, image after image. */
  function AllPixels(images: seq<Image>): (px: seq<Color>)
    ensures |images| == 1 ==> px == images[0].pixels
    decreases |images|
  {
    if images == [] then []
    else AllPixels(images[..|images| - 1]) + images[|images| - 1].pixels
  }

  /** The loop extending `all_pixels` with every image's `getdata()`. */
  method GatherPixels(images: seq<Image>) returns (allPixels: seq<Color>)
    ensures allPixels == AllPixels(images)
  {
    allPixels := [];
    for i := 0 to |images|
      invariant allPixels == AllPixels(images[..i])
    {
      assert images[..i + 1][..i] == images[..i];
      allPixels := allPixels + images[i].pixels;
    }
    assert images[..|images|] == images;
  }

  predicate Distinct<T(==)>(s: seq<T>)
  {
    forall i, j :: 0 <= i < j < |s| ==> s[i] != s[j]
  }

  /** The keys of `color_counts` in insertion order: each colour where it is
      first seen. */
  function FirstSeen(px: seq<Color>): (keys: seq<Color>)
    ensures forall c :: c in keys <==> c in px
    ensures Distinct(keys)
    decreases |px|
  {
    if px == [] then []
    else
      var prev := FirstSeen(px[..|px| - 1]);
      var c := px[|px| - 1];
      assert px == px[..|px| - 1] + [c];
      if c in prev then prev else prev + [c]
  }

  /** The values of `color_counts`: how often each colour occurs. */
  function Counts(px: seq<Color>): (m: map<Color, nat>)
    ensures forall c :: c in m <==> c in px
    ensures forall c :: c in m ==> m[c] == multiset(px)[c]
    decreases |px|
  {
    if px == [] then map[]
    else
      var prev := Counts(px[..|px| - 1]);
      var c := px[|px| - 1];
      assert px == px[..|px| - 1] + [c];
      prev[c := (if c in prev then prev[c] else 0) + 1]
  }

  /** The `color_counts[pixel] += 1` loop over a `defaultdict(int)`. */
  method CountColours(pixels: seq<Color>) returns (keys: seq<Color>, counts: map<Color, nat>)
    ensures keys == FirstSeen(pixels) && counts == Counts(pixels)
  {
    keys, counts := [], map[];
    for i := 0 to |pixels|
      invariant keys == FirstSeen(pixels[..i]) && counts == Counts(pixels[..i])
    {
      var pixel := pixels[i];
      assert pixels[..i + 1][..i] == pixels[..i];
      if pixel in counts {
        counts := counts[pixel := counts[pixel] + 1];
      } else {
        keys := keys + [pixel];
        counts := counts[pixel := 1];
      }
    }
    assert pixels[..|pixels|] == pixels;
  }

  /** An item of `color_counts.items()`. */
  datatype Tally = Tally(color: Color, count: nat)

  /** `color_counts.items()`, in key order. */
  function Items(keys: seq<Color>, counts: map<Color, nat>): (items: seq<Tally>)
    requires forall k :: 0 <= k < |keys| ==> keys[k] in counts
    ensures |items| == |keys|
    ensures forall k :: 0 <= k < |keys| ==> items[k] == Tally(keys[k], counts[keys[k]])
  {
    seq(|keys|, k requires 0 <= k < |keys| => Tally(keys[k], counts[keys[k]]))
  }

  /** Counts never increase along the list. */
  predicate Descending(s: seq<Tally>)
  {
    forall i, j :: 0 <= i < j < |s| ==> s[i].count >= s[j].count
  }

  /** No two items share a colour. */
  predicate DistinctColors(s: seq<Tally>)
  {
    forall i, j :: 0 <= i < j < |s| ==> s[i].color != s[j].color
  }

  /** The items with count `n`, in list order. */
  function WithCount(s: seq<Tally>, n: nat): seq<Tally>
    decreases |s|
  {
    if s == [] then [] else (if s[0].count == n then [s[0]] else []) + WithCount(s[1..], n)
  }

  lemma DescendingCons(h: Tally, s: seq<Tally>)
    requires Descending(s) && (s != [] ==> h.count >= s[0].count)
    ensures Descending([h] + s)
  {
    forall i, j | 0 <= i < j < |s| + 1
      ensures ([h] + s)[i].count >= ([h] + s)[j].count
    {
      assert ([h] + s)[j] == s[j - 1];
      if i > 0 {
        assert ([h] + s)[i] == s[i - 1];
      }
    }
  }

  lemma TailDescending(s: seq<Tally>)
    requires Descending(s) && s != []
    ensures Descending(s[1..])
  {
    forall i, j | 0 <= i < j < |s| - 1
      ensures s[1..][i].count >= s[1..][j].count
    {
      assert s[1..][i] == s[i + 1] && s[1..][j] == s[j + 1];
    }
  }

  /** `x` placed in a descending list after every item counting at least as
      much, so behind its equals. */
  function InsertDescending(x: Tally, s: seq<Tally>): (r: seq<Tally>)
    requires Descending(s)
    ensures |r| == |s| + 1
    ensures multiset(r) == multiset(s) + multiset{x}
    ensures Descending(r)
    ensures r[0] == x || (s != [] && r[0] == s[0])
    decreases |s|
  {
    if s == [] || s[0].count < x.count then
      DescendingCons(x, s);
      [x] + s
    else
      TailDescending(s);
      var rest := InsertDescending(x, s[1..]);
      assert s == [s[0]] + s[1..];
      assert rest[0] == x || rest[0] == s[1];
      DescendingCons(s[0], rest);
      [s[0]] + rest
  }

  /** Insertion keeps the order of equal counts: `x` lands behind the items
      counting as much as it does. */
  lemma {:induction false} InsertStable(x: Tally, s: seq<Tally>, n: nat)
    requires Descending(s)
    ensures WithCount(InsertDescending(x, s), n) == WithCount(s, n) + (if x.count == n then [x] else [])
    decreases |s|
  {
    if s == [] || s[0].count < x.count {
      assert ([x] + s)[1..] == s;
      if s != [] && x.count == n {
        BelowNone(s, n);
      }
    } else {
      TailDescending(s);
      InsertStable(x, s[1..], n);
      var rest := InsertDescending(x, s[1..]);
      assert ([s[0]] + rest)[1..] == rest;
    }
  }

  /** In a descending list headed below `n`, nothing counts `n`. */
  lemma {:induction false} BelowNone(s: seq<Tally>, n: nat)
    requires Descending(s) && s != [] && s[0].count < n
    ensures WithCount(s, n) == []
    decreases |s|
  {
    if |s| > 1 {
      TailDescending(s);
      BelowNone(s[1..], n);
    }
  }

  /** `sorted(items, key=count, reverse=True)`: a permutation with counts
      descending. */
  function RankByCount(items: seq<Tally>): (r: seq<Tally>)
    ensures multiset(r) == multiset(items)
    ensures Descending(r)
    decreases |items|
  {
    if items == [] then []
    else
      var init := items[..|items| - 1];
      assert items == init + [items[|items| - 1]];
      InsertDescending(items[|items| - 1], RankByCount(init))
  }

  /** Python's sort is stable, and `reverse=True` keeps equal items in their
      original order: the items of any one count come out as they went in. */
  lemma {:induction false} RankStable(items: seq<Tally>, n: nat)
    ensures WithCount(RankByCount(items), n) == WithCount(items, n)
    decreases |items|
  {
    if items != [] {
      var init, last := items[..|items| - 1], items[|items| - 1];
      assert items == init + [last];
      RankStable(init, n);
      InsertStable(last, RankByCount(init), n);
      WithCountSnoc(init, last, n);
    }
  }

  lemma {:induction false} WithCountSnoc(s: seq<Tally>, x: Tally, n: nat)
    ensures WithCount(s + [x], n) == WithCount(s, n) + (if x.count == n then [x] else [])
    decreases |s|
  {
    if s == [] {
      assert [x][1..] == [];
    } else {
      var h, t := if s[0].count == n then [s[0]] else [], if x.count == n then [x] else [];
      assert (s + [x])[0] == s[0] && (s + [x])[1..] == s[1..] + [x];
      WithCountSnoc(s[1..], x, n);
      assert WithCount(s + [x], n) == h + (WithCount(s[1..], n) + t);
      assert h + (WithCount(s[1..], n) + t) == h + WithCount(s[1..], n) + t;
    }
  }

  /** `color_counts.items()` for the pixels `px`: one tally per distinct
      colour, holding how often it occurs. */
  function Tallies(px: seq<Color>): (items: seq<Tally>)
    ensures |items| == |FirstSeen(px)|
    ensures DistinctColors(items)
    ensures forall k :: 0 <= k < |items| ==> items[k].color in px && items[k].count == multiset(px)[items[k].color]
    ensures forall c :: c in px ==> exists k :: 0 <= k < |items| && items[k].color == c
  {
    var keys := FirstSeen(px);
    var items := Items(keys, Counts(px));
    forall c | c in px
      ensures exists k :: 0 <= k < |items| && items[k].color == c
    {
      var k :| 0 <= k < |keys| && keys[k] == c;
      assert items[k].color == c;
    }
    items
  }

  lemma CountTwice<T>(s: seq<T>, i: nat, j: nat)
    requires i < j < |s|
    ensures s[i] == s[j] ==> multiset(s)[s[i]] >= 2
  {
    if s[i] == s[j] {
      assert s == s[..i] + [s[i]] + s[i + 1..j] + [s[j]] + s[j + 1..];
    }
  }

  lemma {:induction false} CountOnce(s: seq<Tally>, x: Tally)
    requires DistinctColors(s)
    ensures multiset(s)[x] <= 1
    decreases |s|
  {
    if s != [] {
      var init := s[..|s| - 1];
      assert s == init + [s[|s| - 1]];
      CountOnce(init, x);
      if s[|s| - 1] == x {
        assert x !in init by {
          forall k | 0 <= k < |init|
            ensures init[k] != x
          {
            assert init[k] == s[k];
          }
        }
      }
    }
  }

  /** A rearrangement of tallies with distinct colours has distinct colours. */
  lemma PermutedColors(items: seq<Tally>, r: seq<Tally>)
    requires multiset(r) == multiset(items) && DistinctColors(items)
    ensures DistinctColors(r)
  {
    forall i, j | 0 <= i < j < |r|
      ensures r[i].color != r[j].color
    {
      assert r[i] in multiset(items) && r[j] in multiset(items);
      var a :| 0 <= a < |items| && items[a] == r[i];
      var b :| 0 <= b < |items| && items[b] == r[j];
      CountTwice(r, i, j);
      CountOnce(items, r[i]);
    }
  }

  /** The ranking of `px`'s colours. */
  function Ranking(px: seq<Color>): seq<Tally>
  {
    RankByCount(Tallies(px))
  }

  /** The ranking holds every colour of `px` once, with its count, most
      frequent first. */
  lemma RankingFacts(px: seq<Color>)
    ensures var r := Ranking(px);
      |r| == |FirstSeen(px)| && DistinctColors(r) && Descending(r)
      && (forall k :: 0 <= k < |r| ==> r[k].color in px && r[k].count == multiset(px)[r[k].color])
      && (forall c :: c in px ==> exists k :: 0 <= k < |r| && r[k].color == c)
  {
    var items := Tallies(px);
    var r := RankByCount(items);
    assert |r| == |multiset(r)| == |multiset(items)| == |items|;
    PermutedColors(items, r);
    forall k | 0 <= k < |r|
      ensures r[k].color in px && r[k].count == multiset(px)[r[k].color]
    {
      assert r[k] in multiset(items);
    }
    forall c | c in px
      ensures exists k :: 0 <= k < |r| && r[k].color == c
    {
      var i :| 0 <= i < |items| && items[i].color == c;
      assert items[i] in multiset(r);
      var k :| 0 <= k < |r| && r[k] == items[i];
    }
  }

  // ---------------------------------------------------------------------------
  // Palette
  // ---------------------------------------------------------------------------

  /** Python's `s[:n]` for any integer `n`: a negative `n` drops that many
      items from the end. */
  function SlicePrefix<T>(s: seq<T>, n: int): (r: seq<T>)
    ensures |r| <= |s| && r == s[..|r|]
    ensures 0 <= n <= |s| ==> |r| == n
    ensures n > |s| ==> r == s
    ensures n < 0 ==> |r| == if |s| + n >= 0 then |s| + n else 0
  {
    if n >= 0 then (if n <= |s| then s[..n] else s)
    else if |s| + n >= 0 then s[..|s| + n] else []
  }

  /** The colours of a list of items. */
  function ColorsOf(items: seq<Tally>): (c: seq<Color>)
    ensures |c| == |items| && forall k :: 0 <= k < |items| ==> c[k] == items[k].color
  {
    seq(|items|, k requires 0 <= k < |items| => items[k].color)
  }

  /** `palette`: the colours of the first `paletteSize` ranked tallies. */
  function Palette(px: seq<Color>, paletteSize: int): (palette: seq<Color>)
    ensures |palette| <= |Ranking(px)|
    ensures forall k :: 0 <= k < |palette| ==> palette[k] == Ranking(px)[k].color
  {
    var m := SlicePrefix(Ranking(px), paletteSize);
    assert forall k :: 0 <= k < |m| ==> m[k] == Ranking(px)[k];
    ColorsOf(m)
  }

  /** The palette's size: `paletteSize` entries when that many colours occur,
      every colour when fewer do, and never more than 256 entries when the
      size passes validation. */
  lemma PaletteSize(px: seq<Color>, paletteSize: int)
    ensures 0 <= paletteSize <= |FirstSeen(px)| ==> |Palette(px, paletteSize)| == paletteSize
    ensures paletteSize >= |FirstSeen(px)| ==> |Palette(px, paletteSize)| == |FirstSeen(px)|
    ensures |Palette(px, paletteSize)| <= |FirstSeen(px)|
  {
    RankingFacts(px);
  }

  /** The palette holds distinct colours of the image. */
  lemma PaletteDistinct(px: seq<Color>, paletteSize: int)
    ensures Distinct(Palette(px, paletteSize))
    ensures forall c :: c in Palette(px, paletteSize) ==> c in px
  {
    RankingFacts(px);
  }

  /** The palette runs from the most frequent colour to the least. */
  lemma PaletteByFrequency(px: seq<Color>, paletteSize: int)
    ensures var p := Palette(px, paletteSize);
      forall i, j :: 0 <= i < j < |p| ==> multiset(px)[p[i]] >= multiset(px)[p[j]]
  {
    RankingFacts(px);
  }

  /** A colour left out of the palette occurs at most as often as every colour
      kept. */
  lemma PaletteMostFrequent(px: seq<Color>, paletteSize: int, c: Color, d: Color)
    requires c in Palette(px, paletteSize) && d in px && d !in Palette(px, paletteSize)
    ensures multiset(px)[c] >= multiset(px)[d]
  {
    var r := Ranking(px);
    var p := Palette(px, paletteSize);
    RankingFacts(px);
    var i :| 0 <= i < |p| && p[i] == c;
    var j :| 0 <= j < |r| && r[j].color == d;
    assert forall k :: 0 <= k < |p| ==> r[k].color != d;
  }

  /** With room for every colour, every colour of the image is in the
      palette. */
  lemma PaletteComplete(px: seq<Color>, paletteSize: int, c: Color)
    requires |FirstSeen(px)| <= paletteSize && c in px
    ensures c in Palette(px, paletteSize)
  {
    var r := Ranking(px);
    RankingFacts(px);
    PaletteSize(px, paletteSize);
    var j :| 0 <= j < |r| && r[j].color == c;
    assert Palette(px, paletteSize)[j] == c;
  }

  /** The `color_table` loop: each colour packed into two bytes. */
  function PaletteBytes(palette: seq<Color>): (b: seq<Byte>)
    ensures |b| == 2 * |palette|
    ensures forall k {:trigger PackColor(palette[k])} :: 0 <= k < |palette| ==> b[2 * k..2 * k + 2] == PackColor(palette[k])
    decreases |palette|
  {
    if palette == [] then []
    else
      var init := PaletteBytes(palette[..|palette| - 1]);
      var b := init + PackColor(palette[|palette| - 1]);
      forall k | 0 <= k < |palette| - 1
        ensures b[2 * k..2 * k + 2] == PackColor(palette[k])
      {
        assert b[2 * k..2 * k + 2] == init[2 * k..2 * k + 2];
      }
      assert b[|init|..] == PackColor(palette[|palette| - 1]);
      assert |init| == 2 * (|palette| - 1) && |b| == 2 * |palette|;
      b
  }

  /** `for color in palette: color_table.extend(...)`. */
  method PackPalette(palette: seq<Color>) returns (colorTable: seq<Byte>)
    ensures colorTable == PaletteBytes(palette)
  {
    colorTable := [];
    for i := 0 to |palette|
      invariant colorTable == PaletteBytes(palette[..i])
    {
      assert palette[..i + 1][..i] == palette[..i];
      colorTable := colorTable + PackColor(palette[i]);
    }
    assert palette[..|palette|] == palette;
  }

  // ---------------------------------------------------------------------------
  // Header
  // ---------------------------------------------------------------------------

  /** One little-endian header field of `n` bytes, or the OverflowError its
      `to_bytes` raises. */
  function FieldBytes(v: int, n: nat, f: Field): (r: Result<seq<Byte>, EncodeError>)
    ensures r.Ok? <==> 0 <= v < Pow256(n)
    ensures r.Ok? ==> |r.value| == n && LittleEndian(r.value) == v && (n > 0 ==> r.value[0] == v % 256)
    ensures r.Err? ==> r.error == Overflow(f)
  {
    match ToBytes(v, n, false)
    case None => Err(Overflow(f))
    case Some(b) => Ok(b)
  }

  /** The type tag: 2 for one image, 6 for several. */
  function SptType(imageCount: nat): nat
  {
    if imageCount == 1 then SingleType else MultiType
  }

  /** The header up to and including the palette length byte: type, count
      and width as four bytes; the height as four bytes in a multi-image file
      and as one in a single-image file; in a multi-image file the x offset
      as four bytes and the y offset as one; then the palette length. */
  function HeaderBytes(imageCount: nat, width: nat, height: nat, x: int, y: int, paletteLength: nat)
    : (r: Result<seq<Byte>, EncodeError>)
    ensures r.Ok? <==> (imageCount < Pow256(4) && width < Pow256(4)
      && (if imageCount == 1 then height < 256 else height < Pow256(4) && 0 <= x < Pow256(4) && 0 <= y < 256)
      && paletteLength < 256)
    ensures r.Ok? ==> |r.value| == if imageCount == 1 then 14 else 22
  {
    var t := SptType(imageCount);
    assert Pow256(1) == 256;
    Then(FieldBytes(t, 4, ImageCount),
    Then(FieldBytes(imageCount, 4, ImageCount),
    Then(FieldBytes(width, 4, Width),
    Then(FieldBytes(height, if t == MultiType then 4 else 1, Height),
    Then(if t == MultiType then Then(FieldBytes(x, 4, XOffset), FieldBytes(y, 1, YOffset)) else Ok([]),
         FieldBytes(paletteLength, 1, PaletteLength))))))
  }

  // ---------------------------------------------------------------------------
  // Quantisation
  // ---------------------------------------------------------------------------

  /** `sum((a-b)**2 for a, b in zip(palette[i], pixel))`. */
  function SquaredDistance(p: Color, q: Color): nat
  {
    (p.r - q.r) * (p.r - q.r) + (p.g - q.g) * (p.g - q.g) + (p.b - q.b) * (p.b - q.b) + (p.a - q.a) * (p.a - q.a)
  }

  /** `palette.index(pixel)`: the first position holding the colour. */
  function IndexOf(palette: seq<Color>, c: Color): (r: Option<nat>)
    ensures r.Some? ==> r.value < |palette| && palette[r.value] == c
    ensures r.Some? ==> forall k :: 0 <= k < r.value ==> palette[k] != c
    ensures r.None? <==> c !in palette
    decreases |palette|
  {
    if palette == [] then None
    else if palette[0] == c then Some(0)
    else
      match IndexOf(palette[1..], c)
      case None => None
      case Some(k) => Some(k + 1)
  }

  /** `min(range(len(palette)), key=distance)`: the nearest entry, the first
      of them on a tie, as `min` keeps the first minimum. */
  function Nearest(palette: seq<Color>, c: Color): (i: nat)
    requires palette != []
    ensures i < |palette|
    ensures forall k {:trigger SquaredDistance(palette[k], c)} :: 0 <= k < |palette| ==> SquaredDistance(palette[i], c) <= SquaredDistance(palette[k], c)
    ensures forall k {:trigger SquaredDistance(palette[k], c)} :: 0 <= k < i ==> SquaredDistance(palette[k], c) > SquaredDistance(palette[i], c)
    decreases |palette|
  {
    if |palette| == 1 then 0
    else
      var init := palette[..|palette| - 1];
      var best := Nearest(init, c);
      assert forall k :: 0 <= k < |init| ==> init[k] == palette[k];
      if SquaredDistance(palette[|palette| - 1], c) < SquaredDistance(palette[best], c) then |palette| - 1 else best
  }

  /** The index a pixel is written with: its own entry when the palette has
      it, the nearest entry otherwise. */
  function Quantise(palette: seq<Color>, c: Color): (i: nat)
    requires palette != []
    ensures i < |palette|
    ensures c in palette ==> palette[i] == c
    ensures c !in palette ==> forall k {:trigger SquaredDistance(palette[k], c)} :: 0 <= k < |palette| ==> SquaredDistance(palette[i], c) <= SquaredDistance(palette[k], c)
  {
    match IndexOf(palette, c)
    case Some(k) => k
    case None => Nearest(palette, c)
  }

  /** A frame's indices; with an empty palette the first pixel makes `min`
      raise ValueError. */
  function QuantiseAll(palette: seq<Color>, pixels: seq<Color>): (r: Result<seq<nat>, EncodeError>)
    ensures r.Err? <==> palette == [] && pixels != []
    ensures r.Err? ==> r.error == EmptyPalette
    ensures r.Ok? ==> |r.value| == |pixels| && forall k :: 0 <= k < |pixels| ==> r.value[k] < |palette|
    decreases |pixels|
  {
    if pixels == [] then Ok([])
    else if palette == [] then Err(EmptyPalette)
    else Ok(QuantiseAll(palette, pixels[..|pixels| - 1]).value + [Quantise(palette, pixels[|pixels| - 1])])
  }

  /** Index `m` of a frame's indices is the index of its pixel `m`. */
  lemma {:induction false} QuantiseAllAt(palette: seq<Color>, pixels: seq<Color>, m: nat)
    requires palette != [] && m < |pixels|
    ensures QuantiseAll(palette, pixels).value[m] == Quantise(palette, pixels[m])
    decreases |pixels|
  {
    if m < |pixels| - 1 {
      var init := pixels[..|pixels| - 1];
      QuantiseAllAt(palette, init, m);
      assert init[m] == pixels[m];
    }
  }

  /** The pixel loop appending each index. */
  method QuantisePixels(palette: seq<Color>, pixels: seq<Color>) returns (r: Result<seq<nat>, EncodeError>)
    ensures r == QuantiseAll(palette, pixels)
  {
    var indices: seq<nat> := [];
    for k := 0 to |pixels|
      invariant palette != [] || k == 0
      invariant QuantiseAll(palette, pixels[..k]) == Ok(indices)
    {
      if palette == [] {
        return Err(EmptyPalette);
      }
      var index: nat;
      var found := IndexOf(palette, pixels[k]);
      if found.Some? {
        index := found.value;
      } else {
        index := Nearest(palette, pixels[k]);
      }
      assert pixels[..k + 1][..k] == pixels[..k];
      indices := indices + [index];
    }
    assert pixels[..|pixels|] == pixels;
    r := Ok(indices);
  }

  // ---------------------------------------------------------------------------
  // Image data and the whole file
  // ---------------------------------------------------------------------------

  /** One frame as written: its chunk length as four big-endian bytes, then
      its run-length codes. */
  function FrameChunk(palette: seq<Color>, img: Image): (r: Result<seq<Byte>, EncodeError>)
    ensures r.Err? ==> r.error in {EmptyPalette, Overflow(ChunkLength)}
  {
    match QuantiseAll(palette, img.pixels)
    case Err(e) => Err(e)
    case Ok(indices) =>
      var rle := EncodeFrame(indices, |palette|);
      match ToBytes(|rle|, 4, true)
      case None => Err(Overflow(ChunkLength))
      case Some(len) => Ok(len + rle)
  }

  /** `image_data`: every frame's chunk, in image order. */
  function ImageData(palette: seq<Color>, images: seq<Image>): (r: Result<seq<Byte>, EncodeError>)
    decreases |images|
  {
    if images == [] then Ok([]) else Then(FrameChunk(palette, images[0]), ImageData(palette, images[1..]))
  }

  /** The loop over the images writing each frame's chunk. */
  method EncodeImages(palette: seq<Color>, images: seq<Image>) returns (r: Result<seq<Byte>, EncodeError>)
    ensures r == ImageData(palette, images)
  {
    var imageData: seq<Byte> := [];
    PrependNothing(ImageData(palette, images));
    for i := 0 to |images|
      invariant ImageData(palette, images) == Prepend(imageData, ImageData(palette, images[i..]))
    {
      assert images[i..][0] == images[i] && images[i..][1..] == images[i + 1..];
      var pixels := QuantisePixels(palette, images[i].pixels);
      if pixels.Err? {
        return Err(pixels.error);
      }
      var rleData := RleEncode(pixels.value, |palette|);
      var length := ToBytes(|rleData|, 4, true);
      if length.None? {
        return Err(Overflow(ChunkLength));
      }
      assert FrameChunk(palette, images[i]) == Ok(length.value + rleData);
      PrependAppend(imageData, length.value + rleData, ImageData(palette, images[i + 1..]));
      imageData := imageData + (length.value + rleData);
    }
    assert images[|images|..] == [];
    assert imageData + [] == imageData;
    r := Ok(imageData);
  }

  /** The bytes `create_spt_file` writes, or the exception it raises first. */
  function EncodeSpt(images: seq<Image>, paletteSize: int, x: int, y: int): (r: Result<seq<Byte>, EncodeError>)
    ensures images == [] ==> r == Err(NoImages)
  {
    match Validate(images, paletteSize)
    case Some(e) => Err(e)
    case None => Assemble(images, Palette(AllPixels(images), paletteSize), x, y)
  }

  /** The file once the palette is chosen: header, colour table, image data. */
  function Assemble(images: seq<Image>, palette: seq<Color>, x: int, y: int): (r: Result<seq<Byte>, EncodeError>)
    requires images != []
  {
    Then(HeaderBytes(|images|, images[0].width, images[0].height, x, y, |palette|),
         Then(Ok(PaletteBytes(palette)), ImageData(palette, images)))
  }

  /** `create_spt_file` step by step. */
  method CreateSptFile(images: seq<Image>, paletteSize: int, x: int, y: int) returns (r: Result<seq<Byte>, EncodeError>)
    ensures r == EncodeSpt(images, paletteSize, x, y)
  {
    if |images| == 0 {
      return Err(NoImages);
    }
    if paletteSize > 256 {
      return Err(PaletteTooLarge);
    }
    var sameSize := CheckSizes(images);
    if !sameSize {
      return Err(DimensionMismatch);
    }
    var allPixels := GatherPixels(images);
    var keys, counts := CountColours(allPixels);
    var sortedColors := RankByCount(Items(keys, counts));
    var palette := ColorsOf(SlicePrefix(sortedColors, paletteSize));
    assert sortedColors == Ranking(AllPixels(images));
    assert palette == Palette(AllPixels(images), paletteSize);
    r := WriteFile(images, palette, x, y);
  }

  /** The header, colour table and image data written one after another. */
  method WriteFile(images: seq<Image>, palette: seq<Color>, x: int, y: int) returns (r: Result<seq<Byte>, EncodeError>)
    requires images != []
    ensures r == Assemble(images, palette, x, y)
  {
    var colorTable := PackPalette(palette);
    var header := HeaderBytes(|images|, images[0].width, images[0].height, x, y, |palette|);
    if header.Err? {
      return Err(header.error);
    }
    var imageData := EncodeImages(palette, images);
    ghost var rest := Then(Ok(colorTable), imageData);
    assert Assemble(images, palette, x, y) == Then(header, rest);
    if imageData.Err? {
      return Err(imageData.error);
    }
    r := Ok(header.value + colorTable + imageData.value);
    assert r.value == header.value + rest.value;
  }
}
