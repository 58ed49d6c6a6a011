/** The run-length byte grammar of SPT frame chunks: the decoder's cursor loop
    (`read_image` with `filter_upper_bits`) and the encoder's run loop in
    `create_spt_file`, with the round trip between them. */
module Rle {
  import opened Results
  import opened Bytes
  import opened SptFormat

  /** `n` copies of palette index `v`. */
  function Repeat(v: nat, n: nat): (s: seq<nat>)
    ensures |s| == n
    ensures forall k :: 0 <= k < n ==> s[k] == v
  {
    seq(n, _ => v)
  }

  // ---------------------------------------------------------------------------
  // Decoder
  // ---------------------------------------------------------------------------

  /** `filter_upper_bits`: the index carried by a marker byte, folded modulo
      128 and then, for small palettes, modulo 64, 32 or 16. The fold never
      moves an index that is already inside the palette, and it keeps the low
      four bits. */
  function FilterUpperBits(icolor: nat, colorCount: nat): (r: nat)
    ensures r < 128
    ensures colorCount < 16 ==> r < 16
    ensures icolor % 128 < colorCount ==> r == icolor % 128
    ensures r % 16 == icolor % 16
  {
    var c1 := icolor % 128;
    var c2 := if colorCount < 64 then c1 % 64 else c1;
    var c3 := if colorCount < 32 then c2 % 32 else c2;
    var c4 := if colorCount < 16 then c3 % 16 else c3;
    FoldSteps(icolor, colorCount, c1, c2, c3, c4);
    c4
  }

  /** The facts about one pass of the fold, one modulus at a time. */
  lemma FoldSteps(x: nat, colorCount: nat, c1: nat, c2: nat, c3: nat, c4: nat)
    requires c1 == x % 128
    requires c2 == if colorCount < 64 then c1 % 64 else c1
    requires c3 == if colorCount < 32 then c2 % 32 else c2
    requires c4 == if colorCount < 16 then c3 % 16 else c3
    ensures c4 < 128 && (colorCount < 16 ==> c4 < 16)
    ensures c1 < colorCount ==> c4 == c1
    ensures c4 % 16 == x % 16
  {
    Fold128(x);
    if colorCount < 64 {
      Fold(c1, 64);
    }
    if colorCount < 32 {
      Fold(c2, 32);
    }
  }

  /** The low four bits of `x` survive folding modulo 128. */
  lemma Fold128(x: nat)
    ensures (x % 128) % 16 == x % 16
  {
    var q := x / 16;
    assert x == 16 * q + x % 16;
    assert q == 8 * (q / 8) + q % 8;
    assert x == 128 * (q / 8) + (16 * (q % 8) + x % 16);
  }

  /** Below 128, folding modulo 64 or 32 keeps the low four bits. */
  lemma Fold(y: nat, m: nat)
    requires y < 128 && (m == 64 || m == 32)
    ensures (y % m) % 16 == y % 16
  {
  }

  /** The inline run length of a marker byte: its bits 4 to 6, which the
      decoder consults only when the palette has at most 16 colours. */
  function InlineRun(b: Byte, colorCount: nat): (n: nat)
    ensures n < 8
    ensures colorCount > 16 ==> n == 0
  {
    if colorCount <= 16 then (b / 16) % 8 else 0
  }

  /** The pixels one code yields and the cursor after it. */
  datatype Token = Token(pixels: seq<nat>, next: nat)

  /** One code of the grammar, read at cursor `i` of the whole file buffer:
      a byte below 128 is one literal pixel; a marker byte with a nonzero
      inline run is that many pixels; any other marker is followed by a
      length byte `L`, and when `L > 127` by a further byte `H`, the run then
      being `L + 128 * (H - 1)`. A read past the end of the buffer fails. */
  function DecodeToken(data: seq<Byte>, i: nat, colorCount: nat): (r: Result<Token, DecodeError>)
    requires i < |data|
    ensures r.Ok? ==> i < r.value.next <= i + 3
    ensures r.Err? ==> r.error == IndexOutOfRange
    ensures data[i] < 128 ==> r == Ok(Token([data[i]], i + 1))
    ensures r.Ok? && data[i] >= 128 ==>
      forall k :: 0 <= k < |r.value.pixels| ==> r.value.pixels[k] == FilterUpperBits(data[i], colorCount)
  {
    var b := data[i];
    if b < 128 then Ok(Token([b], i + 1))
    else
      var inline := InlineRun(b, colorCount);
      var v := FilterUpperBits(b, colorCount);
      if inline != 0 then Ok(Token(Repeat(v, inline), i + 1))
      else if i + 1 >= |data| then Err(IndexOutOfRange)
      else
        var low := data[i + 1];
        if low <= 127 then Ok(Token(Repeat(v, low), i + 2))
        else if i + 2 >= |data| then Err(IndexOutOfRange)
        else Ok(Token(Repeat(v, low as int + 128 * (data[i + 2] as int - 1)), i + 3))
  }

  /** The indices the codes starting at cursor `i` yield, for as long as the
      cursor is before `stop`. A code that starts before `stop` is read to its
      end even when that lies beyond `stop`, as the Python loop does. */
  function DecodeFrom(data: seq<Byte>, i: nat, stop: nat, colorCount: nat): Result<seq<nat>, DecodeError>
    decreases stop - i
  {
    if i >= stop then Ok([])
    else if i >= |data| then Err(IndexOutOfRange)
    else
      match DecodeToken(data, i, colorCount)
      case Err(e) => Err(e)
      case Ok(t) => Prepend(t.pixels, DecodeFrom(data, t.next, stop, colorCount))
  }

  /** The reconciliation after the loop: right-pad with index 0 or truncate,
      so a frame has exactly `n` indices and keeps its decoded prefix. */
  function Fit(s: seq<nat>, n: nat): (r: seq<nat>)
    ensures |r| == n
    ensures forall k :: 0 <= k < n ==> r[k] == if k < |s| then s[k] else 0
  {
    if |s| < n then s + Repeat(0, n - |s|) else s[..n]
  }

  /** What `read_image(begin, length)` appends to `output_images`. */
  function ReadImageSpec(data: seq<Byte>, begin: nat, length: nat, colorCount: nat, pixelCount: nat)
    : Result<seq<nat>, DecodeError>
  {
    match DecodeFrom(data, begin, begin + length, colorCount)
    case Ok(s) => Ok(Fit(s, pixelCount))
    case Err(e) => Err(e)
  }

  /** `read_image`: the cursor loop over one chunk, then the reconciliation to
      `image_x * image_y` indices. */
  method ReadImage(data: seq<Byte>, begin: nat, length: nat, colorCount: nat, pixelCount: nat)
    returns (r: Result<seq<nat>, DecodeError>)
    ensures r == ReadImageSpec(data, begin, length, colorCount, pixelCount)
    ensures r.Ok? ==> |r.value| == pixelCount
  {
    var outImage: seq<nat> := [];
    var totalLen: nat := 0;
    var i := begin;
    var stop := begin + length;
    PrependNothing(DecodeFrom(data, begin, stop, colorCount));
    while i < stop
      invariant begin <= i
      invariant totalLen == |outImage|
      invariant DecodeFrom(data, begin, stop, colorCount) == Prepend(outImage, DecodeFrom(data, i, stop, colorCount))
      decreases stop - i
    {
      if i >= |data| {
        ReadFails(data, begin, length, colorCount, pixelCount, outImage, i);
        return Err(IndexOutOfRange);
      }
      ghost var start := i;
      var currentColor := data[i];
      var pixels: seq<nat>;
      if currentColor >= 128 {
        var inlineRle := if colorCount <= 16 then (currentColor / 16) % 8 else 0;
        var color := FilterUpperBits(currentColor, colorCount);
        if inlineRle == 0 {
          i := i + 1;
          if i >= |data| {
            assert DecodeToken(data, start, colorCount).Err?;
            ReadFails(data, begin, length, colorCount, pixelCount, outImage, start);
            return Err(IndexOutOfRange);
          }
          var colorLength: nat := data[i];
          if colorLength > 127 {
            i := i + 1;
            if i >= |data| {
              assert DecodeToken(data, start, colorCount).Err?;
              ReadFails(data, begin, length, colorCount, pixelCount, outImage, start);
              return Err(IndexOutOfRange);
            }
            colorLength := colorLength + 128 * (data[i] as int - 1);
          }
          pixels := Repeat(color, colorLength);
        } else {
          pixels := Repeat(color, inlineRle);
        }
      } else {
        pixels := [currentColor];
      }
      assert DecodeToken(data, start, colorCount) == Ok(Token(pixels, i + 1));
      ReadStep(data, begin, stop, colorCount, outImage, start, pixels, i + 1);
      totalLen := totalLen + |pixels|;
      outImage := outImage + pixels;
      i := i + 1;
    }
    ReadDone(data, begin, length, colorCount, pixelCount, outImage, i);
    var pixelLoss := pixelCount - totalLen;
    if pixelLoss > 0 {
      outImage := outImage + Repeat(0, pixelLoss);
    }
    if pixelLoss < 0 {
      outImage := outImage[..pixelCount];
    }
    r := Ok(outImage);
  }

  /** One code read: the loop's account moves past it. */
  lemma ReadStep(data: seq<Byte>, begin: nat, stop: nat, colorCount: nat, out: seq<nat>, i: nat, pixels: seq<nat>, next: nat)
    requires i < stop && i < |data| && DecodeToken(data, i, colorCount) == Ok(Token(pixels, next))
    requires DecodeFrom(data, begin, stop, colorCount) == Prepend(out, DecodeFrom(data, i, stop, colorCount))
    ensures DecodeFrom(data, begin, stop, colorCount) == Prepend(out + pixels, DecodeFrom(data, next, stop, colorCount))
  {
    PrependAppend(out, pixels, DecodeFrom(data, next, stop, colorCount));
  }

  /** A code that cannot be read makes the whole chunk fail. */
  lemma ReadFails(data: seq<Byte>, begin: nat, length: nat, colorCount: nat, pixelCount: nat, out: seq<nat>, i: nat)
    requires i < begin + length
    requires i >= |data| || DecodeToken(data, i, colorCount).Err?
    requires DecodeFrom(data, begin, begin + length, colorCount) == Prepend(out, DecodeFrom(data, i, begin + length, colorCount))
    ensures ReadImageSpec(data, begin, length, colorCount, pixelCount) == Err(IndexOutOfRange)
  {
  }

  /** The cursor reached the end of the chunk: the decoded indices are `out`. */
  lemma ReadDone(data: seq<Byte>, begin: nat, length: nat, colorCount: nat, pixelCount: nat, out: seq<nat>, i: nat)
    requires i >= begin + length
    requires DecodeFrom(data, begin, begin + length, colorCount) == Prepend(out, DecodeFrom(data, i, begin + length, colorCount))
    ensures ReadImageSpec(data, begin, length, colorCount, pixelCount) == Ok(Fit(out, pixelCount))
  {
    assert out + [] == out;
  }

  // ---------------------------------------------------------------------------
  // Encoder
  // ---------------------------------------------------------------------------

  /** The end of the run of copies of `s[i]` grown from position `j`: it grows
      while the index at `j` is equal and the cap is not reached. */
  function RunEnd(s: seq<nat>, i: nat, j: nat): nat
    requires i < |s|
    decreases |s| - j
  {
    if j < |s| && j - i < MaxRun && s[j] == s[i] then RunEnd(s, i, j + 1) else j
  }

  /** Growing a stretch of equal indices ends at a stretch of equal indices
      that cannot grow further. */
  lemma {:induction false} RunEndMaximal(s: seq<nat>, i: nat, j: nat)
    requires i < j <= |s| && j - i <= MaxRun
    requires forall k :: i <= k < j ==> s[k] == s[i]
    ensures j <= RunEnd(s, i, j) <= |s| && RunEnd(s, i, j) - i <= MaxRun
    ensures forall k :: i <= k < RunEnd(s, i, j) ==> s[k] == s[i]
    ensures RunEnd(s, i, j) == |s| || RunEnd(s, i, j) - i == MaxRun || s[RunEnd(s, i, j)] != s[i]
    decreases |s| - j
  {
    if j < |s| && j - i < MaxRun && s[j] == s[i] {
      RunEndMaximal(s, i, j + 1);
    }
  }

  /** The capped maximal run starting at `i`: as long as possible, but at
      most `MaxRun`. */
  function RunLengthAt(s: seq<nat>, i: nat): (r: nat)
    requires i < |s|
    ensures 1 <= r <= MaxRun && i + r <= |s|
    ensures forall k :: i <= k < i + r ==> s[k] == s[i]
    ensures i + r == |s| || r == MaxRun || s[i + r] != s[i]
  {
    RunEndMaximal(s, i, i + 1);
    RunEnd(s, i, i + 1) - i
  }

  /** A stretch of equal indices is a repetition of its first. */
  lemma RepeatIsSlice(s: seq<nat>, i: nat, n: nat)
    requires i < |s| && i + n <= |s|
    requires forall k :: i <= k < i + n ==> s[k] == s[i]
    ensures Repeat(s[i], n) == s[i..i + n]
  {
  }

  /** The bytes of one run: a single pixel is its index masked to seven bits;
      a run of 2 to 7 with at most 16 colours is one inline byte
      `0x80 | run << 4 | index & 0xF`; any other run is the marker
      `0x80 | index & 0x7F` followed by the length (up to 127) or by
      `(run % 128) | 0x80` and `run // 128`. */
  function EncodeRun(v: nat, run: nat, colorCount: nat): (bytes: seq<Byte>)
    requires 1 <= run <= MaxRun
    ensures 1 <= |bytes| <= 3
    ensures (|bytes| == 1) == (run == 1 || (run <= 7 && colorCount <= 16))
  {
    if run > 1 then
      if run <= 7 && colorCount <= 16 then [128 + (run % 8) * 16 + v % 16]
      else [128 + v % 128] + (if run <= 127 then [run % 128] else [run % 128 + 128, run / 128])
    else [v % 128]
  }

  /** The chunk the encoder writes for the frame `s[i..]`: the code of the
      capped maximal run at `i`, then the chunk of what follows that run. */
  function EncodeFrom(s: seq<nat>, i: nat, colorCount: nat): seq<Byte>
    requires i <= |s|
    decreases |s| - i
  {
    if i == |s| then []
    else EncodeRun(s[i], RunLengthAt(s, i), colorCount) + EncodeFrom(s, i + RunLengthAt(s, i), colorCount)
  }

  /** The RLE chunk of a whole frame of palette indices. */
  function EncodeFrame(s: seq<nat>, colorCount: nat): seq<Byte>
  {
    EncodeFrom(s, 0, colorCount)
  }

  /** The capped maximal run is the only run length that is all equal
      indices and cannot be extended. */
  lemma RunLengthUnique(s: seq<nat>, i: nat, r: nat)
    requires i < |s| && 1 <= r <= MaxRun && i + r <= |s|
    requires forall k :: i <= k < i + r ==> s[k] == s[i]
    requires i + r == |s| || r == MaxRun || s[i + r] != s[i]
    ensures r == RunLengthAt(s, i)
  {
    RunEndAt(s, i, i + 1, r);
  }

  /** Growing a run from `j` inside such a stretch ends at its end. */
  lemma {:induction false} RunEndAt(s: seq<nat>, i: nat, j: nat, r: nat)
    requires i < j <= i + r <= |s| && r <= MaxRun
    requires forall k :: i <= k < i + r ==> s[k] == s[i]
    requires i + r == |s| || r == MaxRun || s[i + r] != s[i]
    ensures RunEnd(s, i, j) == i + r
    decreases i + r - j
  {
    if j < i + r {
      RunEndAt(s, i, j + 1, r);
    }
  }

  /** The bytes the encoder appends for one run, branch by branch. */
  method RunCode(currentVal: nat, runLength: nat, colorCount: nat) returns (code: seq<Byte>)
    requires 1 <= runLength <= MaxRun
    ensures code == EncodeRun(currentVal, runLength, colorCount)
  {
    if runLength > 1 {
      if runLength <= 7 && colorCount <= 16 {
        // the 3-bit inline run
        code := [128 + (runLength % 8) * 16 + currentVal % 16];
      } else {
        code := [128 + currentVal % 128];
        if runLength <= 127 {
          code := code + [runLength % 128];
        } else {
          var high := runLength / 128;
          var low := runLength % 128;
          code := code + [low + 128];
          code := code + [high];
        }
      }
    } else {
      code := [currentVal % 128];
    }
  }

  /** The inner loop of the encoder: grow the run while the next index is
      equal and the cap is not reached. */
  method MeasureRun(pixels: seq<nat>, i: nat) returns (runLength: nat)
    requires i < |pixels|
    ensures runLength == RunLengthAt(pixels, i)
  {
    var n := |pixels|;
    var currentVal := pixels[i];
    runLength := 1;
    while i + runLength < n && pixels[i + runLength] == currentVal && runLength < MaxRun
      invariant 1 <= runLength <= MaxRun && i + runLength <= n
      invariant forall k :: i <= k < i + runLength ==> pixels[k] == currentVal
      decreases n - runLength
    {
      runLength := runLength + 1;
    }
    RunLengthUnique(pixels, i, runLength);
  }

  /** The run loop of `create_spt_file`: measure the capped run with an inner
      loop, append its code, advance by the run. */
  method RleEncode(pixels: seq<nat>, colorCount: nat) returns (rle: seq<Byte>)
    ensures rle == EncodeFrame(pixels, colorCount)
  {
    rle := [];
    var i := 0;
    var n := |pixels|;
    while i < n
      invariant i <= n
      invariant Written(pixels, i, rle, colorCount)
      decreases n - i
    {
      var currentVal := pixels[i];
      var runLength := MeasureRun(pixels, i);
      var code := RunCode(currentVal, runLength, colorCount);
      ghost var before, at := rle, i;
      rle := rle + code;
      i := i + runLength;
      EncodeAppend(pixels, at, runLength, colorCount, before, code, i, rle);
    }
  }

  /** The loop's account of the chunk: the bytes written so far, then the
      chunk of `s[i..]`, make the chunk of the whole frame. */
  predicate Written(s: seq<nat>, i: nat, rle: seq<Byte>, colorCount: nat)
    requires i <= |s|
  {
    rle + EncodeFrom(s, i, colorCount) == EncodeFrame(s, colorCount)
  }

  /** Appending the code of the run at `i` keeps the loop's account. */
  lemma EncodeAppend(s: seq<nat>, i: nat, run: nat, colorCount: nat, rle: seq<Byte>, code: seq<Byte>,
                     next: nat, written: seq<Byte>)
    requires i < |s| && run == RunLengthAt(s, i) && code == EncodeRun(s[i], run, colorCount)
    requires Written(s, i, rle, colorCount)
    requires next == i + run && written == rle + code
    ensures Written(s, next, written, colorCount)
  {
    var rest := EncodeFrom(s, next, colorCount);
    EncodeFromStep(s, i, run, next, colorCount);
    AppendAssoc(rle, code, rest);
  }

  /** The chunk of `s[i..]` is the code of the run at `i`, then the chunk of
      what follows that run. */
  lemma EncodeFromStep(s: seq<nat>, i: nat, run: nat, next: nat, colorCount: nat)
    requires i < |s| && run == RunLengthAt(s, i) && next == i + run
    ensures EncodeFrom(s, i, colorCount) == EncodeRun(s[i], run, colorCount) + EncodeFrom(s, next, colorCount)
  {
    assert EncodeFrom(s, i, colorCount)
        == EncodeRun(s[i], RunLengthAt(s, i), colorCount) + EncodeFrom(s, i + RunLengthAt(s, i), colorCount);
  }

  lemma AppendAssoc(a: seq<Byte>, b: seq<Byte>, c: seq<Byte>)
    ensures a + (b + c) == (a + b) + c
  {
  }

  // ---------------------------------------------------------------------------
  // Round trip
  // ---------------------------------------------------------------------------

  /** `bytes` sits in `data` at offset `at`. */
  predicate Embedded(data: seq<Byte>, at: nat, bytes: seq<Byte>)
  {
    at + |bytes| <= |data| && forall k :: 0 <= k < |bytes| ==> data[at + k] == bytes[k]
  }

  /** Decoded index `t` stands for encoded index `s`: equal, except that with
      a 16-colour palette an inline run may come back 16 higher. */
  predicate Agrees(t: nat, s: nat, colorCount: nat)
  {
    t == s || (colorCount == 16 && t == s + 16)
  }

  /** Index sequences that agree position by position. */
  predicate AllAgree(t: seq<nat>, s: seq<nat>, colorCount: nat)
  {
    |t| == |s| && forall k :: 0 <= k < |t| ==> Agrees(t[k], s[k], colorCount)
  }

  /** Decoding the code of one run reads exactly its bytes and yields the run,
      up to the 16-colour quirk. */
  lemma DecodeOneRun(data: seq<Byte>, at: nat, v: nat, run: nat, colorCount: nat)
    requires colorCount <= 128 && v < colorCount && 1 <= run <= MaxRun
    requires Embedded(data, at, EncodeRun(v, run, colorCount))
    ensures at < |data|
    ensures DecodeToken(data, at, colorCount).Ok?
    ensures DecodeToken(data, at, colorCount).value.next == at + |EncodeRun(v, run, colorCount)|
    ensures AllAgree(DecodeToken(data, at, colorCount).value.pixels, Repeat(v, run), colorCount)
  {
    var code := EncodeRun(v, run, colorCount);
    assert data[at] == code[0];
    if run == 1 {
      assert [v] == Repeat(v, 1);
    } else if run <= 7 && colorCount <= 16 {
      DecodeInline(data, at, v, run, colorCount);
    } else if run <= 127 {
      assert data[at + 1] == code[1];
      DecodeMarker(data, at, v, run, colorCount);
    } else {
      assert data[at + 1] == code[1] && data[at + 2] == code[2];
      DecodeMarker(data, at, v, run, colorCount);
    }
  }

  /** A run of 2 to 7 with at most 16 colours comes back from its inline byte,
      16 higher when bit 4 of the byte survives the fold. */
  lemma DecodeInline(data: seq<Byte>, at: nat, v: nat, run: nat, colorCount: nat)
    requires colorCount <= 16 && v < colorCount && 2 <= run <= 7
    requires at < |data| && data[at] == 128 + run * 16 + v
    ensures DecodeToken(data, at, colorCount).Ok?
    ensures DecodeToken(data, at, colorCount).value.next == at + 1
    ensures AllAgree(DecodeToken(data, at, colorCount).value.pixels, Repeat(v, run), colorCount)
  {
    var b := data[at];
    assert b / 16 == 8 + run;
    assert InlineRun(b, colorCount) == run;
    var f := FilterUpperBits(b, colorCount);
    assert b % 128 == run * 16 + v;
    assert Agrees(f, v, colorCount) by {
      if colorCount < 16 {
        assert f % 16 == v % 16;
      } else {
        FoldInline(run, v);
      }
    }
  }

  /** With 16 colours the fold of an inline byte leaves bit 4 of its run. */
  lemma FoldInline(run: nat, v: nat)
    requires 2 <= run <= 7 && v < 16
    ensures FilterUpperBits(128 + run * 16 + v, 16) == v || FilterUpperBits(128 + run * 16 + v, 16) == v + 16
  {
    var b := 128 + run * 16 + v;
    assert b % 128 == run * 16 + v;
    assert (run * 16 + v) % 64 % 32 == (run % 2) * 16 + v;
  }

  /** A marker byte followed by its length byte, or by its two length bytes,
      comes back as the run. */
  lemma DecodeMarker(data: seq<Byte>, at: nat, v: nat, run: nat, colorCount: nat)
    requires colorCount <= 128 && v < colorCount && 2 <= run <= MaxRun
    requires run > 7 || colorCount > 16
    requires at + 1 < |data| && data[at] == 128 + v
    requires run <= 127 ==> data[at + 1] == run
    requires run > 127 ==> at + 2 < |data| && data[at + 1] == run % 128 + 128 && data[at + 2] == run / 128
    ensures DecodeToken(data, at, colorCount)
         == Ok(Token(Repeat(v, run), if run <= 127 then at + 2 else at + 3))
  {
    MarkerByte(v, colorCount);
    if run > 127 {
      LongLength(run);
    }
  }

  /** The marker byte of colour `v` holds no inline run and folds to `v`. */
  lemma MarkerByte(v: nat, colorCount: nat)
    requires colorCount <= 128 && v < colorCount
    ensures InlineRun(128 + v, colorCount) == 0 && FilterUpperBits(128 + v, colorCount) == v
  {
    if colorCount <= 16 {
      assert (128 + v) / 16 == 8;
    }
  }

  /** The two length bytes of a long run give the run back. */
  lemma LongLength(run: nat)
    requires 127 < run
    ensures (run % 128 + 128) + 128 * (run / 128 - 1) == run
  {
  }

  /** A token read further into the buffer: its cursor moves by `d`. */
  function Shifted(r: Result<Token, DecodeError>, d: nat): (q: Result<Token, DecodeError>)
    ensures q.Ok? == r.Ok?
    ensures r.Ok? ==> q.value.pixels == r.value.pixels && q.value.next == r.value.next + d
  {
    match r
    case Ok(t) => Ok(Token(t.pixels, t.next + d))
    case Err(e) => Err(e)
  }

  /** Reading a code at cursor `|p| + j` of `p + q` never looks at `p`. */
  lemma TokenShift(p: seq<Byte>, q: seq<Byte>, j: nat, colorCount: nat)
    requires j < |q|
    ensures DecodeToken(p + q, |p| + j, colorCount) == Shifted(DecodeToken(q, j, colorCount), |p|)
  {
    var d := p + q;
    assert d[|p| + j] == q[j];
    if j + 1 < |q| {
      assert d[|p| + j + 1] == q[j + 1];
    }
    if j + 2 < |q| {
      assert d[|p| + j + 2] == q[j + 2];
    }
  }

  /** Decoding from cursor `|p| + j` of `p + q` up to `|p| + stop` is decoding
      `q` from `j` up to `stop`: the decoder never looks back. */
  lemma {:induction false} DecodeShift(p: seq<Byte>, q: seq<Byte>, d: seq<Byte>, j: nat, jj: nat, stop: nat, sstop: nat,
                                       colorCount: nat)
    requires d == p + q && jj == |p| + j && sstop == |p| + stop
    ensures DecodeFrom(d, jj, sstop, colorCount) == DecodeFrom(q, j, stop, colorCount)
    decreases stop - j
  {
    if j < stop && j < |q| {
      TokenShift(p, q, j, colorCount);
      match DecodeToken(q, j, colorCount)
      case Ok(t) =>
        DecodeShift(p, q, d, t.next, |p| + t.next, stop, sstop, colorCount);
      case Err(_) =>
    }
  }

  /** A code read inside `c` reads the same from `c + post`. */
  lemma TokenExtend(c: seq<Byte>, post: seq<Byte>, j: nat, colorCount: nat)
    requires j < |c| && DecodeToken(c, j, colorCount).Ok?
    ensures DecodeToken(c + post, j, colorCount) == DecodeToken(c, j, colorCount)
  {
    var d := c + post;
    assert d[j] == c[j];
    if j + 1 < |c| {
      assert d[j + 1] == c[j + 1];
    }
    if j + 2 < |c| {
      assert d[j + 2] == c[j + 2];
    }
  }

  /** A decoding that succeeds inside `c` is not changed by bytes after `c`. */
  lemma {:induction false} DecodeExtend(c: seq<Byte>, post: seq<Byte>, j: nat, stop: nat, colorCount: nat)
    requires DecodeFrom(c, j, stop, colorCount).Ok?
    ensures DecodeFrom(c + post, j, stop, colorCount) == DecodeFrom(c, j, stop, colorCount)
    decreases stop - j
  {
    if j < stop {
      TokenExtend(c, post, j, colorCount);
      var t := DecodeToken(c, j, colorCount).value;
      DecodeExtend(c, post, t.next, stop, colorCount);
    }
  }

  /** The code of one run, then bytes that decode to indices agreeing with
      `b`: together they decode to the run followed by `b`. */
  lemma CodeThenRest(code: seq<Byte>, rest: seq<Byte>, v: nat, run: nat, b: seq<nat>, colorCount: nat)
    requires colorCount <= 128 && v < colorCount && 1 <= run <= MaxRun && code == EncodeRun(v, run, colorCount)
    requires DecodeFrom(rest, 0, |rest|, colorCount).Ok?
    requires AllAgree(DecodeFrom(rest, 0, |rest|, colorCount).value, b, colorCount)
    ensures DecodeFrom(code + rest, 0, |code + rest|, colorCount).Ok?
    ensures AllAgree(DecodeFrom(code + rest, 0, |code + rest|, colorCount).value, Repeat(v, run) + b, colorCount)
  {
    var d := code + rest;
    forall k | 0 <= k < |code|
      ensures d[0 + k] == code[k]
    {
      assert d[k] == code[k];
    }
    DecodeOneRun(d, 0, v, run, colorCount);
    var t := DecodeToken(d, 0, colorCount).value;
    DecodeShift(code, rest, d, 0, t.next, |rest|, |d|, colorCount);
    StepAgrees(d, 0, |d|, colorCount, t, Repeat(v, run), b);
  }

  /** The chunk of `s[i..]` on its own decodes to indices that agree with
      `s[i..]`. */
  lemma {:induction false} DecodeChunk(s: seq<nat>, i: nat, colorCount: nat)
    requires colorCount <= 128 && i <= |s| && forall k :: 0 <= k < |s| ==> s[k] < colorCount
    ensures DecodeFrom(EncodeFrom(s, i, colorCount), 0, |EncodeFrom(s, i, colorCount)|, colorCount).Ok?
    ensures AllAgree(DecodeFrom(EncodeFrom(s, i, colorCount), 0, |EncodeFrom(s, i, colorCount)|, colorCount).value,
                     s[i..], colorCount)
    decreases |s| - i
  {
    if i < |s| {
      var run := RunLengthAt(s, i);
      var next := i + run;
      DecodeChunk(s, next, colorCount);
      CodeThenRest(EncodeRun(s[i], run, colorCount), EncodeFrom(s, next, colorCount), s[i], run, s[next..], colorCount);
      EncodeFromStep(s, i, run, next, colorCount);
      RepeatIsSlice(s, i, run);
      SliceSplit(s, i, next);
    } else {
      assert s[i..] == [];
    }
  }

  lemma SliceSplit(s: seq<nat>, i: nat, j: nat)
    requires i <= j <= |s|
    ensures s[i..] == s[i..j] + s[j..]
  {
  }

  /** One code decoded, then a rest that agrees: the whole agrees. */
  lemma StepAgrees(data: seq<Byte>, at: nat, stop: nat, colorCount: nat, t: Token, a: seq<nat>, b: seq<nat>)
    requires at < stop && at < |data| && DecodeToken(data, at, colorCount) == Ok(t)
    requires DecodeFrom(data, t.next, stop, colorCount).Ok?
    requires AllAgree(t.pixels, a, colorCount) && AllAgree(DecodeFrom(data, t.next, stop, colorCount).value, b, colorCount)
    ensures DecodeFrom(data, at, stop, colorCount).Ok?
    ensures AllAgree(DecodeFrom(data, at, stop, colorCount).value, a + b, colorCount)
  {
    AgreeConcat(t.pixels, a, DecodeFrom(data, t.next, stop, colorCount).value, b, colorCount);
  }

  /** Agreement survives concatenation. */
  lemma AgreeConcat(t1: seq<nat>, s1: seq<nat>, t2: seq<nat>, s2: seq<nat>, colorCount: nat)
    requires AllAgree(t1, s1, colorCount) && AllAgree(t2, s2, colorCount)
    ensures AllAgree(t1 + t2, s1 + s2, colorCount)
  {
    forall k | 0 <= k < |t1 + t2|
      ensures Agrees((t1 + t2)[k], (s1 + s2)[k], colorCount)
    {
      if k < |t1| {
        assert (t1 + t2)[k] == t1[k] && (s1 + s2)[k] == s1[k];
      } else {
        assert (t1 + t2)[k] == t2[k - |t1|] && (s1 + s2)[k] == s2[k - |t1|];
      }
    }
  }

  /** The RLE round trip for one frame, wherever its chunk sits in the file:
      with at most 128 colours and every index inside the palette, decoding
      the encoder's chunk gives back indices that agree with the frame, and
      exactly the frame unless the palette has 16 colours. */
  lemma RleRoundTrip(pre: seq<Byte>, s: seq<nat>, post: seq<Byte>, colorCount: nat)
    requires colorCount <= 128
    requires forall k :: 0 <= k < |s| ==> s[k] < colorCount
    ensures DecodeFrom(pre + EncodeFrame(s, colorCount) + post, |pre|, |pre| + |EncodeFrame(s, colorCount)|, colorCount).Ok?
    ensures AllAgree(DecodeFrom(pre + EncodeFrame(s, colorCount) + post, |pre|, |pre| + |EncodeFrame(s, colorCount)|, colorCount).value,
                     s, colorCount)
    ensures colorCount != 16 ==>
      DecodeFrom(pre + EncodeFrame(s, colorCount) + post, |pre|, |pre| + |EncodeFrame(s, colorCount)|, colorCount) == Ok(s)
  {
    var chunk := EncodeFrame(s, colorCount);
    FrameAgrees(s, colorCount);
    ChunkInFile(pre, chunk, post, colorCount);
    if colorCount != 16 {
      AgreeExact(DecodeFrom(chunk, 0, |chunk|, colorCount).value, s, colorCount);
    }
  }

  /** The chunk of a whole frame on its own decodes to indices that agree
      with the frame. */
  lemma FrameAgrees(s: seq<nat>, colorCount: nat)
    requires colorCount <= 128 && forall k :: 0 <= k < |s| ==> s[k] < colorCount
    ensures DecodeFrom(EncodeFrame(s, colorCount), 0, |EncodeFrame(s, colorCount)|, colorCount).Ok?
    ensures AllAgree(DecodeFrom(EncodeFrame(s, colorCount), 0, |EncodeFrame(s, colorCount)|, colorCount).value,
                     s, colorCount)
  {
    DecodeChunk(s, 0, colorCount);
    assert s[0..] == s;
  }

  /** A chunk that decodes on its own decodes the same inside a file, whatever
      comes before and after it. */
  lemma ChunkInFile(pre: seq<Byte>, chunk: seq<Byte>, post: seq<Byte>, colorCount: nat)
    requires DecodeFrom(chunk, 0, |chunk|, colorCount).Ok?
    ensures DecodeFrom(pre + chunk + post, |pre|, |pre| + |chunk|, colorCount) == DecodeFrom(chunk, 0, |chunk|, colorCount)
  {
    DecodeExtend(chunk, post, 0, |chunk|, colorCount);
    AppendAssoc(pre, chunk, post);
    DecodeShift(pre, chunk + post, pre + chunk + post, 0, |pre|, |chunk|, |pre| + |chunk|, colorCount);
  }

  /** Away from 16 colours, agreement is equality. */
  lemma AgreeExact(t: seq<nat>, s: seq<nat>, colorCount: nat)
    requires colorCount != 16 && AllAgree(t, s, colorCount)
    ensures t == s
  {
  }

  /** The chunk on its own, decoded from its first byte to its last. */
  lemma ChunkRoundTrip(s: seq<nat>, colorCount: nat)
    requires colorCount <= 128 && colorCount != 16
    requires forall k :: 0 <= k < |s| ==> s[k] < colorCount
    ensures DecodeFrom(EncodeFrame(s, colorCount), 0, |EncodeFrame(s, colorCount)|, colorCount) == Ok(s)
  {
    FrameAgrees(s, colorCount);
    AgreeExact(DecodeFrom(EncodeFrame(s, colorCount), 0, |EncodeFrame(s, colorCount)|, colorCount).value, s, colorCount);
  }

  /** The 16-colour quirk, shown on three pixels of index 0: the inline code
      0xB0 has bit 4 set, the decoder keeps it when folding modulo 32, and the
      run comes back as index 16. */
  lemma SixteenColourQuirk()
    ensures EncodeFrame([0, 0, 0], 16) == [0xB0]
    ensures DecodeFrom([0xB0], 0, 1, 16) == Ok([16, 16, 16])
  {
    var s: seq<nat> := [0, 0, 0];
    assert RunLengthAt(s, 0) == 3 by {
      assert RunEnd(s, 0, 3) == 3;
      assert RunEnd(s, 0, 2) == 3;
    }
    assert EncodeFrom(s, 0, 16) == [0xB0] + EncodeFrom(s, 3, 16);
    var data: seq<Byte> := [0xB0];
    assert InlineRun(0xB0, 16) == 3;
    assert FilterUpperBits(0xB0, 16) == 16;
    assert Repeat(16, 3) == [16, 16, 16];
    assert DecodeToken(data, 0, 16) == Ok(Token([16, 16, 16], 1));
    assert DecodeFrom(data, 1, 1, 16) == Ok([]);
    assert [16, 16, 16] + [] == [16, 16, 16];
  }
}
