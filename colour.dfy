/** Colours of the SPT palette: RGBA pixels with 8-bit channels, stored in the
    file as 16-bit ARGB4444 words (one nibble per channel, big-endian). */
module Colour {
  import opened Bytes

  /** An RGBA pixel, channels in the order PIL's "RGBA" mode gives them. */
  datatype Color = Color(r: Byte, g: Byte, b: Byte, a: Byte)

  /** A channel the palette stores without loss: its low nibble is zero. */
  predicate OnNibbleGrid(v: int) { v % 16 == 0 }

  /** A colour whose four channels the palette stores without loss. */
  predicate Representable(c: Color)
  {
    OnNibbleGrid(c.r) && OnNibbleGrid(c.g) && OnNibbleGrid(c.b) && OnNibbleGrid(c.a)
  }

  /** The colour with the low four bits of every channel cleared, `(v >> 4) << 4`. */
  function Truncated(c: Color): (t: Color)
    ensures Representable(t)
    ensures Representable(c) ==> t == c
  {
    Color((c.r / 16) * 16, (c.g / 16) * 16, (c.b / 16) * 16, (c.a / 16) * 16)
  }

  /** Decoder side (`parse_color`): the first byte holds alpha in its high
      nibble and red in its low nibble, the second green and blue; each nibble
      is scaled by 16, so every channel lands on the grid 0, 16, ..., 240. */
  function ParseColor(first: Byte, second: Byte): (c: Color)
    ensures Representable(c)
    ensures c.r <= 240 && c.g <= 240 && c.b <= 240 && c.a <= 240
  {
    Color((first % 16) * 16, (second / 16) * 16, (second % 16) * 16, (first / 16) * 16)
  }

  /** Encoder side: the colour packed as
      `(a>>4)<<12 | (r>>4)<<8 | (g>>4)<<4 | (b>>4)` and written as two
      big-endian bytes. Reading those bytes back through the decoder gives the
      colour with its channels truncated to the nibble grid. */
  function PackColor(c: Color): (s: seq<Byte>)
    ensures |s| == 2
    ensures ParseColor(s[0], s[1]) == Truncated(c)
  {
    var argb := (c.a / 16) * 4096 + (c.r / 16) * 256 + (c.g / 16) * 16 + c.b / 16;
    var high, low := Nibbles(c.a / 16, c.r / 16), Nibbles(c.g / 16, c.b / 16);
    assert argb == high * 256 + low;
    TwoBytes(high, low);
    BigEndianBytes(argb, 2)
  }

  /** The byte whose high nibble is `hi` and whose low nibble is `lo`. */
  function Nibbles(hi: nat, lo: nat): (b: Byte)
    requires hi < 16 && lo < 16
    ensures b / 16 == hi && b % 16 == lo
  {
    hi * 16 + lo
  }

  /** Two big-endian bytes are the high and the low byte of the word. */
  lemma TwoBytes(high: Byte, low: Byte)
    ensures BigEndianBytes(high * 256 + low, 2) == [high, low]
  {
    var v := high * 256 + low;
    assert v / 256 == high && v % 256 == low;
    assert (v / 256) / 256 == 0;
  }

  /** The other direction: every two-byte palette entry is the packing of the
      colour the decoder reads from it, so no entry is ambiguous. */
  lemma PackParsed(first: Byte, second: Byte)
    ensures PackColor(ParseColor(first, second)) == [first, second]
  {
  }

  /** A colour on the nibble grid survives packing and parsing unchanged. */
  lemma RepresentableRoundTrip(c: Color)
    requires Representable(c)
    ensures var s := PackColor(c); ParseColor(s[0], s[1]) == c
  {
  }
}
