/** Bytes and the fixed-width integer encodings used by the SPT sprite format
    (big-endian chunk lengths, little-endian header words) and by the `.dat`
    archive (little-endian signed 32-bit words). */
module Bytes {
  import opened Results

  /** One octet, as a numpy `uint8` array or a Python `bytes` object holds it. */
  type Byte = b: int | 0 <= b < 256

  /** 256 to the power `n`: one more than the largest value of `n` bytes. */
  function Pow256(n: nat): (p: nat)
    ensures p >= 1
  {
    if n == 0 then 1 else 256 * Pow256(n - 1)
  }

  /** The value of a byte string read most significant byte first. */
  function BigEndian(s: seq<Byte>): (v: nat)
    ensures v < Pow256(|s|)
  {
    if s == [] then 0 else BigEndian(s[..|s| - 1]) * 256 + s[|s| - 1]
  }

  /** The value of a byte string read least significant byte first. */
  function LittleEndian(s: seq<Byte>): (v: nat)
    ensures v < Pow256(|s|)
  {
    if s == [] then 0 else s[0] + 256 * LittleEndian(s[1..])
  }

  /** `v.to_bytes(n, byteorder='big')` for a value that fits in `n` bytes. */
  function BigEndianBytes(v: nat, n: nat): (s: seq<Byte>)
    requires v < Pow256(n)
    ensures |s| == n && BigEndian(s) == v
    ensures n > 0 ==> s[n - 1] == v % 256
  {
    if n == 0 then []
    else
      var high := BigEndianBytes(v / 256, n - 1);
      assert (high + [v % 256])[..n - 1] == high;
      high + [v % 256]
  }

  /** `v.to_bytes(n, byteorder='little')` for a value that fits in `n` bytes. */
  function LittleEndianBytes(v: nat, n: nat): (s: seq<Byte>)
    requires v < Pow256(n)
    ensures |s| == n && LittleEndian(s) == v
    ensures n > 0 ==> s[0] == v % 256
  {
    if n == 0 then []
    else
      var high := LittleEndianBytes(v / 256, n - 1);
      assert ([v % 256] + high)[1..] == high;
      [v % 256] + high
  }

  /** `v.to_bytes(n, byteorder=...)`: `None` where Python raises OverflowError,
      that is for a negative value or one that needs more than `n` bytes. */
  function ToBytes(v: int, n: nat, bigEndian: bool): (r: Option<seq<Byte>>)
    ensures r.Some? <==> 0 <= v < Pow256(n)
    ensures r.Some? && bigEndian ==> |r.value| == n && BigEndian(r.value) == v
    ensures r.Some? && !bigEndian ==> |r.value| == n && LittleEndian(r.value) == v
  {
    if 0 <= v < Pow256(n) then
      Some(if bigEndian then BigEndianBytes(v, n) else LittleEndianBytes(v, n))
    else None
  }

  /** Every byte string is the big-endian encoding of its own value. */
  lemma {:induction false} BigEndianBytesOfValue(s: seq<Byte>)
    ensures BigEndianBytes(BigEndian(s), |s|) == s
  {
    if s != [] {
      var n := |s|;
      var v := BigEndian(s);
      BigEndianBytesOfValue(s[..n - 1]);
      assert v / 256 == BigEndian(s[..n - 1]) && v % 256 == s[n - 1];
      assert s == s[..n - 1] + [s[n - 1]];
    }
  }

  /** The smallest and the largest value `struct.pack('<i', v)` accepts. */
  const Int32Min: int := -0x8000_0000
  const Int32Max: int := 0x7FFF_FFFF

  /** `struct.pack('<i', v)`: four bytes of two's complement, least significant
      first; `None` where Python raises struct.error. */
  function PackInt32(v: int): (r: Option<seq<Byte>>)
    ensures r.Some? <==> Int32Min <= v <= Int32Max
    ensures r.Some? ==> |r.value| == 4
  {
    if Int32Min <= v <= Int32Max then
      Some(LittleEndianBytes(if v < 0 then v + 0x1_0000_0000 else v, 4))
    else None
  }

  /** `struct.unpack('<i', s)[0]` for a string of exactly four bytes. */
  function UnpackInt32(s: seq<Byte>): (v: int)
    requires |s| == 4
    ensures Int32Min <= v <= Int32Max
  {
    var u := LittleEndian(s);
    if u <= Int32Max then u else u - 0x1_0000_0000
  }

  /** Packing and then unpacking a 32-bit signed word gives the value back. */
  lemma Int32RoundTrip(v: int)
    requires Int32Min <= v <= Int32Max
    ensures PackInt32(v).Some? && UnpackInt32(PackInt32(v).value) == v
  {
    assert Pow256(4) == 0x1_0000_0000;
  }
}
