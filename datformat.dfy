/** What the `.dat` archive tools share: the 32-byte directory entry of eight
    little-endian signed 32-bit words, the archived members, the exceptions
    the Python code raises, and the concatenation the layout is built from. */
module DatFormat {
  import opened Results
  import opened Bytes

  /** The size of one directory entry: eight 32-bit words. */
  const EntrySize: nat := 32

  /** A file in the archive: its name, as the bytes stored in the archive
      without the terminating NUL, and its contents. */
  datatype Member = Member(name: seq<Byte>, content: seq<Byte>)

  datatype ArchiveError =
    | WordOutOfRange   // struct.error from struct.pack: a word beyond a signed 32-bit integer
    | ShortWord        // struct.error from struct.unpack: fewer than four bytes left for a word
    | NegativeSeek     // OSError from f.seek at a negative offset
    | NegativeRead     // ValueError from f.read with a length below -1
    | MissingFile      // OSError from os.path.getsize on a name the directory lacks

  /** The words of a directory entry that carry something: the name's
      length (with its NUL) and offset, the contents' length and offset,
      and the sixth and seventh words; words 2 and 5 are always 0. */
  datatype Entry = Entry(nameLen: int, nameOff: int, contentLen: int, contentOff: int, word6: int, word7: int)

  /** A slice of the first part of a concatenation. */
  lemma SliceLeft<T>(a: seq<T>, b: seq<T>, lo: nat, hi: nat)
    requires lo <= hi <= |a|
    ensures (a + b)[lo..hi] == a[lo..hi]
  {
  }

  /** The second part of a concatenation, sliced back out. */
  lemma SliceLast<T>(a: seq<T>, b: seq<T>)
    ensures (a + b)[|a|..|a| + |b|] == b
  {
  }

  /** A slice of the second part of a concatenation. */
  lemma SliceRight<T>(a: seq<T>, b: seq<T>, lo: nat, hi: nat)
    requires lo <= hi <= |b|
    ensures (a + b)[|a| + lo..|a| + hi] == b[lo..hi]
  {
  }

  /** A slice of `out`, which is `a + b`, that falls in `a`. */
  lemma SliceInLeft<T>(out: seq<T>, a: seq<T>, b: seq<T>, off: int, len: int)
    requires out == a + b && 0 <= off && 0 <= len && off + len <= |a|
    ensures off + len <= |out| && out[off..off + len] == a[off..off + len]
  {
    SliceLeft(a, b, off, off + len);
  }

  /** A slice of `out`, which is `a + b`, that falls in `b`, at `lo` in
      `b`. */
  lemma SliceInRight<T>(out: seq<T>, a: seq<T>, b: seq<T>, off: int, len: int, lo: nat)
    requires out == a + b && off == |a| + lo && 0 <= len && lo + len <= |b|
    ensures 0 <= off && off + len <= |out| && out[off..off + len] == b[lo..lo + len]
  {
    SliceRight(a, b, lo, lo + len);
  }

  /** A slice of a prefix is the slice of the whole. */
  lemma SliceOfPrefix<T>(s: seq<T>, cut: nat, lo: nat, hi: nat)
    requires lo <= hi <= cut <= |s|
    ensures s[..cut][lo..hi] == s[lo..hi]
  {
  }

  /** A slice of a slice is one slice. */
  lemma SliceOfSlice<T>(s: seq<T>, lo: nat, hi: nat, a: nat, b: nat)
    requires lo <= hi <= |s| && a <= b <= hi - lo
    ensures s[lo..hi][a..b] == s[lo + a..lo + b]
  {
    forall j | 0 <= j < b - a
      ensures s[lo..hi][a..b][j] == s[lo + a..lo + b][j]
    {
      assert s[lo..hi][a..b][j] == s[lo..hi][a + j] == s[lo + a + j];
    }
  }

  /** Word `o` of the 32 bytes `b` stored at `at` in `h`. */
  lemma WordInEntry(h: seq<Byte>, at: nat, b: seq<Byte>, o: nat)
    requires at + EntrySize <= |h| && h[at..at + EntrySize] == b && o + 4 <= EntrySize
    ensures WordAt(h, at + o) == Ok(UnpackInt32(b[o..o + 4]))
  {
    SliceOfSlice(h, at, at + EntrySize, o, o + 4);
  }

  /** The words of an entry that fits, read back where it is stored. */
  lemma EntryWordsAt(h: seq<Byte>, at: nat, e: Entry)
    requires EntryFits(e) && at + EntrySize <= |h| && h[at..at + EntrySize] == EncodeEntry(e).value
    ensures WordAt(h, at) == Ok(e.nameLen) && WordAt(h, at + 4) == Ok(e.nameOff)
    ensures WordAt(h, at + 12) == Ok(e.contentLen) && WordAt(h, at + 16) == Ok(e.contentOff)
  {
    var b := EncodeEntry(e).value;
    EntryRead(e);
    WordInEntry(h, at, b, 0);
    WordInEntry(h, at, b, 4);
    WordInEntry(h, at, b, 12);
    WordInEntry(h, at, b, 16);
  }

  /** A suffix is its first element followed by the next suffix. */
  lemma SuffixCons<T>(s: seq<T>, i: nat)
    requires i < |s|
    ensures s[i..] == [s[i]] + s[i + 1..]
  {
  }

  /** The bytes the first `k` parts take. */
  function Total<T>(parts: seq<seq<T>>, k: nat): nat
    requires k <= |parts|
  {
    if k == 0 then 0 else Total(parts, k - 1) + |parts[k - 1]|
  }

  /** The first `k` parts, one after the other. */
  function Concat<T>(parts: seq<seq<T>>, k: nat): (b: seq<T>)
    requires k <= |parts|
    ensures |b| == Total(parts, k)
  {
    if k == 0 then [] else Concat(parts, k - 1) + parts[k - 1]
  }

  /** The parts before part `i` and part `i` itself take no more room than
      the parts before `k`. */
  lemma {:induction false} TotalGrows<T>(parts: seq<seq<T>>, i: nat, k: nat)
    requires i < k <= |parts|
    ensures Total(parts, i) + |parts[i]| <= Total(parts, k)
    decreases k
  {
    if i < k - 1 {
      TotalGrows(parts, i, k - 1);
    }
  }

  /** Part `i` sits in the concatenation right after the parts before it. */
  lemma {:induction false} ConcatAt<T>(parts: seq<seq<T>>, k: nat, i: nat)
    requires i < k <= |parts|
    ensures Total(parts, i) + |parts[i]| <= Total(parts, k)
    ensures Concat(parts, k)[Total(parts, i)..Total(parts, i) + |parts[i]|] == parts[i]
    decreases k
  {
    TotalGrows(parts, i, k);
    var init, last := Concat(parts, k - 1), parts[k - 1];
    assert Concat(parts, k) == init + last;
    if i < k - 1 {
      ConcatAt(parts, k - 1, i);
      SliceLeft(init, last, Total(parts, i), Total(parts, i) + |parts[i]|);
    } else {
      SliceLast(init, last);
    }
  }

  /** `f.seek(offset); f.read(size)` on a binary file holding `data`: a
      negative offset raises at the seek, a size below -1 raises at the
      read, a size of -1 reads to the end, and a read past the end returns
      what is there. */
  function ReadAt(data: seq<Byte>, offset: int, size: int): (r: Result<seq<Byte>, ArchiveError>)
    ensures r == Err(NegativeSeek) <==> offset < 0
    ensures r == Err(NegativeRead) <==> 0 <= offset && size < -1
    ensures r.Ok? ==> |r.value| <= |data|
    ensures 0 <= offset && 0 <= size && offset + size <= |data| ==> r == Ok(data[offset..offset + size])
    ensures 0 <= offset <= |data| && (size == -1 || offset + size >= |data|) ==> r == Ok(data[offset..])
    ensures offset >= |data| && size >= -1 ==> r == Ok([])
  {
    if offset < 0 then Err(NegativeSeek)
    else if size < -1 then Err(NegativeRead)
    else
      var start := if offset < |data| then offset else |data|;
      var stop := if size == -1 || start + size > |data| then |data| else start + size;
      assert stop == |data| ==> data[start..stop] == data[start..];
      Ok(data[start..stop])
  }

  /** `struct.unpack('<i', header[at:at + 4])[0]`: the slice is shorter than
      four bytes near the end, and struct.error follows. */
  function WordAt(header: seq<Byte>, at: nat): (r: Result<int, ArchiveError>)
    ensures r.Ok? <==> at + 4 <= |header|
    ensures r.Ok? ==> Int32Min <= r.value <= Int32Max
  {
    if at + 4 <= |header| then Ok(UnpackInt32(header[at..at + 4])) else Err(ShortWord)
  }

  /** `data.decode(...)[:-1]` on an opaque name: the last byte dropped. */
  function DropTerminator(s: seq<Byte>): seq<Byte>
  {
    if s == [] then [] else s[..|s| - 1]
  }

  /** A word fits `struct.pack('<i', ...)`. */
  predicate Fits(w: int)
  {
    Int32Min <= w <= Int32Max
  }

  predicate EntryFits(e: Entry)
  {
    Fits(e.nameLen) && Fits(e.nameOff) && Fits(e.contentLen) && Fits(e.contentOff) && Fits(e.word6) && Fits(e.word7)
  }

  /** `struct.pack('<i', w)` of a word that fits: four bytes of two's
      complement, least significant first, spelt out. */
  function Pack(w: int): (b: seq<Byte>)
    requires Fits(w)
    ensures |b| == 4
  {
    var u := if w < 0 then w + 0x1_0000_0000 else w;
    [u % 256, u / 0x100 % 256, u / 0x1_0000 % 256, u / 0x100_0000 % 256]
  }

  /** A packed word unpacks to itself. */
  lemma PackRead(w: int)
    requires Fits(w)
    ensures UnpackInt32(Pack(w)) == w
  {
    var u := if w < 0 then w + 0x1_0000_0000 else w;
    var b := Pack(w);
    assert LittleEndian(b[3..]) == u / 0x100_0000 % 256;
    assert LittleEndian(b[2..]) == u / 0x1_0000 % 256 + 256 * (u / 0x100_0000 % 256) == u / 0x1_0000;
    assert LittleEndian(b[1..]) == u / 0x100;
    assert LittleEndian(b) == u;
  }

  /** Byte strings of one length with one little-endian value are equal. */
  lemma {:induction false} LittleEndianUnique(a: seq<Byte>, b: seq<Byte>)
    requires |a| == |b| && LittleEndian(a) == LittleEndian(b)
    ensures a == b
  {
    if a != [] {
      assert a[0] == LittleEndian(a) % 256 && b[0] == LittleEndian(b) % 256;
      LittleEndianUnique(a[1..], b[1..]);
      assert a == [a[0]] + a[1..] && b == [b[0]] + b[1..];
    }
  }

  /** The spelt-out packing is `PackInt32`. */
  lemma PackIsPackInt32(w: int)
    requires Fits(w)
    ensures PackInt32(w) == Some(Pack(w))
  {
    PackRead(w);
    Int32RoundTrip(w);
    LittleEndianUnique(PackInt32(w).value, Pack(w));
  }

  /** The eight `struct.pack('<i', ...)` calls of one entry, joined;
      `None` when one of them raises. */
  function EncodeEntry(e: Entry): (r: Option<seq<Byte>>)
    ensures r.Some? <==> EntryFits(e)
    ensures r.Some? ==> |r.value| == EntrySize
  {
    if EntryFits(e) then
      Some(Pack(e.nameLen) + Pack(e.nameOff) + Pack(0) + Pack(e.contentLen)
           + Pack(e.contentOff) + Pack(0) + Pack(e.word6) + Pack(e.word7))
    else None
  }

  /** An encoded entry read back word by word gives the entry. */
  lemma EntryRead(e: Entry)
    requires EntryFits(e)
    ensures var b := EncodeEntry(e).value;
      UnpackInt32(b[0..4]) == e.nameLen && UnpackInt32(b[4..8]) == e.nameOff
      && UnpackInt32(b[12..16]) == e.contentLen && UnpackInt32(b[16..20]) == e.contentOff
      && UnpackInt32(b[24..28]) == e.word6 && UnpackInt32(b[28..32]) == e.word7
  {
    var b := EncodeEntry(e).value;
    var p0, p1, p3, p4 := Pack(e.nameLen), Pack(e.nameOff), Pack(e.contentLen), Pack(e.contentOff);
    var p6, p7, z := Pack(e.word6), Pack(e.word7), Pack(0);
    assert b == p0 + p1 + z + p3 + p4 + z + p6 + p7;
    PackRead(e.nameLen);
    PackRead(e.nameOff);
    PackRead(e.contentLen);
    PackRead(e.contentOff);
    PackRead(e.word6);
    PackRead(e.word7);
    assert b[0..4] == p0;
    assert b[4..8] == p1;
    assert b[12..16] == p3;
    assert b[16..20] == p4;
    assert b[24..28] == p6;
    assert b[28..32] == p7;
  }

  /** `first = f.read(8)` and the word at its bytes 4 .. 8: the length of
      the directory, which is also where the first name is stored. */
  function HeaderLength(data: seq<Byte>): (r: Result<int, ArchiveError>)
    ensures r.Ok? <==> |data| >= 8
    ensures r.Ok? ==> r.value == UnpackInt32(data[4..8])
  {
    var first := ReadAt(data, 0, 8).value;
    assert |data| >= 8 ==> first == data[..8] && first[4..8] == data[4..8];
    WordAt(first, 4)
  }

  /** `f.seek(0); f.read(header_len)`: the whole file for -1, and
      ValueError for a length below that. */
  function HeaderBytes(data: seq<Byte>, headerLen: int): (h: Result<seq<Byte>, ArchiveError>)
    ensures h.Err? <==> headerLen < -1
    ensures h.Err? ==> h.error == NegativeRead
    ensures 0 <= headerLen <= |data| ==> h == Ok(data[..headerLen])
    ensures headerLen == -1 || headerLen >= |data| ==> h == Ok(data)
  {
    ReadAt(data, 0, headerLen)
  }

  /** An archive whose first entry is `e` announces a directory of
      `e.nameOff` bytes. */
  lemma HeaderFromFirst(data: seq<Byte>, at: nat, e: Entry)
    requires at == 0 && EntryFits(e) && at + EntrySize <= |data| && data[at..at + EntrySize] == EncodeEntry(e).value
    ensures HeaderLength(data) == Ok(e.nameOff)
  {
    EntryRead(e);
    SliceOfSlice(data, at, at + EntrySize, 4, 8);
  }

}
