/** `repack_thing`: a directory of files packed into one `.dat` archive, a
    directory of 32-byte entries, then every name with a NUL after it, then
    every file's contents; and `get_file_order_from_dat`, which reads the
    names back out of an existing archive to reuse its order. */
module DatRepack {
  import opened Results
  import opened Bytes
  import opened DatFormat

  /** A file name, as the bytes it is stored as. */
  type Name = seq<Byte>

  /** The files of the input directory: name to contents. */
  type Directory = map<Name, seq<Byte>>

  /** `os.path.getsize` and `open(...).read()` on a file of the directory;
      a missing file stands in as empty, which only matters past the point
      where packing fails. */
  function Lookup(dir: Directory, name: Name): seq<Byte>
  {
    if name in dir then dir[name] else []
  }

  /** The names as the archive stores them: each followed by a NUL. */
  function Terminated(names: seq<Name>): (s: seq<seq<Byte>>)
    ensures |s| == |names|
  {
    if names == [] then [] else Terminated(names[..|names| - 1]) + [names[|names| - 1] + [0]]
  }

  /** The contents of the files `names`, in that order. */
  function Contents(names: seq<Name>, dir: Directory): (s: seq<seq<Byte>>)
    ensures |s| == |names|
  {
    if names == [] then [] else Contents(names[..|names| - 1], dir) + [Lookup(dir, names[|names| - 1])]
  }

  lemma {:induction false} TerminatedAt(names: seq<Name>, i: nat)
    requires i < |names|
    ensures Terminated(names)[i] == names[i] + [0]
    decreases |names|
  {
    var n := |names|;
    if i < n - 1 {
      TerminatedAt(names[..n - 1], i);
    }
  }

  lemma {:induction false} ContentsAt(names: seq<Name>, dir: Directory, i: nat)
    requires i < |names|
    ensures Contents(names, dir)[i] == Lookup(dir, names[i])
    decreases |names|
  {
    var n := |names|;
    if i < n - 1 {
      ContentsAt(names[..n - 1], dir, i);
    }
  }

  /** Where stored name `i` sits: after the directory and the names before
      it. */
  function NameOffset(stored: seq<seq<Byte>>, i: nat): int
    requires i <= |stored|
  {
    EntrySize * |stored| + Total(stored, i)
  }

  /** Where the contents of file `i` sit: after the directory, all the
      names, and the contents before them. */
  function DataOffset(stored: seq<seq<Byte>>, files: seq<seq<Byte>>, i: nat): int
    requires i <= |files|
  {
    EntrySize * |stored| + Total(stored, |stored|) + Total(files, i)
  }

  /** The sixth word: 0x20 for each entry before the previous one. */
  function Word6(i: nat): int
  {
    if i >= 2 then 0x20 * (i - 1) else 0
  }

  /** The seventh word: the offset of the next entry, 0 on the last. */
  function Word7(i: nat, n: nat): int
  {
    if i != n - 1 then 0x20 * (i + 1) else 0
  }

  /** The entry of file `i`, for the stored names `stored` and the contents
      `files`. */
  function EntryOf(stored: seq<seq<Byte>>, files: seq<seq<Byte>>, i: nat): Entry
    requires |stored| == |files| && i < |files|
  {
    Entry(|stored[i]|, NameOffset(stored, i), |files[i]|, DataOffset(stored, files, i), Word6(i), Word7(i, |files|))
  }

  /** The first `k` entries fit. */
  predicate AllFit(stored: seq<seq<Byte>>, files: seq<seq<Byte>>, k: nat)
    requires |stored| == |files| && k <= |files|
  {
    forall i :: 0 <= i < k ==> EntryFits(EntryOf(stored, files, i))
  }

  /** The packed entry of file `i`; empty when one of its words does not
      fit, which packing reports before any byte is written. */
  function Block(stored: seq<seq<Byte>>, files: seq<seq<Byte>>, i: nat): (b: seq<Byte>)
    requires |stored| == |files| && i < |files|
    ensures EntryFits(EntryOf(stored, files, i)) ==> |b| == EntrySize
  {
    match EncodeEntry(EntryOf(stored, files, i))
    case Some(words) => words
    case None => []
  }

  /** The packed entries of the first `k` files, one per file. */
  function Blocks(stored: seq<seq<Byte>>, files: seq<seq<Byte>>, k: nat): (b: seq<seq<Byte>>)
    requires |stored| == |files| && k <= |files|
    ensures |b| == k
  {
    if k == 0 then [] else Blocks(stored, files, k - 1) + [Block(stored, files, k - 1)]
  }

  /** The packed directory: every entry, in order. */
  function Entries(stored: seq<seq<Byte>>, files: seq<seq<Byte>>): (b: seq<Byte>)
    requires |stored| == |files|
    ensures AllFit(stored, files, |files|) ==> |b| == EntrySize * |files|
  {
    if AllFit(stored, files, |files|) then
      BlocksTotal(stored, files, |files|, |files|);
      Concat(Blocks(stored, files, |files|), |files|)
    else Concat(Blocks(stored, files, |files|), |files|)
  }

  /** The archive of the stored names `stored` and the contents `files`:
      the directory, then the names, then the contents; it fails when a
      word does not fit a signed 32-bit integer. */
  function Layout(stored: seq<seq<Byte>>, files: seq<seq<Byte>>): Result<seq<Byte>, ArchiveError>
    requires |stored| == |files|
  {
    var n := |files|;
    if AllFit(stored, files, n) then Ok(Entries(stored, files) + Concat(stored, n) + Concat(files, n))
    else Err(WordOutOfRange)
  }

  lemma {:induction false} BlocksAt(stored: seq<seq<Byte>>, files: seq<seq<Byte>>, k: nat, i: nat)
    requires |stored| == |files| && i < k <= |files|
    ensures Blocks(stored, files, k)[i] == Block(stored, files, i)
    decreases k
  {
    if i < k - 1 {
      BlocksAt(stored, files, k - 1, i);
    }
  }

  /** Entries that fit take 32 bytes each. */
  lemma {:induction false} BlocksTotal(stored: seq<seq<Byte>>, files: seq<seq<Byte>>, k: nat, i: nat)
    requires |stored| == |files| && i <= k <= |files| && AllFit(stored, files, k)
    ensures Total(Blocks(stored, files, k), i) == EntrySize * i
    decreases i
  {
    if i > 0 {
      BlocksTotal(stored, files, k, i - 1);
      BlocksAt(stored, files, k, i - 1);
      assert EntryFits(EntryOf(stored, files, i - 1));
    }
  }

  /** In the archive, entry `i` sits at `32 * i`. */
  lemma LayoutEntryAt(stored: seq<seq<Byte>>, files: seq<seq<Byte>>, i: nat)
    requires |stored| == |files| && Layout(stored, files).Ok? && i < |files|
    ensures EntryFits(EntryOf(stored, files, i))
    ensures var out := Layout(stored, files).value;
      EntrySize * i + EntrySize <= |out| && out[EntrySize * i..EntrySize * i + EntrySize] == EncodeEntry(EntryOf(stored, files, i)).value
  {
    var n := |files|;
    var out, blocks := Layout(stored, files).value, Blocks(stored, files, n);
    assert EntryFits(EntryOf(stored, files, i));
    ConcatAt(blocks, n, i);
    BlocksAt(stored, files, n, i);
    BlocksTotal(stored, files, n, i);
    SliceInLeft(out, Entries(stored, files), Concat(stored, n) + Concat(files, n), EntrySize * i, EntrySize);
  }

  /** In the archive, stored name `i` sits at the name offset of entry
      `i`. */
  lemma LayoutNameAt(stored: seq<seq<Byte>>, files: seq<seq<Byte>>, i: nat)
    requires |stored| == |files| && Layout(stored, files).Ok? && i < |files|
    ensures var out, e := Layout(stored, files).value, EntryOf(stored, files, i);
      0 <= e.nameOff && e.nameOff + e.nameLen <= |out| && out[e.nameOff..e.nameOff + e.nameLen] == stored[i]
  {
    var n := |files|;
    var out, e := Layout(stored, files).value, EntryOf(stored, files, i);
    var ents, nms, cts := Entries(stored, files), Concat(stored, n), Concat(files, n);
    ConcatAt(stored, n, i);
    SliceInLeft(nms + cts, nms, cts, Total(stored, i), e.nameLen);
    SliceInRight(out, ents, nms + cts, e.nameOff, e.nameLen, Total(stored, i));
  }

  /** In the archive, the contents of file `i` sit at the contents offset
      of entry `i`. */
  lemma LayoutContentAt(stored: seq<seq<Byte>>, files: seq<seq<Byte>>, i: nat)
    requires |stored| == |files| && Layout(stored, files).Ok? && i < |files|
    ensures var out, e := Layout(stored, files).value, EntryOf(stored, files, i);
      0 <= e.contentOff && e.contentOff + e.contentLen <= |out| && out[e.contentOff..e.contentOff + e.contentLen] == files[i]
  {
    var n := |files|;
    var out, e := Layout(stored, files).value, EntryOf(stored, files, i);
    ConcatAt(files, n, i);
    SliceInRight(out, Entries(stored, files) + Concat(stored, n), Concat(files, n), e.contentOff, e.contentLen, Total(files, i));
  }

  /** Packing succeeds whenever the whole archive stays within the range of
      a signed 32-bit offset: every word is at most its size. */
  lemma SmallArchiveFits(stored: seq<seq<Byte>>, files: seq<seq<Byte>>)
    requires |stored| == |files|
    requires EntrySize * |files| + Total(stored, |stored|) + Total(files, |files|) <= Int32Max
    ensures Layout(stored, files).Ok?
  {
    var n := |files|;
    forall i | 0 <= i < n
      ensures EntryFits(EntryOf(stored, files, i))
    {
      TotalGrows(stored, i, n);
      TotalGrows(files, i, n);
    }
  }

  /** The first exception of the entry loop from entry `i` on: a missing
      file, or an entry whose words do not fit. */
  function Problem(names: seq<Name>, dir: Directory, i: nat): (e: Option<ArchiveError>)
    requires i <= |names|
    decreases |names| - i
  {
    if i == |names| then None
    else if names[i] !in dir then Some(MissingFile)
    else if !EntryFits(EntryOf(Terminated(names), Contents(names, dir), i)) then Some(WordOutOfRange)
    else Problem(names, dir, i + 1)
  }

  /** No exception means every file is there and every entry fits. */
  lemma {:induction false} NoProblem(names: seq<Name>, dir: Directory, i: nat, k: nat)
    requires i <= k < |names| && Problem(names, dir, i).None?
    ensures names[k] in dir && EntryFits(EntryOf(Terminated(names), Contents(names, dir), k))
    decreases k - i
  {
    if i < k {
      NoProblem(names, dir, i + 1, k);
    }
  }

  /** Files that are all there and entries that all fit bring the entry
      loop to entry `i` unchanged. */
  lemma {:induction false} ProblemAt(names: seq<Name>, dir: Directory, i: nat)
    requires i <= |names| && AllFit(Terminated(names), Contents(names, dir), i)
    requires forall k :: 0 <= k < i ==> names[k] in dir
    ensures Problem(names, dir, 0) == Problem(names, dir, i)
  {
    if i > 0 {
      ProblemAt(names, dir, i - 1);
      assert EntryFits(EntryOf(Terminated(names), Contents(names, dir), i - 1));
    }
  }

  /** The archive `repack_thing` writes when it packs `dir` in the order
      `names`; on an exception nothing is written. */
  function Repack(names: seq<Name>, dir: Directory): Result<seq<Byte>, ArchiveError>
  {
    match Problem(names, dir, 0)
    case Some(e) => Err(e)
    case None => Layout(Terminated(names), Contents(names, dir))
  }

  /** The name `get_file_order_from_dat` reads for the entry at `at`: its
      first two words give the stored name's length and offset, and the NUL
      is dropped. */
  function NameAt(data: seq<Byte>, header: seq<Byte>, at: nat): Result<Name, ArchiveError>
  {
    match WordAt(header, at)
    case Err(e) => Err(e)
    case Ok(fnameLen) =>
      match WordAt(header, at + 4)
      case Err(e) => Err(e)
      case Ok(fnameOff) =>
        match ReadAt(data, fnameOff, fnameLen)
        case Err(e) => Err(e)
        case Ok(name) => Ok(DropTerminator(name))
  }

  /** The names `get_file_order_from_dat` reads from the entries at `at`,
      `at + 32`, ... below `headerLen`. */
  function OrderFrom(data: seq<Byte>, header: seq<Byte>, at: nat, headerLen: int): Result<seq<Name>, ArchiveError>
    decreases headerLen - at
  {
    if at >= headerLen then Ok([])
    else
      match NameAt(data, header, at)
      case Err(e) => Err(e)
      case Ok(name) => Prepend([name], OrderFrom(data, header, at + EntrySize, headerLen))
  }

  /** A packed entry stored at `at` gives the name stored at its name
      offset, without the NUL. */
  lemma NameOfStored(data: seq<Byte>, header: seq<Byte>, at: nat, e: Entry, name: Name)
    requires EntryFits(e) && at + EntrySize <= |header| && header[at..at + EntrySize] == EncodeEntry(e).value
    requires 0 <= e.nameOff && 0 <= e.nameLen && e.nameOff + e.nameLen <= |data| && data[e.nameOff..e.nameOff + e.nameLen] == name + [0]
    ensures NameAt(data, header, at) == Ok(name)
  {
    EntryWordsAt(header, at, e);
    assert DropTerminator(name + [0]) == name;
  }

  /** Entries that each give their name give the names in order. */
  lemma {:induction false} OrderRead(data: seq<Byte>, header: seq<Byte>, names: seq<Name>, i: nat, at: nat, headerLen: int)
    requires i <= |names| && at == EntrySize * i && headerLen == EntrySize * |names|
    requires forall k :: i <= k < |names| ==> NameAt(data, header, EntrySize * k) == Ok(names[k])
    ensures OrderFrom(data, header, at, headerLen) == Ok(names[i..])
    decreases |names| - i
  {
    if i < |names| {
      OrderRead(data, header, names, i + 1, at + EntrySize, headerLen);
      SuffixCons(names, i);
    } else {
      assert names[i..] == [];
    }
  }

  /** The file order stored in the archive `data`. */
  function FileOrder(data: seq<Byte>): Result<seq<Name>, ArchiveError>
  {
    match HeaderLength(data)
    case Err(e) => Err(e)
    case Ok(headerLen) =>
      match HeaderBytes(data, headerLen)
      case Err(e) => Err(e)
      case Ok(header) => OrderFrom(data, header, 0, headerLen)
  }

  /** The order `repack_thing` packs in: the reference archive's when one
      is given and can be read, the directory listing's otherwise. */
  function FileList(listing: seq<Name>, reference: Option<seq<Byte>>): seq<Name>
  {
    if reference.Some? && FileOrder(reference.value).Ok? then FileOrder(reference.value).value
    else listing
  }

  /** `get_file_order_from_dat` on an archive holding `data`. */
  method GetFileOrder(data: seq<Byte>) returns (r: Result<seq<Name>, ArchiveError>)
    ensures r == FileOrder(data)
  {
    var first := ReadAt(data, 0, 8).value;
    var lengthWord := WordAt(first, 4);
    if lengthWord.Err? {
      return Err(lengthWord.error);
    }
    var headerLen := lengthWord.value;
    var read := ReadAt(data, 0, headerLen);
    if read.Err? {
      return Err(read.error);
    }
    var header := read.value;
    assert HeaderLength(data) == lengthWord && HeaderBytes(data, headerLen) == Ok(header);
    PrependNothing(OrderFrom(data, header, 0, headerLen));
    var order: seq<Name> := [];
    var at: nat := 0;
    while at < headerLen
      invariant FileOrder(data) == Prepend(order, OrderFrom(data, header, at, headerLen))
      decreases headerLen - at
    {
      var fnameLen := WordAt(header, at);
      if fnameLen.Err? {
        return Err(fnameLen.error);
      }
      var fnameOff := WordAt(header, at + 4);
      if fnameOff.Err? {
        return Err(fnameOff.error);
      }
      var name := ReadAt(data, fnameOff.value, fnameLen.value);
      if name.Err? {
        return Err(name.error);
      }
      assert NameAt(data, header, at) == Ok(DropTerminator(name.value));
      PrependAppend(order, [DropTerminator(name.value)], OrderFrom(data, header, at + EntrySize, headerLen));
      order := order + [DropTerminator(name.value)];
      at := at + EntrySize;
    }
    assert order + [] == order;
    return Ok(order);
  }

  /** The order of `repack_thing`: a reference archive that cannot be read
      is reported and the listing kept. */
  method ChooseOrder(listing: seq<Name>, reference: Option<seq<Byte>>) returns (files: seq<Name>)
    ensures files == FileList(listing, reference)
  {
    files := listing;
    if reference.Some? {
      var order := GetFileOrder(reference.value);
      if order.Ok? {
        files := order.value;
      }
    }
  }

  /** What the entry loop of `repack_thing` holds after `i` files: both
      running offsets, every file so far present with an entry that fits,
      and those entries packed. */
  predicate PackedTo(files: seq<Name>, dir: Directory, i: nat, entries: seq<Byte>, fnameOffset: int, dataOffset: int)
    requires i <= |files|
  {
    var stored, contents := Terminated(files), Contents(files, dir);
    && fnameOffset == NameOffset(stored, i)
    && dataOffset == DataOffset(stored, contents, i)
    && AllFit(stored, contents, i)
    && entries == Concat(Blocks(stored, contents, |files|), i)
    && forall k :: 0 <= k < i ==> files[k] in dir
  }

  /** The entry the loop builds for file `i` from its running offsets. */
  predicate Builds(files: seq<Name>, dir: Directory, i: nat, fnameOffset: int, dataOffset: int, words: Entry)
    requires i < |files|
  {
    files[i] in dir
    && words == Entry(|files[i]| + 1, fnameOffset, |dir[files[i]]|, dataOffset, Word6(i), Word7(i, |files|))
  }

  /** One turn of the entry loop: file `i` is there and its entry packs. */
  lemma PackStep(files: seq<Name>, dir: Directory, i: nat, entries: seq<Byte>, fnameOffset: int, dataOffset: int,
                 words: Entry, entry: seq<Byte>)
    requires i < |files| && PackedTo(files, dir, i, entries, fnameOffset, dataOffset)
    requires Builds(files, dir, i, fnameOffset, dataOffset, words) && EncodeEntry(words) == Some(entry)
    ensures PackedTo(files, dir, i + 1, entries + entry, fnameOffset + words.nameLen, dataOffset + words.contentLen)
  {
    var stored, contents := Terminated(files), Contents(files, dir);
    var n := |files|;
    TerminatedAt(files, i);
    ContentsAt(files, dir, i);
    assert words == EntryOf(stored, contents, i);
    BlocksAt(stored, contents, n, i);
    assert AllFit(stored, contents, i + 1);
  }

  /** The loop stops at file `i` exactly when the first exception is
      there. */
  lemma PackStops(files: seq<Name>, dir: Directory, i: nat, entries: seq<Byte>, fnameOffset: int, dataOffset: int, words: Entry)
    requires i < |files| && PackedTo(files, dir, i, entries, fnameOffset, dataOffset)
    requires files[i] in dir ==> Builds(files, dir, i, fnameOffset, dataOffset, words) && EncodeEntry(words).None?
    ensures Problem(files, dir, 0) == Some(if files[i] in dir then WordOutOfRange else MissingFile)
  {
    ProblemAt(files, dir, i);
    if files[i] in dir {
      TerminatedAt(files, i);
      ContentsAt(files, dir, i);
      assert words == EntryOf(Terminated(files), Contents(files, dir), i);
    }
  }

  /** A loop that ran to the end packed every entry. */
  lemma PackDone(files: seq<Name>, dir: Directory, entries: seq<Byte>, fnameOffset: int, dataOffset: int)
    requires PackedTo(files, dir, |files|, entries, fnameOffset, dataOffset)
    ensures Problem(files, dir, 0).None?
    ensures AllFit(Terminated(files), Contents(files, dir), |files|)
    ensures entries == Entries(Terminated(files), Contents(files, dir))
  {
    ProblemAt(files, dir, |files|);
  }

  /** The entry loop of `repack_thing`: `files` are packed in order, their
      sizes taken from `dir`, until a file is missing or a word does not
      fit; the running offsets start after the directory and after the
      names. */
  method PackEntries(files: seq<Name>, dir: Directory) returns (r: Result<seq<Byte>, ArchiveError>)
    ensures r.Err? <==> Problem(files, dir, 0).Some?
    ensures r.Err? ==> Problem(files, dir, 0) == Some(r.error)
    ensures r.Ok? ==> AllFit(Terminated(files), Contents(files, dir), |files|)
    ensures r.Ok? ==> r.value == Entries(Terminated(files), Contents(files, dir))
  {
    var n := |files|;
    var fnameOffset := EntrySize * n;
    var dataOffset := fnameOffset;
    var i := 0;
    while i < n
      invariant 0 <= i <= n
      invariant dataOffset == EntrySize * n + Total(Terminated(files), i)
    {
      TerminatedAt(files, i);
      dataOffset := dataOffset + |files[i]| + 1;
      i := i + 1;
    }
    var entries: seq<Byte> := [];
    i := 0;
    while i < n
      invariant 0 <= i <= n
      invariant PackedTo(files, dir, i, entries, fnameOffset, dataOffset)
    {
      var fnameLen := |files[i]| + 1;
      if files[i] !in dir {
        PackStops(files, dir, i, entries, fnameOffset, dataOffset, Entry(0, 0, 0, 0, 0, 0));
        return Err(MissingFile);
      }
      var fileSize := |dir[files[i]]|;
      var word6 := if i >= 2 then 0x20 * (i - 1) else 0;
      var word7 := if i != n - 1 then 0x20 * (i + 1) else 0;
      var words := Entry(fnameLen, fnameOffset, fileSize, dataOffset, word6, word7);
      var entry := EncodeEntry(words);
      if entry.None? {
        PackStops(files, dir, i, entries, fnameOffset, dataOffset, words);
        return Err(WordOutOfRange);
      }
      PackStep(files, dir, i, entries, fnameOffset, dataOffset, words, entry.value);
      entries := entries + entry.value;
      fnameOffset := fnameOffset + words.nameLen;
      dataOffset := dataOffset + words.contentLen;
      i := i + 1;
    }
    PackDone(files, dir, entries, fnameOffset, dataOffset);
    return Ok(entries);
  }

  /** The three writing loops of `repack_thing`: the entries, then each
      name with its NUL, then each file's contents. */
  method WriteArchive(entries: seq<Byte>, files: seq<Name>, dir: Directory) returns (out: seq<Byte>)
    requires forall k :: 0 <= k < |files| ==> files[k] in dir
    ensures out == entries + Concat(Terminated(files), |files|) + Concat(Contents(files, dir), |files|)
  {
    ghost var stored, contents := Terminated(files), Contents(files, dir);
    out := entries;
    var k := 0;
    while k < |files|
      invariant 0 <= k <= |files|
      invariant out == entries + Concat(stored, k)
    {
      TerminatedAt(files, k);
      out := out + (files[k] + [0]);
      k := k + 1;
    }
    ghost var head := out;
    k := 0;
    while k < |files|
      invariant 0 <= k <= |files|
      invariant out == head + Concat(contents, k)
    {
      ContentsAt(files, dir, k);
      out := out + dir[files[k]];
      k := k + 1;
    }
  }

  /** `repack_thing`: the listing, or the reference archive's order, packed
      from the directory `dir`; the result is the bytes of the output file,
      which is only opened once every entry is packed. */
  method RepackThing(listing: seq<Name>, dir: Directory, reference: Option<seq<Byte>>)
    returns (r: Result<seq<Byte>, ArchiveError>)
    ensures r == Repack(FileList(listing, reference), dir)
  {
    var files := ChooseOrder(listing, reference);
    var entries := PackEntries(files, dir);
    if entries.Err? {
      return Err(entries.error);
    }
    forall k | 0 <= k < |files|
      ensures files[k] in dir
    {
      NoProblem(files, dir, 0, k);
    }
    var out := WriteArchive(entries.value, files, dir);
    return Ok(out);
  }
}
