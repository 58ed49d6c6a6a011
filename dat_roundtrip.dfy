/** What unpacking gives back of an archive `repack_thing` wrote: every
    listed file's name and contents, in order, and the same order again when
    the archive serves as the reference for the next repack. */
module DatRoundTrip {
  import opened Results
  import opened Bytes
  import opened DatFormat
  import opened DatRepack
  import opened DatUnpack

  /** The files `names[i..]`, as `unpack_thing` should write them back:
      each name with its contents. */
  function Members(names: seq<Name>, dir: Directory, i: nat): (m: seq<Member>)
    requires i <= |names|
    ensures |m| == |names| - i
    decreases |names| - i
  {
    if i == |names| then [] else [Member(names[i], Lookup(dir, names[i]))] + Members(names, dir, i + 1)
  }

  /** Member `k` of `Members(names, dir, j)` is file `i == j + k`. */
  lemma {:induction false} MembersAt(names: seq<Name>, dir: Directory, j: nat, k: nat, i: nat)
    requires i == j + k && i < |names|
    ensures Members(names, dir, j)[k] == Member(names[i], Lookup(dir, names[i]))
    decreases k
  {
    if k > 0 {
      MembersAt(names, dir, j + 1, k - 1, i);
    }
  }

  /** The entries `i..` of the archive of `stored` and `files`, as
      `unpack_thing` keeps them. */
  function SlotsOf(stored: seq<seq<Byte>>, files: seq<seq<Byte>>, i: nat): (s: seq<Slot>)
    requires |stored| == |files| && i <= |files|
    ensures |s| == |files| - i
    decreases |files| - i
  {
    if i == |files| then [] else [SlotOf(EntryOf(stored, files, i))] + SlotsOf(stored, files, i + 1)
  }

  /** Slot `k` of `SlotsOf(stored, files, j)` is entry `i == j + k`. */
  lemma {:induction false} SlotsOfAt(stored: seq<seq<Byte>>, files: seq<seq<Byte>>, j: nat, k: nat, i: nat)
    requires |stored| == |files| && i == j + k && i < |files|
    ensures SlotsOf(stored, files, j)[k] == SlotOf(EntryOf(stored, files, i))
    decreases k
  {
    if k > 0 {
      SlotsOfAt(stored, files, j + 1, k - 1, i);
    }
  }

  /** A packed archive is the layout of the names with their NULs and of
      the contents, and every listed file was there. */
  lemma Packed(names: seq<Name>, dir: Directory)
    requires Repack(names, dir).Ok?
    ensures Layout(Terminated(names), Contents(names, dir)) == Repack(names, dir)
    ensures forall k :: 0 <= k < |names| ==> names[k] in dir
  {
    forall k | 0 <= k < |names|
      ensures names[k] in dir
    {
      NoProblem(names, dir, 0, k);
    }
  }

  /** The first eight bytes of an archive of at least one file give the
      directory's length, and the directory is the first `32 * n` bytes. */
  lemma HeaderOf(stored: seq<seq<Byte>>, files: seq<seq<Byte>>, out: seq<Byte>)
    requires |stored| == |files| >= 1 && Layout(stored, files) == Ok(out)
    ensures EntrySize * |files| <= |out|
    ensures HeaderLength(out) == Ok(EntrySize * |files|)
    ensures HeaderBytes(out, EntrySize * |files|) == Ok(out[..EntrySize * |files|])
  {
    LayoutEntryAt(stored, files, 0);
    HeaderFromFirst(out, EntrySize * 0, EntryOf(stored, files, 0));
  }

  /** Entry `i` of the archive, read from its directory `h`. */
  lemma EntryInHeader(stored: seq<seq<Byte>>, files: seq<seq<Byte>>, out: seq<Byte>, h: seq<Byte>, i: nat, at: nat)
    requires |stored| == |files| && Layout(stored, files) == Ok(out) && i < |files| && at == EntrySize * i
    requires EntrySize * |files| <= |out| && h == out[..EntrySize * |files|]
    ensures EntryFits(EntryOf(stored, files, i))
    ensures at + EntrySize <= |h| && h[at..at + EntrySize] == EncodeEntry(EntryOf(stored, files, i)).value
  {
    LayoutEntryAt(stored, files, i);
    SliceOfPrefix(out, EntrySize * |files|, at, at + EntrySize);
  }

  /** The entry loop of `unpack_thing` reads entry `k` as its slot. */
  lemma SlotsOfArchive(stored: seq<seq<Byte>>, files: seq<seq<Byte>>, out: seq<Byte>, h: seq<Byte>)
    requires |stored| == |files| && Layout(stored, files) == Ok(out)
    requires EntrySize * |files| <= |out| && h == out[..EntrySize * |files|]
    ensures forall k :: 0 <= k < |files| ==> SlotAt(h, EntrySize * k) == Ok(SlotsOf(stored, files, 0)[k])
  {
    forall k | 0 <= k < |files|
      ensures SlotAt(h, EntrySize * k) == Ok(SlotsOf(stored, files, 0)[k])
    {
      var e := EntryOf(stored, files, k);
      EntryInHeader(stored, files, out, h, k, EntrySize * k);
      SlotOfStored(h, EntrySize * k, e);
      SlotsOfAt(stored, files, 0, k, k);
    }
  }

  /** Entry `k` of the archive points at name `k` and its NUL. */
  lemma NameStored(names: seq<Name>, dir: Directory, stored: seq<seq<Byte>>, files: seq<seq<Byte>>, out: seq<Byte>, k: nat)
    requires stored == Terminated(names) && files == Contents(names, dir) && Layout(stored, files) == Ok(out)
    requires k < |names|
    ensures var s, m := SlotsOf(stored, files, 0)[k], Members(names, dir, 0)[k];
      0 <= s.nameOff && 0 <= s.nameLen && s.nameOff + s.nameLen <= |out| && out[s.nameOff..s.nameOff + s.nameLen] == m.name + [0]
  {
    SlotsOfAt(stored, files, 0, k, k);
    MembersAt(names, dir, 0, k, k);
    LayoutNameAt(stored, files, k);
    TerminatedAt(names, k);
  }

  /** Entry `k` of the archive points at the contents of file `k`. */
  lemma ContentStored(names: seq<Name>, dir: Directory, stored: seq<seq<Byte>>, files: seq<seq<Byte>>, out: seq<Byte>, k: nat)
    requires stored == Terminated(names) && files == Contents(names, dir) && Layout(stored, files) == Ok(out)
    requires k < |names|
    ensures var s, m := SlotsOf(stored, files, 0)[k], Members(names, dir, 0)[k];
      0 <= s.contentOff && 0 <= s.contentLen && s.contentOff + s.contentLen <= |out|
      && out[s.contentOff..s.contentOff + s.contentLen] == m.content
  {
    SlotsOfAt(stored, files, 0, k, k);
    MembersAt(names, dir, 0, k, k);
    LayoutContentAt(stored, files, k);
    ContentsAt(names, dir, k);
  }

  /** Every entry of the archive points at its file's name and contents. */
  lemma StoredMembers(names: seq<Name>, dir: Directory, stored: seq<seq<Byte>>, files: seq<seq<Byte>>, out: seq<Byte>)
    requires stored == Terminated(names) && files == Contents(names, dir) && Layout(stored, files) == Ok(out)
    ensures forall k :: 0 <= k < |names| ==> Holds(out, SlotsOf(stored, files, 0)[k], Members(names, dir, 0)[k])
  {
    forall k | 0 <= k < |names|
      ensures Holds(out, SlotsOf(stored, files, 0)[k], Members(names, dir, 0)[k])
    {
      NameStored(names, dir, stored, files, out, k);
      ContentStored(names, dir, stored, files, out, k);
    }
  }

  /** Unpacking an archive `repack_thing` wrote for at least one file
      writes every listed file back, with its contents, in order, and stops
      on nothing. */
  lemma UnpackRepack(names: seq<Name>, dir: Directory)
    requires |names| >= 1 && Repack(names, dir).Ok?
    ensures forall k :: 0 <= k < |names| ==> names[k] in dir
    ensures Unpack(Repack(names, dir).value) == Unpacked(Members(names, dir, 0), None)
  {
    Packed(names, dir);
    var stored, files, out := Terminated(names), Contents(names, dir), Repack(names, dir).value;
    HeaderOf(stored, files, out);
    var h := out[..EntrySize * |files|];
    var slots := SlotsOf(stored, files, 0);
    SlotsOfArchive(stored, files, out, h);
    SlotsRead(h, slots, 0, 0, EntrySize * |files|);
    assert slots[0..] == slots;
    StoredMembers(names, dir, stored, files, out);
    ExtractAll(out, slots, Members(names, dir, 0), 0);
    assert Members(names, dir, 0)[0..] == Members(names, dir, 0);
  }

  /** `get_file_order_from_dat` reads entry `k` as name `k`. */
  lemma OrderOfArchive(names: seq<Name>, dir: Directory, stored: seq<seq<Byte>>, files: seq<seq<Byte>>,
                       out: seq<Byte>, h: seq<Byte>)
    requires stored == Terminated(names) && files == Contents(names, dir) && Layout(stored, files) == Ok(out)
    requires EntrySize * |files| <= |out| && h == out[..EntrySize * |files|]
    ensures forall k :: 0 <= k < |names| ==> NameAt(out, h, EntrySize * k) == Ok(names[k])
  {
    forall k | 0 <= k < |names|
      ensures NameAt(out, h, EntrySize * k) == Ok(names[k])
    {
      NameInArchive(names, dir, stored, files, out, h, k);
    }
  }

  /** `get_file_order_from_dat` reads entry `k` as name `k`. */
  lemma NameInArchive(names: seq<Name>, dir: Directory, stored: seq<seq<Byte>>, files: seq<seq<Byte>>,
                      out: seq<Byte>, h: seq<Byte>, k: nat)
    requires stored == Terminated(names) && files == Contents(names, dir) && Layout(stored, files) == Ok(out)
    requires EntrySize * |files| <= |out| && h == out[..EntrySize * |files|] && k < |names|
    ensures NameAt(out, h, EntrySize * k) == Ok(names[k])
  {
    var e := EntryOf(stored, files, k);
    EntryInHeader(stored, files, out, h, k, EntrySize * k);
    LayoutNameAt(stored, files, k);
    TerminatedAt(names, k);
    NameOfStored(out, h, EntrySize * k, e, names[k]);
  }

  /** The file order read from an archive `repack_thing` wrote for at least
      one file is the order it packed. */
  lemma FileOrderRepack(names: seq<Name>, dir: Directory)
    requires |names| >= 1 && Repack(names, dir).Ok?
    ensures FileOrder(Repack(names, dir).value) == Ok(names)
  {
    Packed(names, dir);
    var stored, files, out := Terminated(names), Contents(names, dir), Repack(names, dir).value;
    HeaderOf(stored, files, out);
    var h := out[..EntrySize * |files|];
    OrderOfArchive(names, dir, stored, files, out, h);
    OrderRead(out, h, names, 0, 0, EntrySize * |files|);
    assert names[0..] == names;
  }

  /** Repacking with an archive `repack_thing` wrote as the reference packs
      in that archive's order, whatever the directory listing says. */
  lemma ReferenceKeepsOrder(listing: seq<Name>, names: seq<Name>, dir: Directory)
    requires |names| >= 1 && Repack(names, dir).Ok?
    ensures FileList(listing, Some(Repack(names, dir).value)) == names
  {
    FileOrderRepack(names, dir);
  }

  /** An empty directory packs to an empty archive, which neither
      `unpack_thing` nor `get_file_order_from_dat` can read: the eight
      bytes they expect are not there. */
  lemma EmptyDirectory(dir: Directory)
    ensures Repack([], dir) == Ok([])
    ensures Unpack([]) == Unpacked([], Some(ShortWord))
    ensures FileOrder([]) == Err(ShortWord)
  {
    var stored, files := Terminated([]), Contents([], dir);
    assert Problem([], dir, 0) == None;
    assert AllFit(stored, files, 0);
    assert Entries(stored, files) == [] && Concat(stored, 0) == [] && Concat(files, 0) == [];
    assert Entries(stored, files) + Concat(stored, 0) + Concat(files, 0) == [];
  }

  /** An archive announcing a directory length below -1 stops both tools at
      `f.read(header_len)`: `unpack_thing` writes nothing, and
      `repack_thing` keeps its directory listing. */
  lemma NegativeDirectoryLength(data: seq<Byte>, listing: seq<Name>)
    requires |data| >= 8 && UnpackInt32(data[4..8]) < -1
    ensures Unpack(data) == Unpacked([], Some(NegativeRead))
    ensures FileOrder(data) == Err(NegativeRead)
    ensures FileList(listing, Some(data)) == listing
  {
  }

  /** The eight bytes `00 00 00 00 FE FF FF FF` announce a directory of
      length -2. */
  lemma MinusTwoDirectory()
    ensures UnpackInt32([0, 0, 0, 0, 0xFE, 0xFF, 0xFF, 0xFF][4..8]) == -2
  {
    var w: seq<Byte> := [0xFE, 0xFF, 0xFF, 0xFF];
    assert [0, 0, 0, 0, 0xFE, 0xFF, 0xFF, 0xFF][4..8] == w;
    assert LittleEndian(w[3..]) == 0xFF;
    assert LittleEndian(w[2..]) == 0xFFFF;
    assert LittleEndian(w[1..]) == 0xFF_FFFF;
  }
}
