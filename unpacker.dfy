/** `unpack_thing`: the directory of a `.dat` archive read entry by entry,
    then each file's name and contents read from the offsets its entry
    gives and written out. */
module DatUnpack {
  import opened Results
  import opened Bytes
  import opened DatFormat

  /** The four words `unpack_thing` keeps of an entry. */
  datatype Slot = Slot(nameLen: int, nameOff: int, contentLen: int, contentOff: int)

  /** The entry at `at`: words 0, 1, 3 and 4, read in that order. */
  function SlotAt(header: seq<Byte>, at: nat): (r: Result<Slot, ArchiveError>)
    ensures r.Ok? <==> at + 20 <= |header|
  {
    match WordAt(header, at)
    case Err(e) => Err(e)
    case Ok(nameLen) =>
      match WordAt(header, at + 4)
      case Err(e) => Err(e)
      case Ok(nameOff) =>
        match WordAt(header, at + 12)
        case Err(e) => Err(e)
        case Ok(contentLen) =>
          match WordAt(header, at + 16)
          case Err(e) => Err(e)
          case Ok(contentOff) => Ok(Slot(nameLen, nameOff, contentLen, contentOff))
  }

  /** The entries at `at`, `at + 32`, ... below `headerLen`. */
  function SlotsFrom(header: seq<Byte>, at: nat, headerLen: int): Result<seq<Slot>, ArchiveError>
    decreases headerLen - at
  {
    if at >= headerLen then Ok([])
    else
      match SlotAt(header, at)
      case Err(e) => Err(e)
      case Ok(s) => Prepend([s], SlotsFrom(header, at + EntrySize, headerLen))
  }

  /** The four words `unpack_thing` keeps of an entry. */
  function SlotOf(e: Entry): Slot
  {
    Slot(e.nameLen, e.nameOff, e.contentLen, e.contentOff)
  }

  /** A packed entry stored at `at` reads back as its slot. */
  lemma SlotOfStored(header: seq<Byte>, at: nat, e: Entry)
    requires EntryFits(e) && at + EntrySize <= |header| && header[at..at + EntrySize] == EncodeEntry(e).value
    ensures SlotAt(header, at) == Ok(SlotOf(e))
  {
    EntryWordsAt(header, at, e);
  }

  /** Entries that each read as their slot give the slots in order. */
  lemma {:induction false} SlotsRead(header: seq<Byte>, slots: seq<Slot>, i: nat, at: nat, headerLen: int)
    requires i <= |slots| && at == EntrySize * i && headerLen == EntrySize * |slots|
    requires forall k :: i <= k < |slots| ==> SlotAt(header, EntrySize * k) == Ok(slots[k])
    ensures SlotsFrom(header, at, headerLen) == Ok(slots[i..])
    decreases |slots| - i
  {
    if i < |slots| {
      SlotsRead(header, slots, i + 1, at + EntrySize, headerLen);
      SuffixCons(slots, i);
    } else {
      assert slots[i..] == [];
    }
  }

  /** The files written, in order, and the exception that stopped the
      unpacking, if one did. */
  datatype Unpacked = Unpacked(written: seq<Member>, failure: Option<ArchiveError>)

  /** The files of the entries `slots[i..]`: name and contents read, then
      the file written, until a seek fails. */
  function ExtractFrom(data: seq<Byte>, slots: seq<Slot>, i: nat): (u: Unpacked)
    requires i <= |slots|
    ensures |u.written| <= |slots| - i
    ensures u.failure.None? ==> |u.written| == |slots| - i
    decreases |slots| - i
  {
    if i == |slots| then Unpacked([], None)
    else
      match ReadAt(data, slots[i].nameOff, slots[i].nameLen)
      case Err(e) => Unpacked([], Some(e))
      case Ok(name) =>
        match ReadAt(data, slots[i].contentOff, slots[i].contentLen)
        case Err(e) => Unpacked([], Some(e))
        case Ok(content) =>
          var rest := ExtractFrom(data, slots, i + 1);
          Unpacked([Member(DropTerminator(name), content)] + rest.written, rest.failure)
  }
  /** Slot `s` points at the name of `m` followed by a NUL and at the
      contents of `m`, both inside `data`. */
  predicate Holds(data: seq<Byte>, s: Slot, m: Member)
  {
    0 <= s.nameOff && 0 <= s.nameLen && s.nameOff + s.nameLen <= |data|
    && data[s.nameOff..s.nameOff + s.nameLen] == m.name + [0]
    && 0 <= s.contentOff && 0 <= s.contentLen && s.contentOff + s.contentLen <= |data|
    && data[s.contentOff..s.contentOff + s.contentLen] == m.content
  }

  /** Slots that each point at their member write those members, in order,
      and stop on nothing. */
  lemma {:induction false} ExtractAll(data: seq<Byte>, slots: seq<Slot>, members: seq<Member>, i: nat)
    requires |slots| == |members| && i <= |slots|
    requires forall k :: i <= k < |slots| ==> Holds(data, slots[k], members[k])
    ensures ExtractFrom(data, slots, i) == Unpacked(members[i..], None)
    decreases |slots| - i
  {
    if i < |slots| {
      ExtractAll(data, slots, members, i + 1);
      var m := members[i];
      assert DropTerminator(m.name + [0]) == m.name;
      assert members[i..] == [Member(m.name, m.content)] + members[i + 1..];
    }
  }




  /** What `unpack_thing` writes for the archive `data`. */
  function Unpack(data: seq<Byte>): Unpacked
  {
    match HeaderLength(data)
    case Err(e) => Unpacked([], Some(e))
    case Ok(headerLen) =>
      match HeaderBytes(data, headerLen)
      case Err(e) => Unpacked([], Some(e))
      case Ok(header) =>
        match SlotsFrom(header, 0, headerLen)
        case Err(e) => Unpacked([], Some(e))
        case Ok(slots) => ExtractFrom(data, slots, 0)
  }

  /** The extraction from entry `i` on, after the files `written`. */
  function Continue(written: seq<Member>, rest: Unpacked): Unpacked
  {
    Unpacked(written + rest.written, rest.failure)
  }

  /** `unpack_thing` on an archive holding `data`: the files it writes, in
      order, and the exception that stops it. */
  method UnpackThing(data: seq<Byte>) returns (written: seq<Member>, failure: Option<ArchiveError>)
    ensures Unpacked(written, failure) == Unpack(data)
  {
    var first := ReadAt(data, 0, 8).value;
    var lengthWord := WordAt(first, 4);
    if lengthWord.Err? {
      return [], Some(lengthWord.error);
    }
    var headerLen := lengthWord.value;
    var read := ReadAt(data, 0, headerLen);
    if read.Err? {
      return [], Some(read.error);
    }
    var header := read.value;
    assert HeaderLength(data) == lengthWord && HeaderBytes(data, headerLen) == Ok(header);
    PrependNothing(SlotsFrom(header, 0, headerLen));
    var offsets: seq<Slot> := [];
    var at: nat := 0;
    while at < headerLen
      invariant SlotsFrom(header, 0, headerLen) == Prepend(offsets, SlotsFrom(header, at, headerLen))
      decreases headerLen - at
    {
      var entry := SlotAt(header, at);
      if entry.Err? {
        return [], Some(entry.error);
      }
      PrependAppend(offsets, [entry.value], SlotsFrom(header, at + EntrySize, headerLen));
      offsets := offsets + [entry.value];
      at := at + EntrySize;
    }
    assert offsets + [] == offsets;
    written := [];
    var i := 0;
    while i < |offsets|
      invariant 0 <= i <= |offsets|
      invariant Unpack(data) == Continue(written, ExtractFrom(data, offsets, i))
    {
      var name := ReadAt(data, offsets[i].nameOff, offsets[i].nameLen);
      if name.Err? {
        return written, Some(name.error);
      }
      var content := ReadAt(data, offsets[i].contentOff, offsets[i].contentLen);
      if content.Err? {
        return written, Some(content.error);
      }
      assert written + ([Member(DropTerminator(name.value), content.value)] + ExtractFrom(data, offsets, i + 1).written)
        == (written + [Member(DropTerminator(name.value), content.value)]) + ExtractFrom(data, offsets, i + 1).written;
      written := written + [Member(DropTerminator(name.value), content.value)];
      i := i + 1;
    }
    assert written + [] == written;
    return written, None;
  }
}
