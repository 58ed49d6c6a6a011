/** How `process_png_to_spt` turns the PNG names of a directory into calls of
    `create_spt_file`: files are grouped by the part of their name before
    `__frame` (or by the name without `.png`), each group is sorted, and a
    group of several frames takes its output name from before `[[` and its
    sequence offsets from between `[[` and `]]`. The names are those
    `read_spt_file` saves, so regrouping inverts the decoder's naming. */
module PngGrouping {
  import opened Results
  import opened Text
  import D = SptDecoder

  const FrameTag: string := "__frame"

  // ---------------------------------------------------------------------------
  // Selecting the PNG names
  // ---------------------------------------------------------------------------

  /** ASCII `str.lower()`. */
  function Lower(s: string): string
  {
    seq(|s|, k requires 0 <= k < |s| => if 'A' <= s[k] <= 'Z' then (s[k] as int + 32) as char else s[k])
  }

  /** `f.lower().endswith('.png')`. */
  predicate IsPng(f: string)
  {
    |f| >= 4 && Lower(f[|f| - 4..]) == ".png"
  }

  /** The PNG names of a directory listing, kept in listing order. */
  function PngFiles(names: seq<string>): seq<string>
  {
    if names == [] then []
    else
      var last := names[|names| - 1];
      PngFiles(names[..|names| - 1]) + (if IsPng(last) then [last] else [])
  }

  /** The selection holds exactly the PNG names of the listing. */
  lemma {:induction false} PngFilesSelect(names: seq<string>)
    ensures var r := PngFiles(names);
      |r| <= |names|
      && (forall j :: 0 <= j < |r| ==> r[j] in names && IsPng(r[j]))
      && (forall i :: 0 <= i < |names| && IsPng(names[i]) ==> names[i] in r)
  {
    if names != [] {
      var init := names[..|names| - 1];
      PngFilesSelect(init);
      assert names == init + [names[|names| - 1]];
    }
  }

  /** A listing made only of PNG names is kept whole. */
  lemma {:induction false} AllPng(names: seq<string>)
    requires forall i :: 0 <= i < |names| ==> IsPng(names[i])
    ensures PngFiles(names) == names
  {
    if names != [] {
      AllPng(names[..|names| - 1]);
      assert names == names[..|names| - 1] + [names[|names| - 1]];
    }
  }

  // ---------------------------------------------------------------------------
  // Grouping
  // ---------------------------------------------------------------------------

  /** The group a file belongs to: the part before its first `__frame`, or,
      for a name without one, the name with every `.png` removed. */
  function GroupKey(f: string): string
  {
    if Contains(f, FrameTag) then Split(f, FrameTag)[0] else Replace(f, ".png", "")
  }

  /** The key of a frame name is the longest start of it that holds no
      `__frame` and is followed by `__frame`. */
  lemma FrameKey(f: string)
    requires Contains(f, FrameTag)
    ensures var key := GroupKey(f);
      |key| <= |f| && f[..|key|] == key && MatchAt(f, FrameTag, |key|) && !Contains(key, FrameTag)
  {
    SplitHead(f, FrameTag);
  }

  /** No value occurs twice. */
  predicate Distinct(s: seq<string>)
  {
    forall i, j :: 0 <= i < j < |s| ==> s[i] != s[j]
  }

  /** The keys of `files` in the order they first occur, the order in which
      `file_groups.items()` yields them, since a dict keeps insertion order. */
  function Keys(files: seq<string>): seq<string>
  {
    if files == [] then []
    else
      var ks, k := Keys(files[..|files| - 1]), GroupKey(files[|files| - 1]);
      if k in ks then ks else ks + [k]
  }

  /** Every file's key is listed. */
  lemma {:induction false} KeysCover(files: seq<string>)
    ensures forall i :: 0 <= i < |files| ==> GroupKey(files[i]) in Keys(files)
  {
    if files != [] {
      var init := files[..|files| - 1];
      KeysCover(init);
      assert forall i :: 0 <= i < |init| ==> files[i] == init[i];
    }
  }

  /** No key is listed twice. */
  lemma {:induction false} KeysDistinct(files: seq<string>)
    ensures Distinct(Keys(files))
  {
    if files != [] {
      KeysDistinct(files[..|files| - 1]);
    }
  }

  /** Every key is the key of some file. */
  lemma {:induction false} KeyOfSome(files: seq<string>, k: string)
    requires k in Keys(files)
    ensures exists i :: 0 <= i < |files| && GroupKey(files[i]) == k
  {
    var init := files[..|files| - 1];
    if k in Keys(init) {
      KeyOfSome(init, k);
      var i :| 0 <= i < |init| && GroupKey(init[i]) == k;
      assert files[i] == init[i];
    } else {
      assert GroupKey(files[|files| - 1]) == k;
    }
  }

  /** The files of one group, in listing order. */
  function Members(files: seq<string>, key: string): seq<string>
  {
    if files == [] then []
    else
      var last := files[|files| - 1];
      Members(files[..|files| - 1], key) + (if GroupKey(last) == key then [last] else [])
  }

  /** A group holds exactly the files of its key. */
  lemma {:induction false} MembersSelect(files: seq<string>, key: string)
    ensures var m := Members(files, key);
      |m| <= |files|
      && (forall j :: 0 <= j < |m| ==> m[j] in files && GroupKey(m[j]) == key)
      && (forall i :: 0 <= i < |files| && GroupKey(files[i]) == key ==> files[i] in m)
  {
    if files != [] {
      var init, last := files[..|files| - 1], files[|files| - 1];
      MembersSelect(init, key);
      AppendSelect(GroupKey, key, files, init, last, Members(init, key), Members(files, key));
    }
  }

  /** One step of selecting the names whose `keyOf` is `key`: if `before`
      is the selection from `init`, then `m` is the selection from `init`
      and one more name. */
  lemma AppendSelect(keyOf: string -> string, key: string, files: seq<string>, init: seq<string>, last: string,
                     before: seq<string>, m: seq<string>)
    requires files == init + [last] && m == before + (if keyOf(last) == key then [last] else [])
    requires |before| <= |init|
    requires forall j :: 0 <= j < |before| ==> before[j] in init && keyOf(before[j]) == key
    requires forall i :: 0 <= i < |init| && keyOf(init[i]) == key ==> init[i] in before
    ensures |m| <= |files|
    ensures forall j :: 0 <= j < |m| ==> m[j] in files && keyOf(m[j]) == key
    ensures forall i :: 0 <= i < |files| && keyOf(files[i]) == key ==> files[i] in m
  {
    forall i | 0 <= i < |files| && keyOf(files[i]) == key
      ensures files[i] in m
    {
      if i < |init| {
        assert files[i] == init[i];
      }
    }
  }

  /** A key no file has has no files. */
  lemma {:induction false} MembersOutside(files: seq<string>, key: string)
    requires key !in Keys(files)
    ensures Members(files, key) == []
  {
    if files != [] {
      MembersOutside(files[..|files| - 1], key);
    }
  }

  datatype Group = Group(key: string, files: seq<string>)

  /** `file_groups.items()` once every file has been appended to its list. */
  function Groups(files: seq<string>): seq<Group>
  {
    var ks := Keys(files);
    seq(|ks|, i requires 0 <= i < |ks| => Group(ks[i], Members(files, ks[i])))
  }

  /** The groups partition the files: their keys are distinct, none is
      empty, each holds only files of its key, and every file is in the
      group of its key. */
  lemma GroupsPartition(files: seq<string>)
    ensures var gs := Groups(files);
      (forall i, j :: 0 <= i < j < |gs| ==> gs[i].key != gs[j].key)
      && (forall i :: 0 <= i < |gs| ==> gs[i].files != [])
      && (forall i, m :: 0 <= i < |gs| && 0 <= m < |gs[i].files| ==>
            gs[i].files[m] in files && GroupKey(gs[i].files[m]) == gs[i].key)
      && (forall n :: 0 <= n < |files| ==>
            exists i :: 0 <= i < |gs| && gs[i].key == GroupKey(files[n]) && files[n] in gs[i].files)
  {
    var gs, ks := Groups(files), Keys(files);
    KeysDistinct(files);
    KeysCover(files);
    forall i | 0 <= i < |gs|
      ensures gs[i].files != []
      ensures forall m :: 0 <= m < |gs[i].files| ==> gs[i].files[m] in files && GroupKey(gs[i].files[m]) == gs[i].key
    {
      assert ks[i] in ks && gs[i] == Group(ks[i], Members(files, ks[i]));
      MembersSelect(files, ks[i]);
      KeyOfSome(files, ks[i]);
      var j :| 0 <= j < |files| && GroupKey(files[j]) == ks[i];
      assert files[j] in gs[i].files;
    }
    forall n | 0 <= n < |files|
      ensures exists i :: 0 <= i < |gs| && gs[i].key == GroupKey(files[n]) && files[n] in gs[i].files
    {
      var i :| 0 <= i < |ks| && ks[i] == GroupKey(files[n]);
      MembersSelect(files, ks[i]);
      assert gs[i].key == GroupKey(files[n]) && files[n] in gs[i].files;
    }
  }

  /** Files that all share one key form a single group, in listing order. */
  lemma {:induction false} OneKey(files: seq<string>, key: string)
    requires files != [] && forall i :: 0 <= i < |files| ==> GroupKey(files[i]) == key
    ensures Keys(files) == [key] && Members(files, key) == files
    ensures Groups(files) == [Group(key, files)]
  {
    var init := files[..|files| - 1];
    assert files == init + [files[|files| - 1]];
    if init != [] {
      OneKey(init, key);
    }
  }

  /** Appending one more file to the listing. */
  lemma GrowListing(files: seq<string>, i: nat)
    requires i < |files|
    ensures var init, key := files[..i], GroupKey(files[i]);
      Keys(files[..i + 1]) == (if key in Keys(init) then Keys(init) else Keys(init) + [key])
      && (forall k :: Members(files[..i + 1], k) == Members(init, k) + (if key == k then [files[i]] else []))
      && (key !in Keys(init) ==> Members(init, key) == [])
  {
    var done := files[..i + 1];
    assert done[..i] == files[..i] && done[i] == files[i];
    var key := GroupKey(files[i]);
    if key !in Keys(files[..i]) {
      MembersOutside(files[..i], key);
    }
  }

  /** The grouping loop: a dict from key to the list of its files, filled in
      listing order, then read back in insertion order. */
  method GroupFiles(files: seq<string>) returns (groups: seq<Group>)
    ensures groups == Groups(files)
  {
    var table: map<string, seq<string>> := map[];
    var order: seq<string> := [];
    for i := 0 to |files|
      invariant order == Keys(files[..i])
      invariant forall k :: k in table <==> k in order
      invariant forall k :: k in table ==> table[k] == Members(files[..i], k)
    {
      GrowListing(files, i);
      var key := GroupKey(files[i]);
      if key in table {
        table := table[key := table[key] + [files[i]]];
      } else {
        table := table[key := [files[i]]];
        order := order + [key];
      }
    }
    assert files[..|files|] == files;
    groups := [];
    for j := 0 to |order|
      invariant groups == Groups(files)[..j]
    {
      groups := groups + [Group(order[j], table[order[j]])];
    }
  }

  // ---------------------------------------------------------------------------
  // From a group to a call of create_spt_file
  // ---------------------------------------------------------------------------

  /** One call `create_spt_file(output, images, paletteSize, x, y)`, the images
      being those loaded from `files` in that order. */
  datatype Job = Job(output: string, files: seq<string>, paletteSize: int, x: int, y: int)

  /** Why a group of several files cannot be converted: `split("[[")[1]` or
      `offsets[1]` is out of range (IndexError), or `int` refuses an offset
      (ValueError). */
  datatype GroupError = MissingOffsets | BadOffset

  /** The call a group leads to, its files in the order `ordered` gives. A
      single file uses the defaults: palette size 256 and offsets 0. */
  function JobWith(g: Group, ordered: seq<string>): Result<Job, GroupError>
  {
    if |g.files| == 1 then Ok(Job(Replace(g.key, ".png", "") + ".spt", ordered, 256, 0, 0))
    else
      var parts := Split(g.key, "[[");
      if |parts| < 2 then Err(MissingOffsets)
      else
        var offsets := Split(Split(parts[1], "]]")[0], ";");
        match ParseInt(offsets[0])
        case None => Err(BadOffset)
        case Some(x) =>
          if |offsets| < 2 then Err(MissingOffsets)
          else match ParseInt(offsets[1])
            case None => Err(BadOffset)
            case Some(y) => Ok(Job(parts[0] + ".spt", ordered, 256, x, y))
  }

  /** The call for a group after `files.sort()`. */
  function JobFor(g: Group): Result<Job, GroupError>
  {
    JobWith(g, SortStrings(g.files))
  }

  /** A group of several files whose key has no `[[` has no offsets. */
  lemma JobNeedsOffsets(g: Group)
    requires |g.files| != 1 && !Contains(g.key, "[[")
    ensures JobFor(g) == Err(MissingOffsets)
  {
  }

  /** A successful call converts exactly the group's files, sorted, with
      palette size 256. */
  lemma JobSorted(g: Group)
    requires JobFor(g).Ok?
    ensures multiset(JobFor(g).value.files) == multiset(g.files) && Sorted(JobFor(g).value.files)
    ensures JobFor(g).value.paletteSize == 256
  {
  }

  /** The calls made for the groups in order, and the exception, if any,
      that stops the loop before the remaining groups. */
  datatype Plan = Plan(jobs: seq<Job>, failure: Option<GroupError>)

  /** What converting each group gives, in group order. */
  function Outcomes(groups: seq<Group>): seq<Result<Job, GroupError>>
  {
    seq(|groups|, k requires 0 <= k < |groups| => JobFor(groups[k]))
  }

  /** The calls made for the outcomes from `i` on: one per group until the
      first group that fails, whose error ends the plan. */
  function PlanFrom(outcomes: seq<Result<Job, GroupError>>, i: nat): (p: Plan)
    requires i <= |outcomes|
    ensures |p.jobs| <= |outcomes| - i
    ensures p.failure.None? <==> |p.jobs| == |outcomes| - i
    ensures forall k :: 0 <= k < |p.jobs| ==> outcomes[i + k] == Ok(p.jobs[k])
    ensures p.failure.Some? ==> outcomes[i + |p.jobs|] == Err(p.failure.value)
    decreases |outcomes| - i
  {
    if i == |outcomes| then Plan([], None)
    else match outcomes[i]
      case Err(e) => Plan([], Some(e))
      case Ok(j) =>
        var rest := PlanFrom(outcomes, i + 1);
        Plan([j] + rest.jobs, rest.failure)
  }

  /** What processing a directory does, given its listing. */
  function DirectoryPlan(names: seq<string>): Plan
  {
    PlanFrom(Outcomes(Groups(PngFiles(names))), 0)
  }

  /** `process_png_to_spt` on a directory: the calls it makes and the
      exception that ends it early, if any. */
  method ProcessDirectory(names: seq<string>) returns (jobs: seq<Job>, failure: Option<GroupError>)
    ensures Plan(jobs, failure) == DirectoryPlan(names)
  {
    var pngs := PngFiles(names);
    jobs, failure := [], None;
    if pngs == [] {
      return;
    }
    var groups := GroupFiles(pngs);
    ghost var outcomes := Outcomes(groups);
    PlanStarts(outcomes);
    var k := 0;
    while k < |groups|
      invariant 0 <= k <= |groups| == |outcomes|
      invariant PlannedTo(outcomes, k, jobs)
    {
      var job := JobFor(groups[k]);
      OutcomeAt(groups, k);
      if job.Err? {
        PlanStops(outcomes, k, jobs);
        failure := Some(job.error);
        return;
      }
      PlanGoesOn(outcomes, k, jobs);
      jobs := jobs + [job.value];
      k := k + 1;
    }
    PlanDone(outcomes, jobs);
  }

  /** The calls made before group `k` are `jobs`, and the plan goes on as
      the plan from `k` does. */
  predicate PlannedTo(outcomes: seq<Result<Job, GroupError>>, k: nat, jobs: seq<Job>)
    requires k <= |outcomes|
  {
    PlanFrom(outcomes, 0) == Plan(jobs + PlanFrom(outcomes, k).jobs, PlanFrom(outcomes, k).failure)
  }

  lemma OutcomeAt(groups: seq<Group>, k: nat)
    requires k < |groups|
    ensures |Outcomes(groups)| == |groups| && Outcomes(groups)[k] == JobFor(groups[k])
  {
  }

  /** Before the first group, no call has been made. */
  lemma PlanStarts(outcomes: seq<Result<Job, GroupError>>)
    ensures PlannedTo(outcomes, 0, [])
  {
    assert [] + PlanFrom(outcomes, 0).jobs == PlanFrom(outcomes, 0).jobs;
  }

  /** A failing group ends the plan with its error. */
  lemma PlanStops(outcomes: seq<Result<Job, GroupError>>, k: nat, jobs: seq<Job>)
    requires k < |outcomes| && PlannedTo(outcomes, k, jobs) && outcomes[k].Err?
    ensures PlanFrom(outcomes, 0) == Plan(jobs, Some(outcomes[k].error))
  {
    assert jobs + [] == jobs;
  }

  /** A group that converts adds its call. */
  lemma PlanGoesOn(outcomes: seq<Result<Job, GroupError>>, k: nat, jobs: seq<Job>)
    requires k < |outcomes| && PlannedTo(outcomes, k, jobs) && outcomes[k].Ok?
    ensures PlannedTo(outcomes, k + 1, jobs + [outcomes[k].value])
  {
    var rest := PlanFrom(outcomes, k + 1).jobs;
    assert jobs + ([outcomes[k].value] + rest) == (jobs + [outcomes[k].value]) + rest;
  }

  /** Once every group converted, the calls made are the plan. */
  lemma PlanDone(outcomes: seq<Result<Job, GroupError>>, jobs: seq<Job>)
    requires PlannedTo(outcomes, |outcomes|, jobs)
    ensures PlanFrom(outcomes, 0) == Plan(jobs, None)
  {
    assert jobs + [] == jobs;
  }

  // ---------------------------------------------------------------------------
  // Regrouping what the decoder saves
  // ---------------------------------------------------------------------------

  /** The key all frames of one decoded file share. */
  function OffsetKey(stem: string, x: nat, y: nat): string
  {
    stem + ("[[" + (Decimal(x) + ";" + Decimal(y) + "]]"))
  }

  /** A name stem that survives regrouping: no `__frame` and no `[[` in it,
      and it does not end with `[`. */
  predicate PlainStem(stem: string)
  {
    !Contains(stem, FrameTag) && !Contains(stem, "[[") && (stem == [] || stem[|stem| - 1] != '[')
  }

  /** A name ending in `.png` passes the filter. */
  lemma PngSuffix(s: string)
    ensures IsPng(s + ".png")
  {
    var f := s + ".png";
    assert f[|f| - 4..] == ".png";
  }

  /** No character of the offsets part `[[x;y]]` starts `__frame`, `[[`
      (past the opening brackets), `]]` or `;` where it should not. */
  lemma OffsetChars(dx: string, dy: string)
    requires AllDigits(dx) && AllDigits(dy)
    ensures var m := "[[" + (dx + ";" + dy + "]]"); forall k :: 0 <= k < |m| ==> m[k] != '_'
    ensures var q := dx + ";" + dy + "]]"; forall k :: 0 <= k < |q| ==> q[k] != '['
    ensures var p := dx + ";" + dy; forall k :: 0 <= k < |p| ==> p[k] != ']'
    ensures forall k :: 0 <= k < |dx| ==> dx[k] != ';'
    ensures forall k :: 0 <= k < |dy| ==> dy[k] != ';'
  {
  }

  /** In a name made of a stem without `__frame`, a part with no `_` that
      starts with a character `__frame` does not use, and `__frame` plus
      anything, the first `__frame` is the one after that part. */
  lemma TagAfter(stem: string, m: string, rest: string)
    requires !Contains(stem, FrameTag) && m != [] && !Mentions(FrameTag, m[0])
    requires forall k :: 0 <= k < |m| ==> m[k] != '_'
    ensures Find(stem + (m + (FrameTag + rest)), FrameTag) == Some(|stem| + |m|)
  {
    var t := FrameTag + rest;
    NoFirstChar(m, t, FrameTag);
    FindConcat(m, t, FrameTag);
    assert t[..|FrameTag|] == FrameTag;
    assert MatchAt(t, FrameTag, 0);
    FindAfter(stem, m + t, FrameTag);
  }

  /** The key of such a name is the stem and that part. */
  lemma KeyBeforeTag(stem: string, m: string, rest: string)
    requires !Contains(stem, FrameTag) && m != [] && !Mentions(FrameTag, m[0])
    requires forall k :: 0 <= k < |m| ==> m[k] != '_'
    ensures GroupKey(stem + (m + (FrameTag + rest))) == stem + m
  {
    var f := stem + (m + (FrameTag + rest));
    TagAfter(stem, m, rest);
    SplitHead(f, FrameTag);
    assert f[..|stem| + |m|] == stem + m;
  }

  /** A frame name read as stem, offsets part, `__frame` and the rest. */
  lemma FrameNameParts(stem: string, dx: string, dy: string, di: string)
    ensures stem + "[[" + dx + ";" + dy + "]]__frame" + di + ".png"
      == stem + (("[[" + (dx + ";" + dy + "]]")) + (FrameTag + (di + ".png")))
  {
    var m := "[[" + (dx + ";" + dy + "]]");
    assert "]]__frame" == "]]" + FrameTag;
    assert stem + "[[" + dx + ";" + dy + "]]__frame" == stem + m + FrameTag;
  }

  /** Every frame saved from one file is keyed by its stem and offsets. */
  lemma FrameNameKey(stem: string, x: nat, y: nat, i: nat)
    requires !Contains(stem, FrameTag)
    ensures GroupKey(D.FrameName(stem, x, y, i)) == OffsetKey(stem, x, y)
  {
    var dx, dy, di := Decimal(x), Decimal(y), Decimal(i);
    var m, rest := "[[" + (dx + ";" + dy + "]]"), di + ".png";
    FrameNameParts(stem, dx, dy, di);
    assert D.FrameName(stem, x, y, i) == stem + (m + (FrameTag + rest));
    OffsetChars(dx, dy);
    KeyBeforeTag(stem, m, rest);
  }

  /** Splitting `stem[[q` at `[[` when `q` has no `[`. */
  lemma OpenSplit(stem: string, q: string)
    requires !Contains(stem, "[[") && (stem == [] || stem[|stem| - 1] != '[')
    requires forall k :: 0 <= k < |q| ==> q[k] != '['
    ensures Split(stem + ("[[" + q), "[[") == [stem, q]
  {
    StraddleLast(stem, "[[" + q, "[[");
    FindConcat(stem, "[[" + q, "[[");
    assert ("[[" + q)[..2] == "[[";
    assert MatchAt("[[" + q, "[[", 0);
    assert stem + "[[" + q == stem + ("[[" + q);
    SplitAt(stem, q, "[[");
    NoFirstChar(q, [], "[[");
  }

  /** The offsets part between the brackets splits into the two numbers. */
  lemma OffsetFields(dx: string, dy: string)
    requires AllDigits(dx) && AllDigits(dy)
    ensures Split(Split(dx + ";" + dy + "]]", "]]")[0], ";") == [dx, dy]
  {
    OffsetChars(dx, dy);
    CloseSplit(dx + ";" + dy);
    FieldSplit(dx, dy);
  }

  /** The part before the first `]]` of `p]]`, when `p` has no `]`. */
  lemma CloseSplit(p: string)
    requires forall k :: 0 <= k < |p| ==> p[k] != ']'
    ensures Split(p + "]]", "]]")[0] == p
  {
    NoFirstChar(p, "]]", "]]");
    FindConcat(p, "]]", "]]");
    assert MatchAt("]]", "]]", 0);
    SplitHead(p + "]]", "]]");
    assert (p + "]]")[..|p|] == p;
  }

  /** `dx;dy` splits at `;` into its two parts when neither holds a `;`. */
  lemma FieldSplit(dx: string, dy: string)
    requires forall k :: 0 <= k < |dx| ==> dx[k] != ';'
    requires forall k :: 0 <= k < |dy| ==> dy[k] != ';'
    ensures Split(dx + ";" + dy, ";") == [dx, dy]
  {
    NoFirstChar(dx, ";" + dy, ";");
    FindConcat(dx, ";" + dy, ";");
    assert MatchAt(";" + dy, ";", 0);
    assert dx + (";" + dy) == dx + ";" + dy;
    SplitAt(dx, dy, ";");
    NoFirstChar(dy, [], ";");
  }

  /** A group of several files keyed by a stem and offsets is converted to
      `<stem>.spt` with exactly those offsets. */
  lemma OffsetKeyJob(stem: string, x: nat, y: nat, files: seq<string>, ordered: seq<string>)
    requires PlainStem(stem) && |files| != 1
    ensures JobWith(Group(OffsetKey(stem, x, y), files), ordered) == Ok(Job(stem + ".spt", ordered, 256, x, y))
  {
    var dx, dy := Decimal(x), Decimal(y);
    var q := dx + ";" + dy + "]]";
    OffsetChars(dx, dy);
    OpenSplit(stem, q);
    OffsetFields(dx, dy);
    ParseDecimal(x);
    ParseDecimal(y);
  }

  /** The picture saved from a single-frame file is keyed by its stem and
      converted back to `<stem>.spt` with the default offsets. */
  lemma SingleNameJob(stem: string)
    requires !Contains(stem, FrameTag) && !Contains(stem, ".png")
    ensures GroupKey(stem + ".png") == stem
    ensures JobFor(Group(stem, [stem + ".png"])) == Ok(Job(stem + ".spt", [stem + ".png"], 256, 0, 0))
  {
    var f := stem + ".png";
    FindAfter(stem, ".png", FrameTag);
    assert Find(".png", FrameTag) == None;
    forall k | 0 < k < 4
      ensures ".png"[k..] != ".png"[..4 - k]
    {
      assert ".png"[k..][0] != '.';
    }
    StraddleBorderless(stem, ".png", ".png");
    FindConcat(stem, ".png", ".png");
    assert MatchAt(".png", ".png", 0);
    assert f[..|stem|] == stem && f[|stem| + 4..] == [];
    assert Replace(f, ".png", "") == stem + "" + Replace([], ".png", "");
  }

  /** A directory holding exactly the frames decoded from one multi-frame
      file leads to one call, which converts them back under the file's stem
      with the offsets its header held. */
  lemma DecodedFramesRegroup(imgName: string, x: nat, y: nat, count: nat)
    requires count >= 2 && PlainStem(DropLast(imgName, 4))
    ensures var names := D.OutputNames(imgName, x, y, count);
      DirectoryPlan(names) == Plan([Job(DropLast(imgName, 4) + ".spt", SortStrings(names), 256, x, y)], None)
  {
    var stem, names := DropLast(imgName, 4), D.OutputNames(imgName, x, y, count);
    var key := OffsetKey(stem, x, y);
    forall i | 0 <= i < count
      ensures IsPng(names[i]) && GroupKey(names[i]) == key
    {
      FrameNameKey(stem, x, y, i);
      var n := D.FrameName(stem, x, y, i);
      assert n == stem + "[[" + Decimal(x) + ";" + Decimal(y) + "]]__frame" + Decimal(i) + ".png";
      PngSuffix(stem + "[[" + Decimal(x) + ";" + Decimal(y) + "]]__frame" + Decimal(i));
    }
    AllPng(names);
    OneKey(names, key);
    OffsetKeyJob(stem, x, y, names, SortStrings(names));
    var g := Group(key, names);
    var outcomes := Outcomes([g]);
    assert outcomes[0] == JobFor(g);
    assert PlanFrom(outcomes, 0) == Plan([JobFor(g).value] + PlanFrom(outcomes, 1).jobs, None);
  }

  /** A directory holding only the picture decoded from a single-frame file
      leads to one call, which converts it back under the file's stem. */
  lemma DecodedPictureRegroup(imgName: string, x: nat, y: nat)
    requires var stem := DropLast(imgName, 4); !Contains(stem, FrameTag) && !Contains(stem, ".png")
    ensures var stem := DropLast(imgName, 4);
      DirectoryPlan(D.OutputNames(imgName, x, y, 1)) == Plan([Job(stem + ".spt", [stem + ".png"], 256, 0, 0)], None)
  {
    var stem := DropLast(imgName, 4);
    var names := D.OutputNames(imgName, x, y, 1);
    PngSuffix(stem);
    AllPng(names);
    SingleNameJob(stem);
    OneKey(names, stem);
    var g := Group(stem, names);
    var outcomes := Outcomes([g]);
    assert outcomes[0] == JobFor(g);
    assert PlanFrom(outcomes, 0) == Plan([JobFor(g).value] + PlanFrom(outcomes, 1).jobs, None);
  }

  // ---------------------------------------------------------------------------
  // Frame order
  // ---------------------------------------------------------------------------

  /** The number a saved frame name carries between `__frame` and its last
      four characters, or -1 when there is none. */
  function FrameNumber(f: string): int
  {
    var parts := Split(f, FrameTag);
    if |parts| < 2 then -1
    else match ParseInt(DropLast(parts[1], 4))
      case Some(n) => n
      case None => -1
  }

  /** Frame `i` of a decoded file carries the number `i`. */
  lemma FrameNumberOf(stem: string, x: nat, y: nat, i: nat)
    requires !Contains(stem, FrameTag)
    ensures FrameNumber(D.FrameName(stem, x, y, i)) == i
  {
    var dx, dy, di := Decimal(x), Decimal(y), Decimal(i);
    var m, rest := "[[" + (dx + ";" + dy + "]]"), di + ".png";
    FrameNameParts(stem, dx, dy, di);
    OffsetChars(dx, dy);
    TagAfter(stem, m, rest);
    var f := stem + (m + (FrameTag + rest));
    assert f == (stem + m) + FrameTag + rest;
    SplitAt(stem + m, rest, FrameTag);
    NoFirstChar(rest, [], FrameTag);
    assert DropLast(rest, 4) == di;
    ParseDecimal(i);
  }

  /** `s` in ascending order of `key`. */
  predicate SortedBy(key: string -> int, s: seq<string>)
  {
    forall i, j :: 0 <= i < j < |s| ==> key(s[i]) <= key(s[j])
  }

  /** `x` placed in `s` before the first name with a larger key. */
  function InsertBy(key: string -> int, x: string, s: seq<string>): (r: seq<string>)
    requires SortedBy(key, s)
    ensures multiset(r) == multiset(s) + multiset{x}
    ensures SortedBy(key, r)
  {
    if s == [] then [x]
    else if key(x) <= key(s[0]) then [x] + s
    else
      var rest := InsertBy(key, x, s[1..]);
      assert s == [s[0]] + s[1..];
      InsertByBehind(key, s[0], rest, x, s[1..]);
      [s[0]] + rest
  }

  /** A name kept in front of the place of `x` stays in front of the names
      it came before. */
  lemma InsertByBehind(key: string -> int, h: string, rest: seq<string>, x: string, tail: seq<string>)
    requires SortedBy(key, rest) && key(h) <= key(x)
    requires SortedBy(key, [h] + tail)
    requires multiset(rest) == multiset(tail) + multiset{x}
    ensures SortedBy(key, [h] + rest)
  {
    forall j | 0 <= j < |rest|
      ensures key(h) <= key(rest[j])
    {
      assert rest[j] in multiset(rest);
      if rest[j] != x {
        assert rest[j] in multiset(tail);
        var k :| 0 <= k < |tail| && tail[k] == rest[j];
        assert ([h] + tail)[0] == h && ([h] + tail)[k + 1] == tail[k];
      }
    }
  }

  /** Insertion sort by `key`. */
  function SortBy(key: string -> int, s: seq<string>): (r: seq<string>)
    ensures multiset(r) == multiset(s)
    ensures SortedBy(key, r)
  {
    if s == [] then []
    else
      assert s == s[..|s| - 1] + [s[|s| - 1]];
      InsertBy(key, s[|s| - 1], SortBy(key, s[..|s| - 1]))
  }

  /** A name with a larger key than every name of `s` goes last. */
  lemma {:induction false} InsertLargest(key: string -> int, x: string, s: seq<string>)
    requires SortedBy(key, s) && forall j :: 0 <= j < |s| ==> key(s[j]) < key(x)
    ensures InsertBy(key, x, s) == s + [x]
  {
    if s != [] {
      InsertLargest(key, x, s[1..]);
      assert s == [s[0]] + s[1..];
    }
  }

  /** Names already in strictly increasing order of `key` keep their order. */
  lemma {:induction false} SortByKeeps(key: string -> int, s: seq<string>)
    requires forall i, j :: 0 <= i < j < |s| ==> key(s[i]) < key(s[j])
    ensures SortBy(key, s) == s
  {
    if s != [] {
      var init := s[..|s| - 1];
      SortByKeeps(key, init);
      InsertLargest(key, s[|s| - 1], init);
      assert init + [s[|s| - 1]] == s;
    }
  }

  /** The call for a group with its files in frame order. */
  function JobInFrameOrder(g: Group): Result<Job, GroupError>
  {
    JobWith(g, SortBy(FrameNumber, g.files))
  }

  /** With frames ordered by number, the frames decoded from one file are
      converted back in the order they were decoded. */
  lemma DecodedFramesInOrder(imgName: string, x: nat, y: nat, count: nat)
    requires count >= 2 && PlainStem(DropLast(imgName, 4))
    ensures var names := D.OutputNames(imgName, x, y, count);
      JobInFrameOrder(Group(OffsetKey(DropLast(imgName, 4), x, y), names))
        == Ok(Job(DropLast(imgName, 4) + ".spt", names, 256, x, y))
  {
    var stem, names := DropLast(imgName, 4), D.OutputNames(imgName, x, y, count);
    FramesKeepOrder(imgName, x, y, count);
    OffsetKeyJob(stem, x, y, names, names);
  }

  /** Sorting by frame number leaves the decoded frames in decoded order. */
  lemma FramesKeepOrder(imgName: string, x: nat, y: nat, count: nat)
    requires count >= 2 && !Contains(DropLast(imgName, 4), FrameTag)
    ensures var names := D.OutputNames(imgName, x, y, count); SortBy(FrameNumber, names) == names
  {
    var stem, names := DropLast(imgName, 4), D.OutputNames(imgName, x, y, count);
    forall i | 0 <= i < count
      ensures FrameNumber(names[i]) == i
    {
      FrameNumberOf(stem, x, y, i);
    }
    SortByKeeps(FrameNumber, names);
  }

  /** `a + u` against `a + v` is decided by `u` against `v`. */
  lemma {:induction false} LessEqCommonPrefix(a: string, u: string, v: string)
    ensures LessEq(a + u, a + v) == LessEq(u, v)
    decreases |a|
  {
    if a != [] {
      var s, t := a + u, a + v;
      assert s != [] && t != [] && s[0] == t[0];
      assert s[1..] == a[1..] + u && t[1..] == a[1..] + v;
      LessEqCommonPrefix(a[1..], u, v);
    } else {
      assert a + u == u && a + v == v;
    }
  }

  /** As written, `files.sort()` compares names character by character, so
      once a file has eleven frames or more, frame 10 is converted before
      frame 2 and the group is not in decoded order. */
  lemma SortedFramesOutOfOrder(imgName: string, x: nat, y: nat, count: nat)
    requires count >= 11
    ensures var names := D.OutputNames(imgName, x, y, count);
      var sorted := SortStrings(names);
      sorted != names
      && forall a, b :: 0 <= a < |sorted| && 0 <= b < |sorted| && sorted[a] == names[2] && sorted[b] == names[10] ==> b < a
  {
    var names := D.OutputNames(imgName, x, y, count);
    TenBeforeTwo(DropLast(imgName, 4), x, y);
    SortedAfter(SortStrings(names), names, 2, 10);
  }

  /** The name of frame 10 sorts before that of frame 2. */
  lemma TenBeforeTwo(stem: string, x: nat, y: nat)
    ensures !LessEq(D.FrameName(stem, x, y, 2), D.FrameName(stem, x, y, 10))
  {
    var pre := stem + "[[" + Decimal(x) + ";" + Decimal(y) + "]]__frame";
    assert D.FrameName(stem, x, y, 2) == pre + (Decimal(2) + ".png");
    assert D.FrameName(stem, x, y, 10) == pre + (Decimal(10) + ".png");
    assert Decimal(2) + ".png" == "2.png" && Decimal(10) + ".png" == "10.png";
    LessEqCommonPrefix(pre, "2.png", "10.png");
  }

  /** When name `i` of a list is not `<=` a later name `j`, sorting puts
      name `j` first, so the sorted list is another arrangement. */
  lemma SortedAfter(sorted: seq<string>, names: seq<string>, i: nat, j: nat)
    requires Sorted(sorted) && i < j < |names| && !LessEq(names[i], names[j])
    ensures sorted != names
    ensures forall a, b :: 0 <= a < |sorted| && 0 <= b < |sorted| && sorted[a] == names[i] && sorted[b] == names[j] ==> b < a
  {
    var u, v := names[i], names[j];
    forall a, b | 0 <= a < |sorted| && 0 <= b < |sorted| && sorted[a] == u && sorted[b] == v
      ensures b < a
    {
      LessEqReflexive(u);
    }
  }
}
