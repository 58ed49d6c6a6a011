/** The few Python string operations the SPT tools use on file names:
    `str(n)` and `int(s)` for offsets and frame numbers, `str.split`,
    `str.replace` and `in`/`count` for a separator, slicing off a suffix,
    and the code-point order `list.sort` uses. */
module Text {
  import opened Results

  predicate IsDigit(c: char) { '0' <= c <= '9' }

  predicate AllDigits(s: string) { forall k :: 0 <= k < |s| ==> IsDigit(s[k]) }

  function DigitChar(d: nat): (c: char)
    requires d < 10
    ensures IsDigit(c) && c as int - '0' as int == d
  {
    (d + '0' as int) as char
  }

  /** `str(n)` for a non-negative integer: decimal digits without a leading zero. */
  function Decimal(n: nat): (s: string)
    ensures |s| >= 1 && AllDigits(s)
    ensures |s| > 1 ==> s[0] != '0'
    ensures n < 10 <==> |s| == 1
  {
    if n < 10 then [DigitChar(n)] else Decimal(n / 10) + [DigitChar(n % 10)]
  }

  /** The value of a string of decimal digits. */
  function DigitsValue(s: string): nat
    requires AllDigits(s)
  {
    if s == [] then 0 else DigitsValue(s[..|s| - 1]) * 10 + (s[|s| - 1] as int - '0' as int)
  }

  /** Printing and then reading the digits gives the number back. */
  lemma {:induction false} DecimalValue(n: nat)
    ensures DigitsValue(Decimal(n)) == n
  {
    if n >= 10 {
      DecimalValue(n / 10);
      var s := Decimal(n);
      assert s[..|s| - 1] == Decimal(n / 10);
    }
  }

  /** Distinct numbers print differently. */
  lemma DecimalInjective(m: nat, n: nat)
    requires Decimal(m) == Decimal(n)
    ensures m == n
  {
    DecimalValue(m);
    DecimalValue(n);
  }

  /** What `int(s)` accepts here: one or more ASCII digits, with or
      without a leading `+` or `-`. */
  predicate SignedDigits(s: string)
  {
    (s != [] && AllDigits(s)) || (|s| > 1 && (s[0] == '-' || s[0] == '+') && AllDigits(s[1..]))
  }

  /** `int(s)` on an optional sign followed by one or more ASCII digits;
      `None` where Python raises ValueError. */
  function ParseInt(s: string): (r: Option<int>)
    ensures r.Some? <==> SignedDigits(s)
    ensures AllDigits(s) && s != [] ==> r == Some(DigitsValue(s))
    ensures |s| > 1 && s[0] == '+' && AllDigits(s[1..]) ==> r == Some(DigitsValue(s[1..]))
    ensures |s| > 1 && s[0] == '-' && AllDigits(s[1..]) ==> r == Some(-(DigitsValue(s[1..]) as int))
  {
    if s == [] then None
    else if (s[0] == '-' || s[0] == '+') && |s| > 1 && AllDigits(s[1..]) then
      Some((if s[0] == '-' then -1 else 1) * DigitsValue(s[1..]))
    else if AllDigits(s) then Some(DigitsValue(s))
    else None
  }

  /** `int(str(n)) == n`. */
  lemma ParseDecimal(n: nat)
    ensures ParseInt(Decimal(n)) == Some(n)
  {
    DecimalValue(n);
  }

  /** `int(str(-n)) == -n`, and a `+` in front changes nothing. */
  lemma ParseSigned(n: nat)
    ensures ParseInt("-" + Decimal(n)) == Some(-(n as int))
    ensures ParseInt("+" + Decimal(n)) == Some(n)
  {
    DecimalValue(n);
    assert ("-" + Decimal(n))[1..] == Decimal(n);
    assert ("+" + Decimal(n))[1..] == Decimal(n);
  }

  // ---------------------------------------------------------------------------
  // Separators
  // ---------------------------------------------------------------------------

  /** `sep` occurs in `s` starting at position `j`. */
  predicate MatchAt(s: string, sep: string, j: nat)
  {
    j + |sep| <= |s| && s[j..j + |sep|] == sep
  }

  /** The first position at or after `i` where `sep` occurs. */
  function FindFrom(s: string, sep: string, i: nat): (r: Option<nat>)
    ensures r.Some? ==> i <= r.value && MatchAt(s, sep, r.value)
    ensures forall j: nat :: i <= j && (r.None? || j < r.value) ==> !MatchAt(s, sep, j)
    decreases |s| - i
  {
    if i + |sep| > |s| then None
    else if s[i..i + |sep|] == sep then Some(i)
    else FindFrom(s, sep, i + 1)
  }

  /** `s.find(sep)`, as an option: the first occurrence of `sep`. */
  function Find(s: string, sep: string): (r: Option<nat>)
    ensures r.Some? ==> MatchAt(s, sep, r.value) && forall j: nat :: j < r.value ==> !MatchAt(s, sep, j)
    ensures r.None? ==> forall j: nat :: !MatchAt(s, sep, j)
  {
    FindFrom(s, sep, 0)
  }

  /** `sep in s`, which is also `s.count(sep) > 0`. */
  predicate Contains(s: string, sep: string)
  {
    Find(s, sep).Some?
  }

  /** `s.split(sep)` for a non-empty separator: the pieces between the
      non-overlapping occurrences of `sep`, found left to right. */
  function Split(s: string, sep: string): (pieces: seq<string>)
    requires |sep| > 0
    ensures |pieces| >= 1
    ensures !Contains(s, sep) ==> pieces == [s]
    decreases |s|
  {
    match Find(s, sep)
    case None => [s]
    case Some(j) => [s[..j]] + Split(s[j + |sep|..], sep)
  }

  /** The first piece of a split at an occurrence of `sep` is everything
      before its first occurrence, and holds no `sep`. */
  lemma SplitHead(s: string, sep: string)
    requires |sep| > 0 && Contains(s, sep)
    ensures Find(s, sep).value <= |s|
    ensures Split(s, sep)[0] == s[..Find(s, sep).value]
    ensures !Contains(s[..Find(s, sep).value], sep)
  {
    var j := Find(s, sep).value;
    forall i: nat
      ensures !MatchAt(s[..j], sep, i)
    {
      if i + |sep| <= j {
        assert s[..j][i..i + |sep|] == s[i..i + |sep|];
        assert !MatchAt(s, sep, i);
      }
    }
  }

  /** Splitting at a known first occurrence of `sep`. */
  lemma SplitAt(a: string, b: string, sep: string)
    requires |sep| > 0 && Find(a + sep + b, sep) == Some(|a|)
    ensures Split(a + sep + b, sep) == [a] + Split(b, sep)
  {
    var s := a + sep + b;
    assert s[..|a|] == a && s[|a| + |sep|..] == b;
  }

  /** `s.replace(pat, repl)` for a non-empty `pat`: every non-overlapping
      occurrence, found left to right, replaced. */
  function Replace(s: string, pat: string, repl: string): (r: string)
    requires |pat| > 0
    ensures !Contains(s, pat) ==> r == s
    decreases |s|
  {
    match Find(s, pat)
    case None => s
    case Some(j) => s[..j] + repl + Replace(s[j + |pat|..], pat, repl)
  }

  /** `sep.join(pieces)`. */
  function Join(pieces: seq<string>, sep: string): string
  {
    if pieces == [] then []
    else if |pieces| == 1 then pieces[0]
    else pieces[0] + sep + Join(pieces[1..], sep)
  }

  /** Joining a piece in front of at least one more. */
  lemma JoinCons(head: string, tail: seq<string>, sep: string)
    requires |tail| >= 1
    ensures Join([head] + tail, sep) == head + sep + Join(tail, sep)
  {
    assert ([head] + tail)[1..] == tail;
  }

  /** A split at the first occurrence `j` of `sep`. */
  lemma SplitFirst(s: string, sep: string, j: nat)
    requires |sep| > 0 && Find(s, sep) == Some(j)
    ensures j + |sep| <= |s|
    ensures Split(s, sep) == [s[..j]] + Split(s[j + |sep|..], sep)
    ensures s == s[..j] + sep + s[j + |sep|..]
  {
    assert s == s[..j] + s[j..j + |sep|] + s[j + |sep|..];
  }

  /** Splitting at `sep` and joining with `sep` gives the string back. */
  lemma {:induction false} SplitJoin(s: string, sep: string)
    requires |sep| > 0
    ensures Join(Split(s, sep), sep) == s
    decreases |s|
  {
    match Find(s, sep)
    case None =>
    case Some(j) =>
      var rest := s[j + |sep|..];
      SplitFirst(s, sep, j);
      SplitJoin(rest, sep);
      JoinCons(s[..j], Split(rest, sep), sep);
  }

  /** Each piece of a split at `sep` holds no `sep`. */
  lemma {:induction false} SplitPiecesClean(s: string, sep: string)
    requires |sep| > 0
    ensures forall k :: 0 <= k < |Split(s, sep)| ==> !Contains(Split(s, sep)[k], sep)
    decreases |s|
  {
    match Find(s, sep)
    case None =>
    case Some(j) =>
      var rest := s[j + |sep|..];
      SplitFirst(s, sep, j);
      SplitPiecesClean(rest, sep);
      SplitHead(s, sep);
      var tail := Split(rest, sep);
      forall k | 0 <= k < |[s[..j]] + tail|
        ensures !Contains(([s[..j]] + tail)[k], sep)
      {
        if k > 0 {
          assert ([s[..j]] + tail)[k] == tail[k - 1];
        }
      }
  }

  /** `s.replace(pat, repl)` is `repl.join(s.split(pat))`. */
  lemma {:induction false} ReplaceIsJoin(s: string, pat: string, repl: string)
    requires |pat| > 0
    ensures Replace(s, pat, repl) == Join(Split(s, pat), repl)
    decreases |s|
  {
    match Find(s, pat)
    case None =>
    case Some(j) =>
      var rest := s[j + |pat|..];
      SplitFirst(s, pat, j);
      ReplaceIsJoin(rest, pat, repl);
      JoinCons(s[..j], Split(rest, pat), repl);
  }

  /** Python's `s[:-n]`: all but the last `n` characters, empty when `s` is
      shorter. */
  function DropLast(s: string, n: nat): (r: string)
    ensures |s| >= n ==> r == s[..|s| - n]
    ensures |s| < n ==> r == []
  {
    if |s| >= n then s[..|s| - n] else []
  }

  /** A character of `sep`. */
  predicate Mentions(sep: string, c: char)
  {
    exists k :: 0 <= k < |sep| && sep[k] == c
  }

  /** No occurrence of `sep` in `a + b` starts inside `a` and runs on into `b`. */
  predicate NoStraddle(a: string, b: string, sep: string)
  {
    forall j: nat :: j < |a| < j + |sep| ==> !MatchAt(a + b, sep, j)
  }

  /** `a + b` where `a` has no occurrence of `sep` and none straddles the
      seam: `sep` first occurs where it first occurs in `b`. */
  lemma FindConcat(a: string, b: string, sep: string)
    requires |sep| > 0 && !Contains(a, sep) && NoStraddle(a, b, sep)
    ensures Find(a + b, sep) == Shift(Find(b, sep), |a|)
  {
    var s := a + b;
    NoneInFront(a, b, sep);
    MatchShifted(a, b, sep);
    match Find(b, sep)
    case None =>
      forall j: nat
        ensures !MatchAt(s, sep, j)
      {
        if j >= |a| {
          assert !MatchAt(b, sep, j - |a|);
        }
      }
    case Some(m) =>
      assert MatchAt(s, sep, |a| + m);
      forall j: nat | j < |a| + m
        ensures !MatchAt(s, sep, j)
      {
        if j >= |a| {
          assert !MatchAt(b, sep, j - |a|);
        }
      }
  }

  /** `sep` does not occur in `a + b` at a position inside `a`. */
  lemma NoneInFront(a: string, b: string, sep: string)
    requires |sep| > 0 && !Contains(a, sep) && NoStraddle(a, b, sep)
    ensures forall j: nat :: j < |a| ==> !MatchAt(a + b, sep, j)
  {
    var s := a + b;
    forall j: nat | j < |a|
      ensures !MatchAt(s, sep, j)
    {
      if j + |sep| <= |a| {
        assert s[j..j + |sep|] == a[j..j + |sep|];
        assert !MatchAt(a, sep, j);
      }
    }
  }

  /** `sep` occurs in `a + b` past `a` where it occurs in `b`. */
  lemma MatchShifted(a: string, b: string, sep: string)
    ensures forall j: nat :: MatchAt(a + b, sep, |a| + j) == MatchAt(b, sep, j)
  {
    var s := a + b;
    forall j: nat
      ensures MatchAt(s, sep, |a| + j) == MatchAt(b, sep, j)
    {
      if |a| + j + |sep| <= |s| {
        assert s[|a| + j..|a| + j + |sep|] == b[j..j + |sep|];
      }
    }
  }

  /** Nothing straddles a seam followed by a character `sep` does not use. */
  lemma StraddleFirst(a: string, b: string, sep: string)
    requires |b| > 0 && !Mentions(sep, b[0])
    ensures NoStraddle(a, b, sep)
  {
    forall j: nat | j < |a| < j + |sep|
      ensures !MatchAt(a + b, sep, j)
    {
      if j + |sep| <= |a + b| {
        assert (a + b)[j..j + |sep|][|a| - j] == b[0];
      }
    }
  }

  /** Nothing straddles a seam preceded by a character `sep` does not use. */
  lemma StraddleLast(a: string, b: string, sep: string)
    requires |a| > 0 ==> !Mentions(sep, a[|a| - 1])
    ensures NoStraddle(a, b, sep)
  {
    forall j: nat | j < |a| < j + |sep|
      ensures !MatchAt(a + b, sep, j)
    {
      if j + |sep| <= |a + b| {
        assert (a + b)[j..j + |sep|][|a| - 1 - j] == a[|a| - 1];
      }
    }
  }

  /** No end of `sep` that is shorter than `sep` is also its beginning, so
      two occurrences of it never overlap. */
  predicate Borderless(sep: string)
  {
    forall k :: 0 < k < |sep| ==> sep[k..] != sep[..|sep| - k]
  }

  /** Nothing straddles a seam followed by `sep` itself, when occurrences of
      `sep` cannot overlap. */
  lemma StraddleBorderless(a: string, b: string, sep: string)
    requires Borderless(sep) && |sep| <= |b| && b[..|sep|] == sep
    ensures NoStraddle(a, b, sep)
  {
    forall j: nat | j < |a| < j + |sep|
      ensures !MatchAt(a + b, sep, j)
    {
      var k := |a| - j;
      if j + |sep| <= |a + b| {
        assert (a + b)[j..j + |sep|][k..] == b[..|sep| - k];
      }
    }
  }

  /** A string none of whose characters starts `sep` holds no `sep`, and
      no `sep` straddles its end. */
  lemma NoFirstChar(a: string, b: string, sep: string)
    requires |sep| > 0 && forall k :: 0 <= k < |a| ==> a[k] != sep[0]
    ensures !Contains(a, sep) && NoStraddle(a, b, sep)
  {
    forall j: nat
      ensures !MatchAt(a, sep, j)
    {
      if j + |sep| <= |a| {
        assert a[j..j + |sep|][0] == a[j];
      }
    }
    forall j: nat | j < |a| < j + |sep|
      ensures !MatchAt(a + b, sep, j)
    {
      if j + |sep| <= |a + b| {
        assert (a + b)[j..j + |sep|][0] == a[j];
      }
    }
  }

  /** `a + b` where `a` has no occurrence of `sep` and `b` starts with a
      character `sep` does not use: `sep` first occurs where it first occurs
      in `b`. */
  lemma FindAfter(a: string, b: string, sep: string)
    requires |sep| > 0 && !Contains(a, sep)
    requires |b| > 0 && !Mentions(sep, b[0])
    ensures Find(a + b, sep) == Shift(Find(b, sep), |a|)
  {
    StraddleFirst(a, b, sep);
    FindConcat(a, b, sep);
  }

  function Shift(r: Option<nat>, d: nat): Option<nat>
  {
    match r
    case None => None
    case Some(j) => Some(j + d)
  }

  // ---------------------------------------------------------------------------
  // Order
  // ---------------------------------------------------------------------------

  /** Python's string `<=`: code point by code point, a prefix first. */
  predicate LessEq(a: string, b: string)
    decreases |a|
  {
    a == [] || (b != [] && (a[0] < b[0] || (a[0] == b[0] && LessEq(a[1..], b[1..]))))
  }

  lemma {:induction false} LessEqTotal(a: string, b: string)
    ensures LessEq(a, b) || LessEq(b, a)
    decreases |a|
  {
    if a != [] && b != [] && a[0] == b[0] {
      LessEqTotal(a[1..], b[1..]);
    }
  }

  lemma {:induction false} LessEqReflexive(a: string)
    ensures LessEq(a, a)
    decreases |a|
  {
    if a != [] {
      LessEqReflexive(a[1..]);
    }
  }

  lemma {:induction false} LessEqTrans(a: string, b: string, c: string)
    requires LessEq(a, b) && LessEq(b, c)
    ensures LessEq(a, c)
    decreases |a|
  {
    if a != [] && a[0] == b[0] && b[0] == c[0] {
      LessEqTrans(a[1..], b[1..], c[1..]);
    }
  }

  lemma {:induction false} LessEqAntisymmetric(a: string, b: string)
    requires LessEq(a, b) && LessEq(b, a)
    ensures a == b
    decreases |a|
  {
    if a != [] {
      LessEqAntisymmetric(a[1..], b[1..]);
      assert a == [a[0]] + a[1..] && b == [b[0]] + b[1..];
    }
  }

  predicate Sorted(s: seq<string>)
  {
    forall i, j :: 0 <= i < j < |s| ==> LessEq(s[i], s[j])
  }

  /** `x` placed in the sorted list `s` before the first element above it. */
  function Insert(x: string, s: seq<string>): (r: seq<string>)
    requires Sorted(s)
    ensures multiset(r) == multiset(s) + multiset{x}
    ensures Sorted(r)
  {
    if s == [] then [x]
    else if LessEq(x, s[0]) then
      assert forall j :: 0 < j < |s| ==> LessEq(s[0], s[j]);
      InsertFront(x, s);
      [x] + s
    else
      LessEqTotal(x, s[0]);
      var rest := Insert(x, s[1..]);
      assert s == [s[0]] + s[1..];
      InsertBehind(s[0], rest, x, s[1..]);
      [s[0]] + rest
  }

  lemma InsertFront(x: string, s: seq<string>)
    requires Sorted(s) && s != [] && LessEq(x, s[0])
    ensures Sorted([x] + s)
  {
    forall j | 0 < j < |s|
      ensures LessEq(x, s[j])
    {
      LessEqTrans(x, s[0], s[j]);
    }
  }

  lemma InsertBehind(h: string, rest: seq<string>, x: string, tail: seq<string>)
    requires Sorted(rest) && LessEq(h, x)
    requires Sorted([h] + tail)
    requires multiset(rest) == multiset(tail) + multiset{x}
    ensures Sorted([h] + rest)
  {
    forall j | 0 <= j < |rest|
      ensures LessEq(h, rest[j])
    {
      assert rest[j] in multiset(rest);
      if rest[j] == x {
      } else {
        assert rest[j] in multiset(tail);
        var k :| 0 <= k < |tail| && tail[k] == rest[j];
        assert ([h] + tail)[0] == h && ([h] + tail)[k + 1] == tail[k];
      }
    }
  }

  /** `list.sort()` on strings: the same names, in ascending order. The
      order is total, so the result is the only sorted arrangement. */
  function SortStrings(s: seq<string>): (r: seq<string>)
    ensures multiset(r) == multiset(s)
    ensures Sorted(r)
  {
    if s == [] then []
    else
      assert s == s[..|s| - 1] + [s[|s| - 1]];
      Insert(s[|s| - 1], SortStrings(s[..|s| - 1]))
  }

  /** A sorted arrangement of a list is unique. */
  lemma {:induction false} SortedUnique(a: seq<string>, b: seq<string>)
    requires Sorted(a) && Sorted(b) && multiset(a) == multiset(b)
    ensures a == b
    decreases |a|
  {
    if a != [] {
      SameLeast(a, b);
      TailSorted(a);
      TailSorted(b);
      TailMultiset(a, b);
      SortedUnique(a[1..], b[1..]);
      assert a == [a[0]] + a[1..] && b == [b[0]] + b[1..];
    }
  }

  /** Two sorted arrangements of one list start with the same element. */
  lemma SameLeast(a: seq<string>, b: seq<string>)
    requires Sorted(a) && Sorted(b) && multiset(a) == multiset(b) && a != []
    ensures b != [] && a[0] == b[0]
  {
    assert a[0] in multiset(b);
    assert b[0] in multiset(a);
    var i :| 0 <= i < |b| && b[i] == a[0];
    var j :| 0 <= j < |a| && a[j] == b[0];
    if i == 0 {
      LessEqReflexive(a[0]);
    }
    if j == 0 {
      LessEqReflexive(b[0]);
    }
    LessEqAntisymmetric(a[0], b[0]);
  }

  lemma TailSorted(a: seq<string>)
    requires Sorted(a) && a != []
    ensures Sorted(a[1..])
  {
    forall p, q | 0 <= p < q < |a| - 1
      ensures LessEq(a[1..][p], a[1..][q])
    {
      assert a[1..][p] == a[p + 1] && a[1..][q] == a[q + 1];
    }
  }

  lemma TailMultiset(a: seq<string>, b: seq<string>)
    requires a != [] && b != [] && a[0] == b[0] && multiset(a) == multiset(b)
    ensures multiset(a[1..]) == multiset(b[1..])
  {
    assert a == [a[0]] + a[1..] && b == [b[0]] + b[1..];
    assert multiset(a[1..]) == multiset(a) - multiset{a[0]};
    assert multiset(b[1..]) == multiset(b) - multiset{b[0]};
  }
}
