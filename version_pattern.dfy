/** The one regular expression of new_release.py, `[0-9]+\.[0-9]+\.[0-9]+`, with a matcher
    written for it: searched for inside a line (`get_version_from_line`) and anchored as
    `^...$` (`validate_release_number`). */
module VersionPattern {
  import opened Results
  import opened PyStr

  /** From position p: a non-empty run of digits followed by a dot (`[0-9]+\.`), giving the
      position just after the dot. */
  function RunThenDot(s: string, p: nat): (r: Option<nat>)
    requires p <= |s|
    ensures r.Some? ==> p + 2 <= r.value <= |s| && s[r.value - 1] == '.'
  {
    var a := p + DigitRun(s, p);
    if a == p || a == |s| || s[a] != '.' then None else Some(a + 1)
  }

  /** End of the match of the pattern that starts at position i, if one does. Each `[0-9]+`
      takes the whole run of digits in front of it: giving a digit back would leave a digit
      where the pattern needs a dot, so backtracking finds no other match, and this greedy end
      is the one Python's engine reports. */
  function MatchEnd(s: string, i: nat): (r: Option<nat>)
    requires i <= |s|
    ensures r.Some? ==> i < r.value <= |s| && IsDigit(s[r.value - 1])
  {
    match RunThenDot(s, i)
    case None => None
    case Some(p) =>
      match RunThenDot(s, p)
      case None => None
      case Some(q) =>
        var c := q + DigitRun(s, q);
        if c == q then None else Some(c)
  }

  /** The whole of s matches the pattern. */
  predicate IsVersion(s: string)
  {
    MatchEnd(s, 0) == Some(|s|)
  }

  /** `[0-9]+\.` found inside the slice s[i..e] is found in s at the same place. */
  lemma SliceRunThenDot(s: string, i: nat, e: nat, p: nat, r: nat)
    requires i + p <= e <= |s|
    requires RunThenDot(s[i..e], p) == Some(r)
    ensures RunThenDot(s, i + p) == Some(i + r)
  {
    DigitRunSlice(s, i, e, p);
  }

  lemma SliceRunThenDotStart(s: string, i: nat, e: nat, r: nat)
    requires i <= e <= |s|
    requires RunThenDot(s[i..e], 0) == Some(r)
    ensures RunThenDot(s, i) == Some(i + r)
  {
    SliceRunThenDot(s, i, e, 0, r);
  }

  /** `[0-9]+\.` found in s at p, with its dot before e, is found inside the slice s[i..e]. */
  lemma RunThenDotInSlice(s: string, i: nat, e: nat, p: nat, r: nat)
    requires i <= p <= e <= |s| && r <= e
    requires RunThenDot(s, p) == Some(r)
    ensures RunThenDot(s[i..e], p - i) == Some(r - i)
  {
    DigitRunSlice(s, i, e, p - i);
  }

  lemma RunThenDotInSliceStart(s: string, i: nat, e: nat, r: nat)
    requires i <= e <= |s| && r <= e
    requires RunThenDot(s, i) == Some(r)
    ensures RunThenDot(s[i..e], 0) == Some(r - i)
  {
    RunThenDotInSlice(s, i, e, i, r);
  }

  /** The run of digits at p inside the slice s[i..e] is the run at p in s, cut off at e. */
  lemma DigitRunInSlice(s: string, i: nat, e: nat, p: nat)
    requires i <= p <= e <= |s|
    ensures var d := DigitRun(s, p);
            DigitRun(s[i..e], p - i) == if p + d <= e then d else e - p
  {
    DigitRunSlice(s, i, e, p - i);
  }

  /** The match starting at i ends at e exactly when the slice s[i..e] matches the pattern in
      full and no digit follows it; a slice from i that matches in full ends at or before the
      match's end. */
  lemma MatchSlice(s: string, i: nat, e: nat)
    requires i <= e <= |s|
    ensures IsVersion(s[i..e]) ==> MatchEnd(s, i).Some? && e <= MatchEnd(s, i).value
    ensures IsVersion(s[i..e]) && (e == |s| || !IsDigit(s[e])) ==> MatchEnd(s, i) == Some(e)
    ensures MatchEnd(s, i) == Some(e) ==> IsVersion(s[i..e]) && (e == |s| || !IsDigit(s[e]))
  {
    if IsVersion(s[i..e]) {
      FullSliceExtends(s, i, e);
    }
    if MatchEnd(s, i) == Some(e) {
      MatchIsFullSlice(s, i, e);
    }
  }

  lemma FullSliceExtends(s: string, i: nat, e: nat)
    requires i <= e <= |s|
    requires IsVersion(s[i..e])
    ensures MatchEnd(s, i).Some? && e <= MatchEnd(s, i).value
    ensures e == |s| || !IsDigit(s[e]) ==> MatchEnd(s, i) == Some(e)
  {
    var q := FullSliceLastRun(s, i, e);
    if e == |s| || !IsDigit(s[e]) {
      DigitRunEndsAt(s, q, e);
    }
  }

  /** The match at `i` of a string holding a version at `s[i..e]` ends with the digit run at
      `q`, which starts inside the slice and reaches at least its end. */
  lemma FullSliceLastRun(s: string, i: nat, e: nat) returns (q: nat)
    requires i <= e <= |s|
    requires IsVersion(s[i..e])
    ensures i <= q <= e && e <= q + DigitRun(s, q)
    ensures MatchEnd(s, i) == Some(q + DigitRun(s, q))
  {
    var t := s[i..e];
    MatchEndParts(t, 0);
    var pt := RunThenDot(t, 0).value;
    var qt := RunThenDot(t, pt).value;
    SliceRunThenDotStart(s, i, e, pt);
    SliceRunThenDot(s, i, e, pt, qt);
    DigitRunSlice(s, i, e, qt);
    MatchEndOf(s, i, i + pt, i + qt);
    q := i + qt;
  }

  /** The text a match covers matches the pattern in full, and no digit follows it. */
  lemma MatchIsFullSlice(s: string, i: nat, e: nat)
    requires i <= e <= |s|
    requires MatchEnd(s, i) == Some(e)
    ensures IsVersion(s[i..e])
    ensures e == |s| || !IsDigit(s[e])
  {
    var t := s[i..e];
    var p := RunThenDot(s, i).value;
    var q := RunThenDot(s, p).value;
    assert e == q + DigitRun(s, q) && q < e;
    RunThenDotInSliceStart(s, i, e, p);
    RunThenDotInSlice(s, i, e, p, q);
    DigitRunInSlice(s, i, e, q);
    MatchEndOf(t, 0, p - i, q - i);
  }

  /** The pieces of a match at i: two `[0-9]+\.` and a final non-empty run of digits. */
  lemma MatchEndParts(s: string, i: nat)
    requires i <= |s| && MatchEnd(s, i).Some?
    ensures RunThenDot(s, i).Some? && RunThenDot(s, RunThenDot(s, i).value).Some?
    ensures var q := RunThenDot(s, RunThenDot(s, i).value).value;
            DigitRun(s, q) > 0 && MatchEnd(s, i).value == q + DigitRun(s, q)
  {
  }

  /** The match at i is put together from its two `[0-9]+\.` pieces and the final run. */
  lemma MatchEndOf(s: string, i: nat, p: nat, q: nat)
    requires i <= |s| && RunThenDot(s, i) == Some(p) && RunThenDot(s, p) == Some(q)
    ensures DigitRun(s, q) > 0 ==> MatchEnd(s, i) == Some(q + DigitRun(s, q))
    ensures DigitRun(s, q) == 0 ==> MatchEnd(s, i) == None
  {
  }

  /** The end of the pattern's match at each start position 0..|s|, in order. */
  function MatchEnds(s: string): (ms: seq<Option<nat>>)
    ensures |ms| == |s| + 1 && forall j :: 0 <= j <= |s| ==> ms[j] == MatchEnd(s, j)
  {
    seq(|s| + 1, j requires 0 <= j <= |s| => MatchEnd(s, j))
  }

  /** The first position from i on at which `ms` holds a match, with that match's end. */
  function FirstMatch(ms: seq<Option<nat>>, i: nat): (r: Option<(nat, nat)>)
    requires i <= |ms|
    ensures r.Some? ==> i <= r.value.0 < |ms| && ms[r.value.0] == Some(r.value.1)
    ensures r.Some? ==> forall j :: i <= j < r.value.0 ==> ms[j].None?
    ensures r.None? ==> forall j :: i <= j < |ms| ==> ms[j].None?
    decreases |ms| - i
  {
    if i == |ms| then None
    else match ms[i]
      case Some(k) => Some((i, k))
      case None => FirstMatch(ms, i + 1)
  }

  /** `re.search(pattern, s)` from position i on: the pattern is tried at each start position
      in turn, and the first one at which it matches is reported with the end of its match. */
  function SearchFrom(s: string, i: nat): (r: Option<(nat, nat)>)
    requires i <= |s|
  {
    FirstMatch(MatchEnds(s), i)
  }

  /** The search reports a match, its start is the first position from i on at which the pattern
      matches, and its end is that match's end; it reports nothing when no position matches. */
  lemma SearchFromFirst(s: string, i: nat)
    requires i <= |s|
    ensures SearchFrom(s, i).Some? ==>
            var (j, k) := SearchFrom(s, i).value;
            i <= j < k <= |s| && MatchEnd(s, j) == Some(k)
    ensures SearchFrom(s, i).Some? ==> forall j :: i <= j < SearchFrom(s, i).value.0 ==> MatchEnd(s, j).None?
    ensures SearchFrom(s, i).None? ==> forall j :: i <= j <= |s| ==> MatchEnd(s, j).None?
  {
    var ms := MatchEnds(s);
    var r := FirstMatch(ms, i);
    if r.Some? {
      assert ms[r.value.0] == MatchEnd(s, r.value.0);
      forall j | i <= j < r.value.0 ensures MatchEnd(s, j).None? {
        assert ms[j] == MatchEnd(s, j);
      }
    } else {
      forall j | i <= j <= |s| ensures MatchEnd(s, j).None? {
        assert ms[j] == MatchEnd(s, j);
      }
    }
  }

  /** The search from i finds the match at e when none starts between i and e. */
  lemma SearchFromIs(s: string, i: nat, e: nat, k: nat)
    requires i <= e <= |s| && MatchEnd(s, e) == Some(k)
    requires forall j :: i <= j < e ==> MatchEnd(s, j).None?
    ensures SearchFrom(s, i) == Some((e, k))
  {
    var ms := MatchEnds(s);
    assert ms[e] == Some(k);
    assert forall j :: i <= j < e ==> ms[j].None?;
    FirstMatchIs(ms, i, e, k);
  }

  lemma {:induction false} FirstMatchIs(ms: seq<Option<nat>>, i: nat, e: nat, k: nat)
    requires i <= e < |ms| && ms[e] == Some(k)
    requires forall j :: i <= j < e ==> ms[j].None?
    ensures FirstMatch(ms, i) == Some((e, k))
    decreases e - i
  {
    if i < e {
      FirstMatchIs(ms, i + 1, e, k);
    }
  }

  /** `get_version_from_line`: the text of the first match of the pattern in the line, or
      None when `re.search` finds nothing (its AttributeError is caught). */
  function GetVersionFromLine(line: string): Option<string>
  {
    match SearchFrom(line, 0)
    case Some((i, k)) => Some(line[i..k])
    case None => None
  }

  /** The substring line[i..k] is the match `re.search` reports: it matches the pattern, no
      substring starting further left does, and none starting at i is longer. */
  ghost predicate LeftmostLongest(line: string, i: nat, k: nat)
    requires i <= k <= |line|
  {
    IsVersion(line[i..k]) &&
    (forall j, e :: 0 <= j < i && j <= e <= |line| ==> !IsVersion(line[j..e])) &&
    (forall e :: k < e <= |line| ==> !IsVersion(line[i..e]))
  }

  /** What get_version_from_line finds is the leftmost, longest substring that is a version. */
  lemma GetVersionFromLineFound(line: string)
    requires GetVersionFromLine(line).Some?
    ensures IsVersion(GetVersionFromLine(line).value)
    ensures exists i, k :: 0 <= i <= k <= |line| && line[i..k] == GetVersionFromLine(line).value &&
                           LeftmostLongest(line, i, k)
  {
    SearchFromFirst(line, 0);
    var (i, k) := SearchFrom(line, 0).value;
    MatchSlice(line, i, k);
    forall j, e | 0 <= j < i && j <= e <= |line| ensures !IsVersion(line[j..e]) {
      MatchSlice(line, j, e);
    }
    forall e | k < e <= |line| ensures !IsVersion(line[i..e]) {
      MatchSlice(line, i, e);
    }
    assert LeftmostLongest(line, i, k);
  }

  /** get_version_from_line returns None exactly when no substring of the line is a version. */
  lemma GetVersionFromLineNone(line: string)
    ensures GetVersionFromLine(line).None? <==>
            forall i, e :: 0 <= i <= e <= |line| ==> !IsVersion(line[i..e])
  {
    SearchFromFirst(line, 0);
    if GetVersionFromLine(line).None? {
      forall i, e | 0 <= i <= e <= |line| ensures !IsVersion(line[i..e]) {
        MatchSlice(line, i, e);
      }
    } else {
      var (i, k) := SearchFrom(line, 0).value;
      MatchSlice(line, i, k);
    }
  }

  /** `validate_release_number`: `re.compile('^pattern$').match(version)`. Python's `$` also
      matches just before a newline that ends the string, so one final "\n" is accepted; None
      is not a string, and `re` raises TypeError for it. */
  function ValidateReleaseNumber(version: Option<string>): (r: Outcome)
    ensures r == Pass <==>
            version.Some? &&
            (IsVersion(version.value) ||
             (|version.value| > 0 && version.value[|version.value| - 1] == '\n' &&
              IsVersion(version.value[..|version.value| - 1])))
    ensures version.None? ==> r == Fail(TypeError)
    ensures version.Some? && r != Pass ==>
            r == Fail(NewReleaseError("Invalid release version: " + version.value))
  {
    match version
    case None => Fail(TypeError)
    case Some(s) =>
      var m := MatchEnd(s, 0);
      BeforeFinalNewline(s);
      if m == Some(|s|) || (|s| > 0 && m == Some(|s| - 1) && s[|s| - 1] == '\n') then Pass
      else Fail(NewReleaseError("Invalid release version: " + s))
  }

  /** The match from the start ends just before a final newline exactly when the text before
      that newline is a version. */
  lemma BeforeFinalNewline(s: string)
    ensures (|s| > 0 && MatchEnd(s, 0) == Some(|s| - 1) && s[|s| - 1] == '\n') <==>
            (|s| > 0 && s[|s| - 1] == '\n' && IsVersion(s[..|s| - 1]))
  {
    if |s| > 0 {
      MatchSlice(s, 0, |s| - 1);
      assert s[0..|s| - 1] == s[..|s| - 1];
    }
  }

  /** For a string without a newline, validate_release_number accepts exactly the versions. */
  lemma ValidateReleaseNumberPlain(s: string)
    requires forall k :: 0 <= k < |s| ==> s[k] != '\n'
    ensures ValidateReleaseNumber(Some(s)) == Pass <==> IsVersion(s)
  {
  }

  /** Whatever get_version_from_line returns passes validate_release_number. */
  lemma GetVersionFromLineValid(line: string)
    requires GetVersionFromLine(line).Some?
    ensures ValidateReleaseNumber(GetVersionFromLine(line)) == Pass
  {
    SearchFromFirst(line, 0);
    var (i, k) := SearchFrom(line, 0).value;
    MatchSlice(line, i, k);
  }

  /** A run of digits ended by a non-digit or by the end of the string is a whole run. */
  lemma DigitRunAt(pre: string, x: string, rest: string)
    requires AllDigits(x)
    requires |rest| == 0 || !IsDigit(rest[0])
    ensures DigitRun(pre + x + rest, |pre|) == |x|
  {
    var s := pre + x + rest;
    assert forall q :: |pre| <= q < |pre| + |x| ==> s[q] == x[q - |pre|];
    DigitRunIs(s, |pre|, |x|);
  }

  /** A version is three non-empty runs of digits joined by single dots: splitting it on '.'
      gives three such runs, and joining three such runs gives a version. */
  lemma VersionParts(s: string)
    ensures IsVersion(s) <==>
            var p := Split(s, '.');
            |p| == 3 && IsDigits(p[0]) && IsDigits(p[1]) && IsDigits(p[2])
  {
    if IsVersion(s) {
      var x, y, z := VersionRuns(s);
      DottedVersion(x, y, z);
    } else {
      var p := Split(s, '.');
      if |p| == 3 && IsDigits(p[0]) && IsDigits(p[1]) && IsDigits(p[2]) {
        SplitIsVersion(s);
        assert false;
      }
    }
  }

  /** A string that splits on '.' into three runs of digits is a version. */
  lemma SplitIsVersion(s: string)
    requires var p := Split(s, '.');
             |p| == 3 && IsDigits(p[0]) && IsDigits(p[1]) && IsDigits(p[2])
    ensures IsVersion(s)
  {
    var p := Split(s, '.');
    JoinSplit(s, '.');
    assert p == [p[0], p[1], p[2]];
    DigitsJoin(p[0], p[1], p[2]);
  }

  /** The three runs of digits of a version and the dots between them. */
  lemma VersionRuns(s: string) returns (x: string, y: string, z: string)
    requires IsVersion(s)
    ensures IsDigits(x) && IsDigits(y) && IsDigits(z)
    ensures s == x + "." + y + "." + z
  {
    MatchEndParts(s, 0);
    var p := RunThenDot(s, 0).value;
    var q := RunThenDot(s, p).value;
    RunIsDigits(s, 0);
    RunIsDigits(s, p);
    RunIsDigits(s, q);
    x, y, z := s[0..p - 1], s[p..q - 1], s[q..|s|];
    CutAtDots(s, p, q);
  }

  /** A non-empty run of digits, taken out of its string. */
  lemma RunIsDigits(s: string, p: nat)
    requires p <= |s|
    ensures DigitRun(s, p) > 0 ==> IsDigits(s[p..p + DigitRun(s, p)])
  {
    var t := s[p..p + DigitRun(s, p)];
    assert forall k :: 0 <= k < |t| ==> t[k] == s[p + k];
  }

  /** A string cut at two dots is the three pieces with the dots between them. */
  lemma CutAtDots(s: string, p: nat, q: nat)
    requires 0 < p < q <= |s| && s[p - 1] == '.' && s[q - 1] == '.'
    ensures s == s[0..p - 1] + "." + s[p..q - 1] + "." + s[q..|s|]
  {
    assert s[0..p] == s[0..p - 1] + ".";
    assert s[0..q] == s[0..p] + s[p..q - 1] + ".";
    assert s == s[0..q] + s[q..|s|];
  }

  /** A version is its three parts with a dot between each two. */
  lemma VersionDotted(s: string)
    requires IsVersion(s)
    ensures var p := Split(s, '.');
            |p| == 3 && IsDigits(p[0]) && IsDigits(p[1]) && IsDigits(p[2]) &&
            s == p[0] + "." + p[1] + "." + p[2]
  {
    VersionParts(s);
    var p := Split(s, '.');
    JoinSplit(s, '.');
    assert p == [p[0], p[1], p[2]];
    DigitsJoin(p[0], p[1], p[2]);
  }

  /** Three runs of digits with a dot between each two form a version, and splitting it on
      '.' gives the runs back. */
  lemma DottedVersion(x: string, y: string, z: string)
    requires IsDigits(x) && IsDigits(y) && IsDigits(z)
    ensures IsVersion(x + "." + y + "." + z)
    ensures Split(x + "." + y + "." + z, '.') == [x, y, z]
  {
    DigitsJoin(x, y, z);
  }

  /** Three runs of digits joined by dots form a version whose split gives the runs back. */
  lemma DigitsJoin(x: string, y: string, z: string)
    requires IsDigits(x) && IsDigits(y) && IsDigits(z)
    ensures Join([x, y, z], '.') == x + "." + y + "." + z
    ensures IsVersion(Join([x, y, z], '.'))
    ensures Split(Join([x, y, z], '.'), '.') == [x, y, z]
  {
    var s := x + "." + y + "." + z;
    assert Join([x, y, z], '.') == s by {
      assert [x, y, z][1..] == [y, z];
      assert [y, z][1..] == [z];
      assert Join([z], '.') == z;
      assert Join([y, z], '.') == y + "." + z;
    }
    DigitsVersion(x, y, z);
    forall k, q | 0 <= k < 3 && 0 <= q < |[x, y, z][k]| ensures [x, y, z][k][q] != '.' {
      assert IsDigit([x, y, z][k][q]);
    }
    SplitJoin([x, y, z], '.');
  }

  lemma DigitsVersion(x: string, y: string, z: string)
    requires IsDigits(x) && IsDigits(y) && IsDigits(z)
    ensures IsVersion(x + "." + y + "." + z)
  {
    var s := x + "." + y + "." + z;
    assert s == [] + x + ("." + y + "." + z);
    DigitRunAt([], x, "." + y + "." + z);
    assert RunThenDot(s, 0) == Some(|x| + 1);
    assert s == (x + ".") + y + ("." + z);
    DigitRunAt(x + ".", y, "." + z);
    assert RunThenDot(s, |x| + 1) == Some(|x| + |y| + 2);
    assert s == (x + "." + y + ".") + z + [];
    DigitRunAt(x + "." + y + ".", z, []);
  }

  /** A version with no digit before it, and no digit right after it, is what
      get_version_from_line finds in the line. */
  lemma VersionInLine(pre: string, version: string, post: string)
    requires NoDigit(pre) && IsVersion(version)
    requires |post| == 0 || !IsDigit(post[0])
    ensures GetVersionFromLine(pre + version + post) == Some(version)
  {
    var s := pre + version + post;
    var i: nat, e: nat := |pre|, |pre| + |version|;
    assert s[i..e] == version;
    assert MatchEnd(s, i) == Some(e) by {
      assert e == |s| || s[e] == post[0];
      MatchSlice(s, i, e);
    }
    assert forall j :: 0 <= j < i ==> MatchEnd(s, j).None? by {
      forall j | 0 <= j < i ensures MatchEnd(s, j).None? {
        assert s[j] == pre[j];
        assert DigitRun(s, j) == 0;
      }
    }
    SearchFromIs(s, 0, i, e);
  }
}
