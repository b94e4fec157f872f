/** The version bump of new_release.py: class NewRelease reads the current version from the
    manifest `setup.py`, computes the next semantic version for a bump, rewrites the manifest's
    version line, and commits and tags the result in git. The manifest is modelled as the list
    of its lines and the repository as the list of git calls made on it. */
module Release {
  import opened Results
  import opened PyStr
  import opened VersionPattern

  /** The bumps the program accepts (`__BUMP_VERSIONS`). */
  const BumpVersions: seq<string> := ["major", "minor", "patch"]

  /** The manifest the program reads and rewrites (`__SETUP_FILE`). */
  const SetupFile: string := "setup.py"

  /** The text that marks the manifest line the current version is read from. */
  const VersionKey: string := "version="

  /** The message of the NewReleaseError for an unknown bump, with the list as Python prints it. */
  const InvalidBumpMessage: string := "Not a valid release. Should be one of ['major', 'minor', 'patch']"

  /** `validate_release`: only the three bumps pass. */
  function ValidateRelease(release: string): (r: Outcome)
    ensures r == Pass <==> release == "major" || release == "minor" || release == "patch"
    ensures r != Pass ==> r == Fail(NewReleaseError(InvalidBumpMessage))
  {
    if release in BumpVersions then Pass else Fail(NewReleaseError(InvalidBumpMessage))
  }

  /** `version.split('.')` for a version: its major, minor and patch text. */
  function Components(version: string): (c: seq<string>)
    requires IsVersion(version)
    ensures |c| == 3 && IsDigits(c[0]) && IsDigits(c[1]) && IsDigits(c[2])
  {
    VersionParts(version);
    Split(version, '.')
  }

  /** The numbers a version stands for, as `int()` reads its three parts. */
  function VersionNumber(version: string): (nat, nat, nat)
    requires IsVersion(version)
  {
    var c := Components(version);
    (Int(c[0]), Int(c[1]), Int(c[2]))
  }

  /** Strict (major, minor, patch) order. */
  predicate Precedes(a: (nat, nat, nat), b: (nat, nat, nat))
  {
    a.0 < b.0 || (a.0 == b.0 && (a.1 < b.1 || (a.1 == b.1 && a.2 < b.2)))
  }

  /** `next_version`: the version after `current` for a bump, printed by `'{}.{}.{}'.format`.
      The bumped part is `int()` plus one, printed by `str()`; the parts to its right become 0;
      the parts to its left keep their text. Any other release leaves all three parts as they
      are. (The source's three `if`s exclude each other, since they test one value.) */
  function NextVersion(current: string, release: string): string
    requires IsVersion(current)
  {
    var c := Components(current);
    Bump(c[0], c[1], c[2], release)
  }

  /** The formatted result of `next_version` for the parts major, minor and patch. */
  function Bump(major: string, minor: string, patch: string, release: string): string
    requires IsDigits(major) && IsDigits(minor) && IsDigits(patch)
  {
    if release == "major" then Str(Int(major) + 1) + "." + "0" + "." + "0"
    else if release == "minor" then major + "." + Str(Int(minor) + 1) + "." + "0"
    else if release == "patch" then major + "." + minor + "." + Str(Int(patch) + 1)
    else major + "." + minor + "." + patch
  }

  /** Three runs of digits joined by dots form a version whose parts are those runs. */
  lemma ComponentsOf(x: string, y: string, z: string)
    requires IsDigits(x) && IsDigits(y) && IsDigits(z)
    ensures IsVersion(x + "." + y + "." + z)
    ensures Components(x + "." + y + "." + z) == [x, y, z]
  {
    DottedVersion(x, y, z);
  }

  /** The three bump names differ (in their first letters). */
  lemma BumpsDistinct()
    ensures "major" != "minor" && "major" != "patch" && "minor" != "patch"
  {
    assert "major"[1] != "minor"[1] && "major"[0] != "patch"[0] && "minor"[0] != "patch"[0];
  }

  /** A major bump adds one to the major number and resets minor and patch to 0. */
  lemma NextMajor(current: string)
    requires IsVersion(current)
    ensures var next := NextVersion(current, "major");
            IsVersion(next) &&
            Components(next) == [Str(VersionNumber(current).0 + 1), "0", "0"] &&
            VersionNumber(next) == (VersionNumber(current).0 + 1, 0, 0)
  {
    BumpsDistinct();
    var c := Components(current);
    var bumped := Str(Int(c[0]) + 1);
    var next := NextVersion(current, "major");
    assert next == bumped + "." + "0" + "." + "0";
    ComponentsOf(bumped, "0", "0");
    assert VersionNumber(next) == (Int(bumped), Int("0"), Int("0"));
    assert VersionNumber(current).0 == Int(c[0]);
  }

  /** A minor bump keeps the major text, adds one to the minor number and resets patch to 0. */
  lemma NextMinor(current: string)
    requires IsVersion(current)
    ensures var next := NextVersion(current, "minor");
            IsVersion(next) &&
            Components(next) == [Components(current)[0], Str(VersionNumber(current).1 + 1), "0"] &&
            VersionNumber(next) == (VersionNumber(current).0, VersionNumber(current).1 + 1, 0)
  {
    BumpsDistinct();
    var c := Components(current);
    var bumped := Str(Int(c[1]) + 1);
    var next := NextVersion(current, "minor");
    assert next == c[0] + "." + bumped + "." + "0";
    ComponentsOf(c[0], bumped, "0");
    assert VersionNumber(next) == (Int(c[0]), Int(bumped), Int("0"));
    assert VersionNumber(current) == (Int(c[0]), Int(c[1]), Int(c[2]));
  }

  /** A patch bump keeps the major and minor text and adds one to the patch number. */
  lemma NextPatch(current: string)
    requires IsVersion(current)
    ensures var next := NextVersion(current, "patch");
            IsVersion(next) &&
            Components(next) == [Components(current)[0], Components(current)[1],
                                 Str(VersionNumber(current).2 + 1)] &&
            VersionNumber(next) == (VersionNumber(current).0, VersionNumber(current).1,
                                    VersionNumber(current).2 + 1)
  {
    BumpsDistinct();
    var c := Components(current);
    var bumped := Str(Int(c[2]) + 1);
    var next := NextVersion(current, "patch");
    assert next == c[0] + "." + c[1] + "." + bumped;
    ComponentsOf(c[0], c[1], bumped);
    assert VersionNumber(next) == (Int(c[0]), Int(c[1]), Int(bumped));
    assert VersionNumber(current) == (Int(c[0]), Int(c[1]), Int(c[2]));
  }

  /** Any release other than the three bumps gives the current version back unchanged. */
  lemma NextOther(current: string, release: string)
    requires IsVersion(current)
    requires release !in BumpVersions
    ensures NextVersion(current, release) == current
  {
    assert release != "major" && release != "minor" && release != "patch";
    VersionDotted(current);
    var c := Components(current);
    assert current == c[0] + "." + c[1] + "." + c[2];
  }

  /** The bumps written out on the text of a version `x.y.z`: a major bump gives
      `str(int(x) + 1).0.0`, a minor bump `x.str(int(y) + 1).0`, a patch bump
      `x.y.str(int(z) + 1)`. */
  lemma MajorText(x: string, y: string, z: string)
    requires IsDigits(x) && IsDigits(y) && IsDigits(z)
    ensures IsVersion(x + "." + y + "." + z)
    ensures NextVersion(x + "." + y + "." + z, "major") == Str(Int(x) + 1) + "." + "0" + "." + "0"
  {
    BumpsDistinct();
    ComponentsOf(x, y, z);
  }

  lemma MinorText(x: string, y: string, z: string)
    requires IsDigits(x) && IsDigits(y) && IsDigits(z)
    ensures IsVersion(x + "." + y + "." + z)
    ensures NextVersion(x + "." + y + "." + z, "minor") == x + "." + Str(Int(y) + 1) + "." + "0"
  {
    BumpsDistinct();
    ComponentsOf(x, y, z);
  }

  lemma PatchText(x: string, y: string, z: string)
    requires IsDigits(x) && IsDigits(y) && IsDigits(z)
    ensures IsVersion(x + "." + y + "." + z)
    ensures NextVersion(x + "." + y + "." + z, "patch") == x + "." + y + "." + Str(Int(z) + 1)
  {
    BumpsDistinct();
    ComponentsOf(x, y, z);
  }

  /** Every bump gives a valid version strictly after the current one. */
  lemma NextVersionIncreases(current: string, release: string)
    requires IsVersion(current)
    requires ValidateRelease(release) == Pass
    ensures IsVersion(NextVersion(current, release))
    ensures Precedes(VersionNumber(current), VersionNumber(NextVersion(current, release)))
  {
    if release == "major" {
      NextMajor(current);
    } else if release == "minor" {
      NextMinor(current);
    } else {
      NextPatch(current);
    }
  }

  /** Bumping is not idempotent: bumping the bumped version again moves it on once more. */
  lemma BumpTwiceDiffers(current: string, release: string)
    requires IsVersion(current)
    requires ValidateRelease(release) == Pass
    ensures IsVersion(NextVersion(current, release))
    ensures NextVersion(NextVersion(current, release), release) != NextVersion(current, release)
  {
    NextVersionIncreases(current, release);
    NextVersionIncreases(NextVersion(current, release), release);
  }

  /** The message of the release commit (`update_git`). */
  function CommitMessage(version: string): string
  {
    "New release: v" + version
  }

  /** The name of the release tag (`update_git`). */
  function TagName(version: string): string
  {
    "v" + version
  }

  /** A call the program makes on its git repository. */
  datatype GitCall = Add(path: string) | Commit(message: string) | CreateTag(name: string)

  /** Index of the first line that contains `version=`, or |lines| when none does. */
  function VersionLineIndex(lines: seq<string>): (k: nat)
    ensures k <= |lines|
    ensures k < |lines| ==> Contains(lines[k], VersionKey)
    ensures forall j :: 0 <= j < k ==> !Contains(lines[j], VersionKey)
    decreases |lines|
  {
    if |lines| == 0 then 0
    else if Contains(lines[0], VersionKey) then 0
    else 1 + VersionLineIndex(lines[1..])
  }

  /** The version found on the first `version=` line, or None when there is no such line or
      no version on it. */
  function FoundVersion(lines: seq<string>): Option<string>
  {
    var k := VersionLineIndex(lines);
    if k < |lines| then GetVersionFromLine(lines[k]) else None
  }

  /** What `extract_current_version` returns or raises for a manifest: the version found on
      the first `version=` line, checked by validate_release_number. */
  function CurrentVersionOf(lines: seq<string>): Result<string>
  {
    Validated(FoundVersion(lines))
  }

  /** The version found, once validate_release_number has passed it, or the error it raised. */
  function Validated(found: Option<string>): Result<string>
  {
    match ValidateReleaseNumber(found)
    case Fail(err) => Err(err)
    case Pass => Ok(found.value)
  }

  /** The manifest yields a version exactly when its first `version=` line has a match; the
      version is that match and is valid; otherwise the failure is the TypeError of handing None
      to `re`, never a NewReleaseError. */
  lemma CurrentVersionOutcome(lines: seq<string>)
    ensures var k := VersionLineIndex(lines);
            CurrentVersionOf(lines).Ok? <==> k < |lines| && GetVersionFromLine(lines[k]).Some?
    ensures var k := VersionLineIndex(lines);
            CurrentVersionOf(lines).Ok? ==>
              IsVersion(CurrentVersionOf(lines).value) &&
              Some(CurrentVersionOf(lines).value) == GetVersionFromLine(lines[k])
    ensures CurrentVersionOf(lines).Err? ==> CurrentVersionOf(lines).error == TypeError
  {
    var k := VersionLineIndex(lines);
    if k < |lines| && GetVersionFromLine(lines[k]).Some? {
      GetVersionFromLineFound(lines[k]);
      GetVersionFromLineValid(lines[k]);
    }
  }

  /** The three properties in VersionLineIndex's contract single out its value. */
  lemma VersionLineIndexIs(lines: seq<string>, k: nat)
    requires k <= |lines|
    requires k < |lines| ==> Contains(lines[k], VersionKey)
    requires forall j :: 0 <= j < k ==> !Contains(lines[j], VersionKey)
    ensures VersionLineIndex(lines) == k
  {
  }

  /** Only the lines up to the first `version=` line matter: a manifest that agrees with
      `lines` up to and including that line, whatever follows, gives the same result. */
  lemma CurrentVersionIgnoresLaterLines(lines: seq<string>, other: seq<string>)
    requires VersionLineIndex(lines) < |lines|
    requires VersionLineIndex(lines) < |other|
    requires other[..VersionLineIndex(lines) + 1] == lines[..VersionLineIndex(lines) + 1]
    ensures CurrentVersionOf(other) == CurrentVersionOf(lines)
  {
    var k := VersionLineIndex(lines);
    SamePrefixSameIndex(lines, other, k);
    SameVersionLine(other, lines, k);
  }

  /** Two manifests whose first `version=` line is the same line at the same index give the
      same current version. */
  lemma SameVersionLine(a: seq<string>, b: seq<string>, k: nat)
    requires VersionLineIndex(a) == k < |a| && VersionLineIndex(b) == k < |b| && a[k] == b[k]
    ensures CurrentVersionOf(a) == CurrentVersionOf(b)
  {
    assert FoundVersion(a) == FoundVersion(b);
  }

  /** A manifest that agrees with `lines` up to and including that line has its first
      `version=` line at the same index. */
  lemma SamePrefixSameIndex(lines: seq<string>, other: seq<string>, k: nat)
    requires VersionLineIndex(lines) == k < |lines| && k < |other|
    requires other[..k + 1] == lines[..k + 1]
    ensures VersionLineIndex(other) == k && other[k] == lines[k]
  {
    assert other[k] == other[..k + 1][k];
    forall j | 0 <= j < k ensures !Contains(other[j], VersionKey) {
      assert other[j] == other[..k + 1][j];
    }
    VersionLineIndexIs(other, k);
  }

  /** `extract_current_version`: scan the lines for the first one containing `version=`, take
      the version found on it, and validate what was found. */
  method ExtractCurrentVersion(lines: seq<string>) returns (r: Result<string>)
    ensures r == CurrentVersionOf(lines)
  {
    var current: Option<string> := None;
    var i := 0;
    while i < |lines|
      invariant 0 <= i <= |lines|
      invariant forall j :: 0 <= j < i ==> !Contains(lines[j], VersionKey)
      invariant current == None
    {
      if Contains(lines[i], VersionKey) {
        current := GetVersionFromLine(lines[i]);
        break;
      }
      i := i + 1;
    }
    VersionLineIndexIs(lines, i);
    match ValidateReleaseNumber(current)
    case Fail(err) =>
      r := Err(err);
    case Pass =>
      r := Ok(current.value);
  }

  /** The exact text of the manifest line for a version: `version='<version>',`. */
  function SearchString(version: string): string
  {
    "version='" + version + "',"
  }

  /** One line of `update_setup_file`: a line whose stripped text is exactly the current version
      line has the current version replaced by the next; any other line is kept. */
  function RewriteLine(line: string, current: string, next: string): string
    requires IsVersion(current)
  {
    if Strip(line) == SearchString(current) then Replace(line, current, next) else line
  }

  /** The manifest `update_setup_file` writes back: every line passed through RewriteLine. */
  function Rewritten(lines: seq<string>, current: string, next: string): seq<string>
    requires IsVersion(current)
    decreases |lines|
  {
    if |lines| == 0 then [] else [RewriteLine(lines[0], current, next)] + Rewritten(lines[1..], current, next)
  }

  /** The rewritten manifest has the same number of lines, and line k of it comes from line k. */
  lemma {:induction false} RewrittenAt(lines: seq<string>, current: string, next: string)
    requires IsVersion(current)
    ensures |Rewritten(lines, current, next)| == |lines|
    ensures forall k :: 0 <= k < |lines| ==>
              Rewritten(lines, current, next)[k] == RewriteLine(lines[k], current, next)
    decreases |lines|
  {
    if |lines| > 0 {
      RewrittenAt(lines[1..], current, next);
    }
  }

  lemma VersionStartsWithDigit(version: string)
    requires IsVersion(version)
    ensures IsDigit(version[0])
  {
    assert DigitRun(version, 0) > 0;
  }

  /** A matching line keeps its surrounding whitespace and gets the next version line in the
      middle: every character before and after the version number is left alone. */
  lemma RewriteLineShape(line: string, current: string, next: string)
    requires IsVersion(current)
    requires Strip(line) == SearchString(current)
    ensures RewriteLine(line, current, next) == Leading(line) + SearchString(next) + Trailing(line)
  {
    StripParts(line);
    SpaceIsNoDigit(Leading(line));
    SpaceIsNoDigit(Trailing(line));
    ReplaceVersionLine(Leading(line), Trailing(line), current, next);
  }

  lemma SpaceIsNoDigit(s: string)
    requires AllSpace(s)
    ensures NoDigit(s)
  {
  }

  /** Between text without digits, replace() changes only the version in a version line. */
  lemma ReplaceVersionLine(lead: string, trail: string, current: string, next: string)
    requires IsVersion(current)
    requires NoDigit(lead) && NoDigit(trail)
    ensures Replace(lead + SearchString(current) + trail, current, next) == lead + SearchString(next) + trail
  {
    var front := lead + "version='";
    var back := "'," + trail;
    VersionLineAround(lead, trail, current);
    VersionLineAround(lead, trail, next);
    FrontBackNoDigit(lead, trail);
    VersionStartsWithDigit(current);
    ReplaceSkip(front, current + back, current, next);
    ReplaceHere(back, current, next);
    ReplaceAbsent(back, current, next);
  }

  /** A version line with text around it, cut before and after the version. */
  lemma VersionLineAround(lead: string, trail: string, version: string)
    ensures lead + SearchString(version) + trail == (lead + "version='") + (version + ("'," + trail))
  {
  }

  lemma FrontBackNoDigit(lead: string, trail: string)
    requires NoDigit(lead) && NoDigit(trail)
    ensures NoDigit(lead + "version='") && NoDigit("'," + trail)
  {
    assert NoDigit("version='") && NoDigit("',");
    NoDigitConcat(lead, "version='");
    NoDigitConcat("',", trail);
  }

  /** The converse of RewriteLineShape: a version line between whitespace is rewritten to the
      next version's line between the same whitespace. */
  lemma RewriteVersionLine(lead: string, trail: string, current: string, next: string)
    requires IsVersion(current)
    requires AllSpace(lead) && AllSpace(trail)
    ensures RewriteLine(lead + SearchString(current) + trail, current, next) == lead + SearchString(next) + trail
  {
    var t := SearchString(current);
    assert t[0] == 'v' && t[|t| - 1] == ',';
    StripOf(lead, t, trail);
    RewriteLineShape(lead + t + trail, current, next);
  }

  /** The rewritten line strips to the next version line, around the same whitespace. */
  lemma RewrittenLineStrips(line: string, current: string, next: string)
    requires IsVersion(current) && IsVersion(next)
    requires Strip(line) == SearchString(current)
    ensures var out := RewriteLine(line, current, next);
            Strip(out) == SearchString(next) &&
            Leading(out) == Leading(line) && Trailing(out) == Trailing(line)
  {
    RewriteLineShape(line, current, next);
    StripParts(line);
    StripOf(Leading(line), SearchString(next), Trailing(line));
  }

  /** When no line is the current version line, the manifest is written back unchanged. */
  lemma {:induction false} RewriteNoMatch(lines: seq<string>, current: string, next: string)
    requires IsVersion(current)
    requires forall k :: 0 <= k < |lines| ==> Strip(lines[k]) != SearchString(current)
    ensures Rewritten(lines, current, next) == lines
    decreases |lines|
  {
    if |lines| > 0 {
      RewriteNoMatch(lines[1..], current, next);
      assert lines == [lines[0]] + lines[1..];
    }
  }

  /** Rewriting back from next to current restores the manifest, provided no line was already
      the next version's line. */
  lemma {:induction false} RewriteRoundTrip(lines: seq<string>, current: string, next: string)
    requires IsVersion(current) && IsVersion(next)
    requires forall k :: 0 <= k < |lines| ==> Strip(lines[k]) != SearchString(next)
    ensures Rewritten(Rewritten(lines, current, next), next, current) == lines
    decreases |lines|
  {
    if |lines| > 0 {
      var line, rest := lines[0], lines[1..];
      var out := RewriteLine(line, current, next);
      RewriteLineRoundTrip(line, current, next);
      RewriteRoundTrip(rest, current, next);
      RewrittenCons(out, Rewritten(rest, current, next), next, current);
      assert lines == [line] + rest;
    }
  }

  /** Rewritten works line by line: on one line followed by more it rewrites that line first. */
  lemma RewrittenCons(line: string, rest: seq<string>, current: string, next: string)
    requires IsVersion(current)
    ensures Rewritten([line] + rest, current, next) ==
            [RewriteLine(line, current, next)] + Rewritten(rest, current, next)
  {
    assert ([line] + rest)[1..] == rest;
  }

  /** One line rewritten from current to next and back is the line it was, unless it already
      was the next version's line. */
  lemma RewriteLineRoundTrip(line: string, current: string, next: string)
    requires IsVersion(current) && IsVersion(next)
    requires Strip(line) != SearchString(next)
    ensures RewriteLine(RewriteLine(line, current, next), next, current) == line
  {
    if Strip(line) == SearchString(current) {
      var out := RewriteLine(line, current, next);
      RewrittenLineStrips(line, current, next);
      RewriteLineShape(out, next, current);
      StripParts(line);
    }
  }

  /** A line that strips to a version line contains `version=`. */
  lemma VersionLineHasKey(line: string, version: string)
    requires Strip(line) == SearchString(version)
    ensures Contains(line, VersionKey)
  {
    StripParts(line);
    assert line == Leading(line) + VersionKey + ("'" + version + "'," + Trailing(line));
    ContainsMiddle(Leading(line), VersionKey, "'" + version + "'," + Trailing(line));
  }

  /** The manifest written for a release reads back as the new version, when its first
      `version=` line was the exact version line that the rewrite replaces. */
  lemma RewriteThenRead(lines: seq<string>, current: string, next: string)
    requires IsVersion(current) && IsVersion(next)
    requires VersionLineIndex(lines) < |lines|
    requires Strip(lines[VersionLineIndex(lines)]) == SearchString(current)
    ensures CurrentVersionOf(Rewritten(lines, current, next)) == Ok(next)
  {
    var k := VersionLineIndex(lines);
    var out := Rewritten(lines, current, next);
    RewrittenAt(lines, current, next);
    assert forall j :: 0 <= j < k ==> !Contains(out[j], VersionKey) by {
      forall j | 0 <= j < k ensures !Contains(out[j], VersionKey) {
        if Strip(lines[j]) == SearchString(current) {
          VersionLineHasKey(lines[j], current);
        }
      }
    }
    RewrittenVersionLine(lines[k], current, next);
    VersionLineIndexIs(out, k);
    assert FoundVersion(out) == Some(next);
  }

  /** The rewritten version line still contains `version=`, and the version found on it is
      the next version. */
  lemma RewrittenVersionLine(line: string, current: string, next: string)
    requires IsVersion(current) && IsVersion(next)
    requires Strip(line) == SearchString(current)
    ensures Contains(RewriteLine(line, current, next), VersionKey)
    ensures GetVersionFromLine(RewriteLine(line, current, next)) == Some(next)
  {
    RewriteLineShape(line, current, next);
    StripParts(line);
    VersionLineHasOwnKey(Leading(line), Trailing(line), next);
    VersionLineReads(Leading(line), Trailing(line), next);
  }

  /** A version line between whitespace contains `version=`. */
  lemma VersionLineHasOwnKey(lead: string, trail: string, version: string)
    ensures Contains(lead + SearchString(version) + trail, VersionKey)
  {
    assert lead + SearchString(version) + trail == lead + VersionKey + ("'" + version + "'," + trail);
    ContainsMiddle(lead, VersionKey, "'" + version + "'," + trail);
  }

  /** The version found on a version line between whitespace is that line's version. */
  lemma VersionLineReads(lead: string, trail: string, version: string)
    requires IsVersion(version) && AllSpace(lead) && AllSpace(trail)
    ensures GetVersionFromLine(lead + SearchString(version) + trail) == Some(version)
  {
    SpaceIsNoDigit(lead);
    SpaceIsNoDigit(trail);
    FrontBackNoDigit(lead, trail);
    VersionLineAround(lead, trail, version);
    assert (lead + "version='") + (version + ("'," + trail)) == (lead + "version='") + version + ("'," + trail);
    VersionInLine(lead + "version='", version, "'," + trail);
  }

  /** The loop of `update_setup_file`: build the new list of lines one line at a time. */
  method RewriteSetupLines(lines: seq<string>, current: string, next: string) returns (out: seq<string>)
    requires IsVersion(current)
    ensures out == Rewritten(lines, current, next)
    ensures |out| == |lines|
    ensures forall k :: 0 <= k < |lines| && Strip(lines[k]) != SearchString(current) ==>
              out[k] == lines[k]
    ensures forall k :: 0 <= k < |lines| && Strip(lines[k]) == SearchString(current) ==>
              out[k] == Leading(lines[k]) + SearchString(next) + Trailing(lines[k])
  {
    out := [];
    var search := SearchString(current);
    for i := 0 to |lines|
      invariant |out| == i
      invariant forall k :: 0 <= k < i ==> out[k] == RewriteLine(lines[k], current, next)
    {
      var line := lines[i];
      if Strip(line) == search {
        line := Replace(line, current, next);
      }
      out := out + [line];
    }
    RewrittenAt(lines, current, next);
    forall k | 0 <= k < |lines| && Strip(lines[k]) == search
      ensures out[k] == Leading(lines[k]) + SearchString(next) + Trailing(lines[k])
    {
      RewriteLineShape(lines[k], current, next);
    }
  }

  /** One use of the program: the version read at construction, the manifest's lines and the
      calls made on the repository so far. */
  class NewRelease {
    /** `current_version`: the manifest's version when the object was made. */
    var currentVersion: string
    /** The lines of `setup.py`, each with its line ending, as iterating over the file gives them. */
    var setupLines: seq<string>
    /** The calls made on `repo`, oldest first. */
    var gitLog: seq<GitCall>

    ghost predicate Valid()
      reads this
    {
      IsVersion(currentVersion)
    }

    constructor (version: string, lines: seq<string>)
      requires IsVersion(version)
      ensures Valid()
      ensures currentVersion == version && setupLines == lines && gitLog == []
    {
      currentVersion := version;
      setupLines := lines;
      gitLog := [];
    }

    /** `NewRelease()`: read the current version from the manifest, which raises when there is
        none, and open the repository, on which no call has been made yet. */
    static method Create(lines: seq<string>) returns (r: Result<NewRelease>)
      ensures r.Err? <==> CurrentVersionOf(lines).Err?
      ensures r.Err? ==> r.error == TypeError
      ensures r.Ok? ==> fresh(r.value) && r.value.Valid() &&
                        Ok(r.value.currentVersion) == CurrentVersionOf(lines) &&
                        r.value.setupLines == lines && r.value.gitLog == []
    {
      var v := ExtractCurrentVersion(lines);
      CurrentVersionOutcome(lines);
      match v
      case Err(err) =>
        r := Err(err);
      case Ok(version) =>
        var release := new NewRelease(version, lines);
        r := Ok(release);
    }

    /** `update_setup_file`: rewrite the manifest's version line and stage the manifest. */
    method UpdateSetupFile(next: string)
      requires Valid()
      modifies this
      ensures Valid() && currentVersion == old(currentVersion)
      ensures setupLines == Rewritten(old(setupLines), currentVersion, next)
      ensures gitLog == old(gitLog) + [Add(SetupFile)]
    {
      var lines := RewriteSetupLines(setupLines, currentVersion, next);
      setupLines := lines;
      gitLog := gitLog + [Add(SetupFile)];
    }

    /** `update_git`: commit the staged change and tag it with the new version. */
    method UpdateGit(next: string)
      modifies this
      ensures currentVersion == old(currentVersion) && setupLines == old(setupLines)
      ensures gitLog == old(gitLog) + [Commit(CommitMessage(next)), CreateTag(TagName(next))]
    {
      gitLog := gitLog + [Commit(CommitMessage(next))];
      gitLog := gitLog + [CreateTag(TagName(next))];
    }

    /** `update_version`: validate the bump, compute the next version, rewrite and stage the
        manifest, then commit and tag. An unknown bump raises before anything changes. The
        field currentVersion is not updated, as in the source. */
    method UpdateVersion(release: string) returns (r: Result<string>)
      requires Valid()
      modifies this
      ensures Valid() && currentVersion == old(currentVersion)
      ensures ValidateRelease(release) != Pass ==>
                r == Err(NewReleaseError(InvalidBumpMessage)) &&
                setupLines == old(setupLines) && gitLog == old(gitLog)
      ensures ValidateRelease(release) == Pass ==>
                var next := NextVersion(currentVersion, release);
                r == Ok(next) &&
                setupLines == Rewritten(old(setupLines), currentVersion, next) &&
                gitLog == old(gitLog) + [Add(SetupFile), Commit(CommitMessage(next)), CreateTag(TagName(next))]
    {
      match ValidateRelease(release)
      case Fail(err) =>
        r := Err(err);
      case Pass =>
        var next := NextVersion(currentVersion, release);
        UpdateSetupFile(next);
        UpdateGit(next);
        r := Ok(next);
    }
  }
}
