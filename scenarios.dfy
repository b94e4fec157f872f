/** Concrete cases of the release bump, derived from the general contracts: the manifest line of
    the package's own setup.py, a small manifest bumped by "minor" end to end, a malformed
    version and an unknown bump. */
module Scenarios {
  import opened Results
  import opened PyStr
  import opened VersionPattern
  import opened Release

  /** A small manifest with its version on the middle line. */
  const Manifest: seq<string> := ["name='x'\n", "version='0.1.0',\n", "zip_safe=False\n"]

  /** The same manifest after the minor bump. */
  const BumpedManifest: seq<string> := ["name='x'\n", "version='0.2.0',\n", "zip_safe=False\n"]

  /** The manifest's version is read from its second line. */
  lemma ManifestVersion(m: seq<string>)
    requires m == Manifest
    ensures CurrentVersionOf(m) == Ok("0.1.0")
  {
    assert VersionLineIndex(m) == 1 by {
      NotContains(m[0], VersionKey);
      assert m[1] == [] + VersionKey + "'0.1.0',\n";
      ContainsMiddle([], VersionKey, "'0.1.0',\n");
      VersionLineIndexIs(m, 1);
    }
    assert GetVersionFromLine(m[1]) == Some("0.1.0") by {
      VersionLine(m[1], "0.1.0");
    }
    Version010("0.1.0");
  }

  lemma Version010(v: string)
    requires v == "0.1.0"
    ensures IsVersion(v)
  {
    assert v == "0" + "." + "1" + "." + "0";
    ComponentsOf("0", "1", "0");
  }

  lemma VersionLine(line: string, v: string)
    requires line == Manifest[1] && v == "0.1.0"
    ensures GetVersionFromLine(line) == Some(v)
  {
    Version010(v);
    assert line == "version='" + v + "',\n";
    KeyHasNoDigit("version='");
    VersionInLine("version='", v, "',\n");
  }

  lemma KeyHasNoDigit(key: string)
    requires key == "version='"
    ensures NoDigit(key)
  {
    assert forall k :: 0 <= k < |key| ==> key[k] in "version='";
  }

  /** A version with two parts is not found on its line, and reading fails with TypeError. */
  lemma MalformedVersion(lines: seq<string>)
    requires lines == ["version='1.2',\n"]
    ensures CurrentVersionOf(lines) == Err(TypeError)
  {
    assert lines[0] == [] + VersionKey + "'1.2',\n";
    ContainsMiddle([], VersionKey, "'1.2',\n");
    VersionLineIndexIs(lines, 0);
    CurrentVersionOutcome(lines);
    GetVersionFromLineNone(lines[0]);
    forall i, e | 0 <= i <= e <= |lines[0]| ensures !IsVersion(lines[0][i..e]) {
      OneDotOnly(lines[0], i, e);
    }
  }

  /** A version holds two dots; "version='1.2',\n" holds only one. */
  lemma OneDotOnly(s: string, i: nat, e: nat)
    requires s == "version='1.2',\n"
    requires i <= e <= |s|
    ensures !IsVersion(s[i..e])
  {
    var t := s[i..e];
    if IsVersion(t) {
      assert false;
    }
  }

  /** Bumping 0.1.0 by "minor" gives 0.2.0. */
  lemma MinorBump(current: string, next: string)
    requires current == "0.1.0" && next == "0.2.0"
    ensures IsVersion(current) && IsVersion(next) && NextVersion(current, "minor") == next
  {
    assert current == "0" + "." + "1" + "." + "0";
    ComponentsOf("0", "1", "0");
    MinorOf010();
    assert next == "0" + "." + "2" + "." + "0";
    ComponentsOf("0", "2", "0");
  }

  /** A line that is not the current version line is written back as it was. */
  lemma KeptLine(line: string, t: string, current: string, next: string)
    requires IsVersion(current) && line == t + "\n"
    requires |t| > 0 && !IsSpace(t[0]) && !IsSpace(t[|t| - 1]) && |t| != |SearchString(current)|
    ensures RewriteLine(line, current, next) == line
  {
    assert line == [] + t + "\n";
    StripOf([], t, "\n");
  }

  lemma KeptNameLine(line: string, current: string, next: string)
    requires line == Manifest[0] && IsVersion(current) && |current| == 5
    ensures RewriteLine(line, current, next) == line
  {
    var t := "name='x'";
    assert line == t + "\n";
    KeptLine(line, t, current, next);
  }

  lemma KeptZipLine(line: string, current: string, next: string)
    requires line == Manifest[2] && IsVersion(current) && |current| == 5
    ensures RewriteLine(line, current, next) == line
  {
    var t := "zip_safe=False";
    assert line == t + "\n";
    KeptLine(line, t, current, next);
  }

  /** The version line of the manifest after the bump. */
  lemma BumpedLine(line: string, current: string, next: string)
    requires line == Manifest[1] && current == "0.1.0" && next == "0.2.0"
    requires IsVersion(current)
    ensures RewriteLine(line, current, next) == BumpedManifest[1]
  {
    assert line == "" + SearchString(current) + "\n";
    assert BumpedManifest[1] == "" + SearchString(next) + "\n";
    RewriteVersionLine("", "\n", current, next);
  }

  /** Only the version line of the manifest changes under the minor bump. */
  lemma ManifestMinorBump(m: seq<string>, current: string, next: string)
    requires m == Manifest && current == "0.1.0" && next == "0.2.0"
    ensures IsVersion(current) && NextVersion(current, "minor") == next
    ensures Rewritten(m, current, next) == BumpedManifest
  {
    MinorBump(current, next);
    RewrittenAt(m, current, next);
    KeptNameLine(m[0], current, next);
    BumpedLine(m[1], current, next);
    KeptZipLine(m[2], current, next);
  }

  /** Bumping 0.0.1 by "patch" gives 0.0.2. */
  lemma PatchBump(current: string, next: string)
    requires current == "0.0.1" && next == "0.0.2"
    ensures IsVersion(current) && NextVersion(current, "patch") == next
  {
    assert current == "0" + "." + "0" + "." + "1";
    ComponentsOf("0", "0", "1");
    PatchOf001();
  }

  /** The arithmetic of the two bumps above, on the parts of the versions. */
  lemma MinorOf010()
    ensures Bump("0", "1", "0", "minor") == "0.2.0"
  {
  }

  lemma PatchOf001()
    ensures Bump("0", "0", "1", "patch") == "0.0.2"
  {
  }

  /** The line of the package's setup.py, `    version='0.0.1',`, after a patch bump. */
  lemma SetupLinePatchBump(line: string, current: string, next: string)
    requires line == "    version='0.0.1',\n" && current == "0.0.1" && next == "0.0.2"
    ensures IsVersion(current) && NextVersion(current, "patch") == next
    ensures RewriteLine(line, current, next) == "    version='0.0.2',\n"
  {
    PatchBump(current, next);
    SetupLine(line, current, next);
  }

  lemma SetupLine(line: string, current: string, next: string)
    requires line == "    version='0.0.1',\n" && current == "0.0.1" && next == "0.0.2"
    requires IsVersion(current)
    ensures RewriteLine(line, current, next) == "    version='0.0.2',\n"
  {
    assert line == "    " + SearchString(current) + "\n";
    assert "    version='0.0.2',\n" == "    " + SearchString(next) + "\n";
    RewriteVersionLine("    ", "\n", current, next);
  }

  /** A caller's view of a release: read the manifest, refuse "revision", bump by "minor". */
  method MinorRelease()
  {
    var m := Manifest;
    ManifestVersion(m);
    var made := NewRelease.Create(m);
    assert made.Ok?;
    var release := made.value;
    assert release.currentVersion == "0.1.0";

    var refused := release.UpdateVersion("revision");
    assert refused == Err(NewReleaseError(InvalidBumpMessage));
    assert release.setupLines == m && release.gitLog == [];

    ManifestMinorBump(m, release.currentVersion, "0.2.0");
    var bumped := release.UpdateVersion("minor");
    assert bumped == Ok("0.2.0");
    assert release.setupLines == BumpedManifest;
    assert release.gitLog == [Add(SetupFile), Commit(CommitMessage("0.2.0")), CreateTag(TagName("0.2.0"))];
    assert release.currentVersion == "0.1.0";
  }
}
