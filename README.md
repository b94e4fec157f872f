# git-releaser: version bumping in `new_release.py`, modelled in Dafny

`new_release.py` bumps the version of a Python package. It reads the current version from
the first line of `setup.py` that contains `version=`, and checks it against the pattern
`[0-9]+\.[0-9]+\.[0-9]+`. It then computes the next version for a `major`, `minor` or
`patch` bump and rewrites the manifest line `version='<current>',`. Finally, it stages the
manifest, commits it as `New release: v<next>` and tags it `v<next>`.

The model has five modules:

- `Results` (`results.dfy`) holds the values that stand for the source's exceptions.
  - `Error` is either `NewReleaseError(message)` or `TypeError`.
  - `Result` is a value or an error; `Outcome` means the call returned or raised.
- `PyStr` (`pystr.dfy`) holds the Python string builtins the code uses, for the inputs it
  hands them:
  - `'version=' in line`;
  - `str.split('.')`, and `'{}.{}.{}'.format` as a join;
  - `str.strip()`, with the characters `str.isspace` accepts;
  - `str.replace`;
  - `int()` on ASCII digits and `str()` of a natural number.
- `VersionPattern` (`version_pattern.dfy`) holds a matcher written for the one fixed
  pattern, rather than a general regex engine.
  - `MatchEnd` gives each `[0-9]+` the whole run of digits in front of it. Backtracking can
    never meet a dot where a digit was given back, so this greedy end is the one Python's
    engine reports.
  - `re.search` becomes `SearchFrom`: the first start position with a match, and that
    match's end.
  - The module also holds `get_version_from_line` and `validate_release_number`.
- `Release` (`release.dfy`) holds the rest of the program:
  - `validate_release`, `next_version` and `extract_current_version` (a loop with `break`);
  - the line-rewriting loop of `update_setup_file` (a loop that appends);
  - the class `NewRelease`, whose fields are `currentVersion`, the manifest `setupLines`,
    and `gitLog`, the calls the program makes on its repository.
- `Scenarios` (`scenarios.dfy`) holds concrete cases derived from the general contracts:
  - a small manifest bumped by `minor` end to end;
  - the version line of the package's own `setup.py`, bumped by `patch`;
  - a malformed version;
  - a refused bump.

The outside world is handled as follows:

- Files are sequences of lines, each line with its line ending, as iterating over a text
  file yields them. `setup.py` is read and written as such a sequence.
- The git repository is a log of the calls made on it.
- Exceptions are `Err`/`Fail` values.

Three places where the model follows the code:

- **A manifest without a version fails with `TypeError`.** When no `version=` line exists,
  or that line has no match, `extract_current_version` passes `None` to
  `validate_release_number`. `regex.match(None)` then raises `TypeError`, not the
  `NewReleaseError` that the method's docstring announces. The model keeps `TypeError`, and
  `Release.CurrentVersionOutcome` proves that construction can fail no other way.
- **A final newline is accepted.** `validate_release_number` uses `^...$`. Python's `$`
  also matches just before a newline that ends the string, so `"1.2.3\n"` passes. The model
  keeps this, and `VersionPattern.ValidateReleaseNumberPlain` states the plain equivalence
  for strings without a newline. Versions found by `get_version_from_line` never contain a
  newline.
- **The bump keeps the text of the parts to its left.** `next_version` copies those parts
  verbatim, leading zeros included: `01.2.3` bumped by `minor` is `01.3.0`. Any release
  other than the three bumps gives back the current version. `update_version` rejects such
  releases before `next_version` is called.

## Model

| member | source | states |
|---|---|---|
| `PyStr.DigitRun` | new_release.py:28 | the length of the run of ASCII digits at a position: every character in it is a digit and the character after it is not |
| `PyStr.Contains` | new_release.py:56 | `pat in s`: pat is a prefix of s or of one of its suffixes |
| `PyStr.ContainsAt` | new_release.py:56 | `pat in s` holds exactly when pat starts at some position of s |
| `PyStr.ContainsMiddle` | new_release.py:56 | text placed between two strings is contained in the result |
| `PyStr.NotContains` | new_release.py:56 | a non-empty pattern whose first character never occurs is not contained |
| `PyStr.IndexOf` | new_release.py:90 | the position found holds the separator, no earlier position does, and the length means "absent" |
| `PyStr.Split` | new_release.py:90 | `s.split(sep)` for one separator character: the pieces between the separators, at least one |
| `PyStr.Join` | new_release.py:101 | `sep.join(parts)`, which is the string `'{}.{}.{}'.format` builds from three pieces |
| `PyStr.JoinSplit` | new_release.py:90-91 | joining the pieces of `split(sep)` with sep gives the string back |
| `PyStr.SplitJoin` | new_release.py:101 | splitting a join of separator-free pieces gives the pieces back |
| `PyStr.IsSpace` | new_release.py:123 | the characters `str.isspace` accepts, which are the ones `strip()` removes |
| `PyStr.LeadingSpace` | new_release.py:123 | the number of whitespace characters at the front: all of them whitespace, and the next one is not |
| `PyStr.TrailingSpace` | new_release.py:123 | the number of whitespace characters at the back: all of them whitespace, and the one before them is not |
| `PyStr.Leading` | new_release.py:123 | the text `strip()` removes in front of a line |
| `PyStr.Trailing` | new_release.py:123 | the text `strip()` removes at the back of a line |
| `PyStr.Strip` | new_release.py:123 | the stripped text is empty or starts and ends with a non-whitespace character |
| `PyStr.StripParts` | new_release.py:123 | a line is its leading whitespace, its stripped text and its trailing whitespace, and strip() removes only whitespace |
| `PyStr.StripOf` | new_release.py:123 | around a text with non-blank ends, strip() removes exactly the whitespace on either side |
| `PyStr.Replace` | new_release.py:124 | `s.replace(pat, rep)` for a non-empty pat: each occurrence, taken left to right without overlaps, becomes rep |
| `PyStr.ReplaceSkip` | new_release.py:124 | text in which the pattern's first character never occurs passes through `replace` unchanged, and the scan goes on after it |
| `PyStr.ReplaceAbsent` | new_release.py:124 | `replace` returns such a text as it is |
| `PyStr.Int` | new_release.py:93-100 | `int(s)` on ASCII digits: the decimal value, leading zeros allowed |
| `PyStr.Str` | new_release.py:101 | `str(n)` is a non-empty run of digits without a leading zero that `int()` reads back as n |
| `VersionPattern.RunThenDot` | new_release.py:28 | `[0-9]+\.` matched from p ends after a dot, at least two characters on |
| `VersionPattern.MatchEnd` | new_release.py:28 | a match from i is non-empty, stays in the string and ends on a digit |
| `VersionPattern.IsVersion` | new_release.py:28 | the whole string matches the pattern, which is what `^...$` at new_release.py:68 asks of a string without a final newline |
| `VersionPattern.MatchSlice` | new_release.py:28 | the match from i ends at e exactly when the slice i..e is a version followed by no digit; any version slice from i ends at or before the match's end |
| `VersionPattern.FullSliceExtends` | new_release.py:28 | a version slice from i makes the match from i exist and reach its end, and end there when no digit follows |
| `VersionPattern.MatchIsFullSlice` | new_release.py:28 | the text the match covers is a version, and no digit follows it |
| `VersionPattern.MatchEnds` | new_release.py:43 | the end of the pattern's match at each start position of the line, in order, one entry per position |
| `VersionPattern.FirstMatch` | new_release.py:43 | the position reported is the first from i that holds a match, with that match's end; nothing is reported when no position holds one |
| `VersionPattern.SearchFrom` | new_release.py:43 | `re.search` on the line from position i: the first start that holds a match, with that match's end |
| `VersionPattern.SearchFromFirst` | new_release.py:43 | `re.search` reports the leftmost start at which the pattern matches, with that match's end, or nothing when it matches nowhere |
| `VersionPattern.SearchFromIs` | new_release.py:43 | with no match between i and e, the search from i reports the match at e |
| `VersionPattern.GetVersionFromLine` | new_release.py:36-46 | the text of the search's match (`.group(0)`), or None when the search finds none and `.group` raises AttributeError |
| `VersionPattern.GetVersionFromLineFound` | new_release.py:36-46 | a version returned is the leftmost, and at that start the longest, substring of the line that is a version |
| `VersionPattern.GetVersionFromLineNone` | new_release.py:36-46 | None is returned exactly when no substring of the line is a version |
| `VersionPattern.ValidateReleaseNumber` | new_release.py:62-70 | passes exactly a version, or a version followed by one final newline; None raises TypeError; anything else raises NewReleaseError "Invalid release version: ..." |
| `VersionPattern.BeforeFinalNewline` | new_release.py:68-69 | the match ends just before a final newline exactly when the text before that newline is a version |
| `VersionPattern.ValidateReleaseNumberPlain` | new_release.py:62-70 | for a string without a newline, validation passes exactly the versions |
| `VersionPattern.GetVersionFromLineValid` | new_release.py:36-46 | whatever get_version_from_line returns passes validate_release_number |
| `VersionPattern.VersionParts` | new_release.py:28 | a string is a version exactly when it splits on '.' into three non-empty runs of digits |
| `VersionPattern.VersionDotted` | new_release.py:90-91 | a version is its three split parts, each a run of digits, with a dot between each two |
| `VersionPattern.DottedVersion` | new_release.py:101 | three runs of digits joined by dots form a version whose split gives the runs back |
| `VersionPattern.DigitsJoin` | new_release.py:101 | the join of three runs of digits is the dotted text, a version, and splits back into the runs |
| `VersionPattern.VersionInLine` | new_release.py:36-46 | a version with no digit before it and none right after it is what get_version_from_line finds |
| `Release.BumpVersions` | new_release.py:29 | the three accepted bumps, `major`, `minor` and `patch`, in that order |
| `Release.SetupFile` | new_release.py:30 | the name of the manifest, `setup.py` |
| `Release.InvalidBumpMessage` | new_release.py:79-80 | the message for an unknown bump, with the list printed by Python's `str` of a list |
| `Release.ValidateRelease` | new_release.py:72-81 | passes exactly "major", "minor" and "patch"; anything else raises NewReleaseError with the message listing the three |
| `Release.Components` | new_release.py:90-91 | a version splits into exactly three runs of digits |
| `Release.ComponentsOf` | new_release.py:90-91 | the dotted text of three runs of digits is a version whose parts are those runs |
| `Release.NextVersion` | new_release.py:83-102 | `next_version`: the current version split into its three parts and handed to Bump |
| `Release.Bump` | new_release.py:92-101 | the formatted next version for the three parts: the bumped part is `str(int(part) + 1)`, the parts to its right are `0`, the parts to its left keep their text, and any other release keeps all three |
| `Release.NextMajor` | new_release.py:92-95 | a major bump is a version whose parts are str(int(major) + 1), "0", "0" |
| `Release.NextMinor` | new_release.py:96-98 | a minor bump keeps the major text, gives str(int(minor) + 1) and sets patch to "0" |
| `Release.NextPatch` | new_release.py:99-101 | a patch bump keeps the major and minor text and gives str(int(patch) + 1) |
| `Release.NextOther` | new_release.py:90-102 | any release other than the three bumps gives the current version back |
| `Release.MajorText` | new_release.py:92-95 | on `x.y.z` a major bump is `str(int(x) + 1).0.0` |
| `Release.MinorText` | new_release.py:96-98 | on `x.y.z` a minor bump is `x.str(int(y) + 1).0` |
| `Release.PatchText` | new_release.py:99-101 | on `x.y.z` a patch bump is `x.y.str(int(z) + 1)` |
| `Release.NextVersionIncreases` | new_release.py:83-102 | every valid bump gives a valid version strictly after the current one in (major, minor, patch) order |
| `Release.BumpTwiceDiffers` | new_release.py:83-102 | repeating a bump moves the version on again, so bumping is not idempotent |
| `Release.CommitMessage` | new_release.py:109 | the commit message `New release: v<version>` |
| `Release.TagName` | new_release.py:111 | the tag name `v<version>` |
| `Release.GitCall` | new_release.py:110-111 | the calls made on the repository: staging a path, a commit with its message, a tag with its name |
| `Release.VersionLineIndex` | new_release.py:55-58 | the index is of the first line containing `version=`, or the number of lines when none does |
| `Release.FoundVersion` | new_release.py:53-58 | the version found on the first `version=` line, or None when there is no such line or it holds no match |
| `Release.Validated` | new_release.py:59-60 | the version found once `validate_release_number` has passed it, or the error it raised |
| `Release.CurrentVersionOf` | new_release.py:48-60 | what `extract_current_version` returns or raises for a manifest: FoundVersion checked by Validated |
| `Release.CurrentVersionOutcome` | new_release.py:48-60 | the manifest yields a version exactly when its first `version=` line has a match; that version is the match and is valid; every failure is TypeError |
| `Release.CurrentVersionIgnoresLaterLines` | new_release.py:53-58 | manifests that agree up to and including the first `version=` line give the same result |
| `Release.SamePrefixSameIndex` | new_release.py:55-58 | such manifests have their first `version=` line at the same index |
| `Release.ExtractCurrentVersion` | new_release.py:48-60 | the loop with `break` returns or raises what CurrentVersionOf states |
| `Release.SearchString` | new_release.py:120 | the manifest line of a version, `version='<version>',` |
| `Release.RewriteLine` | new_release.py:123-124 | one line of the loop: a line whose stripped text is the current version's line has the current version replaced by the next; any other line is kept |
| `Release.Rewritten` | new_release.py:118-125 | the manifest the loop builds: every line passed through RewriteLine, in order |
| `Release.RewrittenAt` | new_release.py:118-125 | the rewritten manifest has as many lines as the input, and line k comes from line k |
| `Release.RewriteLineShape` | new_release.py:123-124 | a matching line keeps its surrounding whitespace and gets the next version's line in the middle |
| `Release.ReplaceVersionLine` | new_release.py:124 | between text without digits, `replace` changes only the version of a version line |
| `Release.RewriteVersionLine` | new_release.py:123-124 | a version line between whitespace is rewritten to the next version's line between the same whitespace |
| `Release.RewrittenLineStrips` | new_release.py:123-124 | the rewritten line strips to the next version's line, with the same leading and trailing whitespace |
| `Release.RewriteNoMatch` | new_release.py:118-125 | when no line matches, the manifest is written back unchanged |
| `Release.RewriteRoundTrip` | new_release.py:118-125 | rewriting next back to current restores the manifest, when no line already was the next version's line |
| `Release.RewriteLineRoundTrip` | new_release.py:123-124 | the same for one line |
| `Release.VersionLineHasKey` | new_release.py:56 | a line that strips to a version line contains `version=` |
| `Release.RewriteThenRead` | new_release.py:118-125 | when the first `version=` line is the exact version line, the written manifest reads back as the next version |
| `Release.RewrittenVersionLine` | new_release.py:123-124 | the rewritten version line still contains `version=`, and the version found on it is the next version |
| `Release.VersionLineReads` | new_release.py:36-46 | the version found on a version line between whitespace is that line's version |
| `Release.RewriteSetupLines` | new_release.py:118-125 | the loop builds Rewritten: as many lines as the input; lines that do not strip to `version='<current>',` unchanged; every line that does, the first and all later ones, becomes its whitespace around `version='<next>',` |
| `Release.NewRelease.constructor` | new_release.py:32-33 | the object holds the given valid version, the manifest, and an empty call log |
| `Release.NewRelease.Create` | new_release.py:32-34 | construction fails exactly when reading the manifest fails, always with TypeError; otherwise the version is the one read and no git call has been made |
| `Release.NewRelease.UpdateSetupFile` | new_release.py:113-129 | the manifest becomes its rewrite, `setup.py` is staged, and the version is kept |
| `Release.NewRelease.UpdateGit` | new_release.py:104-111 | one commit with message `New release: v<next>`, then the tag `v<next>`; nothing else changes |
| `Release.NewRelease.UpdateVersion` | new_release.py:131-141 | an invalid bump raises before anything changes; a valid one returns the next version (the value the source prints as the new version), rewrites the manifest, and logs add, commit and tag in that order; currentVersion is not updated |
| `Scenarios.ManifestVersion` | new_release.py:48-60 | the small manifest reads as version 0.1.0 |
| `Scenarios.MalformedVersion` | new_release.py:48-60 | a manifest whose version line says `1.2` fails with TypeError |
| `Scenarios.MinorBump` | new_release.py:96-101 | 0.1.0 bumped by "minor" is 0.2.0 |
| `Scenarios.ManifestMinorBump` | new_release.py:118-125 | under that bump only the version line of the small manifest changes |
| `Scenarios.PatchBump` | new_release.py:99-101 | 0.0.1 bumped by "patch" is 0.0.2 |
| `Scenarios.SetupLinePatchBump` | setup.py:15 | the package's own line `    version='0.0.1',` becomes `    version='0.0.2',` under a patch bump |

Two lemmas only unfold one step of a definition for the proofs that use them, and have no
row: `Release.RewrittenCons` (one step of `Rewritten`) and `PyStr.ReplaceHere` (one step of
`Replace` at an occurrence).

## Left out

- GitPython is not modelled: `git.Repo(os.getcwd())`, `repo.git.add`, `repo.git.commit`
  and `repo.create_tag` are foreign calls. They become entries of `gitLog`, and opening
  the repository is assumed to succeed.
- The add, commit and tag calls are assumed to succeed. `Release.NewRelease.UpdateGit` and
  `Release.NewRelease.UpdateVersion` log the commit and the tag in every case. In git, a
  rewrite that changes nothing (the case `Release.RewriteNoMatch` describes) leaves nothing
  to commit, so `git commit` raises and no tag is made. An existing tag `v<next>` makes
  `create_tag` raise. Neither failure is modelled.
- Opening, reading and writing `setup.py` is file I/O, so the file is modelled as its
  sequence of lines. The model does not cover a missing file or a failed write.
- `print` and the `__main__` check of `sys.argv` are command-line plumbing and are not
  modelled. The line `update_version` prints (`Old version: ..., new version: ...`) is
  stood for by the next version that `Release.NewRelease.UpdateVersion` returns; the old
  version is the unchanged `currentVersion`.
- Python's general `re` semantics are not modelled. Only the one fixed pattern is, with
  its own matcher.
- Universal-newline translation on reading is not modelled. Lines are taken as given,
  each with whatever ending it has.
- PyStr.Int: modelled only on strings of ASCII digits, which is all `next_version` hands
  it. Signs, underscores, surrounding whitespace and non-ASCII digits, which `int()` also
  accepts, are not modelled.
- PyStr.Replace: modelled only for a non-empty pattern, because the current version is
  never empty.
- `setup.py` is packaging metadata passed to `setuptools.setup` and has no logic. Only its
  version line appears, as an example in `Scenarios.SetupLinePatchBump`.
