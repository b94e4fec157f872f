/** The Python `str` operations new_release.py relies on, for the inputs it gives them:
    character classes, `pat in s`, `s.split(sep)`, `sep.join(parts)`, `s.strip()`,
    `s.replace(pat, rep)`, `int(s)` on ASCII digits and `str(n)` on a natural number. */
module PyStr {

  /** A character of the class `[0-9]`. */
  predicate IsDigit(c: char) { '0' <= c <= '9' }

  /** A string all of whose characters are digits (the empty string included). */
  predicate AllDigits(s: string) { forall k :: 0 <= k < |s| ==> IsDigit(s[k]) }

  /** A string in which no character is a digit. */
  predicate NoDigit(s: string) { forall k :: 0 <= k < |s| ==> !IsDigit(s[k]) }

  lemma NoDigitConcat(a: string, b: string)
    requires NoDigit(a) && NoDigit(b)
    ensures NoDigit(a + b)
  {
    assert forall k :: |a| <= k < |a + b| ==> (a + b)[k] == b[k - |a|];
  }

  /** A string that `[0-9]+` matches in full: a non-empty run of digits. */
  predicate IsDigits(s: string) { |s| > 0 && AllDigits(s) }

  /** Length of the longest run of digits starting at position p. */
  function DigitRun(s: string, p: nat): (n: nat)
    requires p <= |s|
    ensures p + n <= |s|
    ensures forall q :: p <= q < p + n ==> IsDigit(s[q])
    ensures p + n == |s| || !IsDigit(s[p + n])
    decreases |s| - p
  {
    if p < |s| && IsDigit(s[p]) then 1 + DigitRun(s, p + 1) else 0
  }

  /** The three properties in DigitRun's contract single out its value. */
  lemma DigitRunIs(s: string, p: nat, n: nat)
    requires p + n <= |s|
    requires forall q :: p <= q < p + n ==> IsDigit(s[q])
    requires p + n == |s| || !IsDigit(s[p + n])
    ensures DigitRun(s, p) == n
  {
  }

  /** A run that reaches a position holding no digit ends there. */
  lemma DigitRunEndsAt(s: string, p: nat, k: nat)
    requires p <= k <= |s| && k <= p + DigitRun(s, p)
    requires k == |s| || !IsDigit(s[k])
    ensures p + DigitRun(s, p) == k
  {
  }

  /** A run of digits inside the slice s[i..e] is the run in s, cut off at e. */
  lemma DigitRunSlice(s: string, i: nat, e: nat, p: nat)
    requires i + p <= e <= |s|
    ensures var d := DigitRun(s, i + p);
            DigitRun(s[i..e], p) == if i + p + d <= e then d else e - i - p
  {
    var d := DigitRun(s, i + p);
    var n := if i + p + d <= e then d else e - i - p;
    var t := s[i..e];
    assert forall q :: p <= q < p + n ==> t[q] == s[i + q];
    DigitRunIs(t, p, n);
  }

  /** `pat in s`: pat occurs somewhere in s. */
  predicate Contains(s: string, pat: string)
    decreases |s|
  {
    pat <= s || (|s| > 0 && Contains(s[1..], pat))
  }

  /** Contains agrees with the definition of a substring by position. */
  lemma {:induction false} ContainsAt(s: string, pat: string)
    ensures Contains(s, pat) <==> exists i :: 0 <= i <= |s| && pat <= s[i..]
    decreases |s|
  {
    assert s[0..] == s;
    if pat <= s {
    } else if |s| == 0 {
      forall i | 0 <= i <= |s| ensures !(pat <= s[i..]) {
        assert s[i..] == s;
      }
    } else {
      assert Contains(s, pat) == Contains(s[1..], pat);
      ContainsAt(s[1..], pat);
      forall i | 1 <= i <= |s| ensures s[1..][i - 1..] == s[i..] { }
      if Contains(s[1..], pat) {
        var j :| 0 <= j <= |s| - 1 && pat <= s[1..][j..];
        assert pat <= s[j + 1..];
      } else {
        forall i | 0 <= i <= |s| ensures !(pat <= s[i..]) {
          if i > 0 {
            assert !(pat <= s[1..][i - 1..]);
          }
        }
      }
    }
  }

  /** Text placed between two strings is contained in the result. */
  lemma ContainsMiddle(a: string, pat: string, b: string)
    ensures Contains(a + pat + b, pat)
  {
    var s := a + pat + b;
    assert s[|a|..] == pat + b;
    ContainsAt(s, pat);
  }

  /** A non-empty pat whose first character never occurs in s does not occur in s. */
  lemma NotContains(s: string, pat: string)
    requires |pat| > 0
    requires forall k :: 0 <= k < |s| ==> s[k] != pat[0]
    ensures !Contains(s, pat)
  {
    forall i | 0 <= i <= |s| ensures !(pat <= s[i..]) {
      if i < |s| {
        assert s[i..][0] == s[i];
      }
    }
    ContainsAt(s, pat);
  }

  /** Position of the first c in s, or |s| when there is none (`s.find(c)`, with |s| for -1). */
  function IndexOf(s: string, c: char): (i: nat)
    ensures i <= |s|
    ensures i < |s| ==> s[i] == c
    ensures forall k :: 0 <= k < i ==> s[k] != c
    decreases |s|
  {
    if |s| == 0 then 0 else if s[0] == c then 0 else 1 + IndexOf(s[1..], c)
  }

  /** The three properties in IndexOf's contract single out its value. */
  lemma IndexOfIs(s: string, c: char, i: nat)
    requires i <= |s|
    requires i < |s| ==> s[i] == c
    requires forall k :: 0 <= k < i ==> s[k] != c
    ensures IndexOf(s, c) == i
  {
  }

  /** `s.split(sep)` for a one-character separator: the pieces between the separators. */
  function Split(s: string, sep: char): (parts: seq<string>)
    ensures |parts| >= 1
    decreases |s|
  {
    var i := IndexOf(s, sep);
    if i == |s| then [s] else [s[..i]] + Split(s[i + 1..], sep)
  }

  /** `sep.join(parts)`, which is also what `'{}.{}.{}'.format(a, b, c)` builds from three strings. */
  function Join(parts: seq<string>, sep: char): string
    requires |parts| >= 1
  {
    if |parts| == 1 then parts[0] else parts[0] + [sep] + Join(parts[1..], sep)
  }

  /** Joining the pieces of a split gives back the string. */
  lemma {:induction false} JoinSplit(s: string, sep: char)
    ensures Join(Split(s, sep), sep) == s
    decreases |s|
  {
    var i := IndexOf(s, sep);
    if i < |s| {
      JoinSplit(s[i + 1..], sep);
      assert s == s[..i] + [sep] + s[i + 1..];
    }
  }

  /** Splitting a join of pieces free of the separator gives back the pieces. */
  lemma {:induction false} SplitJoin(parts: seq<string>, sep: char)
    requires |parts| >= 1
    requires forall k, q :: 0 <= k < |parts| && 0 <= q < |parts[k]| ==> parts[k][q] != sep
    ensures Split(Join(parts, sep), sep) == parts
    decreases |parts|
  {
    var s := Join(parts, sep);
    if |parts| == 1 {
      IndexOfIs(s, sep, |s|);
    } else {
      var head := parts[0];
      assert s == head + [sep] + Join(parts[1..], sep);
      IndexOfIs(s, sep, |head|);
      assert s[|head| + 1..] == Join(parts[1..], sep);
      assert s[..|head|] == head;
      SplitJoin(parts[1..], sep);
      assert parts == [head] + parts[1..];
    }
  }

  /** The characters `str.isspace` accepts, which are the ones `str.strip()` removes. */
  predicate IsSpace(c: char)
  {
    ('\t' <= c <= '\r') || ('\U{1C}' <= c <= '\U{1F}') || c == ' ' || c == '\U{85}' ||
    c == '\U{A0}' || c == '\U{1680}' || ('\U{2000}' <= c <= '\U{200A}') ||
    c == '\U{2028}' || c == '\U{2029}' || c == '\U{202F}' || c == '\U{205F}' || c == '\U{3000}'
  }

  predicate AllSpace(s: string) { forall k :: 0 <= k < |s| ==> IsSpace(s[k]) }

  /** Number of whitespace characters at the front of s. */
  function LeadingSpace(s: string): (n: nat)
    ensures n <= |s|
    ensures forall k :: 0 <= k < n ==> IsSpace(s[k])
    ensures n == |s| || !IsSpace(s[n])
    decreases |s|
  {
    if |s| > 0 && IsSpace(s[0]) then 1 + LeadingSpace(s[1..]) else 0
  }

  /** Number of whitespace characters at the back of s. */
  function TrailingSpace(s: string): (n: nat)
    ensures n <= |s|
    ensures forall k :: |s| - n <= k < |s| ==> IsSpace(s[k])
    ensures n == |s| || !IsSpace(s[|s| - 1 - n])
    decreases |s|
  {
    if |s| > 0 && IsSpace(s[|s| - 1]) then 1 + TrailingSpace(s[..|s| - 1]) else 0
  }

  /** What `s.strip()` removes in front. */
  function Leading(s: string): string
  {
    s[..LeadingSpace(s)]
  }

  /** `s.strip()`: s without its leading and trailing whitespace. */
  function Strip(s: string): (t: string)
    ensures |t| == 0 || (!IsSpace(t[0]) && !IsSpace(t[|t| - 1]))
  {
    var rest := s[LeadingSpace(s)..];
    rest[..|rest| - TrailingSpace(rest)]
  }

  /** What `s.strip()` removes at the back. */
  function Trailing(s: string): string
  {
    s[LeadingSpace(s) + |Strip(s)|..]
  }

  /** A string is what strip() keeps, surrounded by what it removes, and removes only whitespace. */
  lemma StripParts(s: string)
    ensures s == Leading(s) + Strip(s) + Trailing(s)
    ensures AllSpace(Leading(s)) && AllSpace(Trailing(s))
  {
    StripSplits(s);
    LeadingIsSpace(s);
    TrailingIsSpace(s);
  }

  lemma StripSplits(s: string)
    ensures s == Leading(s) + Strip(s) + Trailing(s)
  {
    var l := LeadingSpace(s);
    var m := |Strip(s)|;
    assert Strip(s) == s[l..l + m];
    assert Trailing(s) == s[l + m..];
    assert s[..l + m] == s[..l] + s[l..l + m];
    assert s == s[..l + m] + s[l + m..];
  }

  lemma LeadingIsSpace(s: string)
    ensures AllSpace(Leading(s))
  {
    forall k | 0 <= k < |Leading(s)| ensures IsSpace(Leading(s)[k]) {
      assert Leading(s)[k] == s[k];
    }
  }

  lemma TrailingIsSpace(s: string)
    ensures AllSpace(Trailing(s))
  {
    var rest := s[LeadingSpace(s)..];
    var t := TrailingSpace(rest);
    assert Trailing(s) == rest[|rest| - t..];
    forall k | 0 <= k < |Trailing(s)| ensures IsSpace(Trailing(s)[k]) {
      assert Trailing(s)[k] == rest[|rest| - t + k];
    }
  }

  /** Around a text with non-blank ends, strip() removes exactly the whitespace on either side. */
  lemma StripOf(lead: string, t: string, trail: string)
    requires AllSpace(lead) && AllSpace(trail)
    requires |t| > 0 && !IsSpace(t[0]) && !IsSpace(t[|t| - 1])
    ensures var s := lead + t + trail;
            Leading(s) == lead && Strip(s) == t && Trailing(s) == trail
  {
    var s := lead + t + trail;
    LeadingSpaceIs(s, |lead|);
    var rest := s[|lead|..];
    assert rest == t + trail;
    TrailingSpaceIs(rest, |trail|);
    assert rest[..|rest| - |trail|] == t;
    assert s[|lead| + |t|..] == trail;
  }

  lemma LeadingSpaceIs(s: string, n: nat)
    requires n <= |s|
    requires forall k :: 0 <= k < n ==> IsSpace(s[k])
    requires n == |s| || !IsSpace(s[n])
    ensures LeadingSpace(s) == n
  {
  }

  lemma TrailingSpaceIs(s: string, n: nat)
    requires n <= |s|
    requires forall k :: |s| - n <= k < |s| ==> IsSpace(s[k])
    requires n == |s| || !IsSpace(s[|s| - 1 - n])
    ensures TrailingSpace(s) == n
  {
  }

  /** `s.replace(pat, rep)` for a non-empty pat: every occurrence of pat, taken left to right
      without overlaps, becomes rep. */
  function Replace(s: string, pat: string, rep: string): string
    requires |pat| > 0
    decreases |s|
  {
    if |s| < |pat| then s
    else if s[..|pat|] == pat then rep + Replace(s[|pat|..], pat, rep)
    else [s[0]] + Replace(s[1..], pat, rep)
  }

  /** Text in which pat's first character never appears passes through replace() untouched. */
  lemma {:induction false} ReplaceSkip(a: string, b: string, pat: string, rep: string)
    requires |pat| > 0
    requires forall k :: 0 <= k < |a| ==> a[k] != pat[0]
    ensures Replace(a + b, pat, rep) == a + Replace(b, pat, rep)
    decreases |a|
  {
    if |a| > 0 {
      var s := a + b;
      if |s| < |pat| {
        ReplaceShort(b, pat, rep);
        assert Replace(s, pat, rep) == s;
      } else {
        assert s[..|pat|][0] == a[0];
        assert Replace(s, pat, rep) == [a[0]] + Replace(s[1..], pat, rep);
        assert s[1..] == a[1..] + b;
        ReplaceSkip(a[1..], b, pat, rep);
        assert a == [a[0]] + a[1..];
      }
    } else {
      assert a + b == b;
    }
  }

  /** Text in which pat's first character never appears is returned by replace() as it is. */
  lemma ReplaceAbsent(s: string, pat: string, rep: string)
    requires |pat| > 0
    requires forall k :: 0 <= k < |s| ==> s[k] != pat[0]
    ensures Replace(s, pat, rep) == s
  {
    assert s + [] == s;
    ReplaceSkip(s, [], pat, rep);
    ReplaceShort([], pat, rep);
  }

  lemma ReplaceShort(s: string, pat: string, rep: string)
    requires |pat| > 0 && |s| < |pat|
    ensures Replace(s, pat, rep) == s
  {
  }

  /** An occurrence of pat at the front is replaced, and the scan resumes after it. */
  lemma ReplaceHere(b: string, pat: string, rep: string)
    requires |pat| > 0
    ensures Replace(pat + b, pat, rep) == rep + Replace(b, pat, rep)
  {
    var s := pat + b;
    assert s[..|pat|] == pat;
    assert s[|pat|..] == b;
  }

  /** The decimal digit of value d. */
  function Digit(d: nat): (c: char)
    requires d < 10
    ensures IsDigit(c)
  {
    ('0' as int + d) as char
  }

  /** The value of a digit. */
  function DigitValue(c: char): nat
    requires IsDigit(c)
  {
    c as int - '0' as int
  }

  /** `int(s)` for a string of ASCII digits: its decimal value, leading zeros allowed.
      (Every caller passes a non-empty run; `int('')` would raise.) */
  function Int(s: string): nat
    requires AllDigits(s)
    decreases |s|
  {
    if |s| == 0 then 0 else 10 * Int(s[..|s| - 1]) + DigitValue(s[|s| - 1])
  }

  /** `str(n)`: decimal digits of n without leading zeros, which int() reads back as n. */
  function Str(n: nat): (s: string)
    ensures IsDigits(s)
    ensures Int(s) == n
    ensures |s| > 1 ==> s[0] != '0'
    decreases n
  {
    if n < 10 then [Digit(n)]
    else
      var front := Str(n / 10);
      var s := front + [Digit(n % 10)];
      assert s[..|s| - 1] == front;
      s
  }
}
