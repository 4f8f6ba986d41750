/**
 * The string operations of the .NET base library that the search relies on:
 * `String.Trim`, ordinal case-insensitive comparison and `IndexOf`,
 * `ToLower`, and `Path.GetFileName` / `Path.GetExtension` on Windows paths.
 * Case folding is the ASCII one (see README, "Left out").
 */
module Text {

  /** `Char.IsWhiteSpace`: the Unicode space, line and paragraph separators,
      U+0009 to U+000D, U+0085 and U+00A0. */
  predicate IsWhiteSpace(c: char)
  {
    ('\U{0009}' <= c <= '\U{000D}') || c == ' ' || c == '\U{0085}' || c == '\U{00A0}' ||
    c == '\U{1680}' || ('\U{2000}' <= c <= '\U{200A}') || c == '\U{2028}' || c == '\U{2029}' ||
    c == '\U{202F}' || c == '\U{205F}' || c == '\U{3000}'
  }

  /** The whitespace-free-at-both-ends strings: what `Trim` produces. */
  predicate Trimmed(s: string)
  {
    s == [] || (!IsWhiteSpace(s[0]) && !IsWhiteSpace(s[|s| - 1]))
  }

  /** Everything of `s` outside the `len` characters starting at `start` is whitespace. */
  predicate Padded(s: string, start: int, len: nat)
  {
    && 0 <= start && start + len <= |s|
    && (forall k :: 0 <= k < start ==> IsWhiteSpace(s[k]))
    && (forall k :: start + len <= k < |s| ==> IsWhiteSpace(s[k]))
  }

  /** The first position from `i` on that is not whitespace, or `|s|`. */
  function TrimStartIndex(s: string, i: nat): (j: nat)
    requires i <= |s|
    ensures i <= j <= |s|
    ensures forall k :: i <= k < j ==> IsWhiteSpace(s[k])
    ensures j < |s| ==> !IsWhiteSpace(s[j])
    decreases |s| - i
  {
    if i < |s| && IsWhiteSpace(s[i]) then TrimStartIndex(s, i + 1) else i
  }

  /** The end of `s[lo..j]` once its trailing whitespace is dropped. */
  function TrimEndIndex(s: string, lo: nat, j: nat): (e: nat)
    requires lo <= j <= |s|
    ensures lo <= e <= j
    ensures forall k :: e <= k < j ==> IsWhiteSpace(s[k])
    ensures e > lo ==> !IsWhiteSpace(s[e - 1])
    decreases j - lo
  {
    if j > lo && IsWhiteSpace(s[j - 1]) then TrimEndIndex(s, lo, j - 1) else j
  }

  /** `String.Trim()`: scans forward past the leading whitespace, then
      backward past the trailing whitespace, and keeps what lies between. */
  function Trim(s: string): (r: string)
    ensures Trimmed(r)
    ensures |r| <= |s|
  {
    var start := TrimStartIndex(s, 0);
    s[start..TrimEndIndex(s, start, |s|)]
  }

  /** What is dropped is whitespace, and what is kept is one contiguous piece of `s`. */
  lemma TrimSpec(s: string)
    ensures exists i :: Padded(s, i, |Trim(s)|) && Trim(s) == s[i..i + |Trim(s)|]
  {
    var i := TrimStartIndex(s, 0);
    var e := TrimEndIndex(s, i, |s|);
    assert Trim(s) == s[i..e];
    assert |Trim(s)| == e - i;
    assert Padded(s, i, |Trim(s)|) && Trim(s) == s[i..i + |Trim(s)|];
  }

  lemma TrimKeepsTrimmed(s: string)
    requires Trimmed(s)
    ensures Trim(s) == s
  {
    assert TrimStartIndex(s, 0) == 0;
    assert TrimEndIndex(s, 0, |s|) == |s|;
    assert s[0..|s|] == s;
  }

  /** Trimming twice is trimming once. */
  lemma TrimIdempotent(s: string)
    ensures Trim(Trim(s)) == Trim(s)
  {
    TrimKeepsTrimmed(Trim(s));
  }

  function UpperAscii(c: char): (u: char)
    ensures 'a' <= c <= 'z' ==> u as int == c as int - 32
    ensures !('a' <= c <= 'z') ==> u == c
  {
    if 'a' <= c <= 'z' then (c as int - 32) as char else c
  }

  function LowerAscii(c: char): (l: char)
    ensures 'A' <= c <= 'Z' ==> l as int == c as int + 32
    ensures !('A' <= c <= 'Z') ==> l == c
  {
    if 'A' <= c <= 'Z' then (c as int + 32) as char else c
  }

  /** `String.ToLower()`, restricted to ASCII letters. */
  function ToLower(s: string): (r: string)
    ensures |r| == |s| && forall k :: 0 <= k < |s| ==> r[k] == LowerAscii(s[k])
  {
    if s == [] then [] else [LowerAscii(s[0])] + ToLower(s[1..])
  }

  /** Ordinal case-insensitive equality of two characters. */
  predicate SameIgnoreCase(a: char, b: char)
  {
    UpperAscii(a) == UpperAscii(b)
  }

  /** `String.Equals(a, b, StringComparison.OrdinalIgnoreCase)`. */
  predicate EqualsIgnoreCase(a: string, b: string)
  {
    |a| == |b| && forall k :: 0 <= k < |a| ==> SameIgnoreCase(a[k], b[k])
  }

  /** `value` occurs in `s` at position `i`, ignoring case. */
  predicate OccursAt(s: string, value: string, i: int)
  {
    0 <= i && i + |value| <= |s| && EqualsIgnoreCase(s[i..i + |value|], value)
  }

  predicate ContainsIgnoreCase(s: string, value: string)
  {
    exists i :: 0 <= i <= |s| && OccursAt(s, value, i)
  }

  function IndexFrom(s: string, value: string, start: nat): (r: int)
    requires start <= |s|
    ensures r == -1 || (start <= r && OccursAt(s, value, r))
    ensures r != -1 ==> forall i :: start <= i < r ==> !OccursAt(s, value, i)
    ensures r == -1 ==> forall i :: start <= i ==> !OccursAt(s, value, i)
    decreases |s| - start
  {
    if start + |value| > |s| then -1
    else if EqualsIgnoreCase(s[start..start + |value|], value) then start
    else IndexFrom(s, value, start + 1)
  }

  /** `s.IndexOf(value, StringComparison.OrdinalIgnoreCase)`: the first
      position of `value` in `s`, or -1 when there is none. */
  function IndexOfIgnoreCase(s: string, value: string): (r: int)
    ensures r >= 0 <==> ContainsIgnoreCase(s, value)
    ensures r >= 0 ==> OccursAt(s, value, r) && forall i :: 0 <= i < r ==> !OccursAt(s, value, i)
    ensures r < 0 ==> r == -1
  {
    IndexFrom(s, value, 0)
  }

  /** The empty string occurs at the very start of every string. */
  lemma EmptyValueAtZero(s: string)
    ensures IndexOfIgnoreCase(s, "") == 0
  {
    assert OccursAt(s, "", 0);
  }

  /** `Path.DirectorySeparatorChar` and `Path.AltDirectorySeparatorChar` on Windows. */
  predicate IsSeparator(c: char)
  {
    c == '\\' || c == '/'
  }

  /** Length of the last path component: the characters after the final separator. */
  function NameLength(path: string): (n: nat)
    ensures n <= |path|
    ensures forall k :: |path| - n <= k < |path| ==> !IsSeparator(path[k])
    ensures n < |path| ==> IsSeparator(path[|path| - n - 1])
  {
    if path == [] || IsSeparator(path[|path| - 1]) then 0
    else NameLength(path[..|path| - 1]) + 1
  }

  /** `Path.GetFileName`: the part of the path after its last separator. */
  function FileName(path: string): (r: string)
    ensures |r| <= |path| && r == path[|path| - |r|..]
    ensures forall k :: 0 <= k < |r| ==> !IsSeparator(r[k])
    ensures |r| < |path| ==> IsSeparator(path[|path| - |r| - 1])
  {
    path[|path| - NameLength(path)..]
  }

  /** The file name of `directory\name` is `name`. */
  lemma FileNameAfterSeparator(directory: string, sep: char, name: string)
    requires IsSeparator(sep)
    requires forall k :: 0 <= k < |name| ==> !IsSeparator(name[k])
    ensures FileName(directory + [sep] + name) == name
  {
    NameLengthAfterSeparator(directory, sep, name);
    var path := directory + [sep] + name;
    assert path[|path| - |name|..] == name;
  }

  lemma {:induction false} NameLengthAfterSeparator(directory: string, sep: char, name: string)
    requires IsSeparator(sep)
    requires forall k :: 0 <= k < |name| ==> !IsSeparator(name[k])
    ensures NameLength(directory + [sep] + name) == |name|
  {
    var path := directory + [sep] + name;
    if name != [] {
      var front := name[..|name| - 1];
      assert path[..|path| - 1] == directory + [sep] + front;
      NameLengthAfterSeparator(directory, sep, front);
    }
  }

  /** Position of the last '.' in the file name part of `path`, if any. */
  function LastDot(path: string, end: nat): (i: int)
    requires end <= |path|
    ensures -1 <= i < end
    ensures i >= 0 ==> path[i] == '.' && forall k :: i < k < end ==> path[k] != '.' && !IsSeparator(path[k])
    ensures i == -1 ==> forall k :: 0 <= k < end ==> (path[k] == '.' ==> exists j :: k < j < end && IsSeparator(path[j]))
  {
    if end == 0 then -1
    else if path[end - 1] == '.' then end - 1
    else if IsSeparator(path[end - 1]) then
      -1
    else LastDot(path, end - 1)
  }

  /** `Path.GetExtension`: from the last '.' of the file name to the end,
      or empty when the file name has no '.' or ends in one. */
  function Extension(path: string): (r: string)
    ensures r == "" || (|r| >= 2 && r[0] == '.' && |r| <= |path| && r == path[|path| - |r|..] &&
                        forall k :: 1 <= k < |r| ==> r[k] != '.' && !IsSeparator(r[k]))
  {
    var i := LastDot(path, |path|);
    if i >= 0 && i != |path| - 1 then path[i..] else ""
  }
}
