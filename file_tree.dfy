/**
 * The in-memory file system the walker runs over. A directory is a value:
 * the full paths of its files, its subdirectories in enumeration order, and
 * for each of the two listings (`Directory.EnumerateFiles`,
 * `Directory.EnumerateDirectories`) whether it succeeds, is refused with an
 * `UnauthorizedAccessException`, or fails with any other exception.
 */
module FileTree {
  import opened Wrappers
  import opened Seqs
  import opened Text

  type Path = string

  /** How one listing call on a directory ends. A refusal or failure happens
      when the listing is opened, before any entry is produced. */
  datatype Status =
    | Listable
    | Denied(message: string)   // UnauthorizedAccessException
    | Faulted(message: string)  // IOException, PathTooLongException, DirectoryNotFoundException, ...

  datatype Dir = Dir(files: seq<Path>, fileListing: Status, subdirs: seq<Dir>, subdirListing: Status)

  /** An exception that leaves a listing call or the walker. */
  datatype Fault = AccessDenied(message: string) | OtherError(message: string)

  /** A stand-in for the file-name patterns of `Directory.EnumerateFiles`:
      `*` matches any run of characters, `?` one character, anything else
      itself, with letters compared case-insensitively. The Windows rules
      that differ (such as `*.*` selecting every name) are not modelled. */
  predicate Glob(pattern: string, name: string)
    decreases |pattern| + |name|
  {
    if pattern == [] then name == []
    else if pattern[0] == '*' then Glob(pattern[1..], name) || (name != [] && Glob(pattern, name[1..]))
    else name != [] && (pattern[0] == '?' || SameIgnoreCase(pattern[0], name[0])) && Glob(pattern[1..], name[1..])
  }

  predicate NoWildcards(s: string)
  {
    forall k :: 0 <= k < |s| ==> s[k] != '*' && s[k] != '?'
  }

  predicate EndsWithIgnoreCase(s: string, suffix: string)
  {
    |suffix| <= |s| && EqualsIgnoreCase(s[|s| - |suffix|..], suffix)
  }

  lemma {:induction false} LiteralGlob(pattern: string, name: string)
    requires NoWildcards(pattern)
    ensures Glob(pattern, name) <==> EqualsIgnoreCase(name, pattern)
  {
    if pattern != [] && name != [] {
      LiteralGlob(pattern[1..], name[1..]);
      if EqualsIgnoreCase(name, pattern) {
        assert EqualsIgnoreCase(name[1..], pattern[1..]) by {
          forall k | 0 <= k < |name[1..]| ensures SameIgnoreCase(name[1..][k], pattern[1..][k]) {
            assert SameIgnoreCase(name[k + 1], pattern[k + 1]);
          }
        }
      }
      if Glob(pattern, name) {
        forall k | 0 <= k < |name| ensures SameIgnoreCase(name[k], pattern[k]) {
          if k > 0 {
            assert name[1..][k - 1] == name[k] && pattern[1..][k - 1] == pattern[k];
          }
        }
      }
    }
  }

  lemma {:induction false} StarGlob(rest: string, name: string)
    ensures Glob(['*'] + rest, name) <==> exists k :: 0 <= k <= |name| && Glob(rest, name[k..])
    decreases |name|
  {
    var p := ['*'] + rest;
    assert p[1..] == rest;
    assert name[0..] == name;
    if name != [] {
      StarGlob(rest, name[1..]);
      if Glob(p, name[1..]) {
        var k :| 0 <= k <= |name[1..]| && Glob(rest, name[1..][k..]);
        assert name[1..][k..] == name[k + 1..];
      }
      if k :| 0 < k <= |name| && Glob(rest, name[k..]) {
        assert name[1..][k - 1..] == name[k..];
      }
    }
  }

  /** A pattern `*.ext` without further wildcards selects exactly the names
      that end in `.ext`, ignoring case. */
  lemma StarSuffix(suffix: string, name: string)
    requires NoWildcards(suffix)
    ensures Glob(['*'] + suffix, name) <==> EndsWithIgnoreCase(name, suffix)
  {
    StarGlob(suffix, name);
    if Glob(['*'] + suffix, name) {
      var k :| 0 <= k <= |name| && Glob(suffix, name[k..]);
      LiteralGlob(suffix, name[k..]);
    }
    if EndsWithIgnoreCase(name, suffix) {
      LiteralGlob(suffix, name[|name| - |suffix|..]);
    }
  }

  /** Whether the file at `path` is listed for `pattern`: the pattern is
      matched against the file name only, never against the directory part. */
  predicate Selected(pattern: string, path: Path)
  {
    Glob(pattern, FileName(path))
  }

  /** The files of a listing that `pattern` selects, in listing order. */
  function MatchingFiles(files: seq<Path>, pattern: string): seq<Path>
  {
    Filter(files, (f: Path) => Selected(pattern, f))
  }

  /** `Directory.EnumerateFiles(dir, pattern)`. */
  function EnumerateFiles(d: Dir, pattern: string): (r: Result<seq<Path>, Fault>)
    ensures r.Ok? <==> d.fileListing.Listable?
    ensures r.Ok? ==> r.value == MatchingFiles(d.files, pattern)
    ensures r.Ok? ==> forall f :: f in r.value <==> f in d.files && Selected(pattern, f)
    ensures d.fileListing.Denied? ==> r == Err(AccessDenied(d.fileListing.message))
    ensures d.fileListing.Faulted? ==> r == Err(OtherError(d.fileListing.message))
  {
    match d.fileListing
    case Listable =>
      var found := MatchingFiles(d.files, pattern);
      assert forall f :: f in found <==> f in d.files && Selected(pattern, f) by {
        forall f { FilterMembership(d.files, (f: Path) => Selected(pattern, f), f); }
      }
      Ok(found)
    case Denied(m) => Err(AccessDenied(m))
    case Faulted(m) => Err(OtherError(m))
  }
}
