/**
 * The search pipeline of `Search_Click` and the edit check of
 * `EditFile_Click`, on values: selector resolution, the walk(s), the
 * existence and name post-filter, request validation with the root
 * fallback, and the classification of what the user is shown.
 */
module Pipeline {
  import opened Wrappers
  import opened Seqs
  import opened Text
  import opened FileTree
  import opened Walker

  // ---------------------------------------------------------------------
  // Selector resolution.

  const PngJpg: string := "*.png + *.jpg"
  const DocxPdf: string := "*.docx + *.pdf"
  const ZipSevenZip: string := "*.zip + *.7z"
  const Mp4Mkv: string := "*.mp4 + *.mkv"

  /** The compound selectors and the two patterns each stands for, in order. */
  const CompoundSelectors: map<string, (string, string)> := map[
    PngJpg := ("*.png", "*.jpg"),
    DocxPdf := ("*.docx", "*.pdf"),
    ZipSevenZip := ("*.zip", "*.7z"),
    Mp4Mkv := ("*.mp4", "*.mkv")
  ]

  /** `first.Concat(second)` over two walks, each of which may have thrown:
      the second walk runs only when the first one returned. */
  function Concatenated(first: Result<seq<Path>, Fault>, second: Result<seq<Path>, Fault>): (r: Result<seq<Path>, Fault>)
    ensures r.Ok? <==> first.Ok? && second.Ok?
    ensures r.Err? ==> r == first || r == second
  {
    if first.Err? then first
    else if second.Err? then second
    else Ok(first.value + second.value)
  }

  /** The files found for the type chosen in the combo box, before filtering. */
  function Resolve(root: Dir, selected: string): Result<seq<Path>, Fault>
  {
    if selected == PngJpg then Concatenated(Walk(root, "*.png"), Walk(root, "*.jpg"))
    else if selected == DocxPdf then Concatenated(Walk(root, "*.docx"), Walk(root, "*.pdf"))
    else if selected == ZipSevenZip then Concatenated(Walk(root, "*.zip"), Walk(root, "*.7z"))
    else if selected == Mp4Mkv then Concatenated(Walk(root, "*.mp4"), Walk(root, "*.mkv"))
    else Walk(root, selected)
  }

  /** A compound selector yields the walk for its first pattern followed by
      the walk for its second, over the same root; any other selector string
      is a single pattern, used unchanged. */
  lemma ResolveFollowsTable(root: Dir, selected: string)
    ensures selected in CompoundSelectors ==>
              var (first, second) := CompoundSelectors[selected];
              Resolve(root, selected) == Concatenated(Walk(root, first), Walk(root, second))
    ensures selected !in CompoundSelectors ==> Resolve(root, selected) == Walk(root, selected)
  {
  }

  /** What a resolved search returns, stated against the reference definitions
      of the walker: it fails exactly when the tree has a reachable
      non-access-denied failure, and otherwise a compound selector returns all
      visible matches of its first pattern, then all of its second. */
  lemma ResolveSpec(root: Dir, selected: string)
    ensures Resolve(root, selected).Err? <==> Faulty(root)
    ensures Faulty(root) ==> Resolve(root, selected) == Err(OtherError(FirstFault(root)))
    ensures !Faulty(root) && selected in CompoundSelectors ==>
              var (first, second) := CompoundSelectors[selected];
              Resolve(root, selected) == Ok(Visible(root, first) + Visible(root, second))
    ensures !Faulty(root) && selected !in CompoundSelectors ==>
              Resolve(root, selected) == Ok(Visible(root, selected))
  {
    ResolveFollowsTable(root, selected);
    if selected in CompoundSelectors {
      var (first, second) := CompoundSelectors[selected];
      WalkSpec(root, first);
      WalkSpec(root, second);
    } else {
      WalkSpec(root, selected);
    }
  }

  lemma StarSuffixOn(directory: string, name: string, suffix: string)
    requires NoWildcards(suffix)
    requires forall k :: 0 <= k < |name| ==> !IsSeparator(name[k])
    ensures Selected(['*'] + suffix, directory + ['\\'] + name) <==> EndsWithIgnoreCase(name, suffix)
  {
    FileNameAfterSeparator(directory, '\\', name);
    StarSuffix(suffix, name);
  }

  /** Which of the three example names end in `.png` and `.jpg`. */
  lemma ExampleSuffixes()
    ensures EndsWithIgnoreCase("a.png", ".png") && !EndsWithIgnoreCase("b.jpg", ".png") && !EndsWithIgnoreCase("c.gif", ".png")
    ensures !EndsWithIgnoreCase("a.png", ".jpg") && EndsWithIgnoreCase("b.jpg", ".jpg") && !EndsWithIgnoreCase("c.gif", ".jpg")
  {
    assert "a.png"[1..] == ".png" && "b.jpg"[1..] == ".jpg" && "c.gif"[1..] == ".gif";
    assert ".png"[1] == 'p' && ".jpg"[1] == 'j' && ".gif"[1] == 'g';
    assert !SameIgnoreCase('j', 'p') && !SameIgnoreCase('g', 'p') && !SameIgnoreCase('p', 'j') && !SameIgnoreCase('g', 'j');
  }

  lemma ExampleSelected(folder: string, name: string, suffix: string)
    requires suffix == ".png" || suffix == ".jpg"
    requires name == "a.png" || name == "b.jpg" || name == "c.gif"
    ensures Selected(['*'] + suffix, folder + ['\\'] + name) <==> EndsWithIgnoreCase(name, suffix)
  {
    StarSuffixOn(folder, name, suffix);
  }

  lemma ExampleSelections(folder: string)
    ensures var (a, b, c) := (folder + "\\a.png", folder + "\\b.jpg", folder + "\\c.gif");
            && Selected("*.png", a) && !Selected("*.png", b) && !Selected("*.png", c)
            && !Selected("*.jpg", a) && Selected("*.jpg", b) && !Selected("*.jpg", c)
  {
    ExampleSuffixes();
    assert "*.png" == ['*'] + ".png" && "*.jpg" == ['*'] + ".jpg";
    assert folder + "\\a.png" == folder + ['\\'] + "a.png";
    assert folder + "\\b.jpg" == folder + ['\\'] + "b.jpg";
    assert folder + "\\c.gif" == folder + ['\\'] + "c.gif";
    ExampleSelected(folder, "a.png", ".png");
    ExampleSelected(folder, "b.jpg", ".png");
    ExampleSelected(folder, "c.gif", ".png");
    ExampleSelected(folder, "a.png", ".jpg");
    ExampleSelected(folder, "b.jpg", ".jpg");
    ExampleSelected(folder, "c.gif", ".jpg");
  }

  lemma FlatWalk(files: seq<Path>, pattern: string)
    ensures Walk(Dir(files, Listable, [], Listable), pattern) == Ok(MatchingFiles(files, pattern))
  {
    WalkSpec(Dir(files, Listable, [], Listable), pattern);
  }

  lemma ThreeFilter(a: Path, b: Path, c: Path, keep: Path -> bool)
    ensures Filter([a, b, c], keep) ==
            (if keep(a) then [a] else []) + (if keep(b) then [b] else []) + (if keep(c) then [c] else [])
  {
    assert [a, b, c][1..] == [b, c] && [b, c][1..] == [c] && [c][1..] == [];
    assert Filter([c], keep) == (if keep(c) then [c] else []);
    assert Filter([b, c], keep) == (if keep(b) then [b] else []) + Filter([c], keep);
  }

  /** The images selector on a folder whose only entries are `a.png`, `b.jpg`
      and `c.gif`, listed in that order, with no subdirectories, returns
      exactly `a.png` then `b.jpg`. */
  lemma ImagesSelectorExample(folder: string)
    ensures var (a, b, c) := (folder + "\\a.png", folder + "\\b.jpg", folder + "\\c.gif");
            Resolve(Dir([a, b, c], Listable, [], Listable), PngJpg) == Ok([a, b])
  {
    var (a, b, c) := (folder + "\\a.png", folder + "\\b.jpg", folder + "\\c.gif");
    var files := [a, b, c];
    var root := Dir(files, Listable, [], Listable);
    assert MatchingFiles(files, "*.png") == [a] by {
      ExampleSelections(folder);
      ThreeFilter(a, b, c, (f: Path) => Selected("*.png", f));
    }
    assert MatchingFiles(files, "*.jpg") == [b] by {
      ExampleSelections(folder);
      ThreeFilter(a, b, c, (f: Path) => Selected("*.jpg", f));
    }
    FlatWalk(files, "*.png");
    FlatWalk(files, "*.jpg");
    assert Resolve(root, PngJpg) == Concatenated(Ok([a]), Ok([b]));
    assert [a] + [b] == [a, b];
  }

  /** `SafeEnumerateFiles` called once per pattern of the selector, in order. */
  method EnumerateSelected(root: Dir, selected: string) returns (r: Result<seq<Path>, Fault>)
    ensures r == Resolve(root, selected)
  {
    ResolveFollowsTable(root, selected);
    if selected in CompoundSelectors {
      var (first, second) := CompoundSelectors[selected];
      var firstFiles := SafeEnumerateFiles(root, first);
      if firstFiles.Err? {
        return firstFiles;
      }
      var secondFiles := SafeEnumerateFiles(root, second);
      r := Concatenated(firstFiles, secondFiles);
    } else {
      r := SafeEnumerateFiles(root, selected);
    }
  }

  // ---------------------------------------------------------------------
  // The post-filter.

  /** The two conditions of the `Where`: the file still exists, and its name
      contains the filter text, compared ordinally and ignoring case. */
  predicate Kept(existing: set<Path>, nameFilter: string, f: Path)
  {
    f in existing && IndexOfIgnoreCase(FileName(f), nameFilter) >= 0
  }

  function PostFilter(files: seq<Path>, existing: set<Path>, nameFilter: string): seq<Path>
  {
    Filter(files, (f: Path) => Kept(existing, nameFilter, f))
  }

  /** The filter is an order-preserving subsequence of the walk that keeps
      exactly the candidates that exist and whose file name contains the
      filter text, ignoring case. */
  lemma PostFilterSpec(files: seq<Path>, existing: set<Path>, nameFilter: string)
    ensures IsSubsequence(PostFilter(files, existing, nameFilter), files)
    ensures forall f :: f in PostFilter(files, existing, nameFilter) <==>
                        f in files && f in existing && ContainsIgnoreCase(FileName(f), nameFilter)
  {
    var keep := (f: Path) => Kept(existing, nameFilter, f);
    FilterIsSubsequence(files, keep);
    forall f { FilterMembership(files, keep, f); }
  }

  /** The filter acts on each candidate on its own: filtering two walks
      concatenated is concatenating the two filtered walks. */
  lemma PostFilterConcat(a: seq<Path>, b: seq<Path>, existing: set<Path>, nameFilter: string)
    ensures PostFilter(a + b, existing, nameFilter) == PostFilter(a, existing, nameFilter) + PostFilter(b, existing, nameFilter)
  {
    FilterConcat(a, b, (f: Path) => Kept(existing, nameFilter, f));
  }

  /** An empty name filter keeps every candidate that still exists. */
  lemma EmptyNameFilterKeepsExisting(files: seq<Path>, existing: set<Path>)
    ensures PostFilter(files, existing, "") == Filter(files, (f: Path) => f in existing)
  {
    forall k | 0 <= k < |files| ensures Kept(existing, "", files[k]) == (files[k] in existing) {
      EmptyValueAtZero(FileName(files[k]));
    }
    FilterAgrees(files, (f: Path) => Kept(existing, "", f), (f: Path) => f in existing);
  }

  /** A file deleted after the walk found it is not shown. */
  lemma DeletedFileExcluded(files: seq<Path>, existing: set<Path>, nameFilter: string, f: Path)
    requires f in files && f !in existing
    ensures f !in PostFilter(files, existing, nameFilter)
  {
    FilterMembership(files, (f: Path) => Kept(existing, nameFilter, f), f);
  }

  /** `Report.PDF` is found with the name filter `report`. */
  lemma ReportPdfMatchesReport()
    ensures Kept({"C:\\Docs\\Report.PDF"}, "report", "C:\\Docs\\Report.PDF")
  {
    ReportPdfName();
    ReportPdfOccurs();
  }

  lemma ReportPdfName()
    ensures FileName("C:\\Docs\\Report.PDF") == "Report.PDF"
  {
    assert "C:\\Docs\\Report.PDF" == "C:\\Docs" + ['\\'] + "Report.PDF";
    FileNameAfterSeparator("C:\\Docs", '\\', "Report.PDF");
  }

  lemma ReportPdfOccurs()
    ensures IndexOfIgnoreCase("Report.PDF", "report") == 0
  {
    assert OccursAt("Report.PDF", "report", 0);
  }

  // ---------------------------------------------------------------------
  // The request, the root fallback and the outcome.

  const WorkFolder: Path := "C:\\Work\\"

  /** The text of the three inputs when the search button is pressed; no type
      selected is `None`. */
  datatype Request = Request(selected: Option<string>, directoryText: string, nameFilterText: string)

  /** The host as the search sees it: the directories that exist, each with
      its tree, and the files that `File.Exists` reports after the walk. */
  datatype Host = Host(trees: map<Path, Dir>, existing: set<Path>)

  /** The directory searched: the requested one, else the work folder, else none. */
  function ResolveRoot(directory: Path, trees: map<Path, Dir>): (r: Option<Path>)
    ensures r.Some? ==> r.value in trees
    ensures r.None? <==> directory !in trees && WorkFolder !in trees
  {
    if directory in trees then Some(directory)
    else if WorkFolder in trees then Some(WorkFolder)
    else None
  }

  /** The single outcome of a press of the search button. */
  datatype Outcome =
    | NoTypeSelected
    | NoFolder
    | Found(paths: seq<Path>)
    | NothingFound
    | Failed(message: string)

  /** Classify filtered results: a non-empty list is shown, an empty one is
      the informational "nothing found", never an error. */
  function Classify(files: seq<Path>, existing: set<Path>, nameFilter: string): (o: Outcome)
    ensures o.Found? || o.NothingFound?
    ensures o.NothingFound? <==> PostFilter(files, existing, nameFilter) == []
    ensures o.Found? ==> o.paths != [] && o.paths == PostFilter(files, existing, nameFilter)
  {
    var filtered := PostFilter(files, existing, nameFilter);
    if filtered == [] then NothingFound else Found(filtered)
  }

  function Search(req: Request, host: Host): Outcome
  {
    if req.selected.None? then NoTypeSelected
    else
      var directory := Trim(req.directoryText);
      var nameFilter := Trim(req.nameFilterText);
      match ResolveRoot(directory, host.trees)
      case None => NoFolder
      case Some(root) =>
        Reported(Resolve(host.trees[root], req.selected.value), host.existing, nameFilter)
  }

  /** The outcome once the walk has run: its failure, or its classified files. */
  function Reported(files: Result<seq<Path>, Fault>, existing: set<Path>, nameFilter: string): Outcome
  {
    match files
    case Err(e) => Failed(e.message)
    case Ok(found) => Classify(found, existing, nameFilter)
  }

  /** The steps of `Search_Click` that decide what is shown: the type check,
      trimming, the folder check with its fallback, the walk(s) and the
      post-filter, with the exceptions it catches as `Failed`. Also returns
      the text the directory box holds afterwards. */
  method RunSearch(req: Request, host: Host) returns (o: Outcome, shownDirectory: string)
    ensures o == Search(req, host)
    ensures shownDirectory == DirectoryTextAfter(req, host)
  {
    shownDirectory := req.directoryText;
    if req.selected.None? {
      return NoTypeSelected, shownDirectory;
    }
    var directory := Trim(req.directoryText);
    var nameFilter := Trim(req.nameFilterText);
    if directory !in host.trees {
      directory := WorkFolder;
      if directory !in host.trees {
        return NoFolder, shownDirectory;
      }
      shownDirectory := directory;
    }
    var files := EnumerateSelected(host.trees[directory], req.selected.value);
    match files {
      case Err(e) =>
        o := Failed(e.message);
      case Ok(found) =>
        var filtered := PostFilter(found, host.existing, nameFilter);
        o := if filtered == [] then NothingFound else Found(filtered);
    }
  }

  /** The text left in the directory box: replaced by the work folder exactly
      when the fallback was taken. */
  function DirectoryTextAfter(req: Request, host: Host): (t: string)
    ensures t == req.directoryText || t == WorkFolder
  {
    if req.selected.Some? && Trim(req.directoryText) !in host.trees && WorkFolder in host.trees then WorkFolder
    else req.directoryText
  }

  /** The whole pipeline against the reference definitions: validation first,
      then the fallback, then either the first failure of the walk or the
      filtered visible matches of every pattern of the selector in order. */
  lemma SearchSpec(req: Request, host: Host)
    ensures req.selected.None? ==> Search(req, host) == NoTypeSelected
    ensures req.selected.Some? && ResolveRoot(Trim(req.directoryText), host.trees).None? ==> Search(req, host) == NoFolder
    ensures req.selected.Some? && ResolveRoot(Trim(req.directoryText), host.trees).Some? ==>
              var tree := host.trees[ResolveRoot(Trim(req.directoryText), host.trees).value];
              var s := req.selected.value;
              var nameFilter := Trim(req.nameFilterText);
              && (Faulty(tree) ==> Search(req, host) == Failed(FirstFault(tree)))
              && (!Faulty(tree) && s in CompoundSelectors ==>
                    Search(req, host) == Classify(Visible(tree, CompoundSelectors[s].0) + Visible(tree, CompoundSelectors[s].1), host.existing, nameFilter))
              && (!Faulty(tree) && s !in CompoundSelectors ==>
                    Search(req, host) == Classify(Visible(tree, s), host.existing, nameFilter))
  {
    if req.selected.Some? {
      var root := ResolveRoot(Trim(req.directoryText), host.trees);
      if root.Some? {
        ResolveSpec(host.trees[root.value], req.selected.value);
      }
    }
  }

  /** The directory and name filter are trimmed before use: inputs that differ
      only by surrounding whitespace give the same outcome. */
  lemma InputsAreTrimmed(req: Request, host: Host)
    ensures Search(req, host) == Search(req.(directoryText := Trim(req.directoryText), nameFilterText := Trim(req.nameFilterText)), host)
  {
    TrimIdempotent(req.directoryText);
    TrimIdempotent(req.nameFilterText);
  }

  lemma WorkFolderIsTrimmed()
    ensures Trim(WorkFolder) == WorkFolder
  {
    assert !IsWhiteSpace(WorkFolder[0]) && !IsWhiteSpace(WorkFolder[|WorkFolder| - 1]);
    TrimKeepsTrimmed(WorkFolder);
  }

  /** The root fallback: when the requested directory does not exist but the
      work folder does, the search is the one the user would get by typing the
      work folder, and the directory box shows it afterwards. When neither
      exists the request fails and no walk takes place, so the outcome does
      not depend on any tree. */
  lemma RootFallback(req: Request, host: Host)
    requires req.selected.Some? && Trim(req.directoryText) !in host.trees
    ensures WorkFolder in host.trees ==>
              Search(req, host) == Search(req.(directoryText := WorkFolder), host) &&
              DirectoryTextAfter(req, host) == WorkFolder
    ensures WorkFolder !in host.trees ==>
              Search(req, host) == NoFolder && DirectoryTextAfter(req, host) == req.directoryText
  {
    if WorkFolder in host.trees {
      var typed := req.(directoryText := WorkFolder);
      WorkFolderIsTrimmed();
      SearchFrom(req, host, WorkFolder);
      SearchFrom(typed, host, WorkFolder);
    }
  }

  /** After a search with a type selected, the directory box names, up to
      surrounding whitespace, the folder that was walked; when no folder was
      found it keeps the text as typed. */
  lemma DirectoryBoxNamesSearchedFolder(req: Request, host: Host)
    requires req.selected.Some?
    ensures var root := ResolveRoot(Trim(req.directoryText), host.trees);
            && (root.Some? ==> Trim(DirectoryTextAfter(req, host)) == root.value)
            && (root.None? ==> DirectoryTextAfter(req, host) == req.directoryText)
  {
    WorkFolderIsTrimmed();
  }

  /** `Search` once the folder to walk is known. */
  lemma SearchFrom(req: Request, host: Host, root: Path)
    requires req.selected.Some? && ResolveRoot(Trim(req.directoryText), host.trees) == Some(root)
    ensures Search(req, host) == Reported(Resolve(host.trees[root], req.selected.value), host.existing, Trim(req.nameFilterText))
  {
  }

  // ---------------------------------------------------------------------
  // What the source does with the filtered sequence, and its correction.

  /** As written: the lazy `filtered` query is enumerated twice, once by the
      `foreach` that fills the list and once by `Any()`, and `File.Exists` is
      asked again the second time. `existingAtAny` is what it answers then.
      Returns the list shown and whether "nothing found" is announced. */
  function ShownAsWritten(files: seq<Path>, existing: set<Path>, existingAtAny: set<Path>, nameFilter: string): (shown: (seq<Path>, bool))
    ensures existing == existingAtAny ==> (shown.1 <==> shown.0 == [])
  {
    (PostFilter(files, existing, nameFilter), PostFilter(files, existingAtAny, nameFilter) == [])
  }

  /** A file deleted between the two enumerations is listed as found, and
      "nothing found" is announced as well. */
  lemma ShownAsWrittenDisagrees()
    ensures ShownAsWritten(["C:\\Work\\a.png"], {"C:\\Work\\a.png"}, {}, "") == (["C:\\Work\\a.png"], true)
  {
    var file: Path := "C:\\Work\\a.png";
    var keepNow := (f: Path) => Kept({file}, "", f);
    var keepLater := (f: Path) => Kept({}, "", f);
    EmptyValueAtZero(FileName(file));
    assert keepNow(file) && !keepLater(file);
    assert [file][1..] == [];
    assert Filter([file], keepNow) == [file];
    assert Filter([file], keepLater) == [];
  }

  /** Corrected: the filtered sequence is computed once; the list and the
      notice then always agree. */
  lemma ClassifyAgreesWithList(files: seq<Path>, existing: set<Path>, nameFilter: string)
    ensures var shown := ShownAsWritten(files, existing, existing, nameFilter);
            && (Classify(files, existing, nameFilter) == NothingFound <==> shown.1)
            && (shown.0 != [] <==> Classify(files, existing, nameFilter).Found?)
  {
  }

  // ---------------------------------------------------------------------
  // The edit action.

  const ImageExtensions: set<string> := {".png", ".jpg", ".jpeg", ".bmp"}

  /** `Path.GetExtension(path).ToLower()` is one of the image extensions. */
  predicate CanEdit(path: Path)
  {
    ToLower(Extension(path)) in ImageExtensions
  }

  predicate EndsWithLower(s: string, suffix: string)
  {
    |suffix| <= |s| && ToLower(s[|s| - |suffix|..]) == suffix
  }

  /** The extension found by `Path.GetExtension` is every suffix of the path
      that starts with a dot and has no further dot or separator. */
  lemma {:induction false} ExtensionOfDottedSuffix(path: Path, suffix: string)
    requires |suffix| >= 2 && suffix[0] == '.' && |suffix| <= |path| && path[|path| - |suffix|..] == suffix
    requires forall k :: 1 <= k < |suffix| ==> suffix[k] != '.' && !IsSeparator(suffix[k])
    ensures Extension(path) == suffix
  {
    var i := LastDot(path, |path|);
    assert path[|path| - |suffix|] == '.';
    forall k | |path| - |suffix| < k < |path| ensures path[k] != '.' && !IsSeparator(path[k]) {
      assert path[k] == suffix[k - (|path| - |suffix|)];
    }
    assert i == |path| - |suffix|;
  }

  lemma LowerDotted(s: string)
    requires ToLower(s) in ImageExtensions
    ensures |s| >= 4 && s[0] == '.'
    ensures forall k :: 1 <= k < |s| ==> s[k] != '.' && !IsSeparator(s[k])
  {
    var l := ToLower(s);
    ImageExtensionLetters(l);
    forall k | 1 <= k < |s| ensures s[k] != '.' && !IsSeparator(s[k]) {
      LetterFromLower(s[k], l[k]);
    }
    LetterFromLower(s[0], l[0]);
  }

  lemma LetterFromLower(c: char, l: char)
    requires LowerAscii(c) == l
    ensures l == '.' ==> c == '.'
    ensures 'a' <= l <= 'z' ==> c != '.' && !IsSeparator(c)
  {
  }

  lemma ImageExtensionLetters(e: string)
    requires e in ImageExtensions
    ensures |e| >= 4 && e[0] == '.'
    ensures forall k :: 1 <= k < |e| ==> 'a' <= e[k] <= 'z'
  {
    if e == ".jpeg" {
      assert e[1] == 'j' && e[2] == 'p' && e[3] == 'e' && e[4] == 'g';
    } else {
      assert |e| == 4;
    }
  }

  predicate HasImageSuffix(path: Path)
  {
    EndsWithLower(path, ".png") || EndsWithLower(path, ".jpg") ||
    EndsWithLower(path, ".jpeg") || EndsWithLower(path, ".bmp")
  }

  lemma CanEditHasImageSuffix(path: Path)
    requires CanEdit(path)
    ensures HasImageSuffix(path)
  {
    var e := ToLower(Extension(path));
    EndsWithOwnExtension(path);
    if e == ".png" {
      assert EndsWithLower(path, ".png");
    } else if e == ".jpg" {
      assert EndsWithLower(path, ".jpg");
    } else if e == ".jpeg" {
      assert EndsWithLower(path, ".jpeg");
    } else {
      assert e == ".bmp";
      assert EndsWithLower(path, ".bmp");
    }
  }

  /** A path ends in its own extension, lower-cased or not. */
  lemma EndsWithOwnExtension(path: Path)
    ensures EndsWithLower(path, ToLower(Extension(path)))
  {
    var ext := Extension(path);
    assert path[|path| - |ext|..] == ext;
  }

  lemma ImageSuffixCanEdit(path: Path, e: string)
    requires e in ImageExtensions && EndsWithLower(path, e)
    ensures CanEdit(path)
  {
    var tail := path[|path| - |e|..];
    assert |tail| == |e|;
    LowerDotted(tail);
    ExtensionOfDottedSuffix(path, tail);
  }

  /** The edit action is offered exactly for paths that end in `.png`, `.jpg`,
      `.jpeg` or `.bmp`, in any mix of upper and lower case. */
  lemma CanEditIffImageSuffix(path: Path)
    ensures CanEdit(path) <==> HasImageSuffix(path)
  {
    if CanEdit(path) {
      CanEditHasImageSuffix(path);
    }
    if HasImageSuffix(path) {
      if EndsWithLower(path, ".png") { ImageSuffixCanEdit(path, ".png"); }
      else if EndsWithLower(path, ".jpg") { ImageSuffixCanEdit(path, ".jpg"); }
      else if EndsWithLower(path, ".jpeg") { ImageSuffixCanEdit(path, ".jpeg"); }
      else { ImageSuffixCanEdit(path, ".bmp"); }
    }
  }

  /** What the edit button does with the selected result. */
  datatype EditAction =
    | Ignore                                   // nothing selected, or the file is gone
    | Launch(program: string, arguments: string)
    | Unsupported                              // "images only" notice

  function EditDecision(selected: Option<Path>, existing: set<Path>): (a: EditAction)
    ensures a.Launch? <==> selected.Some? && selected.value in existing && CanEdit(selected.value)
    ensures a.Launch? ==> a == Launch("mspaint", "\"" + selected.value + "\"")
    ensures a.Unsupported? <==> selected.Some? && selected.value in existing && !CanEdit(selected.value)
  {
    match selected
    case None => Ignore
    case Some(p) =>
      if p !in existing then Ignore
      else if CanEdit(p) then Launch("mspaint", "\"" + p + "\"")
      else Unsupported
  }
}
