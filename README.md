# SearchMaster file search, modelled in Dafny

SearchMaster is a small WPF tool. Its window (`MainWindow.xaml.cs`) lets the user:

- pick a file type, such as `*.png + *.jpg`, or type a pattern;
- give a folder and part of a file name;
- press *Hledat* (search).

The search works in five steps:

1. It checks that a type is selected.
2. It trims both text boxes.
3. It falls back to `C:\Work\` when the folder does not exist, and writes that folder back into the box.
4. It walks the folder tree with `SafeEnumerateFiles`, once per pattern of the selected type.
5. It keeps the files that still exist and whose name contains the filter text, ignoring case. Then it lists them, or says that nothing was found, or shows the error that stopped the walk.

A second button opens the selected file in Paint, but only when it has an image extension.

The model replaces the file system with a value:

- **A directory** (`FileTree.Dir`) holds:
  - the full paths of its files;
  - its subdirectories, in enumeration order;
  - the fate of each of its two listing calls: it works, it is refused with `UnauthorizedAccessException`, or it fails with another exception.
- **The host** (`Pipeline.Host`) holds:
  - the directories that exist, as a map from path to tree (`Directory.Exists`);
  - the set of files that exist when the post-filter runs (`File.Exists`).

Modules:

- `Wrappers`: `Option` and `Result`.
- `Seqs`: a generic `Filter` (LINQ `Where`), subsequence and distinctness.
- `Text`: the .NET string and path operations the search uses:
  - `Trim`;
  - ordinal case-insensitive `IndexOf`;
  - `ToLower`;
  - `Path.GetFileName` and `Path.GetExtension`.
- `FileTree`: the tree, the listing call `Directory.EnumerateFiles`, and the `*`/`?` pattern match.
- `Walker`: `SafeEnumerateFiles`, in three parts:
  - the recursive functions `Walk` and `WalkChildren`, which mirror the code's three `catch` points, with `WalkChildren` carrying the list the code builds with `AddRange`;
  - reference definitions of what a walk can reach (`Visible`) and where it breaks (`Faulty`, `FirstFault`);
  - a method with the `AddRange` loop, proved equal to `Walk`.
- `Pipeline`: the pieces of `Search_Click` that decide what is shown, and the edit check of `EditFile_Click`:
  - selector resolution;
  - the post-filter;
  - validation and the root fallback;
  - the outcome.
- `Window`: the window as a class with the text boxes, the results list, its selection and the message boxes shown. Its fields change like the controls they stand for.

## Model

| member | source | states |
|---|---|---|
| Walker.Walk | MainWindow.xaml.cs:186-210 | The walk as the code performs it: the file listing (access-denied yields no files, any other failure is the result), then the subdirectory listing (access-denied yields the files so far, any other failure is the result), then the loop over the subdirectories. It has no contract of its own. `Walker.WalkSpec`, `Walker.WalkFailsIffFaulty` and `Walker.WalkNeverDenied` state what it returns. |
| Walker.WalkChildren | MainWindow.xaml.cs:198-205 | The `foreach` over the subdirectories with the `try`/`catch` around each recursive call: a successful walk is appended, an access-denied one is skipped, and any other failure ends the loop. `Walker.WalkChildrenSpec` states its result against `VisibleIn`, `AnyFaulty` and `FirstFaultIn`. |
| Walker.WalkSpec | MainWindow.xaml.cs:186-210 | The walk fails exactly when it reaches a listing that fails with a non-access-denied exception, and then with the first such failure in depth-first order. Otherwise it returns every match in the part of the tree whose listings are not refused, in depth-first pre-order. |
| Walker.SafeEnumerateFiles | MainWindow.xaml.cs:186-210 | The method that fills a list with `AddRange` (own matches, then each subdirectory's walk, skipping refused ones) returns exactly `Walk`, whose meaning `WalkSpec` gives. |
| Walker.WalkOrder | MainWindow.xaml.cs:186-207 | Without failures, and with both listings of the root allowed, the result is the root's own matches followed by the visible matches of its subdirectories in order. The first subdirectory's part is that subdirectory's own walk, and the rest follows it. |
| Walker.FullyAccessibleWalk | MainWindow.xaml.cs:186-210 | In a tree without refused or failed listings the walk succeeds. It returns exactly the matching files of the whole tree in depth-first order: a member iff it is in the tree and selected, a subsequence of all files, and without duplicates when the tree's paths are distinct. |
| Walker.FilesDeniedActsEmpty | MainWindow.xaml.cs:190-194 | A refused file listing behaves as an empty directory listing: the walk equals the walk of the same node with no files. With the subdirectory listing allowed, it is exactly the walk over the subdirectories. |
| Walker.SubdirsDeniedActsEmpty | MainWindow.xaml.cs:196-207 | A refused subdirectory listing behaves as having no subdirectories. Unless the file listing fails, the result is exactly the directory's own matches, and not an error. |
| Walker.DeniedSubtreeDropped | MainWindow.xaml.cs:198-205 | A subdirectory whose two listings are both refused contributes nothing. The walk equals the walk with that subdirectory removed, so earlier matches are kept and later siblings are still walked. |
| Walker.WalkNeverDenied | MainWindow.xaml.cs:200-204 | A walk never ends in an access-denied error: each recursive call absorbs its own `UnauthorizedAccessException`s, so the `catch` around the recursive call never fires. |
| Walker.WalkFailsIffFaulty | MainWindow.xaml.cs:186-210 | Any failure other than access-denied anywhere the walk reaches aborts the whole walk with the first such message. A walk that does not fail has no such failure. |
| Walker.FaultInSubdirAborts | MainWindow.xaml.cs:198-205 | A failing subtree under an allowed subdirectory listing makes the whole walk fail, whatever its siblings hold. |
| FileTree.Glob | MainWindow.xaml.cs:192 | The stand-in for the search pattern of `Directory.EnumerateFiles`: `*`, `?` and literal characters compared ignoring case. It has no contract of its own. `FileTree.LiteralGlob` (a wildcard-free pattern selects exactly the names equal to it, ignoring case) and `FileTree.StarSuffix` state what it selects. |
| FileTree.Selected | MainWindow.xaml.cs:192 | The pattern is matched against the file name alone, never against the directory part of the path. `FileTree.EnumerateFiles` and `Walker.MatchingAllFiles` use it for membership. |
| FileTree.MatchingFiles | MainWindow.xaml.cs:192 | The selected files of one listing, in listing order. `FileTree.EnumerateFiles` states its membership, `Seqs.Filter` bounds its length, and `Seqs.FilterIsSubsequence` states that it keeps listing order. |
| FileTree.EnumerateFiles | MainWindow.xaml.cs:192 | The file listing succeeds iff it is allowed. It then returns the directory's files that the pattern selects, in order (membership iff). A refusal is `AccessDenied` and any other failure is `OtherError`, each with its message. |
| FileTree.StarSuffix | MainWindow.xaml.cs:192 | A pattern `*` followed by text without wildcards selects exactly the names ending in that text, ignoring case. |
| Pipeline.Resolve | MainWindow.xaml.cs:96-125 | The `if`/`else` chain over the four compound selector strings, each walking two patterns and concatenating them, and any other string walked as one pattern. It has no contract of its own. `Pipeline.ResolveFollowsTable` ties it to the `CompoundSelectors` table, and `Pipeline.ResolveSpec` to the reference definitions. |
| Pipeline.Concatenated | MainWindow.xaml.cs:98-102 | `first.Concat(second)` over two walks succeeds iff both do, and an error it returns is one of the two walks' own. `Pipeline.ResolveSpec` states which error wins (the first in depth-first order) and the order of the concatenated files. |
| Pipeline.ResolveFollowsTable | MainWindow.xaml.cs:96-125 | Each of the four compound selectors resolves to the walk for its first pattern concatenated with the walk for its second, over the same root. Any other selector string is walked as a single pattern, unchanged. |
| Pipeline.ResolveSpec | MainWindow.xaml.cs:96-125 | Resolution fails iff the tree is `Faulty`, with the first failure. Otherwise a compound selector gives the visible matches of its first pattern followed by those of its second, and any other selector gives its own visible matches. |
| Pipeline.EnumerateSelected | MainWindow.xaml.cs:96-125 | The method that calls `SafeEnumerateFiles` once per pattern, and not for the second pattern after the first threw, returns `Resolve`. |
| Pipeline.ImagesSelectorExample | MainWindow.xaml.cs:98-103 | On a folder whose only entries are the files `a.png`, `b.jpg` and `c.gif`, listed in that order, with both listings allowed and no subdirectories, the images selector returns exactly `a.png` then `b.jpg`. |
| Pipeline.Kept | MainWindow.xaml.cs:127-129 | The two conditions of the `Where`: `File.Exists`, and the file name containing the name filter at some position, ignoring case. `Pipeline.PostFilterSpec` states the resulting membership. |
| Pipeline.PostFilter | MainWindow.xaml.cs:127-129 | The `Where` over the walked files. It has no contract of its own. `Pipeline.PostFilterSpec`, `Pipeline.PostFilterConcat`, `Pipeline.EmptyNameFilterKeepsExisting` and `Pipeline.DeletedFileExcluded` state what it keeps. |
| Pipeline.PostFilterSpec | MainWindow.xaml.cs:127-129 | The filter is an order-preserving subsequence of the walk. A path is kept iff it was walked, still exists, and its file name contains the filter text, ignoring case. |
| Pipeline.PostFilterConcat | MainWindow.xaml.cs:127-129 | The filter treats each candidate on its own: filtering two concatenated walks is concatenating their filtered results. |
| Pipeline.EmptyNameFilterKeepsExisting | MainWindow.xaml.cs:127-129 | With an empty name filter the filter keeps exactly the candidates that still exist. |
| Pipeline.DeletedFileExcluded | MainWindow.xaml.cs:128 | A walked file that no longer exists is never shown. |
| Pipeline.ReportPdfMatchesReport | MainWindow.xaml.cs:129 | The file `C:\Docs\Report.PDF` passes the name filter `report`, because the comparison ignores case. |
| Text.IndexOfIgnoreCase | MainWindow.xaml.cs:129 | The result is non-negative iff the value occurs in the string ignoring case. It is then the first such position, and -1 otherwise. |
| Text.FileName | MainWindow.xaml.cs:129 | The file name is the suffix of the path after the last separator, `\` or `/`. It contains no separator, and it is preceded by a separator unless it is the whole path. |
| Text.FileNameAfterSeparator | MainWindow.xaml.cs:129 | The file name of `directory\name` is `name` whenever `name` has no separator. |
| Text.IsWhiteSpace | MainWindow.xaml.cs:77-78 | The characters `Char.IsWhiteSpace` accepts, which are the ones `String.Trim()` drops: U+0009 to U+000D, U+0020, U+0085, U+00A0, U+1680, U+2000 to U+200A, U+2028, U+2029, U+202F, U+205F and U+3000. It has no contract of its own. `Text.TrimSpec` and `Text.Trim` use it. |
| Text.TrimSpec | MainWindow.xaml.cs:77-78 | `Trim` returns one contiguous piece of its input. Everything dropped before and after it is whitespace (`Char.IsWhiteSpace`). |
| Text.Trim | MainWindow.xaml.cs:77-78 | The trimmed string starts and ends with a non-whitespace character (or is empty), and is no longer than the input. |
| Text.TrimIdempotent | MainWindow.xaml.cs:77-78 | Trimming twice is trimming once. |
| Pipeline.InputsAreTrimmed | MainWindow.xaml.cs:77-78 | Two requests that differ only by whitespace around the directory or the name filter have the same outcome. |
| Pipeline.ResolveRoot | MainWindow.xaml.cs:80-92 | Any root returned exists, and there is none exactly when neither the requested directory nor `C:\Work\` exists. `Pipeline.RootFallback` and `Pipeline.DirectoryBoxNamesSearchedFolder` state which of the two is chosen. |
| Pipeline.RootFallback | MainWindow.xaml.cs:80-92 | When the requested folder is missing and `C:\Work\` exists, the outcome is the one for typing `C:\Work\` and the box then shows `C:\Work\`. When neither exists, the outcome is the folder error, no tree is walked, and the box is left as typed. |
| Pipeline.DirectoryTextAfter | MainWindow.xaml.cs:80-92 | The directory box either keeps its text or is overwritten with `C:\Work\`. `Pipeline.RootFallback` states when it is overwritten, and `Pipeline.DirectoryBoxNamesSearchedFolder` that it then names the folder walked. |
| Pipeline.DirectoryBoxNamesSearchedFolder | MainWindow.xaml.cs:80-92 | After a search with a type selected, the directory box names the folder that was walked, up to surrounding whitespace. When no folder was found, the box keeps the text as typed. |
| Pipeline.Classify | MainWindow.xaml.cs:131-139 | A walk that succeeds is never an error. With no filtered match it is the informational "nothing found"; otherwise it is exactly the filtered sequence, which is then non-empty. |
| Pipeline.Search | MainWindow.xaml.cs:66-145 | The outcome of `Search_Click`: the type check, trimming, the folder check with its fallback, resolution and the report. It has no contract of its own. `Pipeline.SearchSpec`, `Pipeline.InputsAreTrimmed` and `Pipeline.RootFallback` state it. |
| Pipeline.Reported | MainWindow.xaml.cs:127-144 | A failed walk becomes the `Chyba` outcome with the exception's message, and a successful one is classified by the filter. `Pipeline.Classify` and `Pipeline.SearchSpec` state the cases. |
| Pipeline.SearchSpec | MainWindow.xaml.cs:66-145 | The outcome in each case, against the reference definitions: with no type selected it is `NoTypeSelected`, before anything else; with no folder it is `NoFolder`, before any walk; on a `Faulty` tree it is the first failure; otherwise it is the classified visible matches of every pattern of the selector, in order. |
| Pipeline.RunSearch | MainWindow.xaml.cs:66-145 | The method that runs validation, trimming, the fallback, the walk(s) and the filter step by step returns the outcome `Search` defines, and the text the directory box holds afterwards. |
| Window.NoticeFor | MainWindow.xaml.cs:66-145 | At most one message box per search, and none exactly when files are found. A failure shows `Chyba: ` and the exception message with the error icon; "nothing found" is informational. |
| Window.ListedFor | MainWindow.xaml.cs:68-134 | What `ResultsList.Items` holds after a press: it is cleared first (`Clear()` at line 68), then filled only when files are found (lines 131-134). So it is the found paths for `Found`, and an empty list for every other outcome. |
| Window.PressSearch | MainWindow.xaml.cs:66-145 | The method that runs the search, fills the list item by item and appends the notice computes the list, the directory text and the shown message boxes that the request's outcome defines. |
| Window.MainWindow.SearchClick | MainWindow.xaml.cs:66-145 | After a press of the search button, the results list, the directory box and the new message box are those of the outcome of the request as typed. The selection is cleared. The frame lets nothing else change, so the name box and combo box keep their contents. |
| Window.ListItems | MainWindow.xaml.cs:131-134 | The `foreach` that adds the filtered paths one by one produces exactly the filtered sequence, in order. |
| Window.MainWindow.constructor | MainWindow.xaml.cs:15-19 | The window opens with the default folder in the directory box, as `UpdateDefaultFolder` puts it there (line 34). The name box and the combo box hold what the markup gives them, which are parameters. There are no results and no message has been shown. |
| Pipeline.CanEdit | MainWindow.xaml.cs:166-168 | `Path.GetExtension(filePath).ToLower()` is one of `.png`, `.jpg`, `.jpeg`, `.bmp`. It has no contract of its own. `Pipeline.CanEditIffImageSuffix` states which paths it accepts. |
| Pipeline.CanEditIffImageSuffix | MainWindow.xaml.cs:166-168 | The lower-cased extension is one of `.png`, `.jpg`, `.jpeg` and `.bmp` exactly when the path ends in one of them, in any mix of case. |
| Text.ToLower | MainWindow.xaml.cs:166 | The lower-cased string has the same length, and each character is the ASCII lower case of the input character at the same position. |
| Text.Extension | MainWindow.xaml.cs:166 | `Path.GetExtension` returns either nothing, or a suffix of the path that starts with its only `.` and contains no separator. Conversely, `Pipeline.ExtensionOfDottedSuffix` states that a path ending in a dot followed by at least one character, none of them a dot or a separator, has exactly that suffix as its extension. |
| Pipeline.EditDecision | MainWindow.xaml.cs:162-184 | Paint is launched, with the path in quotes, iff a result is selected, still exists and has an image extension. The "images only" notice is shown iff it exists and has none. Otherwise nothing happens. |
| Window.MainWindow.SelectResult | MainWindow.xaml.cs:164 | The user picking row `index` of the results list makes `ResultsList.SelectedItem`, which the edit button reads, exactly that row's path. It models the user's click, not a line of code. |
| Window.MainWindow.EditFileClick | MainWindow.xaml.cs:162-184 | The edit button returns that decision, and adds the "images only" message box exactly when it is `Unsupported`. |
| Pipeline.ShownAsWritten | MainWindow.xaml.cs:127-139 | On the code as written, the list is filtered against the files existing while `foreach` runs, and "nothing found" is decided against the files existing when `Any()` runs. Its own contract states only that the two agree when both enumerations see the same files. `Pipeline.ShownAsWrittenDisagrees` states what happens when they do not. |
| Pipeline.ShownAsWrittenDisagrees | MainWindow.xaml.cs:127-139 | On the code as written, a file deleted between the two enumerations is listed and "nothing found" is still announced. |
| Pipeline.ClassifyAgreesWithList | MainWindow.xaml.cs:127-139 | Evaluating the filter once, as the model does, makes "nothing found" announced exactly when the list is empty. |

## Left out

- Real file-system access is replaced by the `Dir` tree and the `Host` map and set: `Directory.EnumerateFiles`, `Directory.EnumerateDirectories`, `Directory.Exists` and `File.Exists`.
- `FileTree.Dir` is an inductive value, so every tree the model can express is finite and acyclic, and the walk's termination follows from the datatype. The code recurses into whatever `Directory.EnumerateDirectories` returns (line 198), including junctions and directory symbolic links. A link cycle or a very deep tree is not modelled: it ends either in an `IOException` or `PathTooLongException`, shown as "Chyba: …" by line 143, or in a stack overflow that no `catch` handles.
- The initial contents of the name box, the combo box and the results list come from the window's markup, which is not part of this model. The name box and the combo box are constructor parameters, and the results list is assumed to start empty.
- A listing call either yields all of its entries or fails before yielding any. An enumeration that fails halfway through (the lazy enumerators of .NET can throw between two entries) is not modelled.
- The file system is one snapshot per search. A compound selector walks each pattern over the same tree, so changes between the two walks are not modelled. The only change that is modelled is that existence can differ between the walk and the filter, and, in the Finding, between `foreach` and `Any()`.
- `FileTree.Glob` is a plain `*`/`?` matcher with ASCII case folding. The Windows specifics of `EnumerateFiles` patterns are not modelled: 8.3 short names, the three-character-extension rule, and `DOS_STAR`/`DOS_QM`/`DOS_DOT`. For example, on Windows `*.*` selects every name, including `abc`, but `FileTree.Glob` requires a `.`.
- A pattern that `EnumerateFiles` rejects with `ArgumentException` (for example one containing `..`) is not modelled, because the pattern language above accepts every string.
- Case folding is ASCII only, in `SameIgnoreCase` and `ToLower`. Unicode ordinal case folding and the culture-sensitive `ToLower` are not modelled.
- Path normalisation is not modelled. `Path.GetFileName` and `Path.GetExtension` look only at `\` and `/`; volume roots such as `C:name`, and `:` in general, are not treated specially.
- The directory text is compared to the map keys literally, so the model does not treat `C:\Work` and `C:\Work\` as the same folder.
- The UI is not modelled: WPF controls, `BrowseFolder_Click` and its folder dialog (lines 48-64), the checkbox handlers, and `UpdateDefaultFolder` with `Environment.GetFolderPath` (lines 21-46). The default folder is a constructor parameter.
- Keyboard handling is not modelled: `NameContainsBox_KeyDown` (lines 212-219) only calls `Search_Click`.
- `OpenFile_Click` (lines 147-160) is not modelled. The `Process.Start` calls (lines 153, 172) and their `catch` blocks are not modelled either. The model returns the decided `EditAction` instead of launching anything.
- A combo box selection that is not a `ComboBoxItem` is modelled as no selection (`None`).
- `Window.MainWindow.SearchClick` does not model the order of the effects within one press of the button. `Window.PressSearch` computes the new contents, and the method then writes the directory box, the list, the selection and the message. While the handler runs nothing can observe the state in between.

## Findings

| source | as written | input that shows it | evidently intended | confidence | as-written member | corrected member |
|---|---|---|---|---|---|---|
| MainWindow.xaml.cs:127-139 | `filtered` is a lazy LINQ query that is enumerated twice: by the `foreach` that fills the list, and again by `Any()`. `File.Exists` is re-evaluated the second time. | A walk that finds `C:\Work\a.png`, which exists while the list is filled and is deleted before `Any()` runs: the file is listed and "Žádný soubor nebyl nalezen." is shown as well. | The filtered sequence is computed once, so the notice appears exactly when the list is empty. | not executed; low, needs a deletion during the handler | Pipeline.ShownAsWrittenDisagrees | Pipeline.ClassifyAgreesWithList |

The model also shows that the `catch (UnauthorizedAccessException)` around each recursive call (line 204) is unreachable, as `Walker.WalkNeverDenied` states. It is harmless, so it is not listed as a finding.
