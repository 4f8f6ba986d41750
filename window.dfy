/**
 * The window's state that the search and edit handlers read and change: the
 * three inputs, the results list, its selection, and the message boxes shown.
 */
module Window {
  import opened Wrappers
  import opened FileTree
  import opened Pipeline

  datatype Icon = Warning | Error | Information

  /** A message box: its text, its caption and its icon. */
  datatype Message = Message(text: string, caption: string, icon: Icon)

  /** The message box, if any, that ends a press of the search button. */
  function NoticeFor(o: Outcome): (m: seq<Message>)
    ensures |m| <= 1
    ensures m == [] <==> o.Found?
    ensures o.Failed? ==> m == [Message("Chyba: " + o.message, "Chyba", Error)]
    ensures o.NothingFound? ==> m[0].icon == Information
  {
    match o
    case NoTypeSelected => [Message("Vyberte typ souboru.", "Chyba", Warning)]
    case NoFolder => [Message("Zadaná složka ani výchozí složka C:\\Work\\ neexistuje.", "Chyba", Error)]
    case Found(_) => []
    case NothingFound => [Message("Žádný soubor nebyl nalezen.", "Výsledek", Information)]
    case Failed(text) => [Message("Chyba: " + text, "Chyba", Error)]
  }

  /** The results list after the search: the found paths, and nothing otherwise. */
  function ListedFor(o: Outcome): (r: seq<Path>)
    ensures o.Found? ==> r == o.paths
    ensures !o.Found? ==> r == []
  {
    if o.Found? then o.paths else []
  }

  const UnsupportedFormat: Message := Message("Malování only for obrázky.", "Nepodporovaný formát", Information)

  class MainWindow {
    var directoryText: string         // DirectoryBox.Text
    var nameFilterText: string        // NameContainsBox.Text
    var selectedType: Option<string>  // content of FileTypeCombo.SelectedItem
    var results: seq<Path>            // ResultsList.Items
    var selectedResult: Option<Path>  // ResultsList.SelectedItem
    var messages: seq<Message>        // message boxes shown so far

    /** The window as it opens: the markup gives the name box and the combo
        box their initial contents, and the constructor puts the default
        folder in the directory box. */
    constructor (defaultFolder: string, initialNameFilter: string, initialType: Option<string>)
      ensures directoryText == defaultFolder && nameFilterText == initialNameFilter && selectedType == initialType
      ensures results == [] && selectedResult == None && messages == []
    {
      directoryText := defaultFolder;
      nameFilterText := initialNameFilter;
      selectedType := initialType;
      results := [];
      selectedResult := None;
      messages := [];
    }

    /** The user picks a row of the results list. */
    method SelectResult(index: nat)
      requires index < |results|
      modifies this`selectedResult
      ensures selectedResult == Some(results[index])
    {
      selectedResult := Some(results[index]);
    }

    /** `Search_Click`: clears the list, runs the search, leaves the fallback
        folder in the directory box, adds each found path to the list and
        shows the notice for the outcome. */
    method SearchClick(host: Host)
      modifies this`results, this`selectedResult, this`directoryText, this`messages
      ensures var o := Search(Request(old(selectedType), old(directoryText), old(nameFilterText)), host);
              && results == ListedFor(o)
              && messages == old(messages) + NoticeFor(o)
      ensures directoryText == DirectoryTextAfter(Request(old(selectedType), old(directoryText), old(nameFilterText)), host)
      ensures selectedResult == None
    {
      var listed, shownDirectory, shown := PressSearch(Request(selectedType, directoryText, nameFilterText), host, messages);
      results, selectedResult, directoryText, messages := listed, None, shownDirectory, shown;
    }

    /** `EditFile_Click`: asks for the image editor on the selected file when
        it still exists and has an image extension, and explains otherwise.
        The launch itself is returned, not performed. */
    method EditFileClick(existing: set<Path>) returns (action: EditAction)
      modifies this`messages
      ensures action == EditDecision(selectedResult, existing)
      ensures messages == old(messages) + (if action.Unsupported? then [UnsupportedFormat] else [])
    {
      action := EditDecision(selectedResult, existing);
      if action.Unsupported? {
        messages := messages + [UnsupportedFormat];
      }
    }
  }

  /** The `foreach` that adds each filtered path to the results list, one by one. */
  method ListItems(items: seq<Path>) returns (shown: seq<Path>)
    ensures shown == items
  {
    shown := [];
    var i := 0;
    while i < |items|
      invariant 0 <= i <= |items|
      invariant shown == items[..i]
    {
      shown := shown + [items[i]];
      i := i + 1;
    }
  }

  /** What one press of the search button computes from the window's inputs:
      the list contents, the text left in the directory box and the message
      boxes shown so far. */
  method PressSearch(req: Request, host: Host, shown: seq<Message>) returns (listed: seq<Path>, directoryText: string, messages: seq<Message>)
    ensures listed == ListedFor(Search(req, host))
    ensures directoryText == DirectoryTextAfter(req, host)
    ensures messages == shown + NoticeFor(Search(req, host))
  {
    var outcome;
    outcome, directoryText := RunSearch(req, host);
    listed := [];
    if outcome.Found? {
      listed := ListItems(outcome.paths);
    }
    messages := shown + NoticeFor(outcome);
  }
}
