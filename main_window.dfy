/** The directory bookkeeping of the main window in `main.py`: the current directory and
    the recent-directories list, with the text file that keeps the list between runs. */
module App {
  import opened Wrappers
  import opened Strings
  import opened RecentDirectories

  const LineFeed := "\n"

  /** What `save_recent_directories` writes: one directory per line. */
  function SavedText(recent: seq<string>): string {
    Terminated(recent, LineFeed)
  }

  /** The lines `readlines` yields, without their line feeds. */
  function Lines(text: string): seq<string> {
    var pieces := Split(text, LineFeed);
    if pieces[|pieces| - 1] == "" then pieces[..|pieces| - 1] else pieces
  }

  /** What `load_recent_directories` returns: every line stripped, or nothing when there
      is no file. */
  function LoadedDirectories(file: Option<string>): (r: seq<string>)
    ensures file.None? ==> r == []
  {
    match file
    case None => []
    case Some(text) =>
      var lines := Lines(text);
      seq(|lines|, i requires 0 <= i < |lines| => Strip(lines[i]))
  }

  /** The lines of a saved list are its entries, when no entry holds a line feed. */
  lemma LinesOfSaved(recent: seq<string>)
    requires forall i :: 0 <= i < |recent| ==> '\n' !in recent[i]
    ensures Lines(SavedText(recent)) == recent
  {
    assert LineFeed[0] == '\n' && |LineFeed| == 1;
    forall i | 0 <= i < |recent|
      ensures !Contains(recent[i], LineFeed) && NoStraddle(recent[i], LineFeed)
    {
      MissingCharNoOccurrence(recent[i], LineFeed, 0);
    }
    SplitTerminated(recent, LineFeed);
    var pieces := recent + [""];
    assert pieces[..|pieces| - 1] == recent;
  }

  /** A saved list is read back as it was, when no entry holds a line feed or starts or
      ends with whitespace. */
  lemma SaveLoadRoundTrip(recent: seq<string>)
    requires forall i :: 0 <= i < |recent| ==> '\n' !in recent[i]
    requires forall i :: 0 <= i < |recent| ==>
      recent[i] == [] || (!IsSpace(recent[i][0]) && !IsSpace(recent[i][|recent[i]| - 1]))
    ensures LoadedDirectories(Some(SavedText(recent))) == recent
  {
    LinesOfSaved(recent);
    var r := LoadedDirectories(Some(SavedText(recent)));
    assert |r| == |recent|;
    forall i | 0 <= i < |recent|
      ensures r[i] == recent[i]
    {
      StripUnchanged(recent[i]);
    }
  }

  class MainWindow {
    var currentDirectory: string
    var recentDirectories: seq<string>
    /** The text of `recent_directories.txt`, `None` while there is no such file. */
    var recentFile: Option<string>

    /** `__init__`: the list comes from the file, and the current directory is its
        first entry or else the home directory. */
    constructor (file: Option<string>, home: string)
      ensures recentFile == file
      ensures recentDirectories == LoadedDirectories(file)
      ensures currentDirectory == if recentDirectories != [] then recentDirectories[0] else home
    {
      var loaded := LoadedDirectories(file);
      recentFile := file;
      recentDirectories := loaded;
      if loaded != [] {
        currentDirectory := loaded[0];
      } else {
        currentDirectory := home;
      }
    }

    /** `set_directory`: the chosen directory becomes current and moves to the front of
        the list, which keeps at most five entries. */
    method SetDirectory(directory: string)
      modifies this
      ensures currentDirectory == directory
      ensures recentDirectories == UpdateRecent(old(recentDirectories), directory)
      ensures |recentDirectories| <= MaxRecent && recentDirectories[0] == directory
      ensures recentFile == Some(SavedText(recentDirectories))
    {
      currentDirectory := directory;
      if directory in recentDirectories {
        recentDirectories := RemoveFirst(recentDirectories, directory);
      }
      recentDirectories := [directory] + recentDirectories;
      if |recentDirectories| > MaxRecent {
        recentDirectories := recentDirectories[..MaxRecent];
      }
      recentFile := Some(SavedText(recentDirectories));
      UpdateRecentFront(old(recentDirectories), directory);
    }

    /** `browse_directory` with the dialog's answer given: the empty answer of a
        cancelled dialog changes nothing; any other is handled as `set_directory` does. */
    method BrowseDirectory(chosen: string)
      modifies this
      ensures chosen == "" ==>
        currentDirectory == old(currentDirectory) && recentDirectories == old(recentDirectories) &&
        recentFile == old(recentFile)
      ensures chosen != "" ==>
        currentDirectory == chosen && recentDirectories == UpdateRecent(old(recentDirectories), chosen) &&
        recentFile == Some(SavedText(recentDirectories))
    {
      if chosen != "" {
        SetDirectory(chosen);
      }
    }
  }
}
