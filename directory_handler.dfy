/** The directory state of `modules/directory_handler.py`: the scanned directory, its log
    subfolder, and the recent-directories list kept in the application settings. */
module DirectoryHandling {
  import opened Wrappers
  import opened RecentDirectories

  const PathSeparator := "/"

  /** `Path(base) / sub`. */
  function JoinPath(base: string, sub: string): (r: string)
    ensures |r| == |base| + 1 + |sub|
    ensures r[..|base|] == base && r[|base|] == PathSeparator[0] && r[|base| + 1..] == sub
  {
    base + PathSeparator + sub
  }

  /** What `load_recent_directories` returns for the stored settings value: the stored
      list, or nothing when no non-empty list is stored. */
  function StoredDirectories(stored: Option<seq<string>>): (r: seq<string>)
    ensures stored.None? ==> r == []
    ensures stored.Some? ==> r == stored.value
  {
    match stored
    case None => []
    case Some(directories) => directories
  }

  class DirectoryHandler {
    var currentDirectory: string
    var logDirectory: string
    var logSubfolder: string
    var recentDirectories: seq<string>
    /** The settings value under "recent_directories", `None` when none is stored. */
    var storedRecent: Option<seq<string>>

    /** A handler over the host's settings and log subfolder. The recent list starts as
        `load_recent_directories` gives it; the current and log directories are set only by
        `SetDirectory`, so they start unconstrained. */
    constructor (subfolder: string, stored: Option<seq<string>>)
      ensures logSubfolder == subfolder && storedRecent == stored
      ensures recentDirectories == StoredDirectories(stored)
    {
      logSubfolder := subfolder;
      storedRecent := stored;
      recentDirectories := StoredDirectories(stored);
    }

    /** `load_recent_directories`. */
    function LoadRecentDirectories(): seq<string>
      reads this
    {
      StoredDirectories(storedRecent)
    }

    /** `save_recent_directories`: the list is stored as it is, in order. */
    method SaveRecentDirectories()
      modifies this
      ensures storedRecent == Some(recentDirectories)
      ensures LoadRecentDirectories() == recentDirectories
      ensures currentDirectory == old(currentDirectory) && logDirectory == old(logDirectory)
      ensures logSubfolder == old(logSubfolder) && recentDirectories == old(recentDirectories)
    {
      storedRecent := Some(recentDirectories);
    }

    /** `set_directory`: the directory becomes current, its log subfolder the log
        directory, and it moves to the front of the saved recent list. */
    method SetDirectory(directory: string)
      modifies this
      ensures currentDirectory == directory
      ensures logDirectory == JoinPath(directory, logSubfolder)
      ensures logSubfolder == old(logSubfolder)
      ensures recentDirectories == UpdateRecent(old(recentDirectories), directory)
      ensures |recentDirectories| <= MaxRecent && recentDirectories[0] == directory
      ensures LoadRecentDirectories() == recentDirectories
    {
      currentDirectory := directory;
      logDirectory := JoinPath(currentDirectory, logSubfolder);
      if directory in recentDirectories {
        recentDirectories := RemoveFirst(recentDirectories, directory);
      }
      recentDirectories := [directory] + recentDirectories;
      if |recentDirectories| > MaxRecent {
        recentDirectories := recentDirectories[..MaxRecent];
      }
      UpdateRecentFront(old(recentDirectories), directory);
      SaveRecentDirectories();
    }
  }
}
