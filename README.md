# Logfilter UI core, modelled in Dafny

Logfilter UI reads the text dumps a vehicle scan tool writes, one log file per
test run. This project models the program's analysis core and proves what it computes:

- **The section parser and ECU counter** (`EcuProcessing`).
  - A log is split on the literal `Scan-Tool Mode`, and the preamble before the first delimiter is dropped.
  - Each section is labelled by its first line and its later lines are classified.
  - ECU header lines and fault lines go, interleaved, into the list of one of the seven recognised modes (1, 2, 3, 6, 7, 9, A).
  - Distinct ECU headers are counted per label, and a warning is raised when the seven modes disagree.
- **The keyword scanner** (`EcuProcessing`). It does case-insensitive matching, gives ignore words precedence, records at most one hit per line, and tags every hit with the section's index (0 for the preamble).
- **The configuration look-ups** (`EcuProcessing`). The keyword lists and the ECU reference set are computed from a decoded JSON document, given as a map from keys to string lists.
- **The ignition-counter look-up** (`EcuProcessing`).
- **The real-time monitor's renderers and the status reconciliation** (`RealTimeMonitoring`).
  - The fault listing, the count table and the keyword-hit line are rendered.
  - The status declared in a log file's name is compared with the status inferred from the mode-3 and mode-7 lists.
  - In the ignition branch of `process_file` both counters come from the same look-up.
- **The confirmed/pending pairing** of a folder's log files. It exists in two versions that share one grouping loop (`FilePairs`):
  - a regular-expression key (`CheckErrorsInFolder`);
  - an older `str.replace` key (`LegacyCheckErrors`).
- **The folder report** (`CheckErrorsInFolder`): duplicates, files missing their pair, the per-file error summary, and `format_detail`.
- **The new-file detector** (`FileProcessing`). It compares a directory listing with a set of seen names that it updates in place.
- **The recent-directories list.**
  - The front-insertion update capped at five entries is defined once (`RecentDirectories`).
  - It is used by the main window (`App`), which keeps the list in a text file.
  - It is also used by the directory handler (`DirectoryHandling`), which keeps the list in the application settings and derives the log directory.

Text is `seq<char>`. The module `Strings` gives the Python string operations the source relies on:
- `split`, `join`, `strip`, `lower`, `in`, `find` and `startswith`;
- Python whitespace and case rules restricted to ASCII.

The two regular expressions of the pairing key are written out by hand:
- `_?(pending|confirm)[a-z]*`, as a left-to-right scan;
- `[_&]+$`, including `$` matching before a final line feed.

So is the summary pattern `\d+\s+fault code entries`.

File-system listings are sequences of names or stems in listing order. File contents are strings.

The side-effecting functions become methods with loops: the section loop, the keyword loops, the pairing loop, the summary loop and the renderers. Each method is proved equal to a specification function, and the properties are proved as lemmas about those functions. Objects whose fields the source updates become classes:
- `ProcessedFiles`;
- `MainWindow`;
- `DirectoryHandler`.

## Model

| member | source | states |
|---|---|---|
| EcuProcessing.IsEcuLine | modules/ecu_processing.py:84 | Definition: a line is an ECU header when it has more than one whitespace-separated token and its second token is in the reference set. |
| EcuProcessing.IsEntriesSummary | modules/ecu_processing.py:89 | Definition: `\d+\s+fault code entries` matches somewhere in the line. That is a digit, then a whitespace run, then the phrase. |
| EcuProcessing.LooksLikeFault | modules/ecu_processing.py:88 | Definition: the line mentions "fault code entries" or starts with P, U, C or B, and it does not start with "PID". |
| EcuProcessing.Classify | modules/ecu_processing.py:82-90 | Definition: the ECU header test comes first. Otherwise a line that looks like a fault and is not an entries summary is a fault line, and anything else is discarded. |
| EcuProcessing.Candidates | modules/ecu_processing.py:74-77 | Definition: `ecu_list` is the section's lines from the third on, stripped, with the blank ones dropped. |
| EcuProcessing.Retained | modules/ecu_processing.py:81-90 | Definition: what a recognised mode's list receives from one section. It is the candidates classified as ECU headers or fault lines, in their order. |
| EcuProcessing.LineHit | modules/ecu_processing.py:134-147 | Definition: a line yields no hit when some ignore word, lower-cased, occurs in the lower-cased line. Otherwise, when some keyword occurs, it yields one hit: the tag "Mode <index>" and the stripped line. Otherwise it yields none. |
| EcuProcessing.FailKeywords | modules/ecu_processing.py:126-149 | Definition: the hits of every line of every section of the log split on "Scan-Tool Mode", section by section and line by line. The preamble is section 0. |
| EcuProcessing.LoadKeywords | modules/ecu_processing.py:4-26 | A missing file or a document without `keywords` gives two empty lists. Otherwise the result is `keywords` and `ignore_keywords`, or an empty list when the second is absent. |
| EcuProcessing.LoadEcuReference | modules/ecu_processing.py:28-45 | There is a result exactly when every entry of every list other than `keywords` has two tokens; otherwise None. The set holds exactly the second tokens of those entries. |
| EcuProcessing.ModeName | modules/ecu_processing.py:74-76 | A section label holds no `-` and no line break, and has no edge whitespace. |
| EcuProcessing.NonBlankStripped | modules/ecu_processing.py:77 | Every candidate line is non-empty. |
| EcuProcessing.ModeEntries | modules/ecu_processing.py:81-90 | The inner loop appends exactly the retained lines (ECU headers and non-summary fault lines), in order. |
| EcuProcessing.CompareModeCounts | modules/ecu_processing.py:97-108 | The warning is empty exactly when all seven modes have mode 1's count, an absent mode counting 0. Otherwise it is the fixed mismatch text. |
| EcuProcessing.SectionFoldStep | modules/ecu_processing.py:73-94 | Proof step of the section loop of `count_ecus_in_modes`: one more section applies one step to both the count map and the list map. |
| EcuProcessing.ProcessSection | modules/ecu_processing.py:74-94 | The loop body: a recognised label gets its retained lines appended. Every label's count is set to the number of distinct ECU headers. |
| EcuProcessing.CountEcusInModes | modules/ecu_processing.py:47-110 | The counts and lists are the folds over the sections after the preamble. The warning is empty exactly when the counts agree. |
| EcuProcessing.ModeFaultsKeys | modules/ecu_processing.py:63-69 | The list map has exactly the keys 1, 2, 3, 6, 7, 9 and A, whatever the log. |
| EcuProcessing.RetainedIff | modules/ecu_processing.py:84-90 | A line is retained iff it is a candidate and either an ECU header, or a P/U/C/B or "fault code entries" line that does not start with "PID" and is no `<digits> fault code entries` summary. |
| EcuProcessing.UnrecognizedSectionKeepsLists | modules/ecu_processing.py:80 | A section with an unrecognised label changes no list. |
| EcuProcessing.ModeFaultsSound | modules/ecu_processing.py:80-90 | Every list entry is a retained line of some section with that label. |
| EcuProcessing.ModeFaultsStep | modules/ecu_processing.py:80-90 | A section extends only its own label's list, at the end. |
| EcuProcessing.ModeFaultsGrowAtEnd | modules/ecu_processing.py:73-90 | The list after the first n sections is a prefix of the final list (entries stay in line order across sections). |
| EcuProcessing.ModeFaultsComplete | modules/ecu_processing.py:80-90 | Every retained line of a recognised section is in that mode's list. |
| EcuProcessing.EcuCountLastWins | modules/ecu_processing.py:93-94 | Every label seen has a count, and it is the distinct-header count of the last section with that label. |
| EcuProcessing.EcuCountsOnlySeenLabels | modules/ecu_processing.py:94 | Only labels of sections appear in the count map. |
| EcuProcessing.EcuCountsSplit | modules/ecu_processing.py:73-94 | Proof step of RepeatedLineCountsOnce: the counts after a log are the counts after any prefix of it, carried on by the remaining sections in order. |
| EcuProcessing.RepeatedLineCountsOnce | modules/ecu_processing.py:93-94 | In any log, a section that repeats one of its own candidate lines gives exactly the same `ecu_counts` as the section without the repeat: headers are counted as a set. |
| EcuProcessing.PreambleIgnored | modules/ecu_processing.py:61-77 | Two logs that differ only in a delimiter-free preamble get the same counts and lists. |
| EcuProcessing.WarningOnlyReadsRecognizedModes | modules/ecu_processing.py:97-104 | Count maps that agree on the seven modes agree on the warning. |
| EcuProcessing.NoRecognizedModeNoWarning | modules/ecu_processing.py:97-108 | A log with none of the seven modes gets no warning. |
| EcuProcessing.MissingModeWarns | modules/ecu_processing.py:98-104 | An absent recognised mode raises the warning when mode 1 has ECUs. |
| EcuProcessing.MentionsAnyOf | modules/ecu_processing.py:138-147 | The early-exit keyword loop finds a word exactly when some word, lower-cased, occurs in the lower-cased line. |
| EcuProcessing.ScanLine | modules/ecu_processing.py:135-147 | One line yields no hit when an ignore word occurs in it. Otherwise it yields one hit (its tag and stripped line) when some keyword occurs, and none when none does. |
| EcuProcessing.ScanSectionLines | modules/ecu_processing.py:132-147 | The line loop returns the section's hits, in line order. |
| EcuProcessing.FindFailKeywords | modules/ecu_processing.py:126-149 | The scan of all sections, the preamble as section 0, equals the specification of the hits. |
| EcuProcessing.LinesHitsSound | modules/ecu_processing.py:134-147 | Every hit comes from a line with no ignore word and some keyword, and holds that line stripped. |
| EcuProcessing.LinesHitsComplete | modules/ecu_processing.py:134-147 | Every line with no ignore word and some keyword is reported. |
| EcuProcessing.LinesHitsAtMostOnePerLine | modules/ecu_processing.py:143-147 | A section yields at most as many hits as it has lines. |
| EcuProcessing.FailKeywordsSound | modules/ecu_processing.py:127-147 | Every hit of a log is tagged "Mode i" for the split section i its line comes from. |
| EcuProcessing.FailKeywordsComplete | modules/ecu_processing.py:127-147 | Every matching line of section i is reported with tag "Mode i". |
| EcuProcessing.SectionTagInjective | modules/ecu_processing.py:146 | Different sections get different tags. |
| EcuProcessing.HitLineKeepsKeyword | modules/ecu_processing.py:144-146 | The stored stripped line still contains a keyword without edge whitespace, case-insensitively. |
| EcuProcessing.FirstLineContaining | modules/ecu_processing.py:164-168 | None iff no line contains the needle. Otherwise the result is the first such line, stripped. |
| EcuProcessing.RecentFueledIgnitionLine | modules/ecu_processing.py:151-168 | None without the INFOTYPE 08 marker. Otherwise the result is the first line from the marker on that contains the counter label, stripped, or None. |
| EcuProcessing.FindRecentFueledIgnitionData | modules/ecu_processing.py:151-168 | The search loop with early return equals the specification. |
| EcuProcessing.FoundLineKeepsNeedle | modules/ecu_processing.py:165-166 | A found line still contains a needle without edge whitespace after stripping. |
| EcuProcessing.IgnitionLineHasLabel | modules/ecu_processing.py:162-166 | A found counter line contains "Ignition Cycle Counter". |
| RealTimeMonitoring.HitsText | modules/real_time_monitoring.py:23 | Definition: the elements of the hit list as Python prints them, each as `('Mode i', 'line')`, separated by ", ". |
| RealTimeMonitoring.FaultsReport | modules/real_time_monitoring.py:26-40 | Definition: the block of mode 3 and then that of mode 7. A mode with entries gets a header and one code-and-text line per entry, a present but empty mode gets the no-faults notice, and an absent mode gets nothing. |
| RealTimeMonitoring.EcuCountsReport | modules/real_time_monitoring.py:43-49 | Definition: one "Nodes in mode m: count" row per recognised mode in the order 1, 2, 3, 6, 7, 9, A, with "No data available" for an absent mode. |
| RealTimeMonitoring.DeclaredStatus | modules/real_time_monitoring.py:86-92 | Definition: a name with fewer than three `_`-separated parts declares nothing. Otherwise the third part, lower-cased, is the declared status. |
| RealTimeMonitoring.InferredStatus | modules/real_time_monitoring.py:95-115 | Definition: "pending" when some mode-7 fault code (the text before the first space) is not a mode-3 code. Otherwise "confirmed", including when mode 7 has no entries. |
| RealTimeMonitoring.StatusReport | modules/real_time_monitoring.py:82-121 | Definition: the format notice when the name declares nothing. Otherwise the match line when the declared and inferred statuses are equal, and else the mismatch line with both capitalised. |
| RealTimeMonitoring.HandleFailures | modules/real_time_monitoring.py:19-24 | The result is empty iff the log has no keyword hits. Otherwise it is the red "Fail details found" line. |
| RealTimeMonitoring.RenderFaultLines | modules/real_time_monitoring.py:32-36 | The entry loop renders one line per entry, in order. |
| RealTimeMonitoring.ModeBlocksStep | modules/real_time_monitoring.py:29-39 | Proof step of the mode loop of `display_faults`: one more mode appends its block. |
| RealTimeMonitoring.DisplayFaults | modules/real_time_monitoring.py:26-40 | `display_faults` equals the specification of the report. |
| RealTimeMonitoring.FaultLineReproducesEntry | modules/real_time_monitoring.py:33-36 | A listed line is the entry's own text, with a trailing space when it had none, and a break. |
| RealTimeMonitoring.ShownEntries | modules/real_time_monitoring.py:32-36 | Each shown entry is the reproduced entry, position by position. |
| RealTimeMonitoring.FaultLinesAreEntries | modules/real_time_monitoring.py:30-36 | A mode's listing is its entries, in order, each ended by a break. |
| RealTimeMonitoring.FaultsReportBlocks | modules/real_time_monitoring.py:29 | The report is the mode-3 block followed by the mode-7 block. |
| RealTimeMonitoring.ModeBlocksPair | modules/real_time_monitoring.py:29-39 | Two modes give their two blocks in order. |
| RealTimeMonitoring.FaultsReportReadsModes3And7 | modules/real_time_monitoring.py:29-39 | Only modes 3 and 7 are read. |
| RealTimeMonitoring.FaultsReportEmptyWithoutModes | modules/real_time_monitoring.py:29-40 | Without modes 3 and 7 the report is empty. |
| RealTimeMonitoring.EmptyMode3Notice | modules/real_time_monitoring.py:38-39 | A present but empty mode 3 gives "No Faults Detected in Mode 3". |
| RealTimeMonitoring.CountRows | modules/real_time_monitoring.py:46-48 | One row per mode, position by position. |
| RealTimeMonitoring.RenderCountRows | modules/real_time_monitoring.py:45-49 | The row loop equals the rows joined with breaks. |
| RealTimeMonitoring.DisplayEcuCounts | modules/real_time_monitoring.py:43-49 | `display_ecu_counts` equals the specification of the count table. |
| RealTimeMonitoring.NoAngleInRow | modules/real_time_monitoring.py:47-48 | A row holds no markup of its own. |
| RealTimeMonitoring.EcuCountsReportLines | modules/real_time_monitoring.py:43-49 | Exactly seven lines, for 1, 2, 3, 6, 7, 9 and A in order, each with the count or "No data available". |
| RealTimeMonitoring.CollectCodes | modules/real_time_monitoring.py:99-108 | The code loop collects exactly the first tokens of the entries. |
| RealTimeMonitoring.DetermineStatus | modules/real_time_monitoring.py:111-115 | "confirmed" exactly when every mode-7 code is a mode-3 code, otherwise "pending". |
| RealTimeMonitoring.CompareStatusWithLogfile | modules/real_time_monitoring.py:82-133 | `compare_status_with_logfile` equals the specification of the status report. |
| RealTimeMonitoring.ShortNameIsIncorrectFormat | modules/real_time_monitoring.py:86-89 | A name with fewer than three `_` parts yields exactly "Logfile name format is incorrect.<br>". |
| RealTimeMonitoring.InferredPendingIff | modules/real_time_monitoring.py:95-115 | "pending" iff some mode-7 entry's first token is the first token of no mode-3 entry. Otherwise "confirmed". |
| RealTimeMonitoring.StatusPrefixesDiffer | modules/real_time_monitoring.py:86-121 | The format notice and the mismatch line do not start like the match line. |
| RealTimeMonitoring.StatusMatchesIff | modules/real_time_monitoring.py:118-121 | The report opens with "Status matches" iff the declared status equals the inferred one. |
| RealTimeMonitoring.TxtStatusNeverMatches | modules/real_time_monitoring.py:86-92 | A status taken from the last part of a ".txt" name keeps the extension and never matches. |
| RealTimeMonitoring.CheckIgnitionCounters | modules/real_time_monitoring.py:151-159 | No counter line means no comparison. Otherwise both values are the same line and the "equals" error line is appended. |
| FilePairs.Duplicates | modules/check_errors_in_folder.py:21-24 | Definition: each stem equal to an earlier stem, once per repeat, in listing order. |
| FilePairs.KeyOrder | modules/check_errors_in_folder.py:34-37 | Definition: the keys in the order their first stem is listed, each once. This is the order `file_pairs` creates its entries in. |
| FilePairs.Group | modules/check_errors_in_folder.py:34-37 | Definition: the stems whose key is the given key, in listing order. |
| FilePairs.Pairs | modules/check_errors_in_folder.py:18-37 | Definition: the dictionary that maps each key to its group, built one listed stem at a time. |
| FilePairs.MissingPairs | modules/check_errors_in_folder.py:40-42 | Definition: the sole member of each single-member group, in the order the groups were created. |
| FilePairs.CheckFilePairsAndDuplicates | modules/check_errors_in_folder.py:12-45 | The listing loop and the missing-pairs loop compute the specified groups, creation order, duplicates and missing pairs, for any key. |
| FilePairs.ListingStep | modules/check_errors_in_folder.py:18-37 | Proof step of the pairing loop: one stem extends the duplicates, the key order and the groups as the loop body does. |
| FilePairs.CollectMissingPairs | modules/check_errors_in_folder.py:40-42 | The second loop collects the sole members of single-member groups, in creation order. |
| FilePairs.PairsKeys | modules/check_errors_in_folder.py:34-37 | The dictionary's keys are exactly the created keys. |
| FilePairs.PairsAreGroups | modules/check_errors_in_folder.py:34-37 | Each key's list is its group: the stems with that key, in listing order. |
| FilePairs.KeyOrderDistinct | modules/check_errors_in_folder.py:34-37 | No key is created twice. |
| FilePairs.KeyOrderMembers | modules/check_errors_in_folder.py:34-37 | A key is created iff some stem has it. |
| FilePairs.GroupMembers | modules/check_errors_in_folder.py:34-37 | A group holds every occurrence of the stems with its key and nothing else, counted as a multiset. |
| FilePairs.GroupConcat | modules/check_errors_in_folder.py:18-37 | Grouping respects concatenation, so members keep listing order. |
| FilePairs.GroupSizesSum | modules/check_errors_in_folder.py:18-37 | The group sizes add up to the number of stems. |
| FilePairs.DuplicatesCount | modules/check_errors_in_folder.py:21-24 | A stem is reported once per occurrence after its first, compared exactly. |
| FilePairs.SingletonsIff | modules/check_errors_in_folder.py:40-42 | A stem is collected iff some key's group is exactly that stem. |
| FilePairs.MissingPairsIff | modules/check_errors_in_folder.py:40-42 | A stem is missing its pair iff it is the only member of its group. |
| FilePairs.RepeatedStemNotMissing | modules/check_errors_in_folder.py:21-42 | A stem listed twice is never reported missing. |
| CheckErrorsInFolder.TrimTrailingRun | modules/check_errors_in_folder.py:32 | Definition: `re.sub(r'[_&]+$', '', s)` drops a final run of `_` and `&`. When the text ends in a line feed, the run before that line feed is dropped and the line feed kept, because `$` also matches before a final line feed. |
| CheckErrorsInFolder.PairKey | modules/check_errors_in_folder.py:28-32 | Definition: the stem is lower-cased, every `_?(pending|confirm)[a-z]*` match is removed from left to right, and the trailing run is trimmed. |
| CheckErrorsInFolder.FormatDetail | modules/check_errors_in_folder.py:6-10 | Definition: a tuple renders as its items joined by " - ". A warning text renders as itself. |
| CheckErrorsInFolder.Upsert | modules/check_errors_in_folder.py:106 | Definition: the dictionary assignment. A file name already present keeps its place and takes the new value, and a new name goes at the end. |
| CheckErrorsInFolder.ErrorSummary | modules/check_errors_in_folder.py:92-106 | Definition: the files are taken in listing order. Each file with a warning or a keyword hit is upserted with its warning and its hits. |
| CheckErrorsInFolder.FolderReport | modules/check_errors_in_folder.py:70-124 | Definition: the duplicates section, then the missing-pairs section, each present only when its list is non-empty. Then the error summary, or the no-errors notice when no file has errors. |
| CheckErrorsInFolder.LetterRun | modules/check_errors_in_folder.py:29 | `[a-z]*` consumes the maximal run of lower-case letters. |
| CheckErrorsInFolder.MatchLength | modules/check_errors_in_folder.py:29 | The match is empty iff the text opens with neither a status word nor `_` and a status word. A match ends where no letter follows. |
| CheckErrorsInFolder.RemoveStatusWords | modules/check_errors_in_folder.py:29 | The substitution only deletes characters. |
| CheckErrorsInFolder.DropTrailingRun | modules/check_errors_in_folder.py:32 | The result is a prefix, the dropped part is all `_` and `&`, and what is left does not end in either. |
| CheckErrorsInFolder.RemovedHasNoStatusWord | modules/check_errors_in_folder.py:29 | After the first substitution neither "pending" nor "confirm" occurs. |
| CheckErrorsInFolder.NoStatusWordUnchanged | modules/check_errors_in_folder.py:29 | A text without either word is left unchanged. |
| CheckErrorsInFolder.PairKeyClean | modules/check_errors_in_folder.py:28-32 | The key holds neither status word and does not end in `_` or `&`. |
| CheckErrorsInFolder.PairKeyIdempotent | modules/check_errors_in_folder.py:28-32 | Normalising a key again leaves it unchanged (stems without a line feed). |
| CheckErrorsInFolder.NewlineKeyNotIdempotent | modules/check_errors_in_folder.py:32 | With a line feed, `$` matching before it makes a second normalisation change the key. |
| CheckErrorsInFolder.RemoveConcat | modules/check_errors_in_folder.py:29 | The scan splits at a point where no letter follows. |
| CheckErrorsInFolder.TokenRemoved | modules/check_errors_in_folder.py:28-29 | A lower-cased `_` + status word + letters token is one match and disappears. |
| CheckErrorsInFolder.StatusVariantsShareKey | modules/check_errors_in_folder.py:28-32 | Stems that differ only in letter case and in a pending/confirm token share a key. |
| CheckErrorsInFolder.BareConfirmStripped | modules/check_errors_in_folder.py:26-29 | A bare "confirm" is stripped too: "x_confirm" has key "x". |
| CheckErrorsInFolder.CheckFilePairsAndDuplicates | modules/check_errors_in_folder.py:12-45 | The grouping under the regular-expression key. |
| CheckErrorsInFolder.SectionTagShape | modules/check_errors_in_folder.py:6-8 | A hit's tag holds no `-` and ends in a digit. |
| CheckErrorsInFolder.FormattedHitSplits | modules/check_errors_in_folder.py:6-10 | A formatted hit splits back on " - " into its tag and the pieces of its line. |
| CheckErrorsInFolder.UpsertListed | modules/check_errors_in_folder.py:106 | After `error_summary[name] = ...` exactly the earlier names and the new one are listed. |
| CheckErrorsInFolder.UpsertAppends | modules/check_errors_in_folder.py:106 | A new name is added at the end, as a new dictionary key is. |
| CheckErrorsInFolder.UpsertReplaces | modules/check_errors_in_folder.py:106 | A known name keeps its place and takes the new value. Nothing else changes. |
| CheckErrorsInFolder.UpsertDistinct | modules/check_errors_in_folder.py:106 | The update keeps the names distinct. |
| CheckErrorsInFolder.ErrorSummaryStep | modules/check_errors_in_folder.py:92-106 | One more file adds its name exactly when it has a warning or a hit. |
| CheckErrorsInFolder.ErrorSummaryDistinct | modules/check_errors_in_folder.py:89-106 | The summary is a dictionary: no name twice. |
| CheckErrorsInFolder.ErrorSummaryIff | modules/check_errors_in_folder.py:92-106 | A name is in the summary iff some file of that name has a non-empty warning or at least one keyword hit. |
| CheckErrorsInFolder.Stems | modules/check_errors_in_folder.py:18-19 | The stems of the listing, position by position. |
| CheckErrorsInFolder.SummaryClosesList | modules/check_errors_in_folder.py:109-120 | A non-empty summary ends by closing a list. |
| CheckErrorsInFolder.NoErrorsNoticeIff | modules/check_errors_in_folder.py:109-122 | The report ends with "No errors found across all files." iff no file entered the summary. |
| CheckErrorsInFolder.RenderListSection | modules/check_errors_in_folder.py:75-86 | A duplicates or missing-pairs section is rendered: nothing for an empty list. |
| CheckErrorsInFolder.RecordFile | modules/check_errors_in_folder.py:95-106 | One pass of the file loop updates the summary exactly when the file has errors. |
| CheckErrorsInFolder.ErrorSummarySnoc | modules/check_errors_in_folder.py:92-106 | Proof step of the per-file summary loop: the summary of one more file is one conditional update. |
| CheckErrorsInFolder.CollectErrorSummary | modules/check_errors_in_folder.py:89-106 | The file loop builds the specified summary. |
| CheckErrorsInFolder.RenderHitItems | modules/check_errors_in_folder.py:116-119 | One formatted item per hit, in order. |
| CheckErrorsInFolder.RenderEntry | modules/check_errors_in_folder.py:112-120 | A file's block: its warning item, then its hit items. |
| CheckErrorsInFolder.EntryBlocksSnoc | modules/check_errors_in_folder.py:111-120 | Proof step of the report's entry loop: one more entry appends its block. |
| CheckErrorsInFolder.RenderSummary | modules/check_errors_in_folder.py:109-122 | The summary section, or the no-errors notice. |
| CheckErrorsInFolder.CheckErrorsInFolder | modules/check_errors_in_folder.py:47-124 | The whole report after the style sheet equals the specification. |
| LegacyCheckErrors.LegacyPairKey | check_errors_in_folder.py:20-21 | Definition: the stem is lower-cased, then every "_confirmed" is deleted, then every "_pending", each from left to right and without overlaps. |
| LegacyCheckErrors.CheckFilePairsAndDuplicates | check_errors_in_folder.py:5-33 | The grouping under the replace-based key. |
| LegacyCheckErrors.DropsFinalToken | check_errors_in_folder.py:21 | Replacing a token that follows a clean prefix leaves the prefix. |
| LegacyCheckErrors.CleanStemKey | check_errors_in_folder.py:20-21 | A stem whose lower-cased text holds neither token is its own key, lower-cased. |
| LegacyCheckErrors.StatusVariantsShareKey | check_errors_in_folder.py:19-21 | A final "_confirmed" or "_pending" in any case gives the same key: the lower-cased rest. |
| LegacyCheckErrors.CaseInsensitivePairing | check_errors_in_folder.py:20-21 | "A_Confirmed" and "a_pending" share the key "a". |
| LegacyCheckErrors.BareConfirmKept | check_errors_in_folder.py:21 | A bare "confirm" is not stripped: "x_confirm" is its own key. |
| FileProcessing.NewNames | file_processing.py:18-22 | Definition: the listed names that are neither in the seen set nor listed earlier, in listing order. |
| FileProcessing.ProcessedFiles.FindNewTxtFiles | file_processing.py:15-24 | The returned names are the specified new names. Afterwards the set is the old set plus the listing, and it never shrinks. |
| FileProcessing.NewNamesStep | file_processing.py:18-22 | Proof step of the listing loop of `find_new_txt_files`: one listed name extends the result as the loop body does. |
| FileProcessing.NewNamesIff | file_processing.py:18-22 | A name is returned iff it is listed and was not seen at the start of the call. |
| FileProcessing.NewNamesDistinct | file_processing.py:19-22 | A name listed twice is returned once. |
| FileProcessing.NewNamesInOrder | file_processing.py:18-22 | The returned names keep their listing order. |
| FileProcessing.SecondCallFindsNothing | file_processing.py:19-22 | Once every listed name is seen, the same listing yields nothing. |
| RecentDirectories.RemoveFirst | main.py:96 | Definition: `list.remove` drops the first occurrence, and the rest keep their order. |
| RecentDirectories.UpdateRecent | main.py:95-99 | Definition: the directory is removed from where it was and inserted at the front, and the list is cut to five entries. |
| RecentDirectories.FirstIndex | main.py:95-96 | `list.remove` acts at the first occurrence. |
| RecentDirectories.RemoveFirstShape | main.py:95-96 | Removing drops exactly the first occurrence. |
| RecentDirectories.RemoveFirstAt | main.py:95-96 | Removal shortens the list by one: entries before the first occurrence stay put, and later ones move down by one. |
| RecentDirectories.DropIndexDistinct | main.py:95-96 | Leaving out one entry of a list without repeats gives a list without repeats that lacks that entry. |
| RecentDirectories.RemoveFirstDistinct | main.py:95-96 | In a list without repeats, removal takes the entry out and shortens the list by one. |
| RecentDirectories.UpdateRecentFront | main.py:95-99 | The chosen directory comes first, the list holds at most five entries, and only entries past the fifth are dropped. |
| RecentDirectories.UpdateRecentKeepsOrder | main.py:95-99 | The other entries keep their relative order, with the chosen one's first occurrence removed. |
| RecentDirectories.UpdateRecentDistinct | main.py:95-99 | A list without repeats stays without repeats. |
| RecentDirectories.UpdateRecentIdempotent | main.py:95-99 | Choosing the same directory twice gives the same list as once. |
| App.LoadedDirectories | main.py:59-65 | No file gives an empty list. |
| App.LinesOfSaved | main.py:67-70 | The lines of the saved file are the entries, when no entry holds a line feed. |
| App.SaveLoadRoundTrip | main.py:59-70 | Saving and loading gives the list back, for entries without line feeds or edge whitespace. |
| App.MainWindow.constructor | main.py:14-25 | The loaded list, and its first entry, or the home directory when it is empty, as the current directory. |
| App.MainWindow.SetDirectory | main.py:91-102 | The directory becomes current and moves to the front of the capped list, and the file is rewritten with the new list. |
| App.MainWindow.BrowseDirectory | main.py:111-124 | An empty answer changes nothing. Otherwise the same update is made. |
| DirectoryHandling.JoinPath | modules/directory_handler.py:32 | The log directory is the directory, a separator, and the subfolder. |
| DirectoryHandling.StoredDirectories | modules/directory_handler.py:8-14 | Nothing stored gives an empty list. Otherwise the result is the stored list. |
| DirectoryHandling.DirectoryHandler.constructor | modules/directory_handler.py:8-14 | A handler starts with the recent list that loading the stored settings value gives. Its current and log directories are unconstrained until SetDirectory sets them. |
| DirectoryHandling.DirectoryHandler.SaveRecentDirectories | modules/directory_handler.py:16-19 | The list is stored as it is, and loading gives it back. |
| DirectoryHandling.DirectoryHandler.SetDirectory | modules/directory_handler.py:28-45 | The directory becomes current and its log subfolder becomes the log directory. The recent list gets the capped front update and is saved. |

## Left out

- File-system and external I/O are not modelled. This covers `open`/`read`, `Path.glob`, `mkdir` (`ensure_log_directory`, `constants.py:10`), `json.load`, `winsound.Beep`, QSettings and the crash log. Listings are sequences of names or stems in listing order, file texts are strings, and a decoded document is a map. A missing file is `None`.
- `str.lower`, `str.strip` and `str.split()` are modelled for ASCII only. Python's Unicode case and whitespace rules are not captured.
- The general regular-expression engine is not modelled. Only the three patterns the source uses are written out by hand.
- The keyword lists and the ECU reference are parameters. The source loads them from a JSON file at import time or at the start of a check.
- When `load_ecu_reference` returns `None`, `count_ecus_in_modes` raises a `TypeError` on its first membership test. The model always receives a set.
- RealTimeMonitoring.HandleFailures: the hit list is printed as quoted tuples, but none of `repr`'s escaping inside a line is reproduced. This covers the choice of quote character, backslashes, tabs (`\t`), carriage returns (`\r`) and every other control or non-printable character. The model emits each line's characters as they are.
- The CSS style block at the head of the folder report and the `is_running` early stop are not modelled. The report is specified from the first heading on, for a check that runs to completion.
- The two ignition-cycle parameters of `compare_status_with_logfile` are accepted and unused, as in the source. The commented-out code is not modelled: `determine_version`, `check_and_print_pending_confirmed_status` and the ignition comparison.
- Call sites whose argument count or result shape does not fit the callee are left out: `modules/real_time_monitoring.py:180` passes two of four arguments. The model states what the callees compute.
- The rest of `process_file` and the `continuous_file_check` polling loop with `time.sleep` are not modelled; only the ignition branch and the detector step are.
- The printing `check_errors_in_folder` of the older `check_errors_in_folder.py` (lines 35-89) is not modelled. Only its pairing key and grouping are.
- The Qt user interface is not modelled: windows, menus, the combo box, message boxes, the keyword editor, the log viewer and threads. This includes `update_combo_box`, whose `list.index` raises when the current directory is missing from the list, such as the home directory on a first run.
- `Path` normalisation is not modelled. The directory handler's load returns `Path` objects while its `set_directory` looks up the given value, and the model treats both as the same string. The separator is `/`.
- `constants.py` defines no `LOG_SUBFOLDER`; `directory_handler.py` reads `self.LOG_SUBFOLDER`. The subfolder is a field set by the constructor.
- DirectoryHandling.DirectoryHandler.constructor: `DirectoryHandler` is a mixin with no `__init__`. Its settings, subfolder and recent list come from the host class, which is not part of this model. The constructor stands for that host: it takes the subfolder and the stored settings value and starts the list as `load_recent_directories` gives it. The current and log directories are first set by `set_directory` (line 32), so the constructor leaves them unconstrained.
- App.LoadedDirectories: `readlines` keeps each line's final line feed, and `strip` removes it with the rest of the edge whitespace. The model splits on line feeds and strips the pieces. It assumes the line-feed newline convention.
- CheckErrorsInFolder.PairKeyIdempotent: proved only for stems without a line feed. NewlineKeyNotIdempotent shows that the second normalisation can change such a key, because `$` also matches before a final line feed.
- A described behaviour differs from the code: a missing recognised mode does not always raise the ECU count warning. The code warns only when the counts differ, with an absent mode counting 0. So mode 1 with no ECUs and other modes missing gives no warning. The model follows the code (MissingModeWarns requires mode 1 to have ECUs).
- A described behaviour differs from the code: the description says that a stem seen twice is both a duplicate and, when it has no counterpart, a missing pair. In the code the second copy joins its key's group, so that group has two members and is never reported missing. The model follows the code (FilePairs.RepeatedStemNotMissing).
- A described behaviour differs from the code: the description splits a fault line into its code and its text at the first whitespace run. The code uses `split(" ", 1)`, which splits at the first single space only, so a tab does not split and a second space stays in the text. The model follows the code (Strings.SpaceHead and Strings.SpaceTail).
