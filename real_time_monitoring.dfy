/**
  The report builders of `modules/real_time_monitoring.py`: the keyword-failure line, the
  per-mode fault listing for modes 3 and 7, the seven ECU-count lines, the reconciliation
  of the status declared in a log file's name with the status inferred from its faults,
  and the ignition-counter comparison at the start of `process_file`.
 */
module RealTimeMonitoring {
  import opened Wrappers
  import opened Strings
  import opened EcuProcessing

  const LineBreak := "<br>"

  // ---------------------------------------------------------------------------
  // handle_failures

  const FailDetailsPrefix := "<span style='color:red;'>Fail details found: "

  /** The text of one hit as a Python tuple of two strings. */
  function HitText(h: Hit): string {
    "('" + h.tag + "', '" + h.line + "')"
  }

  /** The elements of a hit list as Python prints the list, separated by ", ". */
  function HitsText(hits: seq<Hit>): string
    decreases |hits|
  {
    if hits == [] then "" else HitsText(hits[..|hits| - 1]) + (if |hits| > 1 then ", " else "") + HitText(hits[|hits| - 1])
  }

  /** `handle_failures`: a red line listing the hits, or nothing when there are none. The
      keyword lists, loaded once when the module is imported, are parameters here. */
  function HandleFailures(fileContent: string, keywords: seq<string>, ignoreKeywords: seq<string>): (r: string)
    ensures r == "" <==> FailKeywords(fileContent, keywords, ignoreKeywords) == []
    ensures r != "" ==> StartsWith(r, FailDetailsPrefix) && EndsWith(r, "</span>" + LineBreak)
  {
    var failDetails := FailKeywords(fileContent, keywords, ignoreKeywords);
    if failDetails != [] then
      var r := FailDetailsPrefix + ("[" + HitsText(failDetails) + "]") + "</span>" + LineBreak;
      assert r[..|FailDetailsPrefix|] == FailDetailsPrefix;
      assert r[|r| - |"</span>" + LineBreak|..] == "</span>" + LineBreak;
      r
    else ""
  }

  // ---------------------------------------------------------------------------
  // display_faults

  /** The modes `display_faults` reports, in order. */
  const FaultModes: seq<string> := ["3", "7"]

  /** One listed entry: its code, a space, and the rest of the entry (`split(" ", 1)`). */
  function FaultLine(fault: string): string {
    SpaceHead(fault) + " " + SpaceTail(fault) + LineBreak
  }

  function FaultLines(faults: seq<string>): string
    decreases |faults|
  {
    if faults == [] then "" else FaultLines(faults[..|faults| - 1]) + FaultLine(faults[|faults| - 1])
  }

  /** The block of one mode: a header and one line per entry, a notice for a present but
      empty list, nothing for an absent mode. */
  function ModeBlock(detailedFaults: map<string, seq<string>>, mode: string): string {
    if mode in detailedFaults && detailedFaults[mode] != [] then
      "<b>Faults and Data for Mode " + mode + "</b>" + LineBreak + FaultLines(detailedFaults[mode]) + LineBreak
    else if mode in detailedFaults then
      "No Faults Detected in Mode " + mode + LineBreak + LineBreak
    else ""
  }

  function ModeBlocks(detailedFaults: map<string, seq<string>>, modes: seq<string>): string
    decreases |modes|
  {
    if modes == [] then "" else ModeBlocks(detailedFaults, modes[..|modes| - 1]) + ModeBlock(detailedFaults, modes[|modes| - 1])
  }

  /** What `display_faults` returns. */
  function FaultsReport(detailedFaults: map<string, seq<string>>): string {
    ModeBlocks(detailedFaults, FaultModes)
  }

  /** The entry loop of `display_faults`: one line per entry, in order. */
  method RenderFaultLines(faults: seq<string>) returns (output: string)
    ensures output == FaultLines(faults)
  {
    output := "";
    var j := 0;
    while j < |faults|
      invariant 0 <= j <= |faults|
      invariant output == FaultLines(faults[..j])
    {
      var fault := faults[j];
      var faultCode := SpaceHead(fault);
      var faultDescription := SpaceTail(fault);
      assert faults[..j + 1][..j] == faults[..j] && faults[..j + 1][j] == fault;
      output := output + (faultCode + " " + faultDescription + LineBreak);
      j := j + 1;
    }
    assert faults[..|faults|] == faults;
  }

  lemma ModeBlocksStep(detailedFaults: map<string, seq<string>>, modes: seq<string>, k: nat)
    requires k < |modes|
    ensures ModeBlocks(detailedFaults, modes[..k + 1]) == ModeBlocks(detailedFaults, modes[..k]) + ModeBlock(detailedFaults, modes[k])
  {
    assert modes[..k + 1][..k] == modes[..k] && modes[..k + 1][k] == modes[k];
  }

  /** `display_faults`. */
  method DisplayFaults(detailedFaults: map<string, seq<string>>) returns (output: string)
    ensures output == FaultsReport(detailedFaults)
  {
    output := "";
    var k := 0;
    while k < |FaultModes|
      invariant 0 <= k <= |FaultModes|
      invariant output == ModeBlocks(detailedFaults, FaultModes[..k])
    {
      var mode := FaultModes[k];
      ModeBlocksStep(detailedFaults, FaultModes, k);
      var block := "";
      if mode in detailedFaults && detailedFaults[mode] != [] {
        var lines := RenderFaultLines(detailedFaults[mode]);
        block := "<b>Faults and Data for Mode " + mode + "</b>" + LineBreak + lines + LineBreak;
      } else if mode in detailedFaults {
        block := "No Faults Detected in Mode " + mode + LineBreak + LineBreak;
      }
      output := output + block;
      k := k + 1;
    }
    assert FaultModes[..|FaultModes|] == FaultModes;
  }

  /** A listed line gives back the entry's text, with one trailing space when the entry
      has no space. */
  lemma FaultLineReproducesEntry(fault: string)
    ensures FaultLine(fault) == (if ' ' in fault then fault else fault + " ") + LineBreak
  {
    SpaceHeadTail(fault);
  }

  /** The entry text as `display_faults` shows it. */
  function ShownEntry(fault: string): string {
    if ' ' in fault then fault else fault + " "
  }

  function ShownEntries(faults: seq<string>): (r: seq<string>)
    ensures |r| == |faults| && forall i :: 0 <= i < |faults| ==> r[i] == ShownEntry(faults[i])
    decreases |faults|
  {
    if faults == [] then [] else ShownEntries(faults[..|faults| - 1]) + [ShownEntry(faults[|faults| - 1])]
  }

  /** A mode's listing is its entries, in order, each reproduced and ended by a line break. */
  lemma {:induction false} FaultLinesAreEntries(faults: seq<string>)
    ensures FaultLines(faults) == Terminated(ShownEntries(faults), LineBreak)
    decreases |faults|
  {
    if faults != [] {
      var init := faults[..|faults| - 1];
      var last := faults[|faults| - 1];
      FaultLinesAreEntries(init);
      FaultLineReproducesEntry(last);
      TerminatedSnoc(ShownEntries(init), ShownEntry(last), LineBreak);
    }
  }

  /** The report is the mode-3 block followed by the mode-7 block. */
  lemma FaultsReportBlocks(d: map<string, seq<string>>)
    ensures FaultsReport(d) == ModeBlock(d, "3") + ModeBlock(d, "7")
  {
    ModeBlocksPair(d, "3", "7");
  }

  lemma ModeBlocksPair(d: map<string, seq<string>>, m1: string, m2: string)
    ensures ModeBlocks(d, [m1, m2]) == ModeBlock(d, m1) + ModeBlock(d, m2)
  {
    assert [m1, m2][..1] == [m1] && [m1][..0] == [];
    assert ModeBlocks(d, [m1]) == ModeBlocks(d, []) + ModeBlock(d, m1);
    assert ModeBlocks(d, [m1, m2]) == ModeBlocks(d, [m1]) + ModeBlock(d, m2);
  }

  /** Only modes 3 and 7 are read: maps that agree on those two give the same report. */
  lemma FaultsReportReadsModes3And7(d1: map<string, seq<string>>, d2: map<string, seq<string>>)
    requires forall m | m in FaultModes :: (m in d1 <==> m in d2) && (m in d1 ==> d1[m] == d2[m])
    ensures FaultsReport(d1) == FaultsReport(d2)
  {
    FaultsReportBlocks(d1);
    FaultsReportBlocks(d2);
    assert "3" in FaultModes && "7" in FaultModes;
  }

  /** Neither mode 3 nor mode 7 present: the report is empty. */
  lemma FaultsReportEmptyWithoutModes(d: map<string, seq<string>>)
    requires "3" !in d && "7" !in d
    ensures FaultsReport(d) == ""
  {
    FaultsReportBlocks(d);
  }

  /** A present but empty mode-3 list opens the report with its notice. */
  lemma EmptyMode3Notice(d: map<string, seq<string>>)
    requires "3" in d && d["3"] == []
    ensures StartsWith(FaultsReport(d), "No Faults Detected in Mode 3" + LineBreak + LineBreak)
  {
    FaultsReportBlocks(d);
    var head := "No Faults Detected in Mode 3" + LineBreak + LineBreak;
    var r := FaultsReport(d);
    assert r == head + ModeBlock(d, "7");
    assert r[..|head|] == head;
  }

  // ---------------------------------------------------------------------------
  // display_ecu_counts

  /** `ecu_counts.get(mode, "No data available")` as text. */
  function CountText(ecuCounts: map<string, nat>, mode: string): string {
    if mode in ecuCounts then NatToString(ecuCounts[mode]) else "No data available"
  }

  function CountRow(ecuCounts: map<string, nat>, mode: string): string {
    "Nodes in mode " + mode + ": " + CountText(ecuCounts, mode)
  }

  function CountRows(ecuCounts: map<string, nat>, modes: seq<string>): (r: seq<string>)
    ensures |r| == |modes| && forall i :: 0 <= i < |modes| ==> r[i] == CountRow(ecuCounts, modes[i])
  {
    seq(|modes|, i requires 0 <= i < |modes| => CountRow(ecuCounts, modes[i]))
  }

  /** What `display_ecu_counts` returns: one row per recognised mode, each ended by a break. */
  function EcuCountsReport(ecuCounts: map<string, nat>): string {
    Terminated(CountRows(ecuCounts, RecognizedModes), LineBreak)
  }

  /** The row loop of `display_ecu_counts`, over any list of modes. */
  method RenderCountRows(ecuCounts: map<string, nat>, modes: seq<string>) returns (output: string)
    ensures output == Terminated(CountRows(ecuCounts, modes), LineBreak)
  {
    output := "";
    var k := 0;
    while k < |modes|
      invariant 0 <= k <= |modes|
      invariant output == Terminated(CountRows(ecuCounts, modes[..k]), LineBreak)
    {
      var mode := modes[k];
      var count := CountText(ecuCounts, mode);
      assert CountRows(ecuCounts, modes[..k + 1]) == CountRows(ecuCounts, modes[..k]) + [CountRow(ecuCounts, mode)];
      TerminatedSnoc(CountRows(ecuCounts, modes[..k]), CountRow(ecuCounts, mode), LineBreak);
      output := output + ("Nodes in mode " + mode + ": " + count) + LineBreak;
      k := k + 1;
    }
    assert modes[..|modes|] == modes;
  }

  /** `display_ecu_counts`. */
  method DisplayEcuCounts(ecuCounts: map<string, nat>) returns (output: string)
    ensures output == EcuCountsReport(ecuCounts)
  {
    output := RenderCountRows(ecuCounts, RecognizedModes);
  }

  lemma NoAngleInRow(ecuCounts: map<string, nat>, mode: string)
    requires mode in RecognizedModes
    ensures '<' !in CountRow(ecuCounts, mode)
  {
    var text := CountText(ecuCounts, mode);
    assert '<' !in text by {
      if mode in ecuCounts {
        assert forall i :: 0 <= i < |text| ==> IsDigit(text[i]);
      }
    }
    var row := CountRow(ecuCounts, mode);
    var pre := "Nodes in mode " + mode + ": ";
    assert '<' !in pre;
    assert row == pre + text;
  }

  /** The report is exactly seven lines, for modes 1, 2, 3, 6, 7, 9 and A in that order,
      "No data available" standing for an absent mode (and one empty piece after the last
      break). */
  lemma EcuCountsReportLines(ecuCounts: map<string, nat>)
    ensures Split(EcuCountsReport(ecuCounts), LineBreak) == CountRows(ecuCounts, RecognizedModes) + [""]
    ensures |CountRows(ecuCounts, RecognizedModes)| == 7
    ensures forall i :: 0 <= i < 7 ==>
      (CountRows(ecuCounts, RecognizedModes)[i] == "Nodes in mode " + RecognizedModes[i] + ": "
         + (if RecognizedModes[i] in ecuCounts then NatToString(ecuCounts[RecognizedModes[i]]) else "No data available"))
  {
    var rows := CountRows(ecuCounts, RecognizedModes);
    assert FirstCharUnique(LineBreak);
    forall i | 0 <= i < |rows| ensures !Contains(rows[i], LineBreak) && NoStraddle(rows[i], LineBreak) {
      NoAngleInRow(ecuCounts, RecognizedModes[i]);
      ContainsFirstChar(rows[i], LineBreak);
    }
    SplitTerminated(rows, LineBreak);
  }

  // ---------------------------------------------------------------------------
  // compare_status_with_logfile

  /** The status a log file's name declares: the third `_`-separated part, lower-cased and
      otherwise verbatim; `None` for a name with fewer than three parts. */
  function DeclaredStatus(logfileName: string): Option<string> {
    var parts := Split(logfileName, "_");
    if |parts| < 3 then None else Some(Lower(parts[2]))
  }

  /** The first tokens (`split(" ", 1)[0]`) of the entries of a mode's list. */
  function ModeCodes(detailedFaults: map<string, seq<string>>, mode: string): set<string> {
    if mode in detailedFaults then set e | e in detailedFaults[mode] :: SpaceHead(e) else {}
  }

  /** "pending" when some mode-7 code is not a mode-3 code, "confirmed" otherwise. */
  function InferredStatus(detailedFaults: map<string, seq<string>>): string {
    if ModeCodes(detailedFaults, "7") <= ModeCodes(detailedFaults, "3") then "confirmed" else "pending"
  }

  const FormatIncorrect := "Logfile name format is incorrect." + LineBreak
  const StatusMatchesPrefix := "<br>Status matches: "
  const SpanOpen := "<span"
  const MismatchPrefix := SpanOpen + " style='color:red;'>Status mismatch! Logfile: "

  function MatchLine(declared: string): string {
    StatusMatchesPrefix + Capitalize(declared) + LineBreak
  }

  function MismatchText(declared: string, inferred: string): string {
    Capitalize(declared) + ", Determined: " + Capitalize(inferred) + "</span>" + LineBreak
  }

  /** What `compare_status_with_logfile` returns. */
  function StatusReport(logfileName: string, detailedFaults: map<string, seq<string>>): string {
    match DeclaredStatus(logfileName)
    case None => FormatIncorrect
    case Some(declared) =>
      var inferred := InferredStatus(detailedFaults);
      if declared == inferred then MatchLine(declared) else MismatchPrefix + MismatchText(declared, inferred)
  }

  /** One code loop of `compare_status_with_logfile`: the set of first tokens of `faults`. */
  method CollectCodes(faults: seq<string>) returns (codes: set<string>)
    ensures codes == set e | e in faults :: SpaceHead(e)
  {
    codes := {};
    var j := 0;
    while j < |faults|
      invariant 0 <= j <= |faults|
      invariant codes == set e | e in faults[..j] :: SpaceHead(e)
    {
      assert faults[..j + 1] == faults[..j] + [faults[j]];
      var faultParts0 := SpaceHead(faults[j]);
      codes := codes + {faultParts0};
      j := j + 1;
    }
    assert faults[..|faults|] == faults;
  }

  /** The pending check of `compare_status_with_logfile`: visits the mode-7 codes in some
      order and stops at the first that is not a mode-3 code. */
  method DetermineStatus(mode7Codes: set<string>, mode3Codes: set<string>) returns (determinedStatus: string)
    ensures determinedStatus == if mode7Codes <= mode3Codes then "confirmed" else "pending"
  {
    determinedStatus := "confirmed";
    var unvisited := mode7Codes;
    while unvisited != {}
      invariant unvisited <= mode7Codes
      invariant mode7Codes - unvisited <= mode3Codes
      decreases unvisited
    {
      var code :| code in unvisited;
      if code !in mode3Codes {
        determinedStatus := "pending";
        break;
      }
      unvisited := unvisited - {code};
    }
  }

  /** `compare_status_with_logfile`. Its two ignition-cycle parameters are only read by a
      comparison that is commented out in the source and are ignored here too. */
  method CompareStatusWithLogfile(logfileName: string, detailedFaults: map<string, seq<string>>,
                                  mode3Cycles: Option<string>, mode7Cycles: Option<string>)
    returns (output: string)
    ensures output == StatusReport(logfileName, detailedFaults)
  {
    var parts := Split(logfileName, "_");
    if |parts| < 3 {
      output := FormatIncorrect;
      return;
    }
    var logfileStatus := Lower(parts[2]);
    assert DeclaredStatus(logfileName) == Some(logfileStatus);
    var mode3Codes: set<string> := {};
    var mode7Codes: set<string> := {};
    if "3" in detailedFaults {
      mode3Codes := CollectCodes(detailedFaults["3"]);
    }
    if "7" in detailedFaults {
      mode7Codes := CollectCodes(detailedFaults["7"]);
    }
    assert mode3Codes == ModeCodes(detailedFaults, "3") && mode7Codes == ModeCodes(detailedFaults, "7");
    var determinedStatus := DetermineStatus(mode7Codes, mode3Codes);
    assert determinedStatus == InferredStatus(detailedFaults);
    if logfileStatus == determinedStatus {
      output := MatchLine(logfileStatus);
    } else {
      output := MismatchPrefix + MismatchText(logfileStatus, determinedStatus);
    }
  }

  /** A name with fewer than three `_`-separated parts yields exactly the format notice. */
  lemma ShortNameIsIncorrectFormat(logfileName: string, detailedFaults: map<string, seq<string>>)
    requires |Split(logfileName, "_")| < 3
    ensures StatusReport(logfileName, detailedFaults) == "Logfile name format is incorrect.<br>"
  {
  }

  /** The inferred status is "pending" exactly when some mode-7 entry's first token is not
      the first token of any mode-3 entry (so an absent or empty mode 7 gives "confirmed"). */
  lemma InferredPendingIff(d: map<string, seq<string>>)
    ensures InferredStatus(d) == "pending" <==>
      "7" in d && exists e | e in d["7"] :: !("3" in d && exists f | f in d["3"] :: SpaceHead(f) == SpaceHead(e))
    ensures InferredStatus(d) == "pending" || InferredStatus(d) == "confirmed"
  {
    if InferredStatus(d) == "pending" {
      var c :| c in ModeCodes(d, "7") && c !in ModeCodes(d, "3");
      var e :| e in d["7"] && SpaceHead(e) == c;
    } else if "7" in d {
      forall e | e in d["7"] ensures "3" in d && exists f | f in d["3"] :: SpaceHead(f) == SpaceHead(e) {
        assert SpaceHead(e) in ModeCodes(d, "7");
      }
    }
  }

  /** The format notice and the mismatch line do not open like the match line. */
  lemma StatusPrefixesDiffer(t: string)
    ensures !StartsWith(FormatIncorrect, StatusMatchesPrefix)
    ensures !StartsWith(MismatchPrefix + t, StatusMatchesPrefix)
  {
    assert FormatIncorrect[0] == 'L';
    assert MismatchPrefix[1] == SpanOpen[1] == 's';
    assert (MismatchPrefix + t)[1] == MismatchPrefix[1];
    assert StatusMatchesPrefix[0] == '<' && StatusMatchesPrefix[1] == 'b';
  }

  /** The report opens with "Status matches" exactly when the name declares a status and
      it equals the inferred one. */
  lemma StatusMatchesIff(logfileName: string, d: map<string, seq<string>>)
    ensures StartsWith(StatusReport(logfileName, d), StatusMatchesPrefix) <==>
      DeclaredStatus(logfileName) == Some(InferredStatus(d))
  {
    var r := StatusReport(logfileName, d);
    match DeclaredStatus(logfileName)
    case None =>
      StatusPrefixesDiffer("");
    case Some(declared) =>
      if declared == InferredStatus(d) {
        assert r[..|StatusMatchesPrefix|] == StatusMatchesPrefix;
      } else {
        StatusPrefixesDiffer(MismatchText(declared, InferredStatus(d)));
      }
  }

  /** When the status is the last part of a file name ending in ".txt" it keeps the
      extension, so it never matches. */
  lemma TxtStatusNeverMatches(logfileName: string, d: map<string, seq<string>>)
    requires |Split(logfileName, "_")| >= 3 && EndsWith(Split(logfileName, "_")[2], ".txt")
    ensures DeclaredStatus(logfileName).Some? && EndsWith(DeclaredStatus(logfileName).value, ".txt")
    ensures !StartsWith(StatusReport(logfileName, d), StatusMatchesPrefix)
  {
    var part := Split(logfileName, "_")[2];
    var low := Lower(part);
    LowerSlice(part, |part| - 4, |part|);
    assert Lower(".txt") == ".txt";
    assert low[|low| - 4..] == ".txt";
    StatusMatchesIff(logfileName, d);
    InferredPendingIff(d);
    assert !EndsWith("pending", ".txt") && !EndsWith("confirmed", ".txt");
  }

  // ---------------------------------------------------------------------------
  // Ignition-counter check of process_file

  /** The outcome of the ignition-counter comparison: nothing appended, or a line appended. */
  datatype IgnitionCheck = NotCompared | Appended(text: string)

  function CounterErrorText(mode3: string, mode7: string): string {
    "<span style='color:red;'>Ignition cycle counter error! Mode 3 (" + mode3 + ") equals Mode 7 (" + mode7 + ")</span>" + LineBreak
  }

  /** The ignition branch of `process_file`: both counters come from the same lookup on the
      same log, so whenever a counter line exists they are equal and the error line is
      appended. The `elif`, whose `mode_3_cycles + 1` would raise a `TypeError` on a
      string, is never reached. */
  method CheckIgnitionCounters(fileContent: string) returns (outcome: IgnitionCheck)
    ensures RecentFueledIgnitionLine(fileContent).None? ==> outcome == NotCompared
    ensures RecentFueledIgnitionLine(fileContent).Some? ==>
      outcome == Appended(CounterErrorText(RecentFueledIgnitionLine(fileContent).value, RecentFueledIgnitionLine(fileContent).value))
  {
    var mode3Cycles := FindRecentFueledIgnitionData(fileContent);
    var mode7Cycles := FindRecentFueledIgnitionData(fileContent);
    outcome := NotCompared;
    if mode3Cycles.Some? && mode7Cycles.Some? {
      if mode3Cycles.value == mode7Cycles.value {
        outcome := Appended(CounterErrorText(mode3Cycles.value, mode7Cycles.value));
      } else {
        assert false;
      }
    }
  }
}
