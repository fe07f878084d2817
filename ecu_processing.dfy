/**
  The log engine of `modules/ecu_processing.py`: loading the keyword lists and the ECU
  reference from the decoded configuration document, splitting a scan-tool log into mode
  sections, classifying each line as an ECU header, a fault line or neither, counting the
  distinct ECU headers per mode, the cross-mode warning, the keyword scanner and the
  ignition-counter lookup.
 */
module EcuProcessing {
  import opened Wrappers
  import opened Strings

  /** A decoded configuration document: each top-level key names a list of strings. */
  type Document = map<string, seq<string>>

  /** The literal that introduces every mode section of a log. */
  const ModeDelimiter := "Scan-Tool Mode"
  /** The modes whose line lists are kept, in the order the warning compares them. */
  const RecognizedModes: seq<string> := ["1", "2", "3", "6", "7", "9", "A"]
  const MismatchWarning := "Warning: ECU counts are not the same in all modes."
  const FaultEntriesPhrase := "fault code entries"
  const InfotypeMarker := "INFOTYPE 08\tIn-use Performance Tracking for Spark Ignition Engines"
  const IgnitionCounterLabel := "Ignition Cycle Counter"

  // ---------------------------------------------------------------------------
  // Keyword lists and ECU reference

  datatype KeywordLists = KeywordLists(keywords: seq<string>, ignoreKeywords: seq<string>)

  /** `load_keywords_from_json` on the decoded document; `None` stands for a file that is
      missing or is not valid JSON. Every failure degrades to two empty lists. */
  function LoadKeywords(doc: Option<Document>): (r: KeywordLists)
    ensures doc.None? || "keywords" !in doc.value ==> r == KeywordLists([], [])
    ensures doc.Some? && "keywords" in doc.value ==>
      r.keywords == doc.value["keywords"] &&
      r.ignoreKeywords == (if "ignore_keywords" in doc.value then doc.value["ignore_keywords"] else [])
  {
    match doc
    case None => KeywordLists([], [])
    case Some(d) =>
      if "keywords" !in d then KeywordLists([], [])
      else KeywordLists(d["keywords"], if "ignore_keywords" in d then d["ignore_keywords"] else [])
  }

  /** Every entry of every list other than `keywords` has at least two whitespace tokens
      (otherwise `ecu.split()[1]` raises). */
  predicate ReferenceWellFormed(d: Document) {
    forall k, e | k in d && k != "keywords" && e in d[k] :: |SplitWs(e)| >= 2
  }

  function SecondToken(e: string): string
    requires |SplitWs(e)| >= 2
  {
    SplitWs(e)[1]
  }

  /** `load_ecu_reference` on the decoded document: the second token of every entry of every
      list except `keywords` (so `ignore_keywords` entries contribute too); `None` when the
      file is unreadable or an entry has fewer than two tokens. */
  function LoadEcuReference(doc: Option<Document>): (r: Option<set<string>>)
    ensures r.Some? <==> doc.Some? && ReferenceWellFormed(doc.value)
    ensures r.Some? ==> forall k, e | k in doc.value && k != "keywords" && e in doc.value[k] ::
      SecondToken(e) in r.value
    ensures r.Some? ==> forall id | id in r.value :: exists k, e | k in doc.value && k != "keywords" && e in doc.value[k] ::
      SecondToken(e) == id
  {
    match doc
    case None => None
    case Some(d) =>
      if ReferenceWellFormed(d) then Some(set k, e | k in d && k != "keywords" && e in d[k] :: SecondToken(e))
      else None
  }

  // ---------------------------------------------------------------------------
  // Line classification

  /** An ECU header line: more than one token, the second a known ECU identifier. */
  predicate IsEcuLine(line: string, reference: set<string>) {
    var tokens := SplitWs(line);
    |tokens| > 1 && tokens[1] in reference
  }

  /** `\d+\s+fault code entries` matches with its last digit at `j - 1`, its whitespace
      run at `j..k` and the phrase at `k`. */
  predicate SummaryAt(line: string, j: int, k: int) {
    0 < j < k <= |line| && IsDigit(line[j - 1]) && (forall i | j <= i < k :: IsSpace(line[i]))
    && StartsWith(line[k..], FaultEntriesPhrase)
  }

  /** `re.search(r"\d+\s+fault code entries", line)` finds a match: a summary such as
      "3 fault code entries". */
  predicate IsEntriesSummary(line: string) {
    exists j, k | 0 < j < |line| && j < k <= |line| :: SummaryAt(line, j, k)
  }

  /** The source's fault test before the summary exclusion: mentions the phrase or starts
      with P, U, C or B, and does not start with "PID". */
  predicate LooksLikeFault(line: string) {
    (Contains(line, FaultEntriesPhrase) || StartsWith(line, "P") || StartsWith(line, "U")
     || StartsWith(line, "C") || StartsWith(line, "B"))
    && !StartsWith(line, "PID")
  }

  datatype LineKind = EcuLine | FaultLine | Discarded

  function Classify(line: string, reference: set<string>): LineKind {
    if IsEcuLine(line, reference) then EcuLine
    else if LooksLikeFault(line) && !IsEntriesSummary(line) then FaultLine
    else Discarded
  }

  // ---------------------------------------------------------------------------
  // Sections

  /** The sections after the preamble: `content.split("Scan-Tool Mode")[1:]`. */
  function ModeSections(content: string): seq<string> {
    Split(content, ModeDelimiter)[1..]
  }

  /** A section's label: its first line up to the first `-`, stripped. It holds no `-`,
      no line break, and no leading or trailing whitespace. */
  function ModeName(section: string): (name: string)
    ensures '-' !in name && '\n' !in name
    ensures name == [] || (!IsSpace(name[0]) && !IsSpace(name[|name| - 1]))
  {
    var firstLine := Split(section, "\n")[0];
    var beforeDash := Split(firstLine, "-")[0];
    ContainsChar(firstLine, '\n');
    ContainsChar(beforeDash, '-');
    Strip(beforeDash)
  }

  /** The non-blank stripped lines among `lines`, in order. */
  function NonBlankStripped(lines: seq<string>): (r: seq<string>)
    ensures forall i :: 0 <= i < |r| ==> r[i] != []
    decreases |lines|
  {
    if lines == [] then []
    else
      var t := Strip(lines[|lines| - 1]);
      NonBlankStripped(lines[..|lines| - 1]) + (if t == [] then [] else [t])
  }

  /** `ecu_list`: the non-blank stripped lines from the third line of the section on. */
  function Candidates(section: string): seq<string> {
    var lines := Split(section, "\n");
    if |lines| < 2 then [] else NonBlankStripped(lines[2..])
  }

  /** The candidates the per-mode list keeps (ECU headers and fault lines interleaved), in order. */
  function Retained(cands: seq<string>, reference: set<string>): seq<string>
    decreases |cands|
  {
    if cands == [] then []
    else
      var last := cands[|cands| - 1];
      Retained(cands[..|cands| - 1], reference) + (if Classify(last, reference) == Discarded then [] else [last])
  }

  /** The distinct ECU header lines among the candidates. */
  function EcuLinesOf(cands: seq<string>, reference: set<string>): set<string> {
    set c | c in cands && IsEcuLine(c, reference)
  }

  function InitialModeFaults(): map<string, seq<string>> {
    map["1" := [], "2" := [], "3" := [], "6" := [], "7" := [], "9" := [], "A" := []]
  }

  /** `mode_faults` once section `s` is processed: a recognised label gets the section's
      retained lines appended; any other label leaves every list as it was. */
  function ListsWithSection(m: map<string, seq<string>>, s: string, reference: set<string>): map<string, seq<string>> {
    var name := ModeName(s);
    if name in m then m[name := m[name] + Retained(Candidates(s), reference)] else m
  }

  /** `ecu_counts` once section `s` is processed: its label is (re)set to the number of
      distinct ECU headers in the section. */
  function CountsWithSection(c: map<string, nat>, s: string, reference: set<string>): map<string, nat> {
    c[ModeName(s) := |EcuLinesOf(Candidates(s), reference)|]
  }

  /** `mode_faults` after processing the sections `secs` in order. */
  function ModeFaultsAfter(secs: seq<string>, reference: set<string>): map<string, seq<string>>
    decreases |secs|
  {
    if secs == [] then InitialModeFaults()
    else ListsWithSection(ModeFaultsAfter(secs[..|secs| - 1], reference), secs[|secs| - 1], reference)
  }

  /** `ecu_counts` after processing the sections `secs` in order. */
  function EcuCountsAfter(secs: seq<string>, reference: set<string>): map<string, nat>
    decreases |secs|
  {
    if secs == [] then map[]
    else CountsWithSection(EcuCountsAfter(secs[..|secs| - 1], reference), secs[|secs| - 1], reference)
  }

  /** `ecu_counts.get(mode, 0)`. */
  function CountOf(counts: map<string, nat>, mode: string): nat {
    if mode in counts then counts[mode] else 0
  }

  /** Each recognised mode has the count of mode "1", an absent mode counting 0. */
  predicate CountsAgree(counts: map<string, nat>) {
    forall i | 0 <= i < |RecognizedModes| :: CountOf(counts, RecognizedModes[i]) == CountOf(counts, RecognizedModes[0])
  }

  /** The inner loop of `count_ecus_in_modes`: the candidate lines appended to the mode's
      list, namely every ECU header and every fault line that is not a summary. */
  method ModeEntries(ecuList: seq<string>, reference: set<string>) returns (entries: seq<string>)
    ensures entries == Retained(ecuList, reference)
  {
    entries := [];
    var j := 0;
    while j < |ecuList|
      invariant 0 <= j <= |ecuList|
      invariant entries == Retained(ecuList[..j], reference)
    {
      var line := ecuList[j];
      assert ecuList[..j + 1][..j] == ecuList[..j] && ecuList[..j + 1][j] == line;
      if IsEcuLine(line, reference) {
        entries := entries + [line];
      } else if LooksLikeFault(line) {
        if !IsEntriesSummary(line) {
          entries := entries + [line];
        }
      }
      j := j + 1;
    }
    assert ecuList[..|ecuList|] == ecuList;
  }

  /** The closing comparison of `count_ecus_in_modes`: stops at the first recognised mode
      whose count (0 when absent) differs from that of mode "1". */
  method CompareModeCounts(ecuCounts: map<string, nat>) returns (warning: string)
    ensures warning == "" <==> CountsAgree(ecuCounts)
    ensures warning == "" || warning == MismatchWarning
  {
    var referenceCount := CountOf(ecuCounts, RecognizedModes[0]);
    var allCountsMatch := true;
    var k := 0;
    while k < |RecognizedModes|
      invariant 0 <= k <= |RecognizedModes|
      invariant allCountsMatch ==> forall t | 0 <= t < k :: CountOf(ecuCounts, RecognizedModes[t]) == referenceCount
      invariant !allCountsMatch ==> !CountsAgree(ecuCounts)
    {
      if CountOf(ecuCounts, RecognizedModes[k]) != referenceCount {
        allCountsMatch := false;
        break;
      }
      k := k + 1;
    }
    warning := "";
    if !allCountsMatch {
      warning := MismatchWarning;
    }
  }

  /** Processing one more section applies its step to both folds. */
  lemma SectionFoldStep(secs: seq<string>, i: nat, reference: set<string>)
    requires i < |secs|
    ensures EcuCountsAfter(secs[..i + 1], reference) == CountsWithSection(EcuCountsAfter(secs[..i], reference), secs[i], reference)
    ensures ModeFaultsAfter(secs[..i + 1], reference) == ListsWithSection(ModeFaultsAfter(secs[..i], reference), secs[i], reference)
  {
    assert secs[..i + 1][..i] == secs[..i] && secs[..i + 1][i] == secs[i];
  }

  /** The body of the section loop of `count_ecus_in_modes`. */
  method ProcessSection(ecuCounts: map<string, nat>, modeFaults: map<string, seq<string>>, section: string, reference: set<string>)
    returns (newCounts: map<string, nat>, newFaults: map<string, seq<string>>)
    ensures newCounts == CountsWithSection(ecuCounts, section, reference)
    ensures newFaults == ListsWithSection(modeFaults, section, reference)
  {
    var modeName := ModeName(section);
    var ecuList := Candidates(section);
    newFaults := modeFaults;
    if modeName in modeFaults {
      var entries := ModeEntries(ecuList, reference);
      newFaults := modeFaults[modeName := modeFaults[modeName] + entries];
    }
    newCounts := ecuCounts[modeName := |EcuLinesOf(ecuList, reference)|];
  }

  /** `count_ecus_in_modes`: the ECU count of every section label, the per-mode lists of
      ECU headers and fault lines, and the cross-mode warning. */
  method CountEcusInModes(content: string, reference: set<string>)
    returns (ecuCounts: map<string, nat>, modeFaults: map<string, seq<string>>, warning: string)
    ensures ecuCounts == EcuCountsAfter(ModeSections(content), reference)
    ensures modeFaults == ModeFaultsAfter(ModeSections(content), reference)
    ensures warning == if CountsAgree(ecuCounts) then "" else MismatchWarning
  {
    var sections := Split(content, ModeDelimiter);
    var secs := sections[1..];
    ecuCounts := map[];
    modeFaults := InitialModeFaults();
    var i := 0;
    while i < |secs|
      invariant 0 <= i <= |secs|
      invariant ecuCounts == EcuCountsAfter(secs[..i], reference)
      invariant modeFaults == ModeFaultsAfter(secs[..i], reference)
    {
      SectionFoldStep(secs, i, reference);
      ecuCounts, modeFaults := ProcessSection(ecuCounts, modeFaults, secs[i], reference);
      i := i + 1;
    }
    assert secs[..|secs|] == secs;
    warning := CompareModeCounts(ecuCounts);
  }

  // ---------------------------------------------------------------------------
  // Properties of the section parser

  /** The list map has exactly the seven recognised modes as keys, whatever the log. */
  lemma {:induction false} ModeFaultsKeys(secs: seq<string>, reference: set<string>)
    ensures forall m :: m in ModeFaultsAfter(secs, reference) <==> m in RecognizedModes
    decreases |secs|
  {
    if secs != [] {
      ModeFaultsKeys(secs[..|secs| - 1], reference);
    }
  }

  /** A line is retained exactly when it is a candidate that is an ECU header, or a fault
      line that is not a "<n> fault code entries" summary. */
  lemma {:induction false} RetainedIff(cands: seq<string>, reference: set<string>, x: string)
    ensures x in Retained(cands, reference) <==>
      x in cands && (IsEcuLine(x, reference) || (LooksLikeFault(x) && !IsEntriesSummary(x)))
    decreases |cands|
  {
    if cands != [] {
      var init := cands[..|cands| - 1];
      RetainedIff(init, reference, x);
      assert cands == init + [cands[|cands| - 1]];
    }
  }

  /** A label outside the seven recognised modes changes no per-mode list. */
  lemma UnrecognizedSectionKeepsLists(secs: seq<string>, s: string, reference: set<string>)
    requires ModeName(s) !in RecognizedModes
    ensures ModeFaultsAfter(secs + [s], reference) == ModeFaultsAfter(secs, reference)
  {
    ModeFaultsKeys(secs, reference);
    assert (secs + [s])[..|secs|] == secs;
  }

  /** Every entry of a per-mode list is a retained candidate line of a section with that
      label: nothing from the preamble, from other labels, or from discarded lines. */
  lemma {:induction false} ModeFaultsSound(secs: seq<string>, reference: set<string>, m: string, x: string)
    requires m in ModeFaultsAfter(secs, reference) && x in ModeFaultsAfter(secs, reference)[m]
    ensures exists i :: 0 <= i < |secs| && ModeName(secs[i]) == m && x in Retained(Candidates(secs[i]), reference)
    decreases |secs|
  {
    ModeFaultsKeys(secs, reference);
    var init := secs[..|secs| - 1];
    var s := secs[|secs| - 1];
    var prev := ModeFaultsAfter(init, reference);
    ModeFaultsKeys(init, reference);
    if x in prev[m] {
      ModeFaultsSound(init, reference, m, x);
      var i :| 0 <= i < |init| && ModeName(init[i]) == m && x in Retained(Candidates(init[i]), reference);
      assert secs[i] == init[i];
    } else {
      assert ModeName(s) == m && x in Retained(Candidates(s), reference);
      assert secs[|secs| - 1] == s;
    }
  }

  /** One section extends the list of its own recognised label and no other list. */
  lemma ModeFaultsStep(secs: seq<string>, reference: set<string>, m: string)
    requires secs != [] && m in RecognizedModes
    ensures m in ModeFaultsAfter(secs[..|secs| - 1], reference) && m in ModeFaultsAfter(secs, reference)
    ensures ModeFaultsAfter(secs, reference)[m] == ModeFaultsAfter(secs[..|secs| - 1], reference)[m]
      + (if ModeName(secs[|secs| - 1]) == m then Retained(Candidates(secs[|secs| - 1]), reference) else [])
  {
    ModeFaultsKeys(secs[..|secs| - 1], reference);
    ModeFaultsKeys(secs, reference);
  }

  /** Lists only grow at their end: the list of a mode after the first `n` sections is a
      prefix of its final list, so entries keep the order of sections and lines. */
  lemma {:induction false} ModeFaultsGrowAtEnd(secs: seq<string>, reference: set<string>, n: nat, m: string)
    requires n <= |secs| && m in RecognizedModes
    ensures m in ModeFaultsAfter(secs[..n], reference) && m in ModeFaultsAfter(secs, reference)
    ensures ModeFaultsAfter(secs[..n], reference)[m] <= ModeFaultsAfter(secs, reference)[m]
    decreases |secs|
  {
    ModeFaultsKeys(secs, reference);
    ModeFaultsKeys(secs[..n], reference);
    if n < |secs| {
      var init := secs[..|secs| - 1];
      assert init[..n] == secs[..n];
      ModeFaultsGrowAtEnd(init, reference, n, m);
      ModeFaultsStep(secs, reference, m);
    } else {
      assert secs[..n] == secs;
    }
  }

  /** Every retained line of a recognised section is in that mode's list. */
  lemma {:induction false} ModeFaultsComplete(secs: seq<string>, reference: set<string>, i: nat, x: string)
    requires i < |secs| && ModeName(secs[i]) in RecognizedModes
    requires x in Retained(Candidates(secs[i]), reference)
    ensures ModeName(secs[i]) in ModeFaultsAfter(secs, reference)
    ensures x in ModeFaultsAfter(secs, reference)[ModeName(secs[i])]
  {
    var m := ModeName(secs[i]);
    var done := secs[..i + 1];
    assert done[..|done| - 1] == secs[..i] && done[|done| - 1] == secs[i];
    ModeFaultsStep(done, reference, m);
    var mid := ModeFaultsAfter(done, reference);
    assert x in mid[m];
    ModeFaultsGrowAtEnd(secs, reference, i + 1, m);
    var k :| 0 <= k < |mid[m]| && mid[m][k] == x;
    assert ModeFaultsAfter(secs, reference)[m][k] == x;
  }

  /** Every label seen gets a count, and the count of a label is that of the last section
      carrying it: a later section with the same label overwrites. */
  lemma {:induction false} EcuCountLastWins(secs: seq<string>, reference: set<string>, i: nat)
    requires i < |secs|
    requires forall j :: i < j < |secs| ==> ModeName(secs[j]) != ModeName(secs[i])
    ensures ModeName(secs[i]) in EcuCountsAfter(secs, reference)
    ensures EcuCountsAfter(secs, reference)[ModeName(secs[i])] == |EcuLinesOf(Candidates(secs[i]), reference)|
    decreases |secs|
  {
    var init := secs[..|secs| - 1];
    if i < |secs| - 1 {
      forall j | i < j < |init| ensures ModeName(init[j]) != ModeName(init[i]) {
        assert init[j] == secs[j];
      }
      EcuCountLastWins(init, reference, i);
      assert init[i] == secs[i];
    }
  }

  /** Only labels of sections get a count. */
  lemma {:induction false} EcuCountsOnlySeenLabels(secs: seq<string>, reference: set<string>, m: string)
    requires m in EcuCountsAfter(secs, reference)
    ensures exists i :: 0 <= i < |secs| && ModeName(secs[i]) == m
    decreases |secs|
  {
    var init := secs[..|secs| - 1];
    if ModeName(secs[|secs| - 1]) != m {
      EcuCountsOnlySeenLabels(init, reference, m);
      var i :| 0 <= i < |init| && ModeName(init[i]) == m;
      assert secs[i] == init[i];
    }
  }

  /** Appending a line already among the candidates adds no new ECU header. */
  lemma EcuLinesOfRepeat(cands: seq<string>, c: string, reference: set<string>)
    requires c in cands
    ensures EcuLinesOf(cands + [c], reference) == EcuLinesOf(cands, reference)
  {
  }

  /** One more section at the end of a log is one more count step. */
  lemma EcuCountsSnoc(log: seq<string>, s: string, reference: set<string>)
    ensures EcuCountsAfter(log + [s], reference) == CountsWithSection(EcuCountsAfter(log, reference), s, reference)
  {
    assert (log + [s])[..|log|] == log;
  }

  /** The count steps of the sections `post`, applied to `counts` in order. */
  function CountsFrom(counts: map<string, nat>, post: seq<string>, reference: set<string>): map<string, nat>
    decreases |post|
  {
    if post == [] then counts
    else CountsWithSection(CountsFrom(counts, post[..|post| - 1], reference), post[|post| - 1], reference)
  }

  /** The counts after a log depend on a prefix of it only through the counts after that
      prefix: the rest of the log continues from them. */
  lemma {:induction false} EcuCountsSplit(a: seq<string>, post: seq<string>, reference: set<string>)
    ensures EcuCountsAfter(a + post, reference) == CountsFrom(EcuCountsAfter(a, reference), post, reference)
    decreases |post|
  {
    if post == [] {
      assert a + post == a;
    } else {
      var init, last := post[..|post| - 1], post[|post| - 1];
      calc {
        EcuCountsAfter(a + post, reference);
        == { assert a + post == (a + init) + [last]; }
        EcuCountsAfter((a + init) + [last], reference);
        == { EcuCountsSnoc(a + init, last, reference); }
        CountsWithSection(EcuCountsAfter(a + init, reference), last, reference);
        == { EcuCountsSplit(a, init, reference); }
        CountsWithSection(CountsFrom(EcuCountsAfter(a, reference), init, reference), last, reference);
      }
    }
  }

  /** ECU counting is set-based: in any log, a section whose candidate lines repeat one of
      its own lines once more gives the same counts as the section without the repeat. */
  lemma RepeatedLineCountsOnce(pre: seq<string>, post: seq<string>, s1: string, s2: string, c: string, reference: set<string>)
    requires ModeName(s1) == ModeName(s2)
    requires c in Candidates(s1) && Candidates(s2) == Candidates(s1) + [c]
    ensures EcuCountsAfter(pre + [s1] + post, reference) == EcuCountsAfter(pre + [s2] + post, reference)
  {
    var log1, log2 := pre + [s1], pre + [s2];
    assert log1[..|pre|] == pre && log1[|pre|] == s1;
    assert log2[..|pre|] == pre && log2[|pre|] == s2;
    EcuLinesOfRepeat(Candidates(s1), c, reference);
    EcuCountsSplit(log1, post, reference);
    EcuCountsSplit(log2, post, reference);
  }

  /** The preamble before the first delimiter is never examined: any two delimiter-free
      preambles give the same counts and lists. */
  lemma PreambleIgnored(pre1: string, pre2: string, rest: string, reference: set<string>)
    requires !Contains(pre1, ModeDelimiter) && !Contains(pre2, ModeDelimiter)
    ensures ModeSections(pre1 + ModeDelimiter + rest) == ModeSections(pre2 + ModeDelimiter + rest)
    ensures EcuCountsAfter(ModeSections(pre1 + ModeDelimiter + rest), reference)
         == EcuCountsAfter(ModeSections(pre2 + ModeDelimiter + rest), reference)
    ensures ModeFaultsAfter(ModeSections(pre1 + ModeDelimiter + rest), reference)
         == ModeFaultsAfter(ModeSections(pre2 + ModeDelimiter + rest), reference)
  {
    assert FirstCharUnique(ModeDelimiter);
    SplitCons(pre1, ModeDelimiter, rest);
    SplitCons(pre2, ModeDelimiter, rest);
  }

  // ---------------------------------------------------------------------------
  // Properties of the cross-mode warning

  /** Labels outside the seven recognised modes never affect the warning. */
  lemma WarningOnlyReadsRecognizedModes(c1: map<string, nat>, c2: map<string, nat>)
    requires forall m | m in RecognizedModes :: CountOf(c1, m) == CountOf(c2, m)
    ensures CountsAgree(c1) == CountsAgree(c2)
  {
  }

  /** A log with none of the seven modes gets no warning. */
  lemma NoRecognizedModeNoWarning(counts: map<string, nat>)
    requires forall m | m in RecognizedModes :: m !in counts
    ensures CountsAgree(counts)
  {
  }

  /** A recognised mode that is absent while mode "1" has ECUs raises the warning (if mode
      "1" has none either, the absent mode agrees with it). */
  lemma MissingModeWarns(counts: map<string, nat>, m: string)
    requires m in RecognizedModes && m !in counts && CountOf(counts, "1") > 0
    ensures !CountsAgree(counts)
  {
    var i :| 0 <= i < |RecognizedModes| && RecognizedModes[i] == m;
  }

  // ---------------------------------------------------------------------------
  // Keyword scanner

  /** One entry of `fail_details`: the section tag and the stripped line. */
  datatype Hit = Hit(tag: string, line: string)

  /** Some word of `words`, lower-cased, occurs in the lower-cased line. */
  predicate MentionsAny(lineLower: string, words: seq<string>) {
    exists j | 0 <= j < |words| :: Contains(lineLower, Lower(words[j]))
  }

  /** `f"Mode {index}"`. */
  function SectionTag(index: nat): string {
    "Mode " + NatToString(index)
  }

  /** The hit one line yields: none when an ignore keyword occurs in it, otherwise at most one. */
  function LineHit(index: nat, line: string, keywords: seq<string>, ignoreKeywords: seq<string>): Option<Hit> {
    var lower := Lower(line);
    if MentionsAny(lower, ignoreKeywords) then None
    else if MentionsAny(lower, keywords) then Some(Hit(SectionTag(index), Strip(line)))
    else None
  }

  /** The hit, if any, as a list of at most one entry. */
  function AsList(h: Option<Hit>): seq<Hit> {
    if h.Some? then [h.value] else []
  }

  function LinesHits(index: nat, lines: seq<string>, keywords: seq<string>, ignoreKeywords: seq<string>): seq<Hit>
    decreases |lines|
  {
    if lines == [] then []
    else
      LinesHits(index, lines[..|lines| - 1], keywords, ignoreKeywords)
      + AsList(LineHit(index, lines[|lines| - 1], keywords, ignoreKeywords))
  }

  /** The hits of the sections `sections`, each tagged with its position, in order. */
  function SectionsHits(sections: seq<string>, keywords: seq<string>, ignoreKeywords: seq<string>): seq<Hit>
    decreases |sections|
  {
    if sections == [] then []
    else
      var n := |sections| - 1;
      SectionsHits(sections[..n], keywords, ignoreKeywords) + LinesHits(n, Split(sections[n], "\n"), keywords, ignoreKeywords)
  }

  /** The hits of a whole log; the preamble is section 0. */
  function FailKeywords(content: string, keywords: seq<string>, ignoreKeywords: seq<string>): seq<Hit> {
    SectionsHits(Split(content, ModeDelimiter), keywords, ignoreKeywords)
  }

  /** One keyword loop of `find_fail_keywords`: stops at the first word of `words` that,
      lower-cased, occurs in the lower-cased line. */
  method MentionsAnyOf(lineLower: string, words: seq<string>) returns (found: bool)
    ensures found <==> MentionsAny(lineLower, words)
  {
    found := false;
    var j := 0;
    while j < |words|
      invariant 0 <= j <= |words|
      invariant forall t | 0 <= t < j :: !Contains(lineLower, Lower(words[t]))
    {
      if Contains(lineLower, Lower(words[j])) {
        found := true;
        break;
      }
      j := j + 1;
    }
  }

  /** The body of the line loop of `find_fail_keywords`: the ignore check, then the keyword check. */
  method ScanLine(index: nat, line: string, keywords: seq<string>, ignoreKeywords: seq<string>) returns (hit: Option<Hit>)
    ensures hit == LineHit(index, line, keywords, ignoreKeywords)
  {
    var lineLower := Lower(line);
    hit := None;
    var shouldIgnore := MentionsAnyOf(lineLower, ignoreKeywords);
    if !shouldIgnore {
      var found := MentionsAnyOf(lineLower, keywords);
      if found {
        hit := Some(Hit(SectionTag(index), Strip(line)));
      }
    }
  }

  /** The line loop of `find_fail_keywords` over one section: the entries it appends. */
  method ScanSectionLines(index: nat, lines: seq<string>, keywords: seq<string>, ignoreKeywords: seq<string>)
    returns (hits: seq<Hit>)
    ensures hits == LinesHits(index, lines, keywords, ignoreKeywords)
  {
    hits := [];
    var n := 0;
    while n < |lines|
      invariant 0 <= n <= |lines|
      invariant hits == LinesHits(index, lines[..n], keywords, ignoreKeywords)
    {
      assert lines[..n + 1][..n] == lines[..n] && lines[..n + 1][n] == lines[n];
      var hit := ScanLine(index, lines[n], keywords, ignoreKeywords);
      if hit.Some? {
        hits := hits + [hit.value];
      }
      n := n + 1;
    }
    assert lines[..|lines|] == lines;
  }

  /** `find_fail_keywords`: scans every section, the preamble included, line by line. */
  method FindFailKeywords(fileContent: string, keywords: seq<string>, ignoreKeywords: seq<string>)
    returns (failDetails: seq<Hit>)
    ensures failDetails == FailKeywords(fileContent, keywords, ignoreKeywords)
  {
    var sections := Split(fileContent, ModeDelimiter);
    failDetails := [];
    var index := 0;
    while index < |sections|
      invariant 0 <= index <= |sections|
      invariant failDetails == SectionsHits(sections[..index], keywords, ignoreKeywords)
    {
      var lines := Split(sections[index], "\n");
      assert sections[..index + 1][..index] == sections[..index] && sections[..index + 1][index] == sections[index];
      assert SectionsHits(sections[..index + 1], keywords, ignoreKeywords)
          == SectionsHits(sections[..index], keywords, ignoreKeywords) + LinesHits(index, lines, keywords, ignoreKeywords);
      var sectionHits := ScanSectionLines(index, lines, keywords, ignoreKeywords);
      failDetails := failDetails + sectionHits;
      index := index + 1;
    }
    assert sections[..|sections|] == sections;
  }

  // ---------------------------------------------------------------------------
  // Properties of the keyword scanner

  /** A hit of a section's lines comes from one of them: a line with no ignore keyword and
      some keyword, tagged with the section's position and stored stripped. */
  lemma {:induction false} LinesHitsSound(index: nat, lines: seq<string>, keywords: seq<string>, ignoreKeywords: seq<string>, h: Hit)
    requires h in LinesHits(index, lines, keywords, ignoreKeywords)
    ensures exists l :: (l in lines && h == Hit(SectionTag(index), Strip(l))
      && !MentionsAny(Lower(l), ignoreKeywords) && MentionsAny(Lower(l), keywords))
    decreases |lines|
  {
    var init := lines[..|lines| - 1];
    var last := lines[|lines| - 1];
    if h in LinesHits(index, init, keywords, ignoreKeywords) {
      LinesHitsSound(index, init, keywords, ignoreKeywords, h);
      var l :| l in init && h == Hit(SectionTag(index), Strip(l))
        && !MentionsAny(Lower(l), ignoreKeywords) && MentionsAny(Lower(l), keywords);
      assert l in lines;
    } else {
      assert h == Hit(SectionTag(index), Strip(last));
    }
  }

  /** A line with no ignore keyword and some keyword yields its hit. */
  lemma {:induction false} LinesHitsComplete(index: nat, lines: seq<string>, keywords: seq<string>, ignoreKeywords: seq<string>, l: string)
    requires l in lines && !MentionsAny(Lower(l), ignoreKeywords) && MentionsAny(Lower(l), keywords)
    ensures Hit(SectionTag(index), Strip(l)) in LinesHits(index, lines, keywords, ignoreKeywords)
    decreases |lines|
  {
    var init := lines[..|lines| - 1];
    if l != lines[|lines| - 1] {
      assert lines == init + [lines[|lines| - 1]];
      LinesHitsComplete(index, init, keywords, ignoreKeywords, l);
    }
  }

  /** The hits of one section are at most one per line. */
  lemma {:induction false} LinesHitsAtMostOnePerLine(index: nat, lines: seq<string>, keywords: seq<string>, ignoreKeywords: seq<string>)
    ensures |LinesHits(index, lines, keywords, ignoreKeywords)| <= |lines|
    decreases |lines|
  {
    if lines != [] {
      LinesHitsAtMostOnePerLine(index, lines[..|lines| - 1], keywords, ignoreKeywords);
    }
  }

  /** Every hit of a log comes from a line of section `i` (0 being the preamble), tagged
      "Mode i", with no ignore keyword and some keyword in the line. */
  lemma {:induction false} FailKeywordsSound(sections: seq<string>, keywords: seq<string>, ignoreKeywords: seq<string>, h: Hit)
    requires h in SectionsHits(sections, keywords, ignoreKeywords)
    ensures exists i, l :: (0 <= i < |sections| && l in Split(sections[i], "\n")
      && h == Hit(SectionTag(i), Strip(l))
      && !MentionsAny(Lower(l), ignoreKeywords) && MentionsAny(Lower(l), keywords))
    decreases |sections|
  {
    var n := |sections| - 1;
    var init := sections[..n];
    if h in SectionsHits(init, keywords, ignoreKeywords) {
      FailKeywordsSound(init, keywords, ignoreKeywords, h);
      var i, l :| 0 <= i < |init| && l in Split(init[i], "\n")
        && h == Hit(SectionTag(i), Strip(l))
        && !MentionsAny(Lower(l), ignoreKeywords) && MentionsAny(Lower(l), keywords);
      assert sections[i] == init[i];
    } else {
      LinesHitsSound(n, Split(sections[n], "\n"), keywords, ignoreKeywords, h);
    }
  }

  /** Every line of section `i` with no ignore keyword and some keyword is reported, tagged "Mode i". */
  lemma {:induction false} FailKeywordsComplete(sections: seq<string>, keywords: seq<string>, ignoreKeywords: seq<string>, i: nat, l: string)
    requires i < |sections| && l in Split(sections[i], "\n")
    requires !MentionsAny(Lower(l), ignoreKeywords) && MentionsAny(Lower(l), keywords)
    ensures Hit(SectionTag(i), Strip(l)) in SectionsHits(sections, keywords, ignoreKeywords)
    decreases |sections|
  {
    var n := |sections| - 1;
    if i < n {
      assert sections[..n][i] == sections[i];
      FailKeywordsComplete(sections[..n], keywords, ignoreKeywords, i, l);
    } else {
      LinesHitsComplete(n, Split(sections[n], "\n"), keywords, ignoreKeywords, l);
    }
  }

  /** Different sections get different tags. */
  lemma SectionTagInjective(i: nat, j: nat)
    requires SectionTag(i) == SectionTag(j)
    ensures i == j
  {
    assert NatToString(i) == SectionTag(i)[5..];
    assert NatToString(j) == SectionTag(j)[5..];
    ParseNatToString(i);
    ParseNatToString(j);
  }

  /** A keyword that starts and ends with non-whitespace also occurs, case-insensitively,
      in the stored (stripped) line of the hit it caused. */
  lemma HitLineKeepsKeyword(line: string, keyword: string)
    requires keyword != [] && !IsSpace(keyword[0]) && !IsSpace(keyword[|keyword| - 1])
    requires Contains(Lower(line), Lower(keyword))
    ensures Contains(Lower(Strip(line)), Lower(keyword))
  {
    LowerKeepsSpace(line);
    var w := Lower(keyword);
    assert w[0] == LowerChar(keyword[0]) && w[|w| - 1] == LowerChar(keyword[|keyword| - 1]);
    ContainsInStripped(line, Lower(line), w);
    LowerSlice(line, StripBounds(line).0, StripBounds(line).1);
  }

  // ---------------------------------------------------------------------------
  // Ignition-counter lookup

  /** The first of `lines` that contains `needle`, stripped. */
  function FirstLineContaining(lines: seq<string>, needle: string): (r: Option<string>)
    ensures r.None? <==> forall i :: 0 <= i < |lines| ==> !Contains(lines[i], needle)
    ensures r.Some? ==> exists i :: (0 <= i < |lines| && Contains(lines[i], needle) && r.value == Strip(lines[i])
      && forall j :: 0 <= j < i ==> !Contains(lines[j], needle))
    decreases |lines|
  {
    if lines == [] then None
    else if Contains(lines[0], needle) then Some(Strip(lines[0]))
    else
      var r := FirstLineContaining(lines[1..], needle);
      assert forall i :: 0 < i < |lines| ==> lines[i] == lines[1..][i - 1];
      r
  }

  /** The lines searched for the counter: from the INFOTYPE 08 marker to the end of the log. */
  function CounterSearchLines(logContent: string): seq<string>
    requires Contains(logContent, InfotypeMarker)
  {
    Split(logContent[Find(logContent, InfotypeMarker)..], "\n")
  }

  /** What `find_recent_fueled_ignition_data` returns: `None` without the INFOTYPE 08
      marker; otherwise the first line from the marker on that contains
      "Ignition Cycle Counter", stripped (`None` when there is none). */
  function RecentFueledIgnitionLine(logContent: string): (r: Option<string>)
    ensures !Contains(logContent, InfotypeMarker) ==> r.None?
    ensures Contains(logContent, InfotypeMarker) ==>
      (r.None? <==> forall i :: 0 <= i < |CounterSearchLines(logContent)| ==>
        !Contains(CounterSearchLines(logContent)[i], IgnitionCounterLabel))
    ensures Contains(logContent, InfotypeMarker) && r.Some? ==>
      exists i :: (0 <= i < |CounterSearchLines(logContent)|
        && Contains(CounterSearchLines(logContent)[i], IgnitionCounterLabel)
        && r.value == Strip(CounterSearchLines(logContent)[i])
        && forall j :: 0 <= j < i ==> !Contains(CounterSearchLines(logContent)[j], IgnitionCounterLabel))
  {
    var startIndex := Find(logContent, InfotypeMarker);
    if startIndex == -1 then None
    else
      var lines := Split(logContent[startIndex..], "\n");
      assert lines == CounterSearchLines(logContent);
      FirstLineContaining(lines, IgnitionCounterLabel)
  }

  /** `find_recent_fueled_ignition_data`: finds the marker, then returns at the first line
      holding the counter label. */
  method FindRecentFueledIgnitionData(logContent: string) returns (r: Option<string>)
    ensures r == RecentFueledIgnitionLine(logContent)
  {
    var startIndex := Find(logContent, InfotypeMarker);
    if startIndex == -1 {
      return None;
    }
    var relevantContent := logContent[startIndex..];
    var lines := Split(relevantContent, "\n");
    assert lines == CounterSearchLines(logContent);
    var n := 0;
    while n < |lines|
      invariant 0 <= n <= |lines|
      invariant forall t :: 0 <= t < n ==> !Contains(lines[t], IgnitionCounterLabel)
    {
      if Contains(lines[n], IgnitionCounterLabel) {
        ghost var spec := FirstLineContaining(lines, IgnitionCounterLabel);
        ghost var i :| 0 <= i < |lines| && Contains(lines[i], IgnitionCounterLabel) && spec.value == Strip(lines[i])
          && forall j :: 0 <= j < i ==> !Contains(lines[j], IgnitionCounterLabel);
        assert i == n;
        return Some(Strip(lines[n]));
      }
      n := n + 1;
    }
    return None;
  }

  /** A line found by `FirstLineContaining` still contains a needle with non-whitespace
      edges once stripped. */
  lemma FoundLineKeepsNeedle(lines: seq<string>, needle: string)
    requires needle != [] && !IsSpace(needle[0]) && !IsSpace(needle[|needle| - 1])
    requires FirstLineContaining(lines, needle).Some?
    ensures Contains(FirstLineContaining(lines, needle).value, needle)
  {
    var i :| 0 <= i < |lines| && Contains(lines[i], needle) && FirstLineContaining(lines, needle).value == Strip(lines[i]);
    ContainsAfterStrip(lines[i], needle);
  }

  /** A found counter line still contains the label after stripping. */
  lemma IgnitionLineHasLabel(logContent: string)
    requires RecentFueledIgnitionLine(logContent).Some?
    ensures Contains(RecentFueledIgnitionLine(logContent).value, IgnitionCounterLabel)
  {
    assert Contains(logContent, InfotypeMarker);
    var lines := CounterSearchLines(logContent);
    assert RecentFueledIgnitionLine(logContent) == FirstLineContaining(lines, IgnitionCounterLabel);
    IgnitionLabelEdges();
    FoundLineKeepsNeedle(lines, IgnitionCounterLabel);
  }

  lemma IgnitionLabelEdges()
    ensures IgnitionCounterLabel != [] && !IsSpace(IgnitionCounterLabel[0])
    ensures !IsSpace(IgnitionCounterLabel[|IgnitionCounterLabel| - 1])
  {
    assert IgnitionCounterLabel[0] == 'I' && IgnitionCounterLabel[21] == 'r';
  }
}
