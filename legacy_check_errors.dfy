/** The older folder check of `check_errors_in_folder.py`: its
    `check_file_pairs_and_duplicates` groups stems by a key made with two plain
    `str.replace` calls instead of regular expressions. */
module LegacyCheckErrors {
  import opened Strings
  import FilePairs

  const ConfirmedToken := "_confirmed"
  const PendingToken := "_pending"

  /** `file_name.lower().replace("_confirmed", "").replace("_pending", "")`. */
  function LegacyPairKey(stem: string): string {
    ReplaceAll(ReplaceAll(Lower(stem), ConfirmedToken, ""), PendingToken, "")
  }

  /** `check_file_pairs_and_duplicates` of this version: the shared grouping under the
      replace-based key. */
  method CheckFilePairsAndDuplicates(stems: seq<string>)
    returns (filePairs: map<string, seq<string>>, duplicates: seq<string>, missingPairs: seq<string>)
    ensures filePairs == FilePairs.Pairs(stems, LegacyPairKey)
    ensures duplicates == FilePairs.Duplicates(stems)
    ensures missingPairs == FilePairs.MissingPairs(stems, LegacyPairKey)
  {
    var pairOrder;
    filePairs, pairOrder, duplicates, missingPairs := FilePairs.CheckFilePairsAndDuplicates(stems, LegacyPairKey);
  }

  lemma TokensShape()
    ensures |ConfirmedToken| == 10 && |PendingToken| == 8
    ensures ConfirmedToken[0] == '_' && PendingToken[0] == '_'
    ensures FirstCharUnique(ConfirmedToken) && FirstCharUnique(PendingToken)
  {
  }

  /** Removing every occurrence of one token straight after a clean prefix leaves the prefix. */
  lemma DropsFinalToken(a: string, token: string)
    requires token != [] && FirstCharUnique(token) && !Contains(a, token)
    ensures ReplaceAll(a + token, token, "") == a
  {
    ReplaceCons(a, token, "", "");
    assert a + token + "" == a + token;
    ShortNotContained("", token);
    ReplaceAbsent("", token, "");
  }

  lemma ShortNotContained(s: string, w: string)
    requires |s| < |w|
    ensures !Contains(s, w)
  {
  }

  /** A stem whose lower-cased text holds neither token is its own key, lower-cased. */
  lemma CleanStemKey(a: string)
    requires !Contains(Lower(a), ConfirmedToken) && !Contains(Lower(a), PendingToken)
    ensures LegacyPairKey(a) == Lower(a)
  {
    ReplaceAbsent(Lower(a), ConfirmedToken, "");
    ReplaceAbsent(Lower(a), PendingToken, "");
  }

  /** Stems that differ only in letter case and in a final "_confirmed" or "_pending"
      token (in any case) share a key: the lower-cased rest. */
  lemma StatusVariantsShareKey(a1: string, t1: string, a2: string, t2: string)
    requires Lower(a1) == Lower(a2)
    requires !Contains(Lower(a1), ConfirmedToken) && !Contains(Lower(a1), PendingToken)
    requires Lower(t1) == ConfirmedToken && Lower(t2) == PendingToken
    ensures LegacyPairKey(a1 + t1) == Lower(a1)
    ensures LegacyPairKey(a2 + t2) == Lower(a1)
  {
    var la := Lower(a1);
    TokensShape();
    LowerConcat(a1, t1);
    LowerConcat(a2, t2);
    DropsFinalToken(la, ConfirmedToken);
    ReplaceAbsent(la, PendingToken, "");
    ShortNotContained(PendingToken, ConfirmedToken);
    ContainsAcrossUnique(la, PendingToken, ConfirmedToken);
    ReplaceAbsent(la + PendingToken, ConfirmedToken, "");
    DropsFinalToken(la, PendingToken);
  }

  /** Pairing ignores case: "A_Confirmed" and "a_pending" share a key. */
  lemma CaseInsensitivePairing()
    ensures LegacyPairKey("A_Confirmed") == LegacyPairKey("a_pending") == "a"
  {
    var a := "A";
    assert Lower(a) == "a" == Lower("a");
    ShortNotContained("a", ConfirmedToken);
    ShortNotContained("a", PendingToken);
    assert Lower("_Confirmed") == ConfirmedToken;
    assert Lower("_pending") == PendingToken;
    assert "A_Confirmed" == a + "_Confirmed";
    assert "a_pending" == "a" + "_pending";
    StatusVariantsShareKey(a, "_Confirmed", "a", "_pending");
  }

  /** Unlike the regular expression, the replacements keep a bare "confirm". */
  lemma BareConfirmKept()
    ensures LegacyPairKey("x_confirm") == "x_confirm"
  {
    var s := "x_confirm";
    assert Lower(s) == s;
    ShortNotContained(s, ConfirmedToken);
    assert PendingToken[1] == 'p';
    MissingCharNoOccurrence(s, PendingToken, 1);
    CleanStemKey(s);
  }
}
