/** The folder check of `modules/check_errors_in_folder.py`: the regular-expression pair
    key that `check_file_pairs_and_duplicates` groups stems by, `format_detail`, and the
    report `check_errors_in_folder` assembles from the duplicates, the files missing
    their pair and the per-file error summary. */
module CheckErrorsInFolder {
  import opened Strings
  import opened EcuProcessing
  import FilePairs

  // ---------------------------------------------------------------------------
  // The pair key: re.sub(r'_?(pending|confirm)[a-z]*', '', name.lower()), then
  // re.sub(r'[_&]+$', '', ...)

  /** `s` opens with "pending" or "confirm" (spelled out character by character). */
  predicate StartsWithStatusWord(s: string) {
    |s| >= 7 &&
    ((s[0] == 'p' && s[1] == 'e' && s[2] == 'n' && s[3] == 'd' && s[4] == 'i' && s[5] == 'n' && s[6] == 'g') ||
     (s[0] == 'c' && s[1] == 'o' && s[2] == 'n' && s[3] == 'f' && s[4] == 'i' && s[5] == 'r' && s[6] == 'm'))
  }

  lemma StatusWordStart(s: string)
    ensures StartsWithStatusWord(s) <==> StartsWith(s, "pending") || StartsWith(s, "confirm")
  {
    if |s| >= 7 {
      if s[..7] == "pending" || s[..7] == "confirm" {
        assert s[0] == s[..7][0] && s[1] == s[..7][1] && s[2] == s[..7][2] && s[3] == s[..7][3];
        assert s[4] == s[..7][4] && s[5] == s[..7][5] && s[6] == s[..7][6];
      }
    }
  }

  predicate IsStatusWord(w: string) {
    w == "pending" || w == "confirm"
  }

  /** The length of the run of `[a-z]` characters that opens `s`. */
  function LetterRun(s: string): (n: nat)
    ensures n <= |s|
    ensures forall i :: 0 <= i < n ==> IsLowerLetter(s[i])
    ensures n == |s| || !IsLowerLetter(s[n])
    decreases |s|
  {
    if s != [] && IsLowerLetter(s[0]) then 1 + LetterRun(s[1..]) else 0
  }

  /** The length of the match of `_?(pending|confirm)[a-z]*` at the start of `s`, 0 when
      there is none. The optional `_` is tried first; without it the match must start
      with the word itself. */
  function MatchLength(s: string): (n: nat)
    ensures n <= |s|
    ensures n > 0 ==> n == |s| || !IsLowerLetter(s[n])
    ensures n == 0 <==> !StartsWithStatusWord(s) && !(s != [] && s[0] == '_' && StartsWithStatusWord(s[1..]))
  {
    if s != [] && s[0] == '_' && StartsWithStatusWord(s[1..]) then 8 + LetterRun(s[8..])
    else if StartsWithStatusWord(s) then 7 + LetterRun(s[7..])
    else 0
  }

  /** The first substitution: a left-to-right scan that drops every match and keeps every
      other character. */
  function RemoveStatusWords(s: string): (r: string)
    ensures |r| <= |s|
    ensures forall c :: c in r ==> c in s
    decreases |s|
  {
    if s == [] then []
    else
      var n := MatchLength(s);
      if n > 0 then RemoveStatusWords(s[n..]) else [s[0]] + RemoveStatusWords(s[1..])
  }

  /** Drops the run of `_` and `&` characters that ends `s`. */
  function DropTrailingRun(s: string): (r: string)
    ensures r <= s
    ensures forall i :: |r| <= i < |s| ==> s[i] == '_' || s[i] == '&'
    ensures r == [] || (r[|r| - 1] != '_' && r[|r| - 1] != '&')
    decreases |s|
  {
    if s != [] && (s[|s| - 1] == '_' || s[|s| - 1] == '&') then DropTrailingRun(s[..|s| - 1]) else s
  }

  /** The second substitution, `[_&]+$`: Python's `$` matches at the end of the text and
      also just before a line feed that ends it. */
  function TrimTrailingRun(s: string): string {
    if s != [] && s[|s| - 1] == '\n' then DropTrailingRun(s[..|s| - 1]) + "\n" else DropTrailingRun(s)
  }

  /** The key a stem is grouped by. */
  function PairKey(stem: string): string {
    TrimTrailingRun(RemoveStatusWords(Lower(stem)))
  }

  // ---------------------------------------------------------------------------
  // Key lemmas

  lemma StatusWordLetters(w: string)
    requires IsStatusWord(w)
    ensures |w| == 7 && forall i :: 0 <= i < |w| ==> IsLowerLetter(w[i])
  {
  }

  lemma StartsWithContains(s: string, w: string)
    ensures StartsWith(s, w) ==> Contains(s, w)
  {
    if StartsWith(s, w) {
      assert OccursAt(s, w, 0);
    }
  }

  lemma ContainsInSuffix(s: string, w: string, k: nat)
    requires k <= |s|
    ensures Contains(s[k..], w) ==> Contains(s, w)
  {
    if Contains(s[k..], w) {
      assert s[k..|s|] == s[k..];
      ContainsInfix(s, w, k, |s|);
    }
  }

  lemma ContainsInPrefix(s: string, w: string, k: nat)
    requires k <= |s|
    ensures Contains(s[..k], w) ==> Contains(s, w)
  {
    if Contains(s[..k], w) {
      assert s[0..k] == s[..k];
      ContainsInfix(s, w, 0, k);
    }
  }

  /** An appended character that cannot end `w` creates no occurrence of it. */
  lemma ContainsSnoc(a: string, c: char, w: string)
    requires w != [] && w[|w| - 1] != c
    ensures Contains(a + [c], w) ==> Contains(a, w)
  {
    if Contains(a + [c], w) {
      var i :| 0 <= i <= |a + [c]| - |w| && OccursAt(a + [c], w, i);
      assert (a + [c])[i + |w| - 1] == w[|w| - 1];
      assert (a + [c])[|a|] == c;
      assert (a + [c])[i..i + |w|] == a[i..i + |w|];
      assert OccursAt(a, w, i);
    }
  }

  /** A scan that starts at a character other than `[a-z]` keeps one there (or nothing). */
  lemma {:induction false} LeadingNonLetterKept(t: string)
    requires t == [] || !IsLowerLetter(t[0])
    ensures RemoveStatusWords(t) == [] || !IsLowerLetter(RemoveStatusWords(t)[0])
    decreases |t|
  {
    if t != [] {
      var n := MatchLength(t);
      if n > 0 {
        LeadingNonLetterKept(t[n..]);
      }
    }
  }

  lemma StartsWithCons(c: char, x: string, u: string)
    requires u != []
    ensures StartsWith([c] + x, u) <==> c == u[0] && StartsWith(x, u[1..])
  {
    if |u| <= |x| + 1 {
      assert ([c] + x)[..|u|] == [c] + x[..|u| - 1];
      if c == u[0] && StartsWith(x, u[1..]) {
        assert u == [u[0]] + u[1..];
      }
    }
  }

  lemma StartsWithHead(x: string, u: string)
    requires u != []
    ensures StartsWith(x, u) ==> x != [] && x[0] == u[0]
  {
    if StartsWith(x, u) {
      assert x[..|u|][0] == x[0];
    }
  }

  /** A match is dropped whole. */
  lemma SkippedMatch(t: string)
    requires MatchLength(t) > 0
    ensures RemoveStatusWords(t) == RemoveStatusWords(t[MatchLength(t)..])
  {
  }

  /** A position without a match is kept. */
  lemma KeptHead(t: string)
    requires t != [] && MatchLength(t) == 0
    ensures RemoveStatusWords(t) == [t[0]] + RemoveStatusWords(t[1..])
  {
  }

  /** Letters that open the scan's output opened its input. */
  lemma {:induction false} LetterPrefixKept(t: string, u: string)
    requires forall i :: 0 <= i < |u| ==> IsLowerLetter(u[i])
    ensures StartsWith(RemoveStatusWords(t), u) ==> StartsWith(t, u)
    decreases |t|
  {
    if u != [] && t != [] {
      var n := MatchLength(t);
      if n > 0 {
        SkippedMatch(t);
        LeadingNonLetterKept(t[n..]);
        StartsWithHead(RemoveStatusWords(t), u);
      } else {
        KeptHead(t);
        LetterPrefixKept(t[1..], u[1..]);
        StartsWithCons(t[0], RemoveStatusWords(t[1..]), u);
        assert t == [t[0]] + t[1..];
        StartsWithCons(t[0], t[1..], u);
      }
    }
  }

  lemma ContainsCons(c: char, x: string, w: string)
    ensures Contains([c] + x, w) ==> StartsWith([c] + x, w) || Contains(x, w)
  {
    if Contains([c] + x, w) {
      var i :| 0 <= i <= |[c] + x| - |w| && OccursAt([c] + x, w, i);
      if i == 0 {
        assert ([c] + x)[0..|w|] == ([c] + x)[..|w|];
      } else {
        assert ([c] + x)[i..i + |w|] == x[i - 1..i - 1 + |w|];
        assert OccursAt(x, w, i - 1);
      }
    }
  }

  /** After the first substitution neither status word occurs. */
  lemma {:induction false} RemovedHasNoStatusWord(s: string, w: string)
    requires IsStatusWord(w)
    ensures !Contains(RemoveStatusWords(s), w)
    decreases |s|
  {
    if s != [] {
      var n := MatchLength(s);
      if n > 0 {
        SkippedMatch(s);
        RemovedHasNoStatusWord(s[n..], w);
      } else {
        KeptHead(s);
        var tail := RemoveStatusWords(s[1..]);
        RemovedHasNoStatusWord(s[1..], w);
        ContainsCons(s[0], tail, w);
        StatusWordLetters(w);
        StartsWithCons(s[0], tail, w);
        LetterPrefixKept(s[1..], w[1..]);
        assert s == [s[0]] + s[1..];
        StartsWithCons(s[0], s[1..], w);
        StatusWordStart(s);
      }
    }
  }

  lemma {:induction false} NoStatusWordUnchanged(s: string)
    requires !Contains(s, "pending") && !Contains(s, "confirm")
    ensures RemoveStatusWords(s) == s
    decreases |s|
  {
    if s != [] {
      StatusWordStart(s);
      StatusWordStart(s[1..]);
      StartsWithContains(s, "pending");
      StartsWithContains(s, "confirm");
      StartsWithContains(s[1..], "pending");
      StartsWithContains(s[1..], "confirm");
      ContainsInSuffix(s, "pending", 1);
      ContainsInSuffix(s, "confirm", 1);
      assert MatchLength(s) == 0;
      KeptHead(s);
      NoStatusWordUnchanged(s[1..]);
      assert s == [s[0]] + s[1..];
    }
  }

  /** Trimming creates no occurrence of a word that does not end in a line feed. */
  lemma TrimKeepsAbsent(r: string, w: string)
    requires w != [] && w[|w| - 1] != '\n'
    ensures !Contains(r, w) ==> !Contains(TrimTrailingRun(r), w)
  {
    if r != [] && r[|r| - 1] == '\n' {
      var p := r[..|r| - 1];
      var d := DropTrailingRun(p);
      assert d == p[..|d|];
      ContainsInPrefix(r, w, |r| - 1);
      ContainsInPrefix(p, w, |d|);
      ContainsSnoc(d, '\n', w);
    } else {
      var d := DropTrailingRun(r);
      assert d == r[..|d|];
      ContainsInPrefix(r, w, |d|);
    }
  }

  lemma TrimmedEnd(r: string)
    ensures var k := TrimTrailingRun(r); k == [] || (k[|k| - 1] != '_' && k[|k| - 1] != '&')
  {
    if r != [] && r[|r| - 1] == '\n' {
      var d := DropTrailingRun(r[..|r| - 1]);
      assert (d + "\n")[|d|] == '\n';
    }
  }

  /** The key holds neither status word and does not end in `_` or `&`. */
  lemma PairKeyClean(stem: string)
    ensures !Contains(PairKey(stem), "pending") && !Contains(PairKey(stem), "confirm")
    ensures PairKey(stem) == [] || (PairKey(stem)[|PairKey(stem)| - 1] != '_' && PairKey(stem)[|PairKey(stem)| - 1] != '&')
  {
    var r := RemoveStatusWords(Lower(stem));
    RemovedHasNoStatusWord(Lower(stem), "pending");
    RemovedHasNoStatusWord(Lower(stem), "confirm");
    assert "pending"[6] == 'g' && "confirm"[6] == 'm';
    TrimKeepsAbsent(r, "pending");
    TrimKeepsAbsent(r, "confirm");
    TrimmedEnd(r);
  }

  /** Normalising a key again leaves it unchanged, for a stem without a line feed. */
  lemma PairKeyIdempotent(stem: string)
    requires '\n' !in stem
    ensures PairKey(PairKey(stem)) == PairKey(stem)
  {
    var l := Lower(stem);
    forall i | 0 <= i < |l|
      ensures l[i] != '\n'
    {
      assert l[i] == LowerChar(stem[i]);
    }
    LowerIsLower(stem);
    var r := RemoveStatusWords(l);
    assert '\n' !in r;
    forall i | 0 <= i < |r|
      ensures !('A' <= r[i] <= 'Z')
    {
      assert r[i] in r;
    }
    var k := DropTrailingRun(r);
    assert PairKey(stem) == k;
    assert k == r[..|k|];
    assert IsLower(k);
    LowerIsLower(k);
    PairKeyClean(stem);
    NoStatusWordUnchanged(k);
    assert '\n' !in k;
  }

  /** With a line feed the key is not always stable: `$` can match once more before it.
      For a clean lower-case `p`, the stem `p_\n_` has the key `p_\n`, whose key is `p\n`. */
  lemma NewlineKeyNotIdempotent(p: string)
    requires IsLower(p) && !Contains(p, "pending") && !Contains(p, "confirm")
    requires p != [] && p[|p| - 1] != '_' && p[|p| - 1] != '&'
    ensures PairKey(p + "_\n_") == p + "_\n"
    ensures PairKey(p + "_\n") == p + "\n"
  {
    var y, z := "_\n_", "_\n";
    assert IsLower(y) && IsLower(z) && y[0] == '_' && z[0] == '_';
    ShortHasNoStatusWord(y);
    ShortHasNoStatusWord(z);
    CleanConcatKey(p, y);
    CleanConcatKey(p, z);
    TrimBeforeNewline(p);
  }

  lemma ShortHasNoStatusWord(y: string)
    requires |y| < 7
    ensures !Contains(y, "pending") && !Contains(y, "confirm")
  {
  }

  /** Joining two clean lower-case texts at a non-letter: only the trimming acts. */
  lemma CleanConcatKey(p: string, y: string)
    requires IsLower(p) && !Contains(p, "pending") && !Contains(p, "confirm")
    requires IsLower(y) && !Contains(y, "pending") && !Contains(y, "confirm")
    requires y == [] || !IsLowerLetter(y[0])
    ensures PairKey(p + y) == TrimTrailingRun(p + y)
  {
    LowerConcat(p, y);
    LowerIsLower(p);
    LowerIsLower(y);
    RemoveConcat(p, y);
    NoStatusWordUnchanged(p);
    NoStatusWordUnchanged(y);
  }

  lemma TrimBeforeNewline(p: string)
    requires p != [] && p[|p| - 1] != '_' && p[|p| - 1] != '&'
    ensures TrimTrailingRun(p + "_\n_") == p + "_\n"
    ensures TrimTrailingRun(p + "_\n") == p + "\n"
  {
    var q := p + ['_'];
    var r := q + ['\n'];
    assert p + "_\n_" == r + ['_'];
    assert p + "_\n" == r;
    TrimSnoc(r, '_');
    DropSnoc(r, '_');
    DropSnoc(q, '\n');
    TrimSnoc(q, '\n');
    DropSnoc(p, '_');
    assert p == p[..|p| - 1] + [p[|p| - 1]];
    DropSnoc(p[..|p| - 1], p[|p| - 1]);
  }

  lemma DropSnoc(p: string, c: char)
    ensures DropTrailingRun(p + [c]) == if c == '_' || c == '&' then DropTrailingRun(p) else p + [c]
  {
    assert (p + [c])[..|p|] == p;
  }

  lemma TrimSnoc(p: string, c: char)
    ensures TrimTrailingRun(p + [c]) == if c == '\n' then DropTrailingRun(p) + "\n" else DropTrailingRun(p + [c])
  {
    assert (p + [c])[..|p|] == p;
  }

  function IsAsciiLetter(c: char): bool {
    'a' <= c <= 'z' || 'A' <= c <= 'Z'
  }

  /** A status token: `_`, a status word in any case, then letters only
      (`_Confirmed`, `_pending`, `_CONFIRM`). */
  predicate StatusToken(t: string) {
    |t| >= 8 && t[0] == '_' && StartsWithStatusWord(Lower(t[1..]))
    && forall i :: 8 <= i < |t| ==> IsAsciiLetter(t[i])
  }

  lemma StatusWordAcross(u: string, y: string)
    requires y == [] || !IsLowerLetter(y[0])
    ensures StartsWithStatusWord(u + y) <==> StartsWithStatusWord(u)
  {
    if |u| < 7 && y != [] {
      assert (u + y)[|u|] == y[0];
    }
  }

  lemma {:induction false} LetterRunAcross(u: string, y: string)
    requires y == [] || !IsLowerLetter(y[0])
    ensures LetterRun(u + y) == LetterRun(u)
    decreases |u|
  {
    if u == [] {
      assert u + y == y;
    } else {
      assert (u + y)[1..] == u[1..] + y;
      LetterRunAcross(u[1..], y);
    }
  }

  /** A match that starts inside `u` is the same whatever follows `u`, when what follows
      does not open with a letter. */
  lemma MatchLengthAcross(u: string, y: string)
    requires u != []
    requires y == [] || !IsLowerLetter(y[0])
    ensures MatchLength(u + y) == MatchLength(u)
  {
    StatusWordAcross(u, y);
    DropConcat(u, y, 1);
    StatusWordAcross(u[1..], y);
    if |u| >= 8 {
      DropConcat(u, y, 8);
      LetterRunAcross(u[8..], y);
    }
    if |u| >= 7 {
      DropConcat(u, y, 7);
      LetterRunAcross(u[7..], y);
    }
  }

  /** The scan splits at a point where no letter follows. */
  lemma {:induction false} RemoveConcat(x: string, y: string)
    requires y == [] || !IsLowerLetter(y[0])
    ensures RemoveStatusWords(x + y) == RemoveStatusWords(x) + RemoveStatusWords(y)
    decreases |x|
  {
    if x == [] {
      assert x + y == y;
    } else {
      MatchLengthAcross(x, y);
      var n := MatchLength(x);
      if n > 0 {
        SkippedMatch(x + y);
        SkippedMatch(x);
        DropConcat(x, y, n);
        RemoveConcat(x[n..], y);
      } else {
        KeptHead(x + y);
        KeptHead(x);
        DropConcat(x, y, 1);
        RemoveConcat(x[1..], y);
        assert (x + y)[0] == x[0];
        ConsAssoc(x[0], RemoveStatusWords(x[1..]), RemoveStatusWords(y));
      }
    }
  }

  /** Lower-cased ASCII letters are one run. */
  lemma LoweredLetters(t: string, k: nat)
    requires k <= |t|
    requires forall i :: k <= i < |t| ==> IsAsciiLetter(t[i])
    ensures LetterRun(Lower(t)[k..]) == |t| - k
  {
    var u := Lower(t)[k..];
    forall i | 0 <= i < |u|
      ensures IsLowerLetter(u[i])
    {
      assert u[i] == LowerChar(t[k + i]);
    }
  }

  /** A lower-cased status token is one match and disappears. */
  lemma TokenRemoved(t: string, y: string)
    requires StatusToken(t)
    requires y == [] || !IsLowerLetter(y[0])
    ensures RemoveStatusWords(Lower(t) + y) == RemoveStatusWords(y)
  {
    var lt := Lower(t);
    var s := lt + y;
    LowerSlice(t, 1, |t|);
    assert t[1..|t|] == t[1..];
    assert lt[1..|t|] == lt[1..];
    DropConcat(lt, y, 1);
    StatusWordAcross(lt[1..], y);
    assert s[0] == LowerChar(t[0]);
    DropConcat(lt, y, 8);
    LetterRunAcross(lt[8..], y);
    LoweredLetters(t, 8);
    assert MatchLength(s) == |t|;
    SkippedMatch(s);
    DropConcat(lt, y, |t|);
    assert lt[|t|..] == [];
  }

  /** Stems that differ only in letter case and in a status token share a key. */
  lemma StatusVariantsShareKey(a1: string, t1: string, b1: string, a2: string, t2: string, b2: string)
    requires Lower(a1) == Lower(a2) && Lower(b1) == Lower(b2)
    requires StatusToken(t1) && StatusToken(t2)
    requires b1 == [] || !IsAsciiLetter(b1[0])
    ensures PairKey(a1 + t1 + b1) == PairKey(a2 + t2 + b2)
  {
    var la := Lower(a1);
    var lb := Lower(b1);
    LowerConcat(a1 + t1, b1);
    LowerConcat(a1, t1);
    LowerConcat(a2 + t2, b2);
    LowerConcat(a2, t2);
    assert Lower(a1 + t1 + b1) == la + (Lower(t1) + lb);
    assert Lower(a2 + t2 + b2) == la + (Lower(t2) + lb);
    assert (Lower(t1) + lb)[0] == '_' && (Lower(t2) + lb)[0] == '_';
    RemoveConcat(la, Lower(t1) + lb);
    RemoveConcat(la, Lower(t2) + lb);
    TokenRemoved(t1, lb);
    TokenRemoved(t2, lb);
  }

  /** The regular expression also strips a bare "confirm". */
  lemma BareConfirmStripped()
    ensures PairKey("x_confirm") == "x"
  {
    var t := "_confirm";
    assert Lower(t)[1..] == "confirm";
    assert StatusToken(t);
    assert Lower("x_confirm") == "x" + (Lower(t) + "");
    RemoveConcat("x", Lower(t) + "");
    TokenRemoved(t, "");
    NoStatusWordUnchanged("x");
    NoStatusWordUnchanged("");
  }

  // ---------------------------------------------------------------------------
  // check_file_pairs_and_duplicates

  /** `check_file_pairs_and_duplicates` of this version: the shared grouping under the
      regular-expression key. */
  method CheckFilePairsAndDuplicates(stems: seq<string>)
    returns (filePairs: map<string, seq<string>>, pairOrder: seq<string>,
             duplicates: seq<string>, missingPairs: seq<string>)
    ensures filePairs == FilePairs.Pairs(stems, PairKey)
    ensures pairOrder == FilePairs.KeyOrder(stems, PairKey)
    ensures duplicates == FilePairs.Duplicates(stems)
    ensures missingPairs == FilePairs.MissingPairs(stems, PairKey)
  {
    filePairs, pairOrder, duplicates, missingPairs := FilePairs.CheckFilePairsAndDuplicates(stems, PairKey);
  }

  // ---------------------------------------------------------------------------
  // format_detail

  /** What `format_detail` is given: a `fail_details` tuple or the warning text. */
  datatype Detail = TupleDetail(items: seq<string>) | TextDetail(text: string)

  /** `format_detail`. */
  function FormatDetail(detail: Detail): string {
    match detail
    case TupleDetail(items) => Join(items, " - ")
    case TextDetail(text) => text
  }

  function HitDetail(h: Hit): Detail {
    TupleDetail([h.tag, h.line])
  }

  /** A section tag has no `-` and ends in a digit. */
  lemma SectionTagShape(index: nat)
    ensures '-' !in SectionTag(index)
    ensures IsDigit(SectionTag(index)[|SectionTag(index)| - 1])
  {
    var digits := NatToString(index);
    var tag := SectionTag(index);
    assert tag == "Mode " + digits;
    forall i | 0 <= i < |tag|
      ensures tag[i] != '-'
    {
      if i >= 5 {
        assert tag[i] == digits[i - 5];
      }
    }
    assert tag[|tag| - 1] == digits[|digits| - 1];
  }

  lemma JoinPair(a: string, b: string, sep: string)
    ensures Join([a, b], sep) == a + sep + b
  {
    assert [a, b][1..] == [b];
  }

  /** A formatted keyword hit splits back on " - " into its section tag and then the
      pieces of its line. */
  lemma FormattedHitSplits(index: nat, line: string)
    ensures Split(FormatDetail(HitDetail(Hit(SectionTag(index), line))), " - ") ==
      [SectionTag(index)] + Split(line, " - ")
  {
    var tag := SectionTag(index);
    var sep := " - ";
    SectionTagShape(index);
    assert sep[1] == '-';
    MissingCharNoOccurrence(tag, sep, 1);
    assert NoStraddle(tag, sep);
    SplitCons(tag, sep, line);
    JoinPair(tag, line, sep);
  }

  // ---------------------------------------------------------------------------
  // check_errors_in_folder: the error summary

  /** A listed log file: its name, its stem and its text. */
  datatype LogFile = LogFile(name: string, stem: string, content: string)

  /** What the summary records for one file. */
  datatype SummaryEntry = SummaryEntry(fileName: string, warning: string, failDetails: seq<Hit>)

  /** The warning `count_ecus_in_modes` returns for a file's text. */
  function FileWarning(content: string, reference: set<string>): string {
    if CountsAgree(EcuCountsAfter(ModeSections(content), reference)) then "" else MismatchWarning
  }

  predicate HasErrors(f: LogFile, keywords: seq<string>, ignoreKeywords: seq<string>, reference: set<string>) {
    FileWarning(f.content, reference) != "" || FailKeywords(f.content, keywords, ignoreKeywords) != []
  }

  predicate Listed(summary: seq<SummaryEntry>, name: string) {
    exists i :: 0 <= i < |summary| && summary[i].fileName == name
  }

  lemma ListedCons(x: SummaryEntry, rest: seq<SummaryEntry>)
    ensures forall n :: Listed([x] + rest, n) <==> x.fileName == n || Listed(rest, n)
  {
    forall n
      ensures Listed([x] + rest, n) <==> x.fileName == n || Listed(rest, n)
    {
      var r := [x] + rest;
      if Listed(r, n) && x.fileName != n {
        var i :| 0 <= i < |r| && r[i].fileName == n;
        assert rest[i - 1].fileName == n;
      }
      if Listed(rest, n) {
        var i :| 0 <= i < |rest| && rest[i].fileName == n;
        assert r[i + 1].fileName == n;
      }
      assert r[0] == x;
    }
  }

  /** No two entries of the summary have the same name: it is a dictionary. */
  predicate NamesDistinct(summary: seq<SummaryEntry>) {
    forall i, j :: 0 <= i < j < |summary| ==> summary[i].fileName != summary[j].fileName
  }

  lemma DistinctCons(x: SummaryEntry, rest: seq<SummaryEntry>)
    ensures NamesDistinct([x] + rest) <==> !Listed(rest, x.fileName) && NamesDistinct(rest)
  {
    var r := [x] + rest;
    if NamesDistinct(r) {
      forall i, j | 0 <= i < j < |rest|
        ensures rest[i].fileName != rest[j].fileName
      {
        assert r[i + 1] == rest[i] && r[j + 1] == rest[j];
      }
      forall i | 0 <= i < |rest|
        ensures rest[i].fileName != x.fileName
      {
        assert r[i + 1] == rest[i] && r[0] == x;
      }
    }
    if !Listed(rest, x.fileName) && NamesDistinct(rest) {
      forall i, j | 0 <= i < j < |r|
        ensures r[i].fileName != r[j].fileName
      {
        assert r[j] == rest[j - 1];
        if i > 0 {
          assert r[i] == rest[i - 1];
        }
      }
    }
  }

  /** `error_summary[name] = ...`: a known name keeps its place and takes the new value;
      a new name is added at the end. */
  function Upsert(summary: seq<SummaryEntry>, e: SummaryEntry): seq<SummaryEntry>
    decreases |summary|
  {
    if summary == [] then [e]
    else if summary[0].fileName == e.fileName then [e] + summary[1..]
    else [summary[0]] + Upsert(summary[1..], e)
  }

  /** After the update exactly the names listed before and the new one are listed. */
  lemma {:induction false} UpsertListed(summary: seq<SummaryEntry>, e: SummaryEntry)
    ensures forall n :: Listed(Upsert(summary, e), n) <==> Listed(summary, n) || n == e.fileName
    decreases |summary|
  {
    if summary == [] {
      ListedCons(e, []);
    } else {
      assert summary == [summary[0]] + summary[1..];
      ListedCons(summary[0], summary[1..]);
      if summary[0].fileName == e.fileName {
        ListedCons(e, summary[1..]);
      } else {
        UpsertListed(summary[1..], e);
        ListedCons(summary[0], Upsert(summary[1..], e));
      }
    }
  }

  /** A name not yet listed is added at the end, as a new dictionary key is. */
  lemma {:induction false} UpsertAppends(summary: seq<SummaryEntry>, e: SummaryEntry)
    ensures !Listed(summary, e.fileName) ==> Upsert(summary, e) == summary + [e]
    decreases |summary|
  {
    if summary != [] && summary[0].fileName != e.fileName {
      assert summary == [summary[0]] + summary[1..];
      ListedCons(summary[0], summary[1..]);
      UpsertAppends(summary[1..], e);
    }
  }

  /** A listed name keeps its place: the length is unchanged and every entry is either
      the old one or the new value under the same name. */
  lemma {:induction false} UpsertReplaces(summary: seq<SummaryEntry>, e: SummaryEntry)
    ensures Listed(summary, e.fileName) ==>
      (|Upsert(summary, e)| == |summary| &&
       forall i :: 0 <= i < |summary| ==>
         Upsert(summary, e)[i] == summary[i] || (Upsert(summary, e)[i] == e && summary[i].fileName == e.fileName))
    decreases |summary|
  {
    if summary != [] && summary[0].fileName != e.fileName {
      assert summary == [summary[0]] + summary[1..];
      ListedCons(summary[0], summary[1..]);
      UpsertReplaces(summary[1..], e);
      var r := Upsert(summary, e);
      var rest := Upsert(summary[1..], e);
      assert r == [summary[0]] + rest;
      if Listed(summary, e.fileName) {
        forall i | 1 <= i < |summary|
          ensures r[i] == summary[i] || (r[i] == e && summary[i].fileName == e.fileName)
        {
          assert r[i] == rest[i - 1] && summary[i] == summary[1..][i - 1];
        }
      }
    }
  }

  /** The update keeps the names distinct. */
  lemma {:induction false} UpsertDistinct(summary: seq<SummaryEntry>, e: SummaryEntry)
    ensures NamesDistinct(summary) ==> NamesDistinct(Upsert(summary, e))
    decreases |summary|
  {
    if summary == [] {
      DistinctCons(e, []);
    } else {
      assert summary == [summary[0]] + summary[1..];
      ListedCons(summary[0], summary[1..]);
      DistinctCons(summary[0], summary[1..]);
      if summary[0].fileName == e.fileName {
        DistinctCons(e, summary[1..]);
      } else {
        var rest := Upsert(summary[1..], e);
        UpsertDistinct(summary[1..], e);
        UpsertListed(summary[1..], e);
        ListedCons(summary[0], rest);
        DistinctCons(summary[0], rest);
      }
    }
  }

  /** The `error_summary` dictionary after the loop over the files. */
  function ErrorSummary(files: seq<LogFile>, keywords: seq<string>, ignoreKeywords: seq<string>,
                        reference: set<string>): seq<SummaryEntry>
    decreases |files|
  {
    if files == [] then []
    else
      var summary := ErrorSummary(files[..|files| - 1], keywords, ignoreKeywords, reference);
      var f := files[|files| - 1];
      if HasErrors(f, keywords, ignoreKeywords, reference) then Upsert(summary, Entry(f, keywords, ignoreKeywords, reference))
      else summary
  }

  /** The record `error_summary` keeps for a file. */
  function Entry(f: LogFile, keywords: seq<string>, ignoreKeywords: seq<string>, reference: set<string>): SummaryEntry {
    SummaryEntry(f.name, FileWarning(f.content, reference), FailKeywords(f.content, keywords, ignoreKeywords))
  }

  lemma ErrorSummaryStep(files: seq<LogFile>, keywords: seq<string>, ignoreKeywords: seq<string>,
                         reference: set<string>, name: string)
    requires files != []
    ensures Listed(ErrorSummary(files, keywords, ignoreKeywords, reference), name) <==>
      Listed(ErrorSummary(files[..|files| - 1], keywords, ignoreKeywords, reference), name) ||
      (files[|files| - 1].name == name && HasErrors(files[|files| - 1], keywords, ignoreKeywords, reference))
  {
    UpsertListed(ErrorSummary(files[..|files| - 1], keywords, ignoreKeywords, reference),
                 Entry(files[|files| - 1], keywords, ignoreKeywords, reference));
  }

  /** The summary is a dictionary keyed by file name. */
  lemma {:induction false} ErrorSummaryDistinct(files: seq<LogFile>, keywords: seq<string>, ignoreKeywords: seq<string>,
                                                reference: set<string>)
    ensures NamesDistinct(ErrorSummary(files, keywords, ignoreKeywords, reference))
    decreases |files|
  {
    if files != [] {
      var init := files[..|files| - 1];
      ErrorSummaryDistinct(init, keywords, ignoreKeywords, reference);
      UpsertDistinct(ErrorSummary(init, keywords, ignoreKeywords, reference),
                     Entry(files[|files| - 1], keywords, ignoreKeywords, reference));
    }
  }

  /** Some element satisfies `p` exactly when one before the last does or the last does. */
  lemma SomeSnoc<T>(xs: seq<T>, init: seq<T>, p: T -> bool)
    requires xs != [] && init == xs[..|xs| - 1]
    ensures (exists i :: 0 <= i < |xs| && p(xs[i])) <==>
      (exists i :: 0 <= i < |init| && p(init[i])) || p(xs[|xs| - 1])
  {
    if exists i :: 0 <= i < |init| && p(init[i]) {
      var i :| 0 <= i < |init| && p(init[i]);
      assert xs[i] == init[i];
    }
    if exists i :: 0 <= i < |xs| && p(xs[i]) {
      var i :| 0 <= i < |xs| && p(xs[i]);
      if i < |init| {
        assert init[i] == xs[i];
      }
    }
  }

  /** A file name enters the summary exactly when some file of that name has a warning or
      at least one keyword hit. */
  lemma {:induction false} ErrorSummaryIff(files: seq<LogFile>, keywords: seq<string>, ignoreKeywords: seq<string>,
                                           reference: set<string>, name: string)
    ensures Listed(ErrorSummary(files, keywords, ignoreKeywords, reference), name) <==>
      exists i :: 0 <= i < |files| && files[i].name == name && HasErrors(files[i], keywords, ignoreKeywords, reference)
    decreases |files|
  {
    if files != [] {
      var init := files[..|files| - 1];
      ErrorSummaryIff(init, keywords, ignoreKeywords, reference, name);
      ErrorSummaryStep(files, keywords, ignoreKeywords, reference, name);
      SomeSnoc(files, init, (f: LogFile) => f.name == name && HasErrors(f, keywords, ignoreKeywords, reference));
    }
  }

  // ---------------------------------------------------------------------------
  // check_errors_in_folder: the report

  const DuplicatesHeading := "<h2>Duplicate Files Found:</h2><ul>"
  const MissingHeading := "<h2 class='error'>Files with Missing Pairs:</h2><ul>"
  const SummaryHeading := "<h2>Summary of Errors:</h2>"
  const ListClose := "</ul>"
  const NoErrorsText := "<p>No errors found across all files." + "</p>"

  /** One `<li>` item per entry, in order. */
  function Items(xs: seq<string>): string
    decreases |xs|
  {
    if xs == [] then "" else Items(xs[..|xs| - 1]) + "<li>" + xs[|xs| - 1] + "</li>"
  }

  /** A heading and its list, or nothing for an empty list. */
  function ListSection(heading: string, xs: seq<string>): string {
    if xs == [] then "" else heading + Items(xs) + ListClose
  }

  /** One `<li>` item per keyword hit, each formatted by `format_detail`. */
  function HitItems(hits: seq<Hit>): string
    decreases |hits|
  {
    if hits == [] then "" else HitItems(hits[..|hits| - 1]) + "<li>" + FormatDetail(HitDetail(hits[|hits| - 1])) + "</li>"
  }

  function WarningItem(warning: string): string {
    if warning != "" then "<li class='warning'>" + FormatDetail(TextDetail(warning)) + "</li>" else ""
  }

  /** A file's block of the summary. */
  function EntryBlock(e: SummaryEntry): string {
    "<h3>" + e.fileName + ":</h3><ul>" + WarningItem(e.warning) + HitItems(e.failDetails) + ListClose
  }

  function EntryBlocks(summary: seq<SummaryEntry>): string
    decreases |summary|
  {
    if summary == [] then "" else EntryBlocks(summary[..|summary| - 1]) + EntryBlock(summary[|summary| - 1])
  }

  function SummarySection(summary: seq<SummaryEntry>): string {
    if summary == [] then NoErrorsText else SummaryHeading + EntryBlocks(summary)
  }

  function Stems(files: seq<LogFile>): (r: seq<string>)
    ensures |r| == |files| && forall i :: 0 <= i < |files| ==> r[i] == files[i].stem
  {
    seq(|files|, i requires 0 <= i < |files| => files[i].stem)
  }

  /** What `check_errors_in_folder` returns after its style sheet. */
  function FolderReport(files: seq<LogFile>, keywords: seq<string>, ignoreKeywords: seq<string>,
                        reference: set<string>): string {
    var stems := Stems(files);
    ListSection(DuplicatesHeading, FilePairs.Duplicates(stems))
    + ListSection(MissingHeading, FilePairs.MissingPairs(stems, PairKey))
    + SummarySection(ErrorSummary(files, keywords, ignoreKeywords, reference))
  }

  lemma EndsWithAppend(a: string, b: string, suffix: string)
    ensures EndsWith(b, suffix) ==> EndsWith(a + b, suffix)
  {
    if EndsWith(b, suffix) {
      assert (a + b)[|a + b| - |suffix|..] == b[|b| - |suffix|..];
    }
  }

  /** A text that closes a list does not end with the notice. */
  lemma ClosedListIsNotNotice(t: string)
    ensures EndsWith(t, ListClose) ==> !EndsWith(t, NoErrorsText)
  {
    assert ListClose[3] == 'l';
    assert NoErrorsText[|NoErrorsText| - 2] == 'p';
    if |ListClose| <= |t| && |NoErrorsText| <= |t| {
      assert t[|t| - |ListClose|..][3] == t[|t| - 2];
      assert t[|t| - |NoErrorsText|..][|NoErrorsText| - 2] == t[|t| - 2];
    }
  }

  lemma SummaryClosesList(summary: seq<SummaryEntry>)
    requires summary != []
    ensures EndsWith(SummarySection(summary), ListClose)
  {
    var e := summary[|summary| - 1];
    assert EndsWith(ListClose, ListClose);
    EndsWithAppend("<h3>" + e.fileName + ":</h3><ul>" + WarningItem(e.warning) + HitItems(e.failDetails), ListClose, ListClose);
    EndsWithAppend(EntryBlocks(summary[..|summary| - 1]), EntryBlock(e), ListClose);
    EndsWithAppend(SummaryHeading, EntryBlocks(summary), ListClose);
  }

  /** The report ends with "No errors found across all files." exactly when no file
      entered the summary. */
  lemma NoErrorsNoticeIff(files: seq<LogFile>, keywords: seq<string>, ignoreKeywords: seq<string>,
                          reference: set<string>)
    ensures EndsWith(FolderReport(files, keywords, ignoreKeywords, reference), NoErrorsText) <==>
      ErrorSummary(files, keywords, ignoreKeywords, reference) == []
  {
    var stems := Stems(files);
    var head := ListSection(DuplicatesHeading, FilePairs.Duplicates(stems))
      + ListSection(MissingHeading, FilePairs.MissingPairs(stems, PairKey));
    var summary := ErrorSummary(files, keywords, ignoreKeywords, reference);
    var report := FolderReport(files, keywords, ignoreKeywords, reference);
    assert report == head + SummarySection(summary);
    if summary == [] {
      assert EndsWith(NoErrorsText, NoErrorsText);
      EndsWithAppend(head, NoErrorsText, NoErrorsText);
    } else {
      SummaryClosesList(summary);
      EndsWithAppend(head, SummarySection(summary), ListClose);
      ClosedListIsNotNotice(report);
    }
  }

  // ---------------------------------------------------------------------------
  // check_errors_in_folder: the loops

  /** A duplicates or missing-pairs section. */
  method RenderListSection(heading: string, xs: seq<string>) returns (html: string)
    ensures html == ListSection(heading, xs)
  {
    html := "";
    if xs != [] {
      var items := "";
      var j := 0;
      while j < |xs|
        invariant 0 <= j <= |xs|
        invariant items == Items(xs[..j])
      {
        FilePairs.PrefixStep(xs, j);
        items := items + "<li>" + xs[j] + "</li>";
        j := j + 1;
      }
      assert xs[..|xs|] == xs;
      html := heading + items + ListClose;
    }
  }

  /** One pass of the loop over the files: the file's text goes through
      `count_ecus_in_modes` and `find_fail_keywords`, and a file with a warning or a hit
      is recorded under its name. */
  method RecordFile(summary: seq<SummaryEntry>, f: LogFile, keywords: seq<string>, ignoreKeywords: seq<string>,
                    reference: set<string>)
    returns (updated: seq<SummaryEntry>)
    ensures updated == if HasErrors(f, keywords, ignoreKeywords, reference)
      then Upsert(summary, Entry(f, keywords, ignoreKeywords, reference)) else summary
  {
    var ecuCounts, detailedFaults, warning := CountEcusInModes(f.content, reference);
    var failDetails := FindFailKeywords(f.content, keywords, ignoreKeywords);
    updated := summary;
    if warning != "" || failDetails != [] {
      updated := Upsert(summary, SummaryEntry(f.name, warning, failDetails));
    }
  }

  lemma ErrorSummarySnoc(files: seq<LogFile>, j: nat, keywords: seq<string>, ignoreKeywords: seq<string>,
                         reference: set<string>)
    requires j < |files|
    ensures ErrorSummary(files[..j + 1], keywords, ignoreKeywords, reference) ==
      var summary := ErrorSummary(files[..j], keywords, ignoreKeywords, reference);
      if HasErrors(files[j], keywords, ignoreKeywords, reference)
      then Upsert(summary, Entry(files[j], keywords, ignoreKeywords, reference)) else summary
  {
    assert files[..j + 1][..j] == files[..j];
  }

  /** The loop over the files. */
  method CollectErrorSummary(files: seq<LogFile>, keywords: seq<string>, ignoreKeywords: seq<string>,
                             reference: set<string>)
    returns (summary: seq<SummaryEntry>)
    ensures summary == ErrorSummary(files, keywords, ignoreKeywords, reference)
  {
    summary := [];
    var j := 0;
    while j < |files|
      invariant 0 <= j <= |files|
      invariant summary == ErrorSummary(files[..j], keywords, ignoreKeywords, reference)
    {
      ErrorSummarySnoc(files, j, keywords, ignoreKeywords, reference);
      summary := RecordFile(summary, files[j], keywords, ignoreKeywords, reference);
      j := j + 1;
    }
    assert files[..|files|] == files;
  }

  /** One item per keyword hit, each formatted by `format_detail`. */
  method RenderHitItems(hits: seq<Hit>) returns (items: string)
    ensures items == HitItems(hits)
  {
    items := "";
    var j := 0;
    while j < |hits|
      invariant 0 <= j <= |hits|
      invariant items == HitItems(hits[..j])
    {
      assert hits[..j + 1][..j] == hits[..j] && hits[..j + 1][j] == hits[j];
      var formattedDetail := FormatDetail(HitDetail(hits[j]));
      items := items + "<li>" + formattedDetail + "</li>";
      j := j + 1;
    }
    assert hits[..|hits|] == hits;
  }

  /** One file's block: its warning, then one item per keyword hit. */
  method RenderEntry(e: SummaryEntry) returns (html: string)
    ensures html == EntryBlock(e)
  {
    html := "<h3>" + e.fileName + ":</h3><ul>";
    if e.warning != "" {
      var formattedWarning := FormatDetail(TextDetail(e.warning));
      html := html + ("<li class='warning'>" + formattedWarning + "</li>");
    }
    var items := RenderHitItems(e.failDetails);
    html := html + items + ListClose;
  }

  lemma EntryBlocksSnoc(summary: seq<SummaryEntry>, j: nat)
    requires j < |summary|
    ensures EntryBlocks(summary[..j + 1]) == EntryBlocks(summary[..j]) + EntryBlock(summary[j])
  {
    assert summary[..j + 1][..j] == summary[..j];
  }

  /** The summary of errors, or the notice that there are none. */
  method RenderSummary(summary: seq<SummaryEntry>) returns (html: string)
    ensures html == SummarySection(summary)
  {
    if summary == [] {
      html := NoErrorsText;
      return;
    }
    var blocks := "";
    var j := 0;
    while j < |summary|
      invariant 0 <= j <= |summary|
      invariant blocks == EntryBlocks(summary[..j])
    {
      EntryBlocksSnoc(summary, j);
      var block := RenderEntry(summary[j]);
      blocks := blocks + block;
      j := j + 1;
    }
    assert summary[..|summary|] == summary;
    html := SummaryHeading + blocks;
  }

  /** `check_errors_in_folder` over a listing whose file texts are given, with the keyword
      lists and the reference already loaded. The returned text is the report after the
      style sheet that opens it. */
  method CheckErrorsInFolder(files: seq<LogFile>, keywords: seq<string>, ignoreKeywords: seq<string>,
                             reference: set<string>)
    returns (output: string)
    ensures output == FolderReport(files, keywords, ignoreKeywords, reference)
  {
    var stems := Stems(files);
    var filePairs, pairOrder, duplicates, missingPairs := CheckFilePairsAndDuplicates(stems);
    var duplicatesHtml := RenderListSection(DuplicatesHeading, duplicates);
    var missingHtml := RenderListSection(MissingHeading, missingPairs);
    var summary := CollectErrorSummary(files, keywords, ignoreKeywords, reference);
    var summaryHtml := RenderSummary(summary);
    output := duplicatesHtml + missingHtml + summaryHtml;
  }
}
