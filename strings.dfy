/**
  The Python `str` operations the log engine relies on, over ASCII:
  `isspace`, `lower`, `capitalize`, `in`, `find`, `split(sep)`, `split()`,
  `split(" ", 1)`, `strip`, `join` and `str(n)` for a natural number.
 */
module Strings {

  /** Python's `str.isspace` on one character: ASCII whitespace and the separators 0x1C-0x1F. */
  predicate IsSpace(c: char) {
    c == ' ' || c == '\t' || c == '\n' || c == '\r' || c == '\U{0B}' || c == '\U{0C}'
    || ('\U{1C}' <= c <= '\U{1F}')
  }

  predicate IsDigit(c: char) {
    '0' <= c <= '9'
  }

  predicate IsLowerLetter(c: char) {
    'a' <= c <= 'z'
  }

  function LowerChar(c: char): char {
    if 'A' <= c <= 'Z' then (c as int - 'A' as int + 'a' as int) as char else c
  }

  function UpperChar(c: char): char {
    if 'a' <= c <= 'z' then (c as int - 'a' as int + 'A' as int) as char else c
  }

  /** Python's `s.lower()`, restricted to ASCII letters. */
  function Lower(s: string): (r: string)
    ensures |r| == |s|
    ensures forall i :: 0 <= i < |s| ==> r[i] == LowerChar(s[i])
  {
    seq(|s|, i requires 0 <= i < |s| => LowerChar(s[i]))
  }

  /** No upper-case ASCII letter in `s`. */
  predicate IsLower(s: string) {
    forall i :: 0 <= i < |s| ==> !('A' <= s[i] <= 'Z')
  }

  lemma LowerIsLower(s: string)
    ensures IsLower(Lower(s))
    ensures IsLower(s) ==> Lower(s) == s
  {
  }

  lemma LowerConcat(a: string, b: string)
    ensures Lower(a + b) == Lower(a) + Lower(b)
  {
  }

  /** Dropping a prefix no longer than `a` from `a + b`. */
  lemma DropConcat(a: string, b: string, n: nat)
    requires n <= |a|
    ensures (a + b)[n..] == a[n..] + b
  {
  }

  lemma ConsAssoc(c: char, a: string, b: string)
    ensures [c] + (a + b) == ([c] + a) + b
  {
  }

  /** Python's `s.capitalize()`: first character upper case, the rest lower case. */
  function Capitalize(s: string): string {
    if s == [] then [] else [UpperChar(s[0])] + Lower(s[1..])
  }

  predicate StartsWith(s: string, p: string) {
    |p| <= |s| && s[..|p|] == p
  }

  predicate EndsWith(s: string, p: string) {
    |p| <= |s| && s[|s| - |p|..] == p
  }

  /** `sub` occurs in `s` starting at position `i`. */
  predicate OccursAt(s: string, sub: string, i: int) {
    0 <= i && i + |sub| <= |s| && s[i..i + |sub|] == sub
  }

  /** Python's `sub in s`. */
  predicate Contains(s: string, sub: string) {
    exists i | 0 <= i <= |s| - |sub| :: OccursAt(s, sub, i)
  }

  function FindFrom(s: string, sub: string, k: nat): (r: int)
    requires k <= |s|
    ensures r == -1 || (k <= r && OccursAt(s, sub, r))
    ensures forall i :: k <= i && (r == -1 || i < r) ==> !OccursAt(s, sub, i)
    decreases |s| - k
  {
    if k + |sub| > |s| then -1
    else if s[k..k + |sub|] == sub then k
    else FindFrom(s, sub, k + 1)
  }

  /** Python's `s.find(sub)`: the first position where `sub` occurs, or -1. */
  function Find(s: string, sub: string): (r: int)
    ensures r == -1 <==> !Contains(s, sub)
    ensures r != -1 ==> OccursAt(s, sub, r) && forall i :: 0 <= i < r ==> !OccursAt(s, sub, i)
  {
    FindFrom(s, sub, 0)
  }

  lemma ContainsChar(s: string, c: char)
    ensures Contains(s, [c]) <==> c in s
  {
    if c in s {
      var i :| 0 <= i < |s| && s[i] == c;
      assert s[i..i + 1] == [c];
      assert OccursAt(s, [c], i);
    } else {
      forall i | 0 <= i < |s| ensures !OccursAt(s, [c], i) {
        assert s[i..i + 1][0] == s[i];
      }
    }
  }

  lemma ContainsFirstChar(s: string, sub: string)
    requires sub != [] && sub[0] !in s
    ensures !Contains(s, sub)
  {
    forall i | 0 <= i <= |s| - |sub| ensures !OccursAt(s, sub, i) {
      assert s[i..i + |sub|][0] == s[i] != sub[0];
    }
  }

  lemma ContainsInfix(s: string, sub: string, lo: nat, hi: nat)
    requires lo <= hi <= |s| && Contains(s[lo..hi], sub)
    ensures Contains(s, sub)
  {
    var t := s[lo..hi];
    var i :| 0 <= i <= |t| - |sub| && OccursAt(t, sub, i);
    forall j | 0 <= j < |sub| ensures s[lo + i..lo + i + |sub|][j] == sub[j] {
      assert t[i..i + |sub|][j] == t[i + j] == s[lo + i + j];
    }
    assert s[lo + i..lo + i + |sub|] == sub;
    assert OccursAt(s, sub, lo + i);
  }

  /** An occurrence that starts before `k` and fits before `k` is an occurrence in `s[..k]`. */
  lemma NoOccurrenceInPrefix(s: string, sub: string, k: nat)
    requires sub != [] && k <= |s|
    requires forall i :: 0 <= i < k ==> !OccursAt(s, sub, i)
    ensures !Contains(s[..k], sub)
  {
    forall i | 0 <= i <= k - |sub| ensures !OccursAt(s[..k], sub, i) {
      if 0 <= i && i + |sub| <= k {
        assert s[..k][i..i + |sub|] == s[i..i + |sub|];
        assert i < k && !OccursAt(s, sub, i);
      }
    }
  }

  /** A text lacking one character of `w` does not contain `w`. */
  lemma MissingCharNoOccurrence(s: string, w: string, j: nat)
    requires j < |w| && w[j] !in s
    ensures !Contains(s, w)
  {
    forall i | 0 <= i <= |s| - |w|
      ensures !OccursAt(s, w, i)
    {
      assert s[i..i + |w|][j] == s[i + j];
    }
  }

  /** An occurrence of `w` in `a + b` lies in `a` or in `b` when `b` opens with the first
      character of `w` and that character does not recur in `w`. */
  lemma ContainsAcrossUnique(a: string, b: string, w: string)
    requires w != [] && b != [] && b[0] == w[0] && FirstCharUnique(w)
    requires !Contains(a, w) && !Contains(b, w)
    ensures !Contains(a + b, w)
  {
    var s := a + b;
    forall i | 0 <= i <= |s| - |w|
      ensures !OccursAt(s, w, i)
    {
      if i + |w| <= |a| {
        assert s[i..i + |w|] == a[i..i + |w|];
        assert !OccursAt(a, w, i);
      } else if i >= |a| {
        assert s[i..i + |w|] == b[i - |a|..i - |a| + |w|];
        assert !OccursAt(b, w, i - |a|);
      } else {
        assert s[i..i + |w|][|a| - i] == b[0];
      }
    }
  }

  /** Python's `s.split(sep)` for a non-empty separator. */
  function Split(s: string, sep: string): (r: seq<string>)
    requires sep != []
    ensures |r| >= 1
    ensures forall i :: 0 <= i < |r| ==> !Contains(r[i], sep)
    decreases |s|
  {
    var k := Find(s, sep);
    if k == -1 then [s]
    else
      NoOccurrenceInPrefix(s, sep, k);
      [s[..k]] + Split(s[k + |sep|..], sep)
  }

  /** Python's `sep.join(parts)`. */
  function Join(parts: seq<string>, sep: string): string {
    if |parts| == 0 then ""
    else if |parts| == 1 then parts[0]
    else parts[0] + sep + Join(parts[1..], sep)
  }

  /** Joining the pieces of a split with the same separator gives back the text. */
  lemma {:induction false} JoinSplit(s: string, sep: string)
    requires sep != []
    ensures Join(Split(s, sep), sep) == s
    decreases |s|
  {
    var k := Find(s, sep);
    if k != -1 {
      var rest := s[k + |sep|..];
      assert s[k..k + |sep|] == sep;
      assert s == s[..k] + sep + rest by {
        assert s == s[..k] + s[k..k + |sep|] + s[k + |sep|..];
      }
      JoinSplit(rest, sep);
      var tail := Split(rest, sep);
      assert Split(s, sep) == [s[..k]] + tail;
      assert Join([s[..k]] + tail, sep) == s[..k] + sep + Join(tail, sep) by {
        assert ([s[..k]] + tail)[1..] == tail;
      }
    }
  }

  /** The first character of `sep` does not occur again in it, so `sep` has no border. */
  predicate FirstCharUnique(sep: string) {
    forall j | 0 < j < |sep| :: sep[j] != sep[0]
  }

  /** No occurrence of `sep` can begin inside `a` and end inside a `sep` that follows `a`. */
  predicate NoStraddle(a: string, sep: string) {
    FirstCharUnique(sep) || a == [] || a[|a| - 1] !in sep
  }

  lemma FindAfterPiece(a: string, sep: string, rest: string)
    requires sep != [] && !Contains(a, sep) && NoStraddle(a, sep)
    ensures Find(a + sep + rest, sep) == |a|
  {
    var s := a + sep + rest;
    assert s[|a|..|a| + |sep|] == sep;
    assert OccursAt(s, sep, |a|);
    forall i | 0 <= i < |a| ensures !OccursAt(s, sep, i) {
      if i + |sep| <= |a| {
        assert s[i..i + |sep|] == a[i..i + |sep|];
        assert !OccursAt(a, sep, i);
      } else {
        var j := |a| - i;
        assert 0 < j < |sep| && sep[j - 1] in sep;
        if i + |sep| <= |s| {
          assert s[i..i + |sep|][j] == s[|a|] == sep[0];
          assert s[i..i + |sep|][j - 1] == s[|a| - 1] == a[|a| - 1];
        }
      }
    }
  }

  lemma SplitSingle(a: string, sep: string)
    requires sep != [] && !Contains(a, sep)
    ensures Split(a, sep) == [a]
  {
  }

  /** Splitting a text that starts with a separator-free piece and a separator. */
  lemma SplitCons(a: string, sep: string, rest: string)
    requires sep != [] && !Contains(a, sep) && NoStraddle(a, sep)
    ensures Split(a + sep + rest, sep) == [a] + Split(rest, sep)
  {
    FindAfterPiece(a, sep, rest);
    var s := a + sep + rest;
    assert s[..|a|] == a;
    assert s[|a| + |sep|..] == rest;
  }

  /** Python's `s.replace(target, replacement)` for a non-empty `target`: the pieces between the
      occurrences met left to right, rejoined with `replacement`. */
  function ReplaceAll(s: string, target: string, replacement: string): string
    requires target != []
  {
    Join(Split(s, target), replacement)
  }

  /** Without an occurrence nothing is replaced. */
  lemma ReplaceAbsent(s: string, target: string, replacement: string)
    requires target != [] && !Contains(s, target)
    ensures ReplaceAll(s, target, replacement) == s
  {
    SplitSingle(s, target);
  }

  /** A separator-free piece, one occurrence, then the rest. */
  lemma ReplaceCons(a: string, target: string, rest: string, replacement: string)
    requires target != [] && !Contains(a, target) && NoStraddle(a, target)
    ensures ReplaceAll(a + target + rest, target, replacement) == a + replacement + ReplaceAll(rest, target, replacement)
  {
    SplitCons(a, target, rest);
    var tail := Split(rest, target);
    assert ([a] + tail)[1..] == tail;
  }

  /** Each part followed by `term`, all concatenated: a list written one entry per line. */
  function Terminated(parts: seq<string>, term: string): string {
    if parts == [] then "" else parts[0] + term + Terminated(parts[1..], term)
  }

  /** Terminating one more part appends it and the terminator at the end. */
  lemma {:induction false} TerminatedSnoc(parts: seq<string>, p: string, term: string)
    ensures Terminated(parts + [p], term) == Terminated(parts, term) + p + term
    decreases |parts|
  {
    if parts != [] {
      assert (parts + [p])[1..] == parts[1..] + [p];
      TerminatedSnoc(parts[1..], p, term);
    }
  }

  /** Splitting a terminated list gives back its parts and one empty trailing piece. */
  lemma {:induction false} SplitTerminated(parts: seq<string>, sep: string)
    requires sep != []
    requires forall i :: 0 <= i < |parts| ==> !Contains(parts[i], sep) && NoStraddle(parts[i], sep)
    ensures Split(Terminated(parts, sep), sep) == parts + [""]
  {
    if parts == [] {
      ContainsFirstChar("", sep);
      SplitSingle("", sep);
    } else {
      SplitTerminated(parts[1..], sep);
      SplitCons(parts[0], sep, Terminated(parts[1..], sep));
      assert parts == [parts[0]] + parts[1..];
    }
  }

  /** Length of the longest prefix of `s` without whitespace. */
  function WordLength(s: string): (n: nat)
    ensures n <= |s|
    ensures forall i :: 0 <= i < n ==> !IsSpace(s[i])
    ensures n == |s| || IsSpace(s[n])
  {
    if s == [] || IsSpace(s[0]) then 0 else 1 + WordLength(s[1..])
  }

  /** Python's `s.split()`: the maximal runs of non-whitespace characters, in order. */
  function SplitWs(s: string): (r: seq<string>)
    ensures forall i :: 0 <= i < |r| ==> r[i] != [] && forall j :: 0 <= j < |r[i]| ==> !IsSpace(r[i][j])
    decreases |s|
  {
    if s == [] then []
    else if IsSpace(s[0]) then SplitWs(s[1..])
    else
      var n := WordLength(s);
      [s[..n]] + SplitWs(s[n..])
  }

  /** Number of leading whitespace characters. */
  function LeadingSpace(s: string): (n: nat)
    ensures n <= |s|
    ensures forall i :: 0 <= i < n ==> IsSpace(s[i])
    ensures n == |s| || !IsSpace(s[n])
  {
    if s == [] || !IsSpace(s[0]) then 0 else 1 + LeadingSpace(s[1..])
  }

  /** Number of trailing whitespace characters. */
  function TrailingSpace(s: string): (n: nat)
    ensures n <= |s|
    ensures forall i :: |s| - n <= i < |s| ==> IsSpace(s[i])
    ensures n == |s| || !IsSpace(s[|s| - 1 - n])
  {
    if s == [] || !IsSpace(s[|s| - 1]) then 0 else 1 + TrailingSpace(s[..|s| - 1])
  }

  /** The slice `s[lo..hi]` that `strip` keeps: everything outside it is whitespace
      and, when it is not empty, it starts and ends with a non-whitespace character. */
  function StripBounds(s: string): (b: (nat, nat))
    ensures b.0 <= b.1 <= |s|
    ensures forall i :: 0 <= i < b.0 ==> IsSpace(s[i])
    ensures forall i :: b.1 <= i < |s| ==> IsSpace(s[i])
    ensures b.0 < b.1 ==> !IsSpace(s[b.0]) && !IsSpace(s[b.1 - 1])
    ensures b.0 == b.1 ==> forall i :: 0 <= i < |s| ==> IsSpace(s[i])
  {
    var a := LeadingSpace(s);
    var t := s[a..];
    var n := TrailingSpace(t);
    assert a < |s| ==> !IsSpace(t[0]);
    (a, |s| - n)
  }

  /** Python's `s.strip()`. */
  function Strip(s: string): (r: string)
    ensures |r| <= |s|
    ensures r == [] || (!IsSpace(r[0]) && !IsSpace(r[|r| - 1]))
    ensures r == [] <==> forall i :: 0 <= i < |s| ==> IsSpace(s[i])
  {
    s[StripBounds(s).0..StripBounds(s).1]
  }

  /** No entry occurs twice. */
  predicate Distinct(xs: seq<string>) {
    forall i, j :: 0 <= i < j < |xs| ==> xs[i] != xs[j]
  }

  /** A text that neither starts nor ends with whitespace is its own `strip()`. */
  lemma StripUnchanged(s: string)
    requires s == [] || (!IsSpace(s[0]) && !IsSpace(s[|s| - 1]))
    ensures Strip(s) == s
  {
    if s != [] {
      assert LeadingSpace(s) == 0;
      assert s[0..] == s;
      assert TrailingSpace(s) == 0;
    }
  }

  lemma LowerSlice(s: string, lo: nat, hi: nat)
    requires lo <= hi <= |s|
    ensures Lower(s)[lo..hi] == Lower(s[lo..hi])
  {
  }

  /** Lower-casing changes no character into or out of whitespace. */
  lemma LowerKeepsSpace(s: string)
    ensures forall i :: 0 <= i < |s| ==> (IsSpace(Lower(s)[i]) <==> IsSpace(s[i]))
  {
  }

  /** A word that starts and ends with non-whitespace and occurs in `t` survives stripping,
      where `t` has whitespace exactly where `s` has (as `Lower(s)` does). */
  lemma ContainsInStripped(s: string, t: string, w: string)
    requires |t| == |s| && forall i :: 0 <= i < |s| ==> (IsSpace(t[i]) <==> IsSpace(s[i]))
    requires w != [] && !IsSpace(w[0]) && !IsSpace(w[|w| - 1]) && Contains(t, w)
    ensures Contains(t[StripBounds(s).0..StripBounds(s).1], w)
  {
    var a, b := StripBounds(s).0, StripBounds(s).1;
    var i :| 0 <= i <= |t| - |w| && OccursAt(t, w, i);
    assert t[i] == w[0] by {
      assert t[i..i + |w|][0] == t[i];
    }
    assert t[i + |w| - 1] == w[|w| - 1] by {
      assert t[i..i + |w|][|w| - 1] == t[i + |w| - 1];
    }
    assert a <= i && i + |w| <= b;
    var u := t[a..b];
    assert u[i - a..i - a + |w|] == t[i..i + |w|];
    assert OccursAt(u, w, i - a);
  }

  /** Such a word occurring in a line also occurs in the stripped line. */
  lemma ContainsAfterStrip(s: string, w: string)
    requires w != [] && !IsSpace(w[0]) && !IsSpace(w[|w| - 1]) && Contains(s, w)
    ensures Contains(Strip(s), w)
  {
    ContainsInStripped(s, s, w);
  }

  /** Python's `s.split(" ", 1)[0]`: the text before the first single space. */
  function SpaceHead(s: string): string {
    var k := Find(s, " ");
    if k == -1 then s else s[..k]
  }

  /** The second element of `s.split(" ", 1)`, or `""` when there is none. */
  function SpaceTail(s: string): string {
    var k := Find(s, " ");
    if k == -1 then "" else s[k + 1..]
  }

  /** Re-joining the two halves of `split(" ", 1)` with a space gives the text back,
      with one extra trailing space when the text had no space. */
  lemma SpaceHeadTail(s: string)
    ensures SpaceHead(s) + " " + SpaceTail(s) == if ' ' in s then s else s + " "
    ensures ' ' !in SpaceHead(s)
  {
    ContainsChar(s, ' ');
    var k := Find(s, " ");
    if k != -1 {
      assert s == s[..k] + " " + s[k + 1..];
      NoOccurrenceInPrefix(s, " ", k);
      ContainsChar(s[..k], ' ');
    }
  }

  function DigitChar(d: nat): char
    requires d < 10
  {
    ('0' as int + d) as char
  }

  /** Python's `str(n)` for a natural number. */
  function NatToString(n: nat): (r: string)
    ensures r != []
    ensures forall i :: 0 <= i < |r| ==> IsDigit(r[i])
  {
    if n < 10 then [DigitChar(n)] else NatToString(n / 10) + [DigitChar(n % 10)]
  }

  /** Python's `int(s)` for a string of decimal digits. */
  function ParseNat(s: string): nat
    requires forall i :: 0 <= i < |s| ==> IsDigit(s[i])
  {
    if s == [] then 0
    else
      var d := s[|s| - 1] as int - '0' as int;
      assert IsDigit(s[|s| - 1]);
      ParseNat(s[..|s| - 1]) * 10 + d
  }

  /** Reading back a printed number gives the number: `str` is injective on naturals. */
  lemma {:induction false} ParseNatToString(n: nat)
    ensures ParseNat(NatToString(n)) == n
  {
    if n >= 10 {
      ParseNatToString(n / 10);
      var r := NatToString(n);
      assert r[..|r| - 1] == NatToString(n / 10);
    }
  }
}
