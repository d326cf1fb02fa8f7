/**
 * The few Python `str` operations the extractor relies on, restricted to ASCII:
 * `isspace`, `isupper`, `upper`, `lower`, `title`, `strip`, `split()`,
 * `splitlines`, `" ".join` and substring search. Characters outside ASCII are
 * treated as ordinary characters that are neither whitespace nor letters.
 */
module PyText {

  // ---------------------------------------------------------------------------
  // Character classes
  // ---------------------------------------------------------------------------

  /** Python's `str.isspace` on ASCII: tab, LF, VT, FF, CR, the separators 0x1C-0x1F and space. */
  predicate IsSpace(c: char) {
    c == ' ' || ('\t' <= c <= '\r') || ('\U{1c}' <= c <= '\U{1f}')
  }

  /** The ASCII characters at which `str.splitlines` ends a line. */
  predicate IsLineBreak(c: char) {
    ('\n' <= c <= '\r') || ('\U{1c}' <= c <= '\U{1e}')
  }

  predicate IsDigit(c: char) { '0' <= c <= '9' }
  predicate IsUpper(c: char) { 'A' <= c <= 'Z' }
  predicate IsLower(c: char) { 'a' <= c <= 'z' }
  /** The cased characters: in ASCII, exactly the letters. */
  predicate IsLetter(c: char) { IsUpper(c) || IsLower(c) }

  function ToUpper(c: char): (u: char)
    ensures IsLower(c) ==> IsUpper(u)
    ensures !IsLower(c) ==> u == c
  {
    if IsLower(c) then (c as int - 32) as char else c
  }

  function ToLower(c: char): (l: char)
    ensures IsUpper(c) ==> IsLower(l)
    ensures !IsUpper(c) ==> l == c
  {
    if IsUpper(c) then (c as int + 32) as char else c
  }

  /** The same character up to ASCII case. */
  predicate SameLetterIgnoringCase(a: char, b: char) {
    ToUpper(a) == ToUpper(b)
  }

  // ---------------------------------------------------------------------------
  // Whole-string predicates and maps
  // ---------------------------------------------------------------------------

  /** `str.lower()` */
  function Lower(s: string): (r: string)
    ensures |r| == |s|
    ensures forall i :: 0 <= i < |s| ==> r[i] == ToLower(s[i])
  {
    seq(|s|, i requires 0 <= i < |s| => ToLower(s[i]))
  }

  /** `s.endswith(suffix)` */
  predicate EndsWith(s: string, suffix: string) {
    |suffix| <= |s| && s[|s| - |suffix|..] == suffix
  }

  /** `str.upper()` */
  function Upper(s: string): (r: string)
    ensures |r| == |s|
    ensures forall i :: 0 <= i < |s| ==> r[i] == ToUpper(s[i])
  {
    seq(|s|, i requires 0 <= i < |s| => ToUpper(s[i]))
  }

  /**
   * `str.isupper()`: at least one cased character and no lower-case one; that
   * is, `upper()` leaves the string as it is and `lower()` changes it.
   */
  predicate IsUpperText(s: string)
    ensures IsUpperText(s) <==> Upper(s) == s && Lower(s) != s
  {
    UpperFixed(s);
    LowerMoves(s);
    (exists i :: 0 <= i < |s| && IsUpper(s[i])) && forall i :: 0 <= i < |s| ==> !IsLower(s[i])
  }

  lemma UpperFixed(s: string)
    ensures Upper(s) == s <==> forall i :: 0 <= i < |s| ==> !IsLower(s[i])
  {
    if forall i :: 0 <= i < |s| ==> !IsLower(s[i]) {
      assert forall i :: 0 <= i < |s| ==> Upper(s)[i] == s[i];
    }
  }

  lemma LowerMoves(s: string)
    ensures Lower(s) != s <==> exists i :: 0 <= i < |s| && IsUpper(s[i])
  {
    if forall i :: 0 <= i < |s| ==> !IsUpper(s[i]) {
      assert forall i :: 0 <= i < |s| ==> Lower(s)[i] == s[i];
    } else {
      var i :| 0 <= i < |s| && IsUpper(s[i]);
      assert Lower(s)[i] != s[i];
    }
  }

  /** `s[p..]` starts with `word`, letters compared without regard to case. */
  predicate StartsWithIgnoringCase(s: string, p: nat, word: string) {
    p + |word| <= |s| && forall k :: 0 <= k < |word| ==> SameLetterIgnoringCase(s[p + k], word[k])
  }

  predicate NoSpace(s: string) {
    forall i :: 0 <= i < |s| ==> !IsSpace(s[i])
  }

  predicate AllDigits(s: string) {
    forall i :: 0 <= i < |s| ==> IsDigit(s[i])
  }

  predicate NoDigit(s: string) {
    forall i :: 0 <= i < |s| ==> !IsDigit(s[i])
  }

  /** `needle in hay` */
  predicate Contains(hay: string, needle: string) {
    exists i :: 0 <= i <= |hay| && OccursAt(hay, needle, i)
  }

  /** `needle` occurs in `hay` starting at index `i`. */
  predicate OccursAt(hay: string, needle: string, i: nat) {
    i + |needle| <= |hay| && hay[i..i + |needle|] == needle
  }

  // ---------------------------------------------------------------------------
  // strip
  // ---------------------------------------------------------------------------

  function TrimLeft(s: string): (r: string)
    ensures |r| <= |s| && r == s[|s| - |r|..]
    ensures forall k :: 0 <= k < |s| - |r| ==> IsSpace(s[k])
    ensures r == [] || !IsSpace(r[0])
    decreases |s|
  {
    if s != [] && IsSpace(s[0]) then TrimLeft(s[1..]) else s
  }

  function TrimRight(s: string): (r: string)
    ensures |r| <= |s| && r == s[..|r|]
    ensures forall k :: |r| <= k < |s| ==> IsSpace(s[k])
    ensures r == [] || !IsSpace(r[|r| - 1])
    decreases |s|
  {
    if s != [] && IsSpace(s[|s| - 1]) then TrimRight(s[..|s| - 1]) else s
  }

  /** `str.strip()`: neither end of the result is whitespace. */
  function Strip(s: string): (r: string)
    ensures r == [] || (!IsSpace(r[0]) && !IsSpace(r[|r| - 1]))
  {
    TrimRight(TrimLeft(s))
  }

  /**
   * What `strip()` removes: the result is the slice of `s` left once the
   * whitespace at both ends is taken away.
   */
  lemma StripIsSlice(s: string) returns (i: nat, j: nat)
    ensures i <= j <= |s| && Strip(s) == s[i..j]
    ensures forall k :: 0 <= k < i ==> IsSpace(s[k])
    ensures forall k :: j <= k < |s| ==> IsSpace(s[k])
  {
    var l := TrimLeft(s);
    var r := TrimRight(l);
    i, j := |s| - |l|, |s| - |l| + |r|;
    assert r == s[i..j];
  }

  /** A string whose strip is empty is all whitespace, and conversely. */
  lemma StripEmptyIff(s: string)
    ensures Strip(s) == [] <==> IsBlank(s)
  {
    var i, j := StripIsSlice(s);
  }

  /** Nothing but whitespace. */
  predicate IsBlank(s: string) {
    forall k :: 0 <= k < |s| ==> IsSpace(s[k])
  }

  lemma BlankConcat(a: string, b: string)
    ensures IsBlank(a + b) <==> IsBlank(a) && IsBlank(b)
  {
    assert forall k :: 0 <= k < |a| ==> (a + b)[k] == a[k];
    assert forall k :: 0 <= k < |b| ==> (a + b)[|a| + k] == b[k];
  }

  // ---------------------------------------------------------------------------
  // splitlines
  // ---------------------------------------------------------------------------

  /** The index of the first line break at or after `i`, or `|s|` when there is none. */
  function LineEnd(s: string, i: nat): (k: nat)
    requires i <= |s|
    ensures i <= k <= |s|
    ensures k < |s| ==> IsLineBreak(s[k])
    ensures forall j :: i <= j < k ==> !IsLineBreak(s[j])
    decreases |s| - i
  {
    if i == |s| || IsLineBreak(s[i]) then i else LineEnd(s, i + 1)
  }

  /** Where the next line starts after the break at `k`: a CR LF pair is one break. */
  function NextLineStart(s: string, k: nat): (n: nat)
    requires k < |s|
    ensures k < n <= |s|
  {
    if s[k] == '\r' && k + 1 < |s| && s[k + 1] == '\n' then k + 2 else k + 1
  }

  /**
   * `str.splitlines()`: the lines of `s` without their terminators; a final
   * terminator does not open an empty last line.
   */
  function SplitLines(s: string): (lines: seq<string>)
    ensures forall l :: l in lines ==> forall j :: 0 <= j < |l| ==> !IsLineBreak(l[j])
    ensures lines == [] <==> s == []
    decreases |s|
  {
    if s == [] then []
    else
      var k := LineEnd(s, 0);
      if k == |s| then [s]
      else [s[..k]] + SplitLines(s[NextLineStart(s, k)..])
  }

  /** A string with no line break in it. */
  predicate NoLineBreak(s: string) {
    forall j :: 0 <= j < |s| ==> !IsLineBreak(s[j])
  }

  lemma LineEndAt(s: string, i: nat, k: nat)
    requires i <= k <= |s|
    requires forall j :: i <= j < k ==> !IsLineBreak(s[j])
    requires k == |s| || IsLineBreak(s[k])
    ensures LineEnd(s, i) == k
    decreases k - i
  {
    if i < k {
      LineEndAt(s, i + 1, k);
    }
  }

  /** Text without a line break is a single line. */
  lemma SplitLinesOfLine(t: string)
    requires t != [] && NoLineBreak(t)
    ensures SplitLines(t) == [t]
  {
    LineEndAt(t, 0, |t|);
  }

  /**
   * A line break ends the line before it and the rest is split on its own;
   * `c` is a break that does not open a CR LF pair.
   */
  lemma SplitLinesAtBreak(a: string, c: char, b: string)
    requires NoLineBreak(a) && IsLineBreak(c)
    requires !(c == '\r' && b != [] && b[0] == '\n')
    ensures SplitLines(a + [c] + b) == [a] + SplitLines(b)
  {
    var s := a + [c] + b;
    assert forall j :: 0 <= j < |a| ==> s[j] == a[j];
    LineEndAt(s, 0, |a|);
    assert NextLineStart(s, |a|) == |a| + 1;
    assert s[..|a|] == a && s[|a| + 1..] == b;
  }

  /** A CR LF pair is one line break. */
  lemma SplitLinesAtCrLf(a: string, b: string)
    requires NoLineBreak(a)
    ensures SplitLines(a + "\r\n" + b) == [a] + SplitLines(b)
  {
    var s := a + "\r\n" + b;
    assert forall j :: 0 <= j < |a| ==> s[j] == a[j];
    assert s[|a|] == '\r' && s[|a| + 1] == '\n';
    LineEndAt(s, 0, |a|);
    assert NextLineStart(s, |a|) == |a| + 2;
    assert s[..|a|] == a && s[|a| + 2..] == b;
  }

  // ---------------------------------------------------------------------------
  // split() and " ".join
  // ---------------------------------------------------------------------------

  /** The index of the first whitespace at or after `i`, or `|s|`. */
  function TokenEnd(s: string, i: nat): (k: nat)
    requires i <= |s|
    ensures i <= k <= |s|
    ensures k < |s| ==> IsSpace(s[k])
    ensures forall j :: i <= j < k ==> !IsSpace(s[j])
    decreases |s| - i
  {
    if i == |s| || IsSpace(s[i]) then i else TokenEnd(s, i + 1)
  }

  /** A list of tokens as `split()` produces them: non-empty and free of whitespace. */
  predicate WellFormedTokens(ts: seq<string>) {
    forall t :: t in ts ==> t != [] && NoSpace(t)
  }

  /** `str.split()` with no separator: the maximal runs of non-whitespace characters. */
  function Words(s: string): (ts: seq<string>)
    ensures WellFormedTokens(ts)
    decreases |s|
  {
    if s == [] then []
    else if IsSpace(s[0]) then Words(s[1..])
    else
      var k := TokenEnd(s, 0);
      [s[..k]] + Words(s[k..])
  }

  /** A whitespace character ends the word before it; what follows is split on its own. */
  lemma {:induction false} WordsAtSpace(a: string, c: char, b: string)
    requires IsSpace(c)
    ensures Words(a + [c] + b) == Words(a) + Words(b)
    decreases |a|
  {
    var s := a + [c] + b;
    if a == [] {
      assert s[1..] == b;
    } else if IsSpace(a[0]) {
      assert s[1..] == a[1..] + [c] + b;
      WordsAtSpace(a[1..], c, b);
    } else {
      var k := TokenEnd(a, 0);
      WordsFirstToken(a, c, b);
      WordsAtSpace(a[k..], c, b);
    }
  }

  /** The first word of `a` is also the first word of `a + [c] + b` when `c` is whitespace. */
  lemma WordsFirstToken(a: string, c: char, b: string)
    requires IsSpace(c) && a != [] && !IsSpace(a[0])
    ensures var k := TokenEnd(a, 0);
      0 < k && Words(a) == [a[..k]] + Words(a[k..])
      && Words(a + [c] + b) == [a[..k]] + Words(a[k..] + [c] + b)
  {
    var s := a + [c] + b;
    var k := TokenEnd(a, 0);
    assert forall j :: 0 <= j < |a| ==> s[j] == a[j];
    assert s[|a|] == c;
    TokenEndAt(s, 0, k);
    assert s[..k] == a[..k];
    assert s[k..] == a[k..] + [c] + b;
  }

  /** A non-empty run without whitespace is one word. */
  lemma WordsOfToken(t: string)
    requires t != [] && NoSpace(t)
    ensures Words(t) == [t]
  {
    TokenEndOfPrefix(t, []);
    assert t + [] == t;
  }

  /** `split()` gives no word exactly when the text is all whitespace. */
  lemma {:induction false} WordsEmptyIff(s: string)
    ensures Words(s) == [] <==> IsBlank(s)
    decreases |s|
  {
    if s != [] && IsSpace(s[0]) {
      WordsEmptyIff(s[1..]);
      assert forall j :: 1 <= j < |s| ==> s[j] == s[1..][j - 1];
    }
  }

  /** `sep.join(parts)` */
  function Join(sep: string, parts: seq<string>): string {
    if parts == [] then []
    else if |parts| == 1 then parts[0]
    else parts[0] + sep + Join(sep, parts[1..])
  }

  /** A join is the join of all but the last part, the separator and the last part. */
  lemma {:induction false} JoinSnoc(sep: string, parts: seq<string>)
    requires |parts| > 1
    ensures Join(sep, parts) == Join(sep, parts[..|parts| - 1]) + sep + parts[|parts| - 1]
    decreases |parts|
  {
    var init := parts[..|parts| - 1];
    if |parts| == 2 {
      assert init == [parts[0]];
    } else {
      var rest := parts[1..];
      JoinSnoc(sep, rest);
      assert rest[..|rest| - 1] == init[1..];
      assert init[0] == parts[0];
      assert rest[|rest| - 1] == parts[|parts| - 1];
    }
  }

  /** Splitting a single-space join of well-formed tokens gives the tokens back. */
  lemma {:induction false} WordsOfJoin(ts: seq<string>)
    requires WellFormedTokens(ts)
    ensures Words(Join(" ", ts)) == ts
    decreases |ts|
  {
    if ts == [] {
    } else {
      var t := ts[0];
      var s := Join(" ", ts);
      assert t in ts;
      var rest := if |ts| == 1 then [] else " " + Join(" ", ts[1..]);
      assert s == t + rest;
      TokenEndOfPrefix(t, rest);
      assert s[..|t|] == t;
      assert s[|t|..] == rest;
      if |ts| > 1 {
        assert forall u :: u in ts[1..] ==> u in ts;
        WordsOfJoin(ts[1..]);
        assert rest[1..] == Join(" ", ts[1..]);
      }
    }
  }

  lemma TokenEndOfPrefix(t: string, rest: string)
    requires t != [] && NoSpace(t)
    requires rest == [] || IsSpace(rest[0])
    ensures Words(t + rest) == [t] + Words(rest)
  {
    var s := t + rest;
    assert !IsSpace(s[0]);
    TokenEndAt(s, 0, |t|);
    assert s[..|t|] == t && s[|t|..] == rest;
  }

  lemma TokenEndAt(s: string, i: nat, k: nat)
    requires i <= k <= |s|
    requires forall j :: i <= j < k ==> !IsSpace(s[j])
    requires k == |s| || IsSpace(s[k])
    ensures TokenEnd(s, i) == k
  {
  }

  /** A string in normal form: the single-space join of its own words. */
  predicate SingleSpaced(s: string) {
    s == Join(" ", Words(s))
  }

  // ---------------------------------------------------------------------------
  // title
  // ---------------------------------------------------------------------------

  /**
   * `str.title()` continued after a character that was (`prevCased`) or was not
   * a letter: a letter is upper-cased when it follows a non-letter and
   * lower-cased when it follows a letter; other characters are unchanged.
   */
  function TitleFrom(s: string, prevCased: bool): (r: string)
    ensures |r| == |s|
    decreases |s|
  {
    if s == [] then []
    else
      var c := if prevCased then ToLower(s[0]) else ToUpper(s[0]);
      [c] + TitleFrom(s[1..], IsLetter(s[0]))
  }

  /**
   * Each character keeps its letter up to case; a letter is upper-cased
   * exactly when it starts a run of letters, counting `prevCased` as the
   * character before the first.
   */
  lemma {:induction false} TitleFromShape(s: string, prevCased: bool)
    ensures var r := TitleFrom(s, prevCased);
      && (forall i :: 0 <= i < |s| ==> SameLetterIgnoringCase(r[i], s[i]) && IsLetter(r[i]) == IsLetter(s[i]))
      && (forall i :: 0 <= i < |s| && !IsLetter(s[i]) ==> r[i] == s[i])
      && (|s| > 0 && IsLetter(s[0]) ==> (IsUpper(r[0]) <==> !prevCased))
      && (forall i :: 0 < i < |s| && IsLetter(s[i]) ==> (IsUpper(r[i]) <==> !IsLetter(s[i - 1])))
    decreases |s|
  {
    if s != [] {
      var c := if prevCased then ToLower(s[0]) else ToUpper(s[0]);
      var rest := TitleFrom(s[1..], IsLetter(s[0]));
      TitleFromShape(s[1..], IsLetter(s[0]));
      assert TitleFrom(s, prevCased) == [c] + rest;
      assert forall i :: 1 <= i < |s| ==> rest[i - 1] == ([c] + rest)[i];
    }
  }

  /** `str.title()` */
  function Title(s: string): (r: string)
    ensures |r| == |s|
    ensures IsTitleCased(r)
    ensures forall i :: 0 <= i < |s| ==> SameLetterIgnoringCase(r[i], s[i])
    ensures forall i :: 0 <= i < |s| && !IsLetter(s[i]) ==> r[i] == s[i]
  {
    TitleFromShape(s, false);
    TitleFrom(s, false)
  }

  /** Every letter is upper-case exactly when it starts a run of letters. */
  predicate IsTitleCased(s: string) {
    forall i :: 0 <= i < |s| && IsLetter(s[i]) ==> (IsUpper(s[i]) <==> (i == 0 || !IsLetter(s[i - 1])))
  }
}
