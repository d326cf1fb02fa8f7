/**
 * `extract_name` and `clean_name`: picking the candidate's name out of the
 * OCR text, first by the "NAME OF THE CANDIDATE" label, then by the first
 * all-capitals line of two to four words near the top of the page.
 */
module NameExtraction {
  import opened Wrappers
  import opened PyText

  /** The label searched for (in the upper-cased line). */
  const NameLabel: string := "NAME OF THE CANDIDATE"

  /** The result when neither rule finds a name. */
  const Unknown: string := "UNKNOWN"

  /** Only this many non-blank lines are searched by the all-capitals rule. */
  const CapsWindow: nat := 20

  // ---------------------------------------------------------------------------
  // Lines
  // ---------------------------------------------------------------------------

  /** The stripped, non-blank lines of `lines`, in order. */
  function NonBlank(lines: seq<string>): (r: seq<string>)
    ensures |r| <= |lines|
  {
    if lines == [] then []
    else
      var l := Strip(lines[0]);
      if l == [] then NonBlank(lines[1..]) else [l] + NonBlank(lines[1..])
  }

  /** A line as `strip()` leaves it when it is not blank. */
  predicate IsStrippedLine(l: string) {
    l != [] && !IsSpace(l[0]) && !IsSpace(l[|l| - 1])
  }

  /** Every kept line is non-empty and has no whitespace at either end. */
  lemma {:induction false} NonBlankStripped(lines: seq<string>)
    ensures forall l :: l in NonBlank(lines) ==> IsStrippedLine(l)
  {
    if lines != [] {
      NonBlankStripped(lines[1..]);
      var l := Strip(lines[0]);
      assert l != [] ==> IsStrippedLine(l);
    }
  }

  /**
   * The kept lines are exactly the non-empty strips of the input lines: each
   * comes from an input line, and no input line with a non-blank strip is lost.
   */
  lemma {:induction false} NonBlankFromLines(lines: seq<string>)
    ensures forall l :: l in NonBlank(lines) ==> exists m :: m in lines && l == Strip(m)
    ensures forall i :: 0 <= i < |lines| && Strip(lines[i]) != [] ==> Strip(lines[i]) in NonBlank(lines)
  {
    if lines != [] {
      NonBlankFromLines(lines[1..]);
      forall l | l in NonBlank(lines)
        ensures exists m :: m in lines && l == Strip(m)
      {
        if l in NonBlank(lines[1..]) {
          var m :| m in lines[1..] && l == Strip(m);
          assert m in lines;
        } else {
          assert lines[0] in lines;
        }
      }
      NonBlankKeeps(lines);
    }
  }

  lemma NonBlankKeeps(lines: seq<string>)
    requires lines != []
    requires forall i :: 0 <= i < |lines| - 1 && Strip(lines[1..][i]) != [] ==> Strip(lines[1..][i]) in NonBlank(lines[1..])
    ensures forall i :: 0 <= i < |lines| && Strip(lines[i]) != [] ==> Strip(lines[i]) in NonBlank(lines)
  {
    var first := NonBlank([lines[0]]);
    assert lines == [lines[0]] + lines[1..];
    NonBlankAppend([lines[0]], lines[1..]);
    NonBlankOne(lines[0]);
    forall i | 0 <= i < |lines| && Strip(lines[i]) != []
      ensures Strip(lines[i]) in NonBlank(lines)
    {
      var l := Strip(lines[i]);
      if i == 0 {
        assert first == [l];
      } else {
        assert lines[1..][i - 1] == lines[i];
        assert l in NonBlank(lines[1..]);
      }
      InConcat(l, first, NonBlank(lines[1..]));
    }
  }

  lemma InConcat<T>(x: T, a: seq<T>, b: seq<T>)
    requires x in a || x in b
    ensures x in a + b
  {
  }

  /** The filter keeps order: the lines of `a + b` are those of `a`, then those of `b`. */
  lemma {:induction false} NonBlankAppend(a: seq<string>, b: seq<string>)
    ensures NonBlank(a + b) == NonBlank(a) + NonBlank(b)
    decreases |a|
  {
    if a == [] {
      assert a + b == b;
    } else {
      var ab := a + b;
      assert ab[0] == a[0] && ab[1..] == a[1..] + b;
      NonBlankAppend(a[1..], b);
    }
  }

  /** One line is kept, stripped, exactly when its strip is not empty. */
  lemma NonBlankOne(l: string)
    ensures NonBlank([l]) == if Strip(l) == [] then [] else [Strip(l)]
  {
    assert [l][1..] == [];
  }

  /**
   * `[l.strip() for l in ocr_text.splitlines() if l.strip()]`: the lines the
   * name rules look at are non-empty, have no whitespace at either end and
   * hold no line break.
   */
  function NonBlankLines(text: string): (r: seq<string>)
    ensures forall l :: l in r ==> IsStrippedLine(l)
    ensures forall l :: l in r ==> forall j :: 0 <= j < |l| ==> !IsLineBreak(l[j])
  {
    NonBlankLinesShape(text);
    NonBlank(SplitLines(text))
  }

  /** A text without a line break gives its strip, unless that is empty. */
  lemma NonBlankLinesOfLine(t: string)
    requires NoLineBreak(t)
    ensures NonBlankLines(t) == if Strip(t) == [] then [] else [Strip(t)]
  {
    if t != [] {
      SplitLinesOfLine(t);
      NonBlankOne(t);
    } else {
      assert Strip(t) == [];
    }
  }

  /**
   * A line break splits the name rules' lines: those before it come first,
   * then those after it. A CR LF pair counts as one break.
   */
  lemma NonBlankLinesAtBreak(a: string, c: char, b: string)
    requires NoLineBreak(a) && IsLineBreak(c)
    ensures c == '\r' && b != [] && b[0] == '\n' ==>
      NonBlankLines(a + [c] + b) == NonBlankLines(a) + NonBlankLines(b[1..])
    ensures !(c == '\r' && b != [] && b[0] == '\n') ==>
      NonBlankLines(a + [c] + b) == NonBlankLines(a) + NonBlankLines(b)
  {
    var rest := if c == '\r' && b != [] && b[0] == '\n' then b[1..] else b;
    if c == '\r' && b != [] && b[0] == '\n' {
      assert a + [c] + b == a + "\r\n" + rest;
      SplitLinesAtCrLf(a, rest);
    } else {
      SplitLinesAtBreak(a, c, b);
    }
    NonBlankAppend([a], SplitLines(rest));
    NonBlankLinesOfLine(a);
    if a != [] {
      SplitLinesOfLine(a);
    }
  }

  /** The name rules see no line at all exactly when the text is all whitespace. */
  lemma {:induction false} NonBlankLinesEmptyIff(text: string)
    ensures NonBlankLines(text) == [] <==> IsBlank(text)
    decreases |text|
  {
    var k := LineEnd(text, 0);
    if k == |text| {
      NonBlankLinesOfLine(text);
      StripEmptyIff(text);
    } else {
      var a, c, b := text[..k], text[k], text[k + 1..];
      assert text == a + [c] + b;
      if c == '\r' && b != [] && b[0] == '\n' {
        CrLfStep(a, c, b);
        NonBlankLinesEmptyIff(b[1..]);
      } else {
        BreakStep(a, c, b);
        NonBlankLinesEmptyIff(b);
      }
    }
  }

  /** Across a CR LF pair, the text is blank exactly when both sides are. */
  lemma CrLfStep(a: string, c: char, b: string)
    requires NoLineBreak(a) && c == '\r' && b != [] && b[0] == '\n'
    ensures NonBlankLines(a + [c] + b) == [] <==> IsBlank(a) && NonBlankLines(b[1..]) == []
    ensures IsBlank(a + [c] + b) <==> IsBlank(a) && IsBlank(b[1..])
  {
    BreakSeesNoLine(a, c, b);
    BlankConcat(a, [c]);
    BlankConcat(a + [c], b);
    assert b == [b[0]] + b[1..];
    BlankConcat([b[0]], b[1..]);
  }

  /** Across any other line break, the text is blank exactly when both sides are. */
  lemma BreakStep(a: string, c: char, b: string)
    requires NoLineBreak(a) && IsLineBreak(c)
    requires !(c == '\r' && b != [] && b[0] == '\n')
    ensures NonBlankLines(a + [c] + b) == [] <==> IsBlank(a) && NonBlankLines(b) == []
    ensures IsBlank(a + [c] + b) <==> IsBlank(a) && IsBlank(b)
  {
    BreakSeesNoLine(a, c, b);
    BlankConcat(a, [c]);
    BlankConcat(a + [c], b);
  }

  /** No line is seen across a break exactly when the line before it is blank and no line is seen after it. */
  lemma BreakSeesNoLine(a: string, c: char, b: string)
    requires NoLineBreak(a) && IsLineBreak(c)
    ensures var rest := if c == '\r' && b != [] && b[0] == '\n' then b[1..] else b;
      NonBlankLines(a + [c] + b) == [] <==> IsBlank(a) && NonBlankLines(rest) == []
  {
    NonBlankLinesAtBreak(a, c, b);
    NonBlankLinesOfLine(a);
    StripEmptyIff(a);
  }

  lemma NonBlankLinesShape(text: string)
    ensures forall l :: l in NonBlank(SplitLines(text)) ==> IsStrippedLine(l)
    ensures forall l :: l in NonBlank(SplitLines(text)) ==> forall j :: 0 <= j < |l| ==> !IsLineBreak(l[j])
  {
    var lines := SplitLines(text);
    NonBlankStripped(lines);
    NonBlankFromLines(lines);
    forall l | l in NonBlank(lines)
      ensures forall j :: 0 <= j < |l| ==> !IsLineBreak(l[j])
    {
      var m :| m in lines && l == Strip(m);
      StripNoBreak(m);
    }
  }

  lemma StripNoBreak(m: string)
    requires forall j :: 0 <= j < |m| ==> !IsLineBreak(m[j])
    ensures forall j :: 0 <= j < |Strip(m)| ==> !IsLineBreak(Strip(m)[j])
  {
    var i, k := StripIsSlice(m);
    assert forall j :: 0 <= j < k - i ==> m[i..k][j] == m[i + j];
  }

  // ---------------------------------------------------------------------------
  // The two line tests
  // ---------------------------------------------------------------------------

  /** `"NAME OF THE CANDIDATE" in line.upper()` */
  predicate HasLabel(line: string) {
    Contains(Upper(line), NameLabel)
  }

  /** The label's characters are all capitals or spaces, so `upper()` leaves them alone. */
  lemma NameLabelUpper()
    ensures forall k :: 0 <= k < |NameLabel| ==> ToUpper(NameLabel[k]) == NameLabel[k]
  {
  }

  /** The label occurs at `i` in the upper-cased line exactly when the line has it there in any case. */
  lemma OccursUpper(line: string, i: nat)
    requires i + |NameLabel| <= |line|
    ensures OccursAt(Upper(line), NameLabel, i) <==> StartsWithIgnoringCase(line, i, NameLabel)
  {
    NameLabelUpper();
    var u := Upper(line)[i..i + |NameLabel|];
    assert forall k :: 0 <= k < |NameLabel| ==> u[k] == ToUpper(line[i + k]);
    if StartsWithIgnoringCase(line, i, NameLabel) {
      assert forall k :: 0 <= k < |NameLabel| ==> u[k] == NameLabel[k];
    }
  }

  /** The label test ignores case: the line contains "NAME OF THE CANDIDATE" in any mix of case. */
  lemma HasLabelIgnoringCase(line: string)
    ensures HasLabel(line) <==> exists i: nat :: StartsWithIgnoringCase(line, i, NameLabel)
  {
    if HasLabel(line) {
      var i: nat :| i <= |Upper(line)| && OccursAt(Upper(line), NameLabel, i);
      OccursUpper(line, i);
    }
    if exists i: nat :: StartsWithIgnoringCase(line, i, NameLabel) {
      var i: nat :| StartsWithIgnoringCase(line, i, NameLabel);
      OccursUpper(line, i);
    }
  }

  /** `line.isupper() and 2 <= len(line.split()) <= 4` */
  predicate IsCapsName(line: string) {
    IsUpperText(line) && 2 <= |Words(line)| <= 4
  }

  /**
   * A line the capitals rule accepts is unchanged by `upper()`, and cleaning
   * it leaves two to four words: at most a one-letter last word goes.
   */
  lemma CapsNameCleaned(line: string)
    requires IsCapsName(line)
    ensures Upper(line) == line
    ensures 2 <= |Words(CleanName(line))| <= 4
  {
  }

  /** The index of the first element of `xs` at or after `i` that satisfies `p`. */
  function FirstWhere<T>(xs: seq<T>, p: T -> bool, i: nat): (r: Option<nat>)
    requires i <= |xs|
    ensures r.Some? ==> i <= r.value < |xs| && p(xs[r.value])
    ensures r.Some? ==> forall j :: i <= j < r.value ==> !p(xs[j])
    ensures r.None? ==> forall j :: i <= j < |xs| ==> !p(xs[j])
    decreases |xs| - i
  {
    if i == |xs| then None
    else if p(xs[i]) then Some(i)
    else FirstWhere(xs, p, i + 1)
  }

  // ---------------------------------------------------------------------------
  // clean_name
  // ---------------------------------------------------------------------------

  /** `line.split(":")[-1]`: the text after the last colon, or the whole line. */
  function AfterLastColon(s: string): (r: string)
    ensures |r| <= |s| && r == s[|s| - |r|..]
    ensures forall j :: 0 <= j < |r| ==> r[j] != ':'
    ensures r == s || s[|s| - |r| - 1] == ':'
    decreases |s|
  {
    if s == [] then []
    else if s[|s| - 1] == ':' then []
    else AfterLastColon(s[..|s| - 1]) + [s[|s| - 1]]
  }

  /** The tokens kept by `clean_name`: a one-letter last token is dropped when there are more than two. */
  function KeptTokens(tokens: seq<string>): (r: seq<string>)
    ensures |tokens| - 1 <= |r| <= |tokens| && r == tokens[..|r|]
    ensures |r| < |tokens| <==> |tokens| > 2 && |tokens[|tokens| - 1]| == 1
  {
    if |tokens| > 2 && |tokens[|tokens| - 1]| == 1 then tokens[..|tokens| - 1] else tokens
  }

  function TitleEach(ts: seq<string>): (r: seq<string>)
    ensures |r| == |ts|
    ensures forall i :: 0 <= i < |ts| ==> r[i] == Title(ts[i])
  {
    seq(|ts|, i requires 0 <= i < |ts| => Title(ts[i]))
  }

  /**
   * `clean_name`: the words of `name`, less a one-letter last word when there
   * are more than two, each title-cased and joined by single spaces.
   */
  function CleanName(name: string): (r: string)
    ensures var ts := Words(name);
      var dropped := |ts| > 2 && |ts[|ts| - 1]| == 1;
      |Words(r)| == (if dropped then |ts| - 1 else |ts|)
      && forall i :: 0 <= i < |Words(r)| ==> Words(r)[i] == Title(ts[i])
    ensures SingleSpaced(r)
    ensures IsTitleCased(r)
  {
    var kept := KeptTokens(Words(name));
    TitleOfJoin(kept);
    TitleEachWellFormed(kept);
    WordsOfJoin(TitleEach(kept));
    Title(Join(" ", kept))
  }

  lemma TitleEachWellFormed(ts: seq<string>)
    requires WellFormedTokens(ts)
    ensures WellFormedTokens(TitleEach(ts))
  {
    forall t | t in TitleEach(ts) ensures t != [] && NoSpace(t) {
      var i :| 0 <= i < |ts| && TitleEach(ts)[i] == t;
      assert ts[i] in ts;
      assert forall j :: 0 <= j < |t| ==> IsSpace(t[j]) == IsSpace(ts[i][j]);
    }
  }

  /** Title-casing continues across a concatenation from the state at the seam. */
  lemma {:induction false} TitleFromAppend(a: string, b: string, f: bool)
    ensures TitleFrom(a + b, f) == TitleFrom(a, f) + TitleFrom(b, if a == [] then f else IsLetter(a[|a| - 1]))
    decreases |a|
  {
    if a != [] {
      TitleFromAppend(a[1..], b, IsLetter(a[0]));
      assert (a + b)[1..] == a[1..] + b;
    } else {
      assert a + b == b;
    }
  }

  /** Title-casing a single-space join is joining the title-cased words. */
  lemma {:induction false} TitleOfJoin(ts: seq<string>)
    requires WellFormedTokens(ts)
    ensures Title(Join(" ", ts)) == Join(" ", TitleEach(ts))
    decreases |ts|
  {
    if |ts| > 1 {
      assert ts[0] in ts;
      assert forall u :: u in ts[1..] ==> u in ts;
      TitleJoinStep(ts[0], Join(" ", ts[1..]));
      TitleOfJoin(ts[1..]);
      var tt := TitleEach(ts);
      assert tt[1..] == TitleEach(ts[1..]);
    }
  }

  lemma TitleJoinStep(t: string, rest: string)
    requires t != []
    ensures TitleFrom(t + " " + rest, false) == TitleFrom(t, false) + " " + TitleFrom(rest, false)
  {
    assert t + " " + rest == t + (" " + rest);
    TitleFromAppend(t, " " + rest, false);
    TitleFromAppend(" ", rest, IsLetter(t[|t| - 1]));
    assert TitleFrom(" ", IsLetter(t[|t| - 1])) == " ";
  }

  /** `clean_name` never yields the sentinel: a title-cased string has no capital right after a letter. */
  lemma CleanNameIsNotUnknown(name: string)
    ensures CleanName(name) != Unknown
  {
  }

  // ---------------------------------------------------------------------------
  // extract_name
  // ---------------------------------------------------------------------------

  /** The name taken from the label at line `i`: the next line, or the label line after its last colon. */
  function LabelledName(lines: seq<string>, i: nat): (r: string)
    requires i < |lines|
    ensures r != Unknown
  {
    if i + 1 < |lines| then
      CleanNameIsNotUnknown(lines[i + 1]);
      CleanName(lines[i + 1])
    else
      CleanNameIsNotUnknown(AfterLastColon(lines[i]));
      CleanName(AfterLastColon(lines[i]))
  }

  function Min(a: nat, b: nat): nat { if a < b then a else b }

  /** `extract_name` applied to the non-blank, stripped lines: a name found is single-spaced and title-cased. */
  function NameFromLines(lines: seq<string>): (r: string)
    ensures r == Unknown || (SingleSpaced(r) && IsTitleCased(r))
  {
    match FirstWhere(lines, HasLabel, 0)
    case Some(i) => LabelledName(lines, i)
    case None =>
      match FirstWhere(lines[..Min(CapsWindow, |lines|)], IsCapsName, 0)
      case Some(j) => CleanName(lines[j])
      case None => Unknown
  }

  /** The first label line decides, wherever it is and whatever precedes it. */
  lemma NameLabelRule(lines: seq<string>, i: nat)
    requires i < |lines| && HasLabel(lines[i])
    requires forall j :: 0 <= j < i ==> !HasLabel(lines[j])
    ensures NameFromLines(lines) == LabelledName(lines, i)
  {
  }

  /** Without a label, the first all-capitals line of two to four words among the first twenty decides. */
  lemma NameCapsRule(lines: seq<string>, j: nat)
    requires forall i :: 0 <= i < |lines| ==> !HasLabel(lines[i])
    requires j < Min(CapsWindow, |lines|) && IsCapsName(lines[j])
    requires forall k :: 0 <= k < j ==> !IsCapsName(lines[k])
    ensures NameFromLines(lines) == CleanName(lines[j])
  {
    var window := lines[..Min(CapsWindow, |lines|)];
    assert FirstWhere(lines, HasLabel, 0).None?;
    assert IsCapsName(window[j]);
    assert forall k :: 0 <= k < j ==> !IsCapsName(window[k]) by {
      forall k | 0 <= k < j ensures !IsCapsName(window[k]) { assert window[k] == lines[k]; }
    }
    var f := FirstWhere(window, IsCapsName, 0);
    assert f.Some? && f.value <= j;
    assert f == Some(j);
  }

  /** The sentinel is returned exactly when neither rule finds a line. */
  lemma NameUnknownIff(lines: seq<string>)
    ensures NameFromLines(lines) == Unknown <==>
      (forall i :: 0 <= i < |lines| ==> !HasLabel(lines[i]))
      && (forall j :: 0 <= j < Min(CapsWindow, |lines|) ==> !IsCapsName(lines[j]))
  {
    var window := lines[..Min(CapsWindow, |lines|)];
    match FirstWhere(lines, HasLabel, 0)
    case Some(i) =>
    case None =>
      match FirstWhere(window, IsCapsName, 0)
      case Some(j) =>
        CleanNameIsNotUnknown(lines[j]);
      case None =>
        assert forall j :: 0 <= j < |window| ==> !IsCapsName(window[j]);
  }

  /** Neither rule finds a line: no line has the label, and none of the first twenty is an all-capitals name. */
  predicate NoNameRuleApplies(lines: seq<string>) {
    (forall i :: 0 <= i < |lines| ==> !HasLabel(lines[i]))
    && (forall j :: 0 <= j < Min(CapsWindow, |lines|) ==> !IsCapsName(lines[j]))
  }

  /** `extract_name`: "UNKNOWN", or a single-spaced, title-cased name. */
  function ExtractName(text: string): (r: string)
    ensures r == Unknown || (SingleSpaced(r) && IsTitleCased(r))
  {
    NameFromLines(NonBlankLines(text))
  }

  /** `extract_name` answers "UNKNOWN" exactly when neither rule finds a line of the text. */
  lemma ExtractNameUnknownIff(text: string)
    ensures ExtractName(text) == Unknown <==> NoNameRuleApplies(NonBlankLines(text))
  {
    NameUnknownIff(NonBlankLines(text));
  }

  /** Without a label, lines after the twentieth non-blank line never change the name. */
  lemma CapsWindowOnly(a: seq<string>, b: seq<string>)
    requires forall i :: 0 <= i < |a| ==> !HasLabel(a[i])
    requires forall i :: 0 <= i < |b| ==> !HasLabel(b[i])
    requires a[..Min(CapsWindow, |a|)] == b[..Min(CapsWindow, |b|)]
    ensures NameFromLines(a) == NameFromLines(b)
  {
    NoLabelFound(a);
    NoLabelFound(b);
    var w := a[..Min(CapsWindow, |a|)];
    match FirstWhere(w, IsCapsName, 0)
    case Some(j) =>
      assert a[j] == w[j] == b[j];
    case None =>
  }

  lemma NoLabelFound(lines: seq<string>)
    requires forall i :: 0 <= i < |lines| ==> !HasLabel(lines[i])
    ensures FirstWhere(lines, HasLabel, 0).None?
  {
  }

  // ---------------------------------------------------------------------------
  // clean_name on single-spaced words, and worked examples
  // ---------------------------------------------------------------------------

  /**
   * `clean_name` is not idempotent: when the last two words are single
   * letters, a second pass drops the new last word as well.
   */
  lemma CleanNameNotIdempotent(name: string)
    requires var ts := Words(name);
      |ts| > 3 && |ts[|ts| - 1]| == 1 && |ts[|ts| - 2]| == 1
    ensures |Words(CleanName(CleanName(name)))| == |Words(name)| - 2
    ensures CleanName(CleanName(name)) != CleanName(name)
  {
    var ts := Words(name);
    var r := CleanName(name);
    assert |Words(r)| == |ts| - 1;
    assert Words(r)[|ts| - 2] == Title(ts[|ts| - 2]);
  }

  /** On single-spaced words, `clean_name` joins the title-cased words it keeps. */
  lemma CleanNameOfJoin(ts: seq<string>)
    requires WellFormedTokens(ts)
    ensures CleanName(Join(" ", ts)) == Join(" ", TitleEach(KeptTokens(ts)))
  {
    WordsOfJoin(ts);
    var kept := KeptTokens(ts);
    assert forall t :: t in kept ==> t in ts;
    TitleOfJoin(kept);
  }

  /** "A B C D" cleans to "A B C", and cleaning that again gives "A B". */
  lemma CleanNameTwice()
    ensures CleanName("A B C D") == "A B C"
    ensures CleanName("A B C") == "A B"
  {
    LetterTokens();
    LetterJoins();
    CleanNameOfJoin(["A", "B", "C", "D"]);
    CleanNameOfJoin(["A", "B", "C"]);
  }

  lemma LetterJoins()
    ensures Join(" ", ["A", "B", "C", "D"]) == "A B C D"
    ensures Join(" ", ["A", "B", "C"]) == "A B C"
    ensures Join(" ", ["A", "B"]) == "A B"
  {
  }

  /** What `clean_name` does to the words of "A B C D" and "A B C". */
  lemma LetterTokens()
    ensures WellFormedTokens(["A", "B", "C", "D"]) && WellFormedTokens(["A", "B", "C"])
    ensures KeptTokens(["A", "B", "C", "D"]) == ["A", "B", "C"] && KeptTokens(["A", "B", "C"]) == ["A", "B"]
    ensures TitleEach(["A", "B", "C"]) == ["A", "B", "C"] && TitleEach(["A", "B"]) == ["A", "B"]
  {
    assert Title("A") == "A" && Title("B") == "B" && Title("C") == "C";
  }

  /** A middle initial is kept: only a one-letter last word is dropped. */
  lemma JohnQSmith()
    ensures CleanName("JOHN Q SMITH") == "John Q Smith"
  {
    JohnQSmithTokens();
    JohnQSmithJoins();
    CleanNameOfJoin(["JOHN", "Q", "SMITH"]);
  }

  lemma JohnQSmithJoins()
    ensures Join(" ", ["JOHN", "Q", "SMITH"]) == "JOHN Q SMITH"
    ensures Join(" ", ["John", "Q", "Smith"]) == "John Q Smith"
  {
  }

  /** What `clean_name` does to the words of "JOHN Q SMITH". */
  lemma JohnQSmithTokens()
    ensures WellFormedTokens(["JOHN", "Q", "SMITH"]) && KeptTokens(["JOHN", "Q", "SMITH"]) == ["JOHN", "Q", "SMITH"]
    ensures TitleEach(["JOHN", "Q", "SMITH"]) == ["John", "Q", "Smith"]
  {
    assert Title("JOHN") == "John" && Title("Q") == "Q" && Title("SMITH") == "Smith";
  }

  /**
   * When the first label line is the last line and nothing but whitespace
   * follows its last colon, the name is empty, not "UNKNOWN".
   */
  lemma LabelOnLastLine(lines: seq<string>)
    requires |lines| > 0 && HasLabel(lines[|lines| - 1])
    requires forall j :: 0 <= j < |lines| - 1 ==> !HasLabel(lines[j])
    requires Words(AfterLastColon(lines[|lines| - 1])) == []
    ensures NameFromLines(lines) == ""
  {
    var n := |lines| - 1;
    NameLabelRule(lines, n);
    assert NameFromLines(lines) == LabelledName(lines, n);
    LabelledNameBlank(lines);
    assert LabelledName(lines, n) == "";
  }

  lemma LabelledNameBlank(lines: seq<string>)
    requires |lines| > 0 && Words(AfterLastColon(lines[|lines| - 1])) == []
    ensures LabelledName(lines, |lines| - 1) == ""
  {
    CleanNameOfBlank(AfterLastColon(lines[|lines| - 1]));
  }

  /** Text without words cleans to the empty name. */
  lemma CleanNameOfBlank(name: string)
    requires Words(name) == []
    ensures CleanName(name) == ""
  {
    assert KeptTokens([]) == [];
    assert Join(" ", []) == [];
  }

  /** "NAME OF THE CANDIDATE:" as the only line gives the empty name. */
  lemma LabelAloneExample()
    ensures NameFromLines(["NAME OF THE CANDIDATE:"]) == ""
  {
    var line := "NAME OF THE CANDIDATE:";
    assert OccursAt(Upper(line), NameLabel, 0);
    assert AfterLastColon(line) == "";
    assert Words("") == [];
    LabelOnLastLine([line]);
  }

  /** The label line followed by "JOHN Q SMITH" gives "John Q Smith": the initial is kept. */
  lemma LabelThenName()
    ensures NameFromLines(["NAME OF THE CANDIDATE", "JOHN Q SMITH"]) == "John Q Smith"
  {
    var lines := ["NAME OF THE CANDIDATE", "JOHN Q SMITH"];
    assert OccursAt(Upper(lines[0]), NameLabel, 0);
    NameLabelRule(lines, 0);
    JohnQSmith();
  }
}
