/**
 * `extract_gpa`: the number after the last "CGPA" / "GPA" / "CUMULATIVE GRADE
 * POINT AVERAGE" label, or else the last bare decimal in the text.
 *
 * The two `re.findall` calls are modelled as a left-to-right scan that takes
 * the leftmost match, resumes after its end and never overlaps. Backtracking
 * never changes a match of these patterns: `[^\d]*` must stop right before a
 * digit and `[0-9]+` must end right before the `.`, so the greedy choice is
 * the only one that can succeed (NumberAt and LabelAt state this as "a match
 * exists at p exactly when the greedy scan finds one").
 */
module GpaExtraction {
  import opened Wrappers
  import opened PyText

  // ---------------------------------------------------------------------------
  // Runs of digits and non-digits
  // ---------------------------------------------------------------------------

  /** The first index at or after `i` that is not a digit, or `|s|`. */
  function DigitRunEnd(s: string, i: nat): (k: nat)
    requires i <= |s|
    ensures i <= k <= |s|
    ensures k < |s| ==> !IsDigit(s[k])
    ensures forall j :: i <= j < k ==> IsDigit(s[j])
    decreases |s| - i
  {
    if i == |s| || !IsDigit(s[i]) then i else DigitRunEnd(s, i + 1)
  }

  /** The first index at or after `i` that is a digit, or `|s|`: the end of `[^\d]*`. */
  function NonDigitRunEnd(s: string, i: nat): (k: nat)
    requires i <= |s|
    ensures i <= k <= |s|
    ensures k < |s| ==> IsDigit(s[k])
    ensures forall j :: i <= j < k ==> !IsDigit(s[j])
    decreases |s| - i
  {
    if i == |s| || IsDigit(s[i]) then i else NonDigitRunEnd(s, i + 1)
  }

  // ---------------------------------------------------------------------------
  // Decimal text and its value
  // ---------------------------------------------------------------------------

  /** `t` splits at index `k` into `digits "." digits`. */
  predicate DecimalSplit(t: string, k: int) {
    0 < k < |t| - 1 && t[k] == '.' && AllDigits(t[..k]) && AllDigits(t[k + 1..])
  }

  /** `t` is the whole of a match of `[0-9]+\.[0-9]+`. */
  ghost predicate IsDecimalText(t: string) {
    exists k :: DecimalSplit(t, k)
  }

  function Pow10(n: nat): (r: nat)
    ensures r >= 1
  {
    if n == 0 then 1 else 10 * Pow10(n - 1)
  }

  /** The natural number written by a string of decimal digits. */
  function DigitsValue(t: string): nat
    requires AllDigits(t)
  {
    if t == [] then 0 else 10 * DigitsValue(t[..|t| - 1]) + (t[|t| - 1] as int - '0' as int)
  }

  /** A string of `n` digits writes a number below 10^n. */
  lemma {:induction false} DigitsValueBound(t: string)
    requires AllDigits(t)
    ensures DigitsValue(t) < Pow10(|t|)
    decreases |t|
  {
    if t != [] {
      DigitsValueBound(t[..|t| - 1]);
    }
  }

  /** Writing `b` after `a` shifts the value of `a` by `|b|` places and adds the value of `b`. */
  lemma {:induction false} DigitsValueConcat(a: string, b: string)
    requires AllDigits(a) && AllDigits(b)
    ensures AllDigits(a + b)
    ensures DigitsValue(a + b) == DigitsValue(a) * Pow10(|b|) + DigitsValue(b)
    decreases |b|
  {
    if b == [] {
      assert a + b == a;
    } else {
      var b' := b[..|b| - 1];
      DigitsValueConcat(a, b');
      assert (a + b)[..|a + b| - 1] == a + b';
      assert (a + b)[|a + b| - 1] == b[|b| - 1];
      MulShift(DigitsValue(a), Pow10(|b'|), Pow10(|b|));
    }
  }

  lemma MulShift(x: nat, p: nat, q: nat)
    requires q == 10 * p
    ensures 10 * (x * p) == x * q
  {
  }

  /** The exact value of `intPart "." fracPart`: its whole part is `intPart`, its fraction lies in [0, 1). */
  function DecimalValue(intPart: string, fracPart: string): (v: real)
    requires AllDigits(intPart) && AllDigits(fracPart)
    ensures DigitsValue(intPart) as real <= v < DigitsValue(intPart) as real + 1.0
  {
    DigitsValueBound(fracPart);
    FractionBelowOne(DigitsValue(fracPart) as real, Pow10(|fracPart|) as real);
    DigitsValue(intPart) as real + DigitsValue(fracPart) as real / Pow10(|fracPart|) as real
  }

  /**
   * The value of `intPart "." fracPart` is the integer its digits write
   * without the point, divided by ten to the number of digits after it.
   */
  lemma DecimalValueFraction(intPart: string, fracPart: string)
    requires AllDigits(intPart) && AllDigits(fracPart)
    ensures AllDigits(intPart + fracPart)
    ensures DecimalValue(intPart, fracPart) == DigitsValue(intPart + fracPart) as real / Pow10(|fracPart|) as real
  {
    DigitsValueConcat(intPart, fracPart);
    AsFraction(DigitsValue(intPart), DigitsValue(fracPart), Pow10(|fracPart|), DigitsValue(intPart + fracPart));
  }

  lemma AsFraction(whole: nat, frac: nat, scale: nat, n: nat)
    requires scale >= 1 && n == whole * scale + frac
    ensures whole as real + frac as real / scale as real == n as real / scale as real
  {
    var w, f, d := whole as real, frac as real, scale as real;
    assert (w + f / d) * d == w * d + (f / d) * d;
    assert (f / d) * d == f;
    assert (whole * scale) as real == w * d;
  }

  lemma FractionBelowOne(f: real, d: real)
    requires 0.0 <= f < d
    ensures 0.0 <= f / d < 1.0
  {
  }

  /** The index of the first '.' in `t` at or after `i`, or `|t|`. */
  function DotIndex(t: string, i: nat): (k: nat)
    requires i <= |t|
    ensures i <= k <= |t|
    ensures k < |t| ==> t[k] == '.'
    ensures forall j :: i <= j < k ==> t[j] != '.'
    decreases |t| - i
  {
    if i == |t| || t[i] == '.' then i else DotIndex(t, i + 1)
  }

  /**
   * `float(t)` on the strings the patterns can capture: it succeeds exactly
   * on `digits "." digits`, and the value is then non-negative.
   */
  function ParseDecimal(t: string): (r: Option<real>)
    ensures r.Some? <==> IsDecimalText(t)
    ensures r.Some? ==> r.value >= 0.0
  {
    var k := DotIndex(t, 0);
    if DecimalSplit(t, k) then Some(DecimalValue(t[..k], t[k + 1..])) else None
  }

  /**
   * `float()` of `a "." b` is the integer written by all the digits, divided
   * by ten to the number of digits after the point.
   */
  lemma ParseDecimalValue(a: string, b: string)
    requires a != [] && b != [] && AllDigits(a) && AllDigits(b)
    ensures AllDigits(a + b)
    ensures ParseDecimal(a + "." + b) == Some(DigitsValue(a + b) as real / Pow10(|b|) as real)
  {
    var t := a + "." + b;
    var k := DotIndex(t, 0);
    assert t[|a|] == '.';
    assert forall j :: 0 <= j < |a| ==> t[j] == a[j];
    assert k == |a|;
    assert t[..k] == a && t[k + 1..] == b;
    assert DecimalSplit(t, k);
    DecimalValueFraction(a, b);
  }

  // ---------------------------------------------------------------------------
  // One match at a position
  // ---------------------------------------------------------------------------

  /**
   * `[0-9]+\.[0-9]+` tried at `p`: the end of the match. A match exists
   * exactly when this finds one, and the one found takes every digit after
   * the point.
   */
  function NumberAt(s: string, p: nat): (r: Option<nat>)
    ensures r.Some? ==> p < r.value <= |s| && IsDecimalText(s[p..r.value])
    ensures r.Some? ==> r.value == |s| || !IsDigit(s[r.value])
    ensures r.None? ==> forall e :: p < e <= |s| ==> !IsDecimalText(s[p..e])
  {
    if p < |s| && IsDigit(s[p]) then
      var d := DigitRunEnd(s, p);
      if d + 1 < |s| && s[d] == '.' && IsDigit(s[d + 1]) then
        var e := DigitRunEnd(s, d + 1);
        ghost var t := s[p..e];
        ghost var whole, frac := t[..d - p], t[d - p + 1..];
        forall j | 0 <= j < |whole| ensures IsDigit(whole[j]) { assert whole[j] == s[p + j]; }
        forall j | 0 <= j < |frac| ensures IsDigit(frac[j]) { assert frac[j] == s[d + 1 + j]; }
        assert DecimalSplit(t, d - p);
        Some(e)
      else
        NoDecimalAt(s, p, d);
        None
    else
      NoDecimalAtNonDigit(s, p);
      None
  }

  /** What a split into `digits "." digits` says about each position. */
  lemma DecimalSplitFacts(t: string, k: int)
    requires DecimalSplit(t, k)
    ensures forall j :: 0 <= j < k ==> IsDigit(t[j])
    ensures t[k] == '.' && IsDigit(t[k + 1])
  {
    assert forall j :: 0 <= j < k ==> t[..k][j] == t[j];
    assert t[k + 1..][0] == t[k + 1];
  }

  /** A match of `[0-9]+\.[0-9]+` starts with a digit. */
  lemma NoDecimalAtNonDigit(s: string, p: nat)
    requires !(p < |s| && IsDigit(s[p]))
    ensures forall e :: p < e <= |s| ==> !IsDecimalText(s[p..e])
  {
    forall e | p < e <= |s|
      ensures !IsDecimalText(s[p..e])
    {
      if IsDecimalText(s[p..e]) {
        var k :| DecimalSplit(s[p..e], k);
        DecimalSplitFacts(s[p..e], k);
      }
    }
  }

  /** A match starting at a digit must have its point right where the digits stop. */
  lemma NoDecimalAt(s: string, p: nat, d: nat)
    requires p < |s| && d == DigitRunEnd(s, p)
    requires !(d + 1 < |s| && s[d] == '.' && IsDigit(s[d + 1]))
    ensures forall e :: p < e <= |s| ==> !IsDecimalText(s[p..e])
  {
    forall e | p < e <= |s|
      ensures !IsDecimalText(s[p..e])
    {
      if IsDecimalText(s[p..e]) {
        var k :| DecimalSplit(s[p..e], k);
        DecimalSplitFacts(s[p..e], k);
      }
    }
  }

  /** A matched span: the label (or the bare number) starts at `start`, the number at `numStart`, and the match ends at `end`. */
  datatype Span = Span(start: nat, numStart: nat, end: nat)

  /** The alternatives of the label group, in the order the regex tries them. */
  const Labels: seq<string> := ["CGPA", "GPA", "CUMULATIVE GRADE POINT AVERAGE"]

  /**
   * A match of `word[^\d]*[0-9]+\.[0-9]+` at `p` for one of the labels:
   * its number spans `s[m..e]`.
   */
  ghost predicate LabelledShape(s: string, p: nat, word: string, m: nat, e: nat) {
    StartsWithIgnoringCase(s, p, word) && p + |word| <= m < e <= |s|
      && NoDigit(s[p + |word|..m]) && IsDecimalText(s[m..e])
  }

  /** The whole pattern tried at `p` with one fixed label: the label, then `[^\d]*` as far as it goes, then a decimal. */
  function TryLabel(s: string, p: nat, word: string): (r: Option<Span>)
    ensures r.Some? ==> r.value.start == p && p + |word| <= r.value.numStart < r.value.end <= |s|
  {
    if StartsWithIgnoringCase(s, p, word) then
      var q := NonDigitRunEnd(s, p + |word|);
      match NumberAt(s, q)
      case Some(e) => Some(Span(p, q, e))
      case None => None
    else None
  }

  /** What `TryLabel` finds is a match of the pattern, and its number takes every digit there is. */
  lemma TryLabelSound(s: string, p: nat, word: string)
    requires TryLabel(s, p, word).Some?
    ensures var m := TryLabel(s, p, word).value;
      LabelledShape(s, p, word, m.numStart, m.end) && (m.end == |s| || !IsDigit(s[m.end]))
  {
  }

  /** If the pattern can be laid out at `p` with this label, `TryLabel` finds a match. */
  lemma TryLabelComplete(s: string, p: nat, word: string, m: nat, e: nat)
    requires LabelledShape(s, p, word, m, e)
    ensures TryLabel(s, p, word).Some?
  {
    var k :| DecimalSplit(s[m..e], k);
    assert IsDigit(s[m..e][..k][0]);
    assert m == NonDigitRunEnd(s, p + |word|);
  }

  /**
   * `(CGPA|GPA|CUMULATIVE GRADE POINT AVERAGE)[^\d]*([0-9]+\.[0-9]+)` tried
   * at `p`, the alternatives in the order the regex tries them.
   */
  function LabelAt(s: string, p: nat): (r: Option<Span>)
    ensures r.Some? ==> r.value.start == p <= r.value.numStart < r.value.end <= |s|
  {
    var a := TryLabel(s, p, Labels[0]);
    if a.Some? then a
    else
      var b := TryLabel(s, p, Labels[1]);
      if b.Some? then b
      else TryLabel(s, p, Labels[2])
  }

  /** A labelled match is a label, non-digits and a decimal whose digits run to the end of the match. */
  lemma LabelAtSound(s: string, p: nat)
    requires LabelAt(s, p).Some?
    ensures var m := LabelAt(s, p).value;
      (exists word :: word in Labels && LabelledShape(s, p, word, m.numStart, m.end))
      && (m.end == |s| || !IsDigit(s[m.end]))
  {
    var w := if TryLabel(s, p, Labels[0]).Some? then Labels[0]
      else if TryLabel(s, p, Labels[1]).Some? then Labels[1] else Labels[2];
    assert LabelAt(s, p) == TryLabel(s, p, w);
    TryLabelSound(s, p, w);
  }

  /** A labelled match exists at `p` exactly when the pattern can be laid out there: backtracking adds nothing. */
  lemma LabelAtComplete(s: string, p: nat, word: string, m: nat, e: nat)
    requires word in Labels && LabelledShape(s, p, word, m, e)
    ensures LabelAt(s, p).Some?
  {
    TryLabelComplete(s, p, word, m, e);
  }

  /** `[0-9]+\.[0-9]+` tried at `p`, as a span. */
  function BareAt(s: string, p: nat): (r: Option<Span>)
    ensures r.Some? ==> r.value.start == p == r.value.numStart && NumberAt(s, p) == Some(r.value.end)
    ensures r.None? <==> NumberAt(s, p).None?
  {
    match NumberAt(s, p)
    case Some(e) => Some(Span(p, p, e))
    case None => None
  }

  // ---------------------------------------------------------------------------
  // findall
  // ---------------------------------------------------------------------------

  /**
   * What a pattern gives when tried at each position of the text: entry `q`
   * is a match that starts at `q` and stays inside the text, or nothing.
   */
  ghost predicate MatchTable(t: seq<Option<Span>>) {
    forall q :: 0 <= q < |t| && t[q].Some? ==> t[q].value.start == q <= t[q].value.numStart < t[q].value.end <= |t|
  }

  /** Position `q` lies inside one of the spans `ms`. */
  ghost predicate Covered(ms: seq<Span>, q: nat) {
    exists i :: 0 <= i < |ms| && ms[i].start <= q < ms[i].end
  }

  /**
   * `ms` is what `re.findall` returns when scanning `t` from `p`: genuine
   * matches, in order and disjoint, and every position where a match could
   * start lies inside one of them.
   */
  ghost predicate ScanOf(t: seq<Option<Span>>, p: nat, ms: seq<Span>) {
    (forall i :: 0 <= i < |ms| ==> p <= ms[i].start < |t| && t[ms[i].start] == Some(ms[i]))
    && (forall i :: 0 <= i < |ms| ==> ms[i].start <= ms[i].numStart < ms[i].end <= |t|)
    && (forall i, j :: 0 <= i < j < |ms| ==> ms[i].end <= ms[j].start)
    && (forall q :: p <= q < |t| && t[q].Some? ==> Covered(ms, q))
  }

  /**
   * `re.findall` from position `p`: the leftmost match, then the scan again
   * from its end.
   */
  function FindAll(t: seq<Option<Span>>, p: nat): (ms: seq<Span>)
    requires MatchTable(t) && p <= |t|
    ensures ScanOf(t, p, ms)
    decreases |t| - p
  {
    if p == |t| then []
    else
      match t[p]
      case Some(m) =>
        var rest := FindAll(t, m.end);
        FindAllCons(t, p, m, rest);
        [m] + rest
      case None => FindAll(t, p + 1)
  }

  /** Putting the match found at `p` in front of the scan from its end gives a scan from `p`. */
  lemma FindAllCons(t: seq<Option<Span>>, p: nat, m: Span, rest: seq<Span>)
    requires MatchTable(t) && p < |t| && t[p] == Some(m)
    requires ScanOf(t, m.end, rest)
    ensures ScanOf(t, p, [m] + rest)
  {
    var ms := [m] + rest;
    ConsMatches(t, p, m, rest);
    ConsOrdered(m, rest);
    forall q | p <= q < |t| && t[q].Some? ensures Covered(ms, q) {
      ConsCovered(m, rest, q);
    }
  }

  lemma ConsMatches(t: seq<Option<Span>>, p: nat, m: Span, rest: seq<Span>)
    requires MatchTable(t) && p < |t| && t[p] == Some(m)
    requires forall i :: 0 <= i < |rest| ==> m.end <= rest[i].start < |t| && t[rest[i].start] == Some(rest[i])
    requires forall i :: 0 <= i < |rest| ==> rest[i].start <= rest[i].numStart < rest[i].end <= |t|
    ensures forall i :: 0 <= i < |[m] + rest| ==> p <= ([m] + rest)[i].start < |t| && t[([m] + rest)[i].start] == Some(([m] + rest)[i])
    ensures forall i :: 0 <= i < |[m] + rest| ==> ([m] + rest)[i].start <= ([m] + rest)[i].numStart < ([m] + rest)[i].end <= |t|
  {
    var ms := [m] + rest;
    assert forall i :: 1 <= i < |ms| ==> ms[i] == rest[i - 1];
  }

  lemma ConsOrdered(m: Span, rest: seq<Span>)
    requires m.start <= m.end
    requires forall i :: 0 <= i < |rest| ==> m.end <= rest[i].start
    requires forall i, j :: 0 <= i < j < |rest| ==> rest[i].end <= rest[j].start
    ensures forall i, j :: 0 <= i < j < |[m] + rest| ==> ([m] + rest)[i].end <= ([m] + rest)[j].start
  {
    var ms := [m] + rest;
    forall i, j | 0 <= i < j < |ms| ensures ms[i].end <= ms[j].start {
      if i == 0 {
        assert ms[j] == rest[j - 1];
      } else {
        assert ms[i] == rest[i - 1] && ms[j] == rest[j - 1];
      }
    }
  }

  lemma ConsCovered(m: Span, rest: seq<Span>, q: nat)
    requires m.start <= q
    requires m.end <= q ==> Covered(rest, q)
    ensures Covered([m] + rest, q)
  {
    var ms := [m] + rest;
    if q < m.end {
      assert ms[0].start <= q < ms[0].end;
    } else {
      var i :| 0 <= i < |rest| && rest[i].start <= q < rest[i].end;
      assert ms[i + 1] == rest[i];
    }
  }

  /** A position covered by ordered spans lies before the end of the last one. */
  lemma CoveredBeforeLastEnd(ms: seq<Span>, q: nat)
    requires forall i :: 0 <= i < |ms| ==> ms[i].start <= ms[i].end
    requires forall i, j :: 0 <= i < j < |ms| ==> ms[i].end <= ms[j].start
    requires Covered(ms, q)
    ensures q < ms[|ms| - 1].end
  {
    var i :| 0 <= i < |ms| && ms[i].start <= q < ms[i].end;
    if i < |ms| - 1 {
      assert ms[i].end <= ms[|ms| - 1].start;
    }
  }

  /** The first span of a scan is a match of the table. */
  lemma FirstScannedIsMatch(t: seq<Option<Span>>, ms: seq<Span>)
    requires ScanOf(t, 0, ms) && |ms| > 0
    ensures ms[0].start < |t| && t[ms[0].start].Some?
  {
  }

  /** The scan takes the leftmost match first. */
  lemma ScanStartsAtFirstMatch(t: seq<Option<Span>>, ms: seq<Span>, q0: nat)
    requires ScanOf(t, 0, ms) && q0 < |t| && t[q0].Some?
    requires forall q :: 0 <= q < q0 ==> t[q].None?
    ensures |ms| > 0 && ms[0] == t[q0].value
  {
    assert Covered(ms, q0);
    var i :| 0 <= i < |ms| && ms[i].start <= q0 < ms[i].end;
    assert forall j :: 0 <= j < |ms| ==> ms[j].start >= q0;
    assert ms[i].start == q0;
    assert i == 0;
  }

  /** When the text has a match, the scan finds one, and no match starts at or after the end of its last. */
  lemma LastOfScan(t: seq<Option<Span>>, ms: seq<Span>, q0: nat)
    requires ScanOf(t, 0, ms) && q0 < |t| && t[q0].Some?
    ensures |ms| > 0 && forall q :: ms[|ms| - 1].end <= q < |t| ==> t[q].None?
  {
    assert Covered(ms, q0);
    forall q | ms[|ms| - 1].end <= q < |t| ensures t[q].None? {
      if t[q].Some? {
        CoveredBeforeLastEnd(ms, q);
      }
    }
  }

  /** The first position at or after `p` where the table has a match, or `|t|`. */
  function NextMatch(t: seq<Option<Span>>, p: nat): (q: nat)
    requires p <= |t|
    ensures p <= q <= |t|
    ensures q < |t| ==> t[q].Some?
    ensures forall k :: p <= k < q ==> t[k].None?
    decreases |t| - p
  {
    if p == |t| || t[p].Some? then p else NextMatch(t, p + 1)
  }

  /** A scan over a stretch with no match is empty. */
  lemma ScanEmpty(t: seq<Option<Span>>, p: nat, ms: seq<Span>)
    requires ScanOf(t, p, ms)
    requires forall q :: p <= q < |t| ==> t[q].None?
    ensures ms == []
  {
    ScanFirst(t, p, ms);
  }

  lemma ScanFirst(t: seq<Option<Span>>, p: nat, ms: seq<Span>)
    requires ScanOf(t, p, ms)
    ensures |ms| > 0 ==> p <= ms[0].start < |t| && t[ms[0].start].Some?
  {
  }

  /** A scan from `p` starts with the first match at or after `p`. */
  lemma ScanHead(t: seq<Option<Span>>, p: nat, ms: seq<Span>, q0: nat)
    requires ScanOf(t, p, ms) && p <= q0 < |t| && t[q0].Some?
    requires forall q :: p <= q < q0 ==> t[q].None?
    ensures |ms| > 0 && ms[0] == t[q0].value && ms[0].start == q0 < ms[0].end
  {
    assert Covered(ms, q0);
    var i :| 0 <= i < |ms| && ms[i].start <= q0 < ms[i].end;
    assert forall j :: 0 <= j < |ms| ==> ms[j].start >= q0;
    assert i == 0;
  }

  /** After its first match, a scan is the scan from that match's end. */
  lemma ScanTail(t: seq<Option<Span>>, p: nat, ms: seq<Span>)
    requires ScanOf(t, p, ms) && |ms| > 0
    ensures ScanOf(t, ms[0].end, ms[1..])
  {
    var rest := ms[1..];
    forall i | 0 <= i < |rest| ensures ms[0].end <= rest[i].start {
      assert rest[i] == ms[i + 1];
    }
    forall q | ms[0].end <= q < |t| && t[q].Some? ensures Covered(rest, q) {
      assert Covered(ms, q);
      var i :| 0 <= i < |ms| && ms[i].start <= q < ms[i].end;
      assert i != 0;
      assert rest[i - 1] == ms[i];
    }
  }

  /**
   * `ScanOf` pins the scan down: two scans of the same table from the same
   * position are equal, so `FindAll`'s contract says all there is to say
   * about `re.findall`.
   */
  lemma {:induction false} ScanUnique(t: seq<Option<Span>>, p: nat, ms1: seq<Span>, ms2: seq<Span>)
    requires p <= |t|
    requires ScanOf(t, p, ms1) && ScanOf(t, p, ms2)
    ensures ms1 == ms2
    decreases |t| - p
  {
    var q0 := NextMatch(t, p);
    if q0 == |t| {
      ScanEmpty(t, p, ms1);
      ScanEmpty(t, p, ms2);
    } else {
      ScanHead(t, p, ms1, q0);
      ScanHead(t, p, ms2, q0);
      var e := ms1[0].end;
      assert e <= |t|;
      ScanTail(t, p, ms1);
      ScanTail(t, p, ms2);
      ScanUnique(t, e, ms1[1..], ms2[1..]);
      SameHeadSameTail(ms1, ms2);
    }
  }

  lemma SameHeadSameTail<T>(a: seq<T>, b: seq<T>)
    requires |a| > 0 && |b| > 0 && a[0] == b[0] && a[1..] == b[1..]
    ensures a == b
  {
    assert a == [a[0]] + a[1..];
    assert b == [b[0]] + b[1..];
  }

  /** The labelled pattern tried at every position of `s`. */
  function LabelTable(s: string): (t: seq<Option<Span>>)
    ensures |t| == |s| && MatchTable(t)
    ensures forall q :: 0 <= q < |s| ==> t[q] == LabelAt(s, q)
  {
    seq(|s|, q requires 0 <= q < |s| => LabelAt(s, q))
  }

  /** The bare-decimal pattern tried at every position of `s`. */
  function BareTable(s: string): (t: seq<Option<Span>>)
    ensures |t| == |s| && MatchTable(t)
    ensures forall q :: 0 <= q < |s| ==> t[q] == BareAt(s, q)
  {
    seq(|s|, q requires 0 <= q < |s| => BareAt(s, q))
  }

  /** `re.findall` of the labelled pattern: the leftmost non-overlapping scan of the text. */
  function LabelledMatches(s: string): (ms: seq<Span>)
    ensures ScanOf(LabelTable(s), 0, ms)
  {
    FindAll(LabelTable(s), 0)
  }

  /** `re.findall` of the bare-decimal pattern: the leftmost non-overlapping scan of the text. */
  function BareMatches(s: string): (ms: seq<Span>)
    ensures ScanOf(BareTable(s), 0, ms)
  {
    FindAll(BareTable(s), 0)
  }

  /** The number captured by a match. */
  function Group(s: string, m: Span): string
    requires m.numStart <= m.end <= |s|
  {
    s[m.numStart..m.end]
  }

  /** `extract_gpa`: any GPA found is non-negative, since neither pattern admits a sign. */
  function ExtractGpa(s: string): (r: Option<real>)
    ensures r.Some? ==> r.value >= 0.0
  {
    var lm := LabelledMatches(s);
    var labelled := if |lm| > 0 then ParseDecimal(Group(s, lm[|lm| - 1])) else None;
    if labelled.Some? then labelled
    else
      var bm := BareMatches(s);
      if |bm| > 0 then ParseDecimal(Group(s, bm[|bm| - 1])) else None
  }

  // ---------------------------------------------------------------------------
  // Properties of extract_gpa
  // ---------------------------------------------------------------------------

  /** Every captured group parses, so the `except` branch after the labelled search is never taken. */
  lemma LabelledGroupParses(s: string, m: Span)
    requires LabelAt(s, m.start) == Some(m)
    ensures ParseDecimal(Group(s, m)).Some?
  {
    LabelAtSound(s, m.start);
  }

  lemma ExtractGpaLabelledCase(s: string)
    requires |LabelledMatches(s)| > 0
    ensures var lm := LabelledMatches(s);
      ParseDecimal(Group(s, lm[|lm| - 1])).Some? && ExtractGpa(s) == ParseDecimal(Group(s, lm[|lm| - 1]))
  {
    var lm := LabelledMatches(s);
    LabelledGroupParses(s, lm[|lm| - 1]);
  }

  lemma ExtractGpaBareCase(s: string)
    requires |LabelledMatches(s)| == 0 && |BareMatches(s)| > 0
    ensures var bm := BareMatches(s);
      ParseDecimal(Group(s, bm[|bm| - 1])).Some? && ExtractGpa(s) == ParseDecimal(Group(s, bm[|bm| - 1]))
  {
    var bm := BareMatches(s);
    assert BareAt(s, bm[|bm| - 1].start).Some?;
  }

  /**
   * When the text has a labelled match anywhere, the GPA is the number of a
   * labelled match after which no labelled match starts, however many bare
   * decimals come later.
   */
  lemma GpaFromLastLabel(s: string, q0: nat)
    requires q0 < |s| && LabelAt(s, q0).Some?
    ensures exists m: Span ::
      LastLabelled(s, m) && ParseDecimal(Group(s, m)).Some? && ExtractGpa(s) == ParseDecimal(Group(s, m))
  {
    LastOfScan(LabelTable(s), LabelledMatches(s), q0);
    ExtractGpaLabelledCase(s);
    var lm := LabelledMatches(s);
    assert LastLabelled(s, lm[|lm| - 1]);
  }

  /** `m` is a labelled match and no labelled match starts at or after its end. */
  ghost predicate LastLabelled(s: string, m: Span) {
    LabelAt(s, m.start) == Some(m) && forall q: nat :: m.end <= q < |s| ==> LabelAt(s, q).None?
  }

  /**
   * With no labelled match, the GPA is the value of the last match of the
   * bare scan, whichever way that scan is described: any sequence of spans
   * that `ScanOf` accepts for the bare pattern ends in the decimal read.
   */
  lemma GpaFromLastBare(s: string, ms: seq<Span>)
    requires forall q: nat :: q < |s| ==> LabelAt(s, q).None?
    requires ScanOf(BareTable(s), 0, ms) && |ms| > 0
    ensures ParseDecimal(Group(s, ms[|ms| - 1])).Some?
    ensures ExtractGpa(s) == ParseDecimal(Group(s, ms[|ms| - 1]))
  {
    NoLabelledMatches(s);
    ScanUnique(BareTable(s), 0, ms, BareMatches(s));
    ExtractGpaBareCase(s);
  }

  lemma NoLabelledMatches(s: string)
    requires forall q: nat :: q < |s| ==> LabelAt(s, q).None?
    ensures LabelledMatches(s) == []
  {
    ScanEmpty(LabelTable(s), 0, LabelledMatches(s));
  }

  /** No GPA is found exactly when the text holds no `digits.digits` substring at all. */
  lemma GpaNoneIff(s: string)
    ensures ExtractGpa(s).None? <==> forall a: nat, b: nat :: a < b <= |s| ==> !IsDecimalText(s[a..b])
  {
    if ExtractGpa(s).Some? {
      var a, b := DecimalOfGpa(s);
    }
    if exists a: nat, b: nat :: a < b <= |s| && IsDecimalText(s[a..b]) {
      var a: nat, b: nat :| a < b <= |s| && IsDecimalText(s[a..b]);
      GpaOfDecimal(s, a, b);
    }
  }

  /** A GPA found is always read from a decimal written in the text. */
  lemma DecimalOfGpa(s: string) returns (a: nat, b: nat)
    requires ExtractGpa(s).Some?
    ensures a < b <= |s| && IsDecimalText(s[a..b])
  {
    var lm := LabelledMatches(s);
    if |lm| > 0 && ParseDecimal(Group(s, lm[|lm| - 1])).Some? {
      a, b := lm[|lm| - 1].numStart, lm[|lm| - 1].end;
    } else {
      var bm := BareMatches(s);
      a, b := bm[|bm| - 1].numStart, bm[|bm| - 1].end;
    }
  }

  /** Any decimal written in the text makes the bare search, at least, find a GPA. */
  lemma GpaOfDecimal(s: string, a: nat, b: nat)
    requires a < b <= |s| && IsDecimalText(s[a..b])
    ensures ExtractGpa(s).Some?
  {
    if |LabelledMatches(s)| > 0 {
      ExtractGpaLabelledCase(s);
    } else {
      BareFoundAt(s, a, b);
      ExtractGpaBareCase(s);
    }
  }

  /** A decimal at `a` is a bare match there, so the bare scan is not empty. */
  lemma BareFoundAt(s: string, a: nat, b: nat)
    requires a < b <= |s| && IsDecimalText(s[a..b])
    ensures |BareMatches(s)| > 0
  {
    var t := BareTable(s);
    assert NumberAt(s, a).Some?;
    assert t[a].Some?;
    var bm := BareMatches(s);
    assert ScanOf(t, 0, bm);
    assert Covered(bm, a);
  }



  /** Every alternative of the label group starts with a letter, so a text without letters has no labelled match. */
  lemma NoLetterNoLabel(s: string, p: nat)
    requires forall i :: 0 <= i < |s| ==> !IsLetter(s[i])
    ensures LabelAt(s, p).None?
  {
    forall w | w in Labels ensures !StartsWithIgnoringCase(s, p, w) {
      if p < |s| {
        assert !SameLetterIgnoringCase(s[p], w[0]);
      }
    }
  }

  lemma NoLabelledMatchWithoutLetters(s: string)
    requires forall i :: 0 <= i < |s| ==> !IsLetter(s[i])
    ensures LabelledMatches(s) == []
  {
    var t := LabelTable(s);
    forall q | 0 <= q < |s| ensures t[q].None? {
      NoLetterNoLabel(s, q);
    }
    var lm := LabelledMatches(s);
    if |lm| > 0 {
      FirstScannedIsMatch(t, lm);
    }
  }

  // ---------------------------------------------------------------------------
  // Overlapping decimals: "1.2.3"
  // ---------------------------------------------------------------------------

  /** Matches of `[0-9]+\.[0-9]+` start at positions 0 ("1.2") and 2 ("2.3") of "1.2.3". */
  lemma BareTableExample()
    ensures BareTable("1.2.3") == [Some(Span(0, 0, 3)), None, Some(Span(2, 2, 5)), None, None]
  {
    var s := "1.2.3";
    assert NumberAt(s, 0) == Some(3);
    assert NumberAt(s, 1) == None;
    assert NumberAt(s, 2) == Some(5);
    assert NumberAt(s, 3) == None;
    assert NumberAt(s, 4) == None;
  }

  /** `re.findall` does not overlap: in "1.2.3" it returns "1.2" only. */
  lemma BareScanExample()
    ensures BareMatches("1.2.3") == [Span(0, 0, 3)]
  {
    BareTableExample();
    ScanStartsAtFirstMatch(BareTable("1.2.3"), BareMatches("1.2.3"), 0);
  }

  lemma NoLabelExample()
    ensures LabelledMatches("1.2.3") == []
  {
    var s := "1.2.3";
    assert s[0] == '1' && s[1] == '.' && s[2] == '2' && s[3] == '.' && s[4] == '3';
    assert forall i :: 0 <= i < |s| ==> !IsLetter(s[i]);
    NoLabelledMatchWithoutLetters(s);
  }

  lemma ParseExample()
    ensures ParseDecimal("1.2") == Some(1.2)
  {
    assert DotIndex("1.2", 0) == 1;
    assert "1.2"[..1] == "1" && "1.2"[2..] == "2";
    assert DigitsValue("1") == 1 && DigitsValue("2") == 2;
  }

  /** The GPA read from "1.2.3" is 1.2. */
  lemma OverlappingDecimalsExample()
    ensures ExtractGpa("1.2.3") == Some(1.2)
  {
    var s := "1.2.3";
    BareScanExample();
    NoLabelExample();
    ExtractGpaBareCase(s);
    assert Group(s, Span(0, 0, 3)) == "1.2";
    ParseExample();
  }
}
