/**
 * `evaluate_eligibility`: the four-way classification of a GPA against the
 * admission threshold, and the sentence that explains it.
 */
module Eligibility {
  import opened Wrappers

  /** The four outcomes of the classification. */
  datatype Verdict = Eligible | ReviewRecommended | NotEligible | GpaNotFound

  /** The verdict as the pipeline reports it. */
  function Label(v: Verdict): (s: string)
    ensures s != []
  {
    match v
    case Eligible => "ELIGIBLE"
    case ReviewRecommended => "REVIEW RECOMMENDED"
    case NotEligible => "NOT ELIGIBLE"
    case GpaNotFound => "GPA NOT FOUND"
  }

  /** Distinct verdicts are reported under distinct labels. */
  lemma LabelInjective(v: Verdict, w: Verdict)
    ensures Label(v) == Label(w) ==> v == w
  {
    if v != w {
      assert Label(v)[..3] != Label(w)[..3] || |Label(v)| != |Label(w)|;
    }
  }

  /**
   * The explanation, kept as its parts: which sentence applies and the two
   * numbers that are printed in it.
   */
  datatype Summary =
    | NotFoundSummary
    | AboveSummary(gpa: real, threshold: real)
    | SlightlyBelowSummary(gpa: real, threshold: real)
    | BelowSummary(gpa: real, threshold: real)

  const NotFoundMessage: string :=
    "The system could not find a GPA in this transcript. Please verify manually."

  /**
   * The explanation as text; `fmt2` is the two-decimal formatting of a number
   * (`{:.2f}`), which the model leaves abstract. Every sentence about a found
   * GPA opens with the formatted GPA and states the formatted threshold; the
   * wording between them says on which side of the threshold the GPA lies.
   */
  function SummaryText(s: Summary, fmt2: real -> string): (text: string)
    ensures s.NotFoundSummary? ==> text == NotFoundMessage
    ensures !s.NotFoundSummary? ==>
      var prefix := "The student has a GPA of " + fmt2(s.gpa);
      |prefix| <= |text| && text[..|prefix|] == prefix
    ensures s.AboveSummary? ==>
      text == "The student has a GPA of " + fmt2(s.gpa) + ", which is above the threshold of " + fmt2(s.threshold) + "."
    ensures s.SlightlyBelowSummary? ==>
      text == "The student has a GPA of " + fmt2(s.gpa) + ". This is slightly below the threshold of "
        + fmt2(s.threshold) + ". Manual review recommended."
    ensures s.BelowSummary? ==>
      text == "The student has a GPA of " + fmt2(s.gpa) + ", which is below the threshold of " + fmt2(s.threshold) + "."
  {
    match s
    case NotFoundSummary => NotFoundMessage
    case AboveSummary(g, t) =>
      "The student has a GPA of " + fmt2(g) + ", which is above the threshold of " + fmt2(t) + "."
    case SlightlyBelowSummary(g, t) =>
      "The student has a GPA of " + fmt2(g) + ". This is slightly below the threshold of "
      + fmt2(t) + ". Manual review recommended."
    case BelowSummary(g, t) =>
      "The student has a GPA of " + fmt2(g) + ", which is below the threshold of " + fmt2(t) + "."
  }

  /** The sentence that goes with each verdict. */
  predicate SummaryFits(v: Verdict, s: Summary) {
    match v
    case Eligible => s.AboveSummary?
    case ReviewRecommended => s.SlightlyBelowSummary?
    case NotEligible => s.BelowSummary?
    case GpaNotFound => s.NotFoundSummary?
  }

  /** `evaluate_eligibility(gpa, threshold)` */
  function Evaluate(gpa: Option<real>, threshold: real): (r: (Verdict, Summary))
    ensures r.0 == GpaNotFound <==> gpa.None?
    ensures gpa.Some? ==> (r.0 == Eligible <==> gpa.value >= threshold)
    ensures gpa.Some? ==> (r.0 == ReviewRecommended <==> threshold - 1.0 <= gpa.value < threshold)
    ensures gpa.Some? ==> (r.0 == NotEligible <==> gpa.value < threshold - 1.0)
    ensures SummaryFits(r.0, r.1)
    ensures gpa.Some? ==> r.1.gpa == gpa.value && r.1.threshold == threshold
  {
    match gpa
    case None => (GpaNotFound, NotFoundSummary)
    case Some(g) =>
      if g >= threshold then (Eligible, AboveSummary(g, threshold))
      else if g >= threshold - 1.0 then (ReviewRecommended, SlightlyBelowSummary(g, threshold))
      else (NotEligible, BelowSummary(g, threshold))
  }

  /** How favourable a verdict on a found GPA is. */
  function Rank(v: Verdict): nat {
    match v
    case NotEligible => 0
    case ReviewRecommended => 1
    case Eligible => 2
    case GpaNotFound => 0
  }

  /** A higher GPA never gets a less favourable verdict. */
  lemma EvaluateMonotoneInGpa(g1: real, g2: real, threshold: real)
    requires g1 <= g2
    ensures Rank(Evaluate(Some(g1), threshold).0) <= Rank(Evaluate(Some(g2), threshold).0)
  {
  }

  /** A higher threshold never gives a more favourable verdict. */
  lemma EvaluateAntitoneInThreshold(g: real, t1: real, t2: real)
    requires t1 <= t2
    ensures Rank(Evaluate(Some(g), t2).0) <= Rank(Evaluate(Some(g), t1).0)
  {
  }

  /** Both band boundaries are inclusive. */
  lemma EvaluateBoundaries(threshold: real)
    ensures Evaluate(Some(threshold), threshold).0 == Eligible
    ensures Evaluate(Some(threshold - 1.0), threshold).0 == ReviewRecommended
  {
  }
}
