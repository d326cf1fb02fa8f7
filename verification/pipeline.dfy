/**
 * `process_transcript`: the file is turned into OCR text (every page of a
 * PDF, or the one image), and the name, the GPA and the verdict are all read
 * from that one text. Rasterising, opening an image and OCR are collaborators
 * the model takes as parameters over an abstract image type.
 */
module Pipeline {
  import opened Wrappers
  import opened PyText
  import opened NameExtraction
  import opened GpaExtraction
  import opened Eligibility

  /** What the pipeline reports for one transcript. */
  datatype Report<Image> = Report(
    name: string,
    gpa: Option<real>,
    eligibility: Verdict,
    summary: Summary,
    ocrText: string,
    previewImage: Image)

  /** A PDF that rasterises to no page has no first page to preview. */
  datatype PipelineError = NoPages

  /**
   * `file_path.lower().endswith(".pdf")`: the path ends in ".pdf" with each
   * letter in either case.
   */
  predicate IsPdfPath(path: string)
    ensures IsPdfPath(path) <==>
      |path| >= 4
      && path[|path| - 4] == '.'
      && path[|path| - 3] in {'p', 'P'}
      && path[|path| - 2] in {'d', 'D'}
      && path[|path| - 1] in {'f', 'F'}
  {
    LowerTail(path);
    EndsWith(Lower(path), ".pdf")
  }

  lemma LowerTail(path: string)
    ensures |path| >= 4 ==>
      Lower(path)[|path| - 4..] == [ToLower(path[|path| - 4]), ToLower(path[|path| - 3]), ToLower(path[|path| - 2]), ToLower(path[|path| - 1])]
  {
  }

  /** The OCR text of every page, in page order. */
  function OcrPages<Image>(pages: seq<Image>, ocr: Image -> string): (texts: seq<string>)
    ensures |texts| == |pages|
    ensures forall i :: 0 <= i < |pages| ==> texts[i] == ocr(pages[i])
  {
    seq(|pages|, i requires 0 <= i < |pages| => ocr(pages[i]))
  }

  /**
   * Everything downstream of the OCR text: the name, the GPA and the verdict
   * are all read from that one text.
   */
  function Analyse<Image>(text: string, preview: Image, threshold: real): (r: Report<Image>)
    ensures r.ocrText == text && r.previewImage == preview
    ensures r.name == ExtractName(text) && r.gpa == ExtractGpa(text)
    ensures (r.eligibility, r.summary) == Evaluate(r.gpa, threshold)
    ensures r.eligibility == GpaNotFound <==> r.gpa.None?
  {
    var gpa := ExtractGpa(text);
    var (verdict, summary) := Evaluate(gpa, threshold);
    Report(ExtractName(text), gpa, verdict, summary, text, preview)
  }

  /** `process_transcript(file_path, gpa_threshold)` */
  function ProcessTranscript<Image>(
    filePath: string,
    threshold: real,
    pdfToImages: string -> seq<Image>,
    openImage: string -> Image,
    ocr: Image -> string): (r: Result<Report<Image>, PipelineError>)
    ensures r.Err? <==> IsPdfPath(filePath) && pdfToImages(filePath) == []
    ensures r.Ok? && IsPdfPath(filePath) ==>
      var pages := pdfToImages(filePath);
      r.value.ocrText == Join("\n", OcrPages(pages, ocr)) && r.value.previewImage == pages[0]
    ensures !IsPdfPath(filePath) ==>
      r.Ok? && r.value.ocrText == ocr(openImage(filePath)) && r.value.previewImage == openImage(filePath)
    ensures r.Ok? ==>
      r.value.name == ExtractName(r.value.ocrText)
      && r.value.gpa == ExtractGpa(r.value.ocrText)
      && (r.value.eligibility, r.value.summary) == Evaluate(r.value.gpa, threshold)
    ensures r.Ok? ==> (r.value.eligibility == GpaNotFound <==> r.value.gpa.None?)
  {
    if IsPdfPath(filePath) then
      var pages := pdfToImages(filePath);
      var text := Join("\n", OcrPages(pages, ocr));
      if pages == [] then Err(NoPages) else Ok(Analyse(text, pages[0], threshold))
    else
      var image := openImage(filePath);
      Ok(Analyse(ocr(image), image, threshold))
  }

  /**
   * A report says "GPA NOT FOUND" exactly when the OCR text holds no
   * `digits.digits` substring at all.
   */
  lemma NotFoundIffNoDecimal<Image>(
    filePath: string,
    threshold: real,
    pdfToImages: string -> seq<Image>,
    openImage: string -> Image,
    ocr: Image -> string)
    requires ProcessTranscript(filePath, threshold, pdfToImages, openImage, ocr).Ok?
    ensures
      var rep := ProcessTranscript(filePath, threshold, pdfToImages, openImage, ocr).value;
      rep.eligibility == GpaNotFound <==>
        forall a: nat, b: nat :: a < b <= |rep.ocrText| ==> !IsDecimalText(rep.ocrText[a..b])
  {
    var rep := ProcessTranscript(filePath, threshold, pdfToImages, openImage, ocr).value;
    GpaNoneIff(rep.ocrText);
  }

  /**
   * A report names "UNKNOWN" exactly when no line of the OCR text has the
   * label and none of its first twenty non-blank lines is an all-capitals
   * name.
   */
  lemma UnknownNameIff<Image>(
    filePath: string,
    threshold: real,
    pdfToImages: string -> seq<Image>,
    openImage: string -> Image,
    ocr: Image -> string)
    requires ProcessTranscript(filePath, threshold, pdfToImages, openImage, ocr).Ok?
    ensures
      var rep := ProcessTranscript(filePath, threshold, pdfToImages, openImage, ocr).value;
      rep.name == Unknown <==> NoNameRuleApplies(NonBlankLines(rep.ocrText))
  {
    var rep := ProcessTranscript(filePath, threshold, pdfToImages, openImage, ocr).value;
    assert rep.name == ExtractName(rep.ocrText);
    ExtractNameUnknownIff(rep.ocrText);
  }

  // ---------------------------------------------------------------------------
  // Joining the pages
  // ---------------------------------------------------------------------------

  /** The non-blank lines of every page, page after page. */
  function PageLines(texts: seq<string>): (lines: seq<string>)
    ensures texts == [] ==> lines == []
  {
    if texts == [] then [] else NonBlankLines(texts[0]) + PageLines(texts[1..])
  }

  /** A line ending before the end of `a` is not moved by what follows `a`. */
  lemma {:induction false} LineEndOfPrefix(a: string, t: string, i: nat)
    requires i <= |a|
    requires LineEnd(a, i) < |a| || (t != [] && IsLineBreak(t[0]))
    ensures LineEnd(a + t, i) == LineEnd(a, i)
    decreases |a| - i
  {
    if i < |a| && !IsLineBreak(a[i]) {
      assert (a + t)[i] == a[i];
      LineEndOfPrefix(a, t, i + 1);
    } else if i == |a| {
      assert (a + t)[i] == t[0];
    } else {
      assert (a + t)[i] == a[i];
    }
  }

  /** The first line of `a + "\n" + b` when `a` itself holds no line break. */
  lemma SplitLinesJoinLast(a: string, b: string)
    requires LineEnd(a, 0) == |a|
    ensures SplitLines(a + "\n" + b) == [a] + SplitLines(b)
  {
    assert a + "\n" + b == a + ['\n'] + b;
    SplitLinesAtBreak(a, '\n', b);
  }

  /** The first line of `a + "\n" + b` when `a` ends in its only break, a CR. */
  lemma SplitLinesJoinCr(a: string, b: string)
    requires LineEnd(a, 0) == |a| - 1 && a[|a| - 1] == '\r'
    ensures SplitLines(a + "\n" + b) == [a[..|a| - 1]] + SplitLines(b)
    ensures SplitLines(a) == [a[..|a| - 1]]
  {
    var s := a + "\n" + b;
    var k := |a| - 1;
    LineEndOfPrefix(a, "\n" + b, 0);
    assert s == a + ("\n" + b);
    assert LineEnd(s, 0) == k;
    assert NextLineStart(s, k) == |a| + 1;
    assert s[..k] == a[..k] && s[|a| + 1..] == b;
    assert NextLineStart(a, k) == |a|;
    assert a[|a|..] == [];
  }

  /** The first line of `a + "\n" + b` when `a` has a break before its last character's. */
  lemma SplitLinesJoinInner(a: string, b: string)
    requires LineEnd(a, 0) < |a|
    requires !(LineEnd(a, 0) == |a| - 1 && a[|a| - 1] == '\r')
    ensures
      var k := LineEnd(a, 0);
      var n := NextLineStart(a, k);
      SplitLines(a) == [a[..k]] + SplitLines(a[n..])
      && SplitLines(a + "\n" + b) == [a[..k]] + SplitLines(a[n..] + "\n" + b)
  {
    var s := a + "\n" + b;
    var k := LineEnd(a, 0);
    var n := NextLineStart(a, k);
    LineEndOfPrefix(a, "\n" + b, 0);
    assert s == a + ("\n" + b);
    assert LineEnd(s, 0) == k;
    assert s[k] == a[k];
    if k + 1 < |a| {
      assert s[k + 1] == a[k + 1];
    }
    assert NextLineStart(s, k) == n;
    assert s[..k] == a[..k] && s[n..] == a[n..] + "\n" + b;
  }

  lemma JoinNoBreak(a: string, b: string)
    requires LineEnd(a, 0) == |a|
    ensures NonBlank(SplitLines(a + "\n" + b)) == NonBlank(SplitLines(a)) + NonBlank(SplitLines(b))
  {
    SplitLinesJoinLast(a, b);
    NonBlankAppend([a], SplitLines(b));
    if a == [] {
      assert Strip(a) == [];
      assert NonBlank([a]) == [];
    } else {
      assert SplitLines(a) == [a];
    }
  }

  lemma JoinCr(a: string, b: string)
    requires LineEnd(a, 0) == |a| - 1 && a[|a| - 1] == '\r'
    ensures NonBlank(SplitLines(a + "\n" + b)) == NonBlank(SplitLines(a)) + NonBlank(SplitLines(b))
  {
    SplitLinesJoinCr(a, b);
    NonBlankAppend([a[..|a| - 1]], SplitLines(b));
  }

  lemma JoinInner(a: string, b: string)
    requires LineEnd(a, 0) < |a|
    requires !(LineEnd(a, 0) == |a| - 1 && a[|a| - 1] == '\r')
    requires
      var rest := a[NextLineStart(a, LineEnd(a, 0))..];
      NonBlank(SplitLines(rest + "\n" + b)) == NonBlank(SplitLines(rest)) + NonBlank(SplitLines(b))
    ensures NonBlank(SplitLines(a + "\n" + b)) == NonBlank(SplitLines(a)) + NonBlank(SplitLines(b))
  {
    var k := LineEnd(a, 0);
    var rest := a[NextLineStart(a, k)..];
    SplitLinesJoinInner(a, b);
    ConsLine(a[..k], SplitLines(rest), SplitLines(rest + "\n" + b), SplitLines(b));
  }

  lemma ConsLine(x: string, p: seq<string>, q: seq<string>, t: seq<string>)
    requires NonBlank(q) == NonBlank(p) + NonBlank(t)
    ensures NonBlank([x] + q) == NonBlank([x] + p) + NonBlank(t)
  {
    NonBlankAppend([x], q);
    NonBlankAppend([x], p);
    ConcatAssoc(NonBlank([x]), NonBlank(q), NonBlank(p), NonBlank(t));
  }

  lemma ConcatAssoc<T>(h: seq<T>, a: seq<T>, b: seq<T>, c: seq<T>)
    requires a == b + c
    ensures h + a == (h + b) + c
  {
  }

  /**
   * Joining two texts with a newline puts the non-blank lines of the second
   * right after those of the first.
   */
  lemma {:induction false} NonBlankLinesJoin2(a: string, b: string)
    ensures NonBlankLines(a + "\n" + b) == NonBlankLines(a) + NonBlankLines(b)
    decreases |a|
  {
    var k := LineEnd(a, 0);
    if k == |a| {
      JoinNoBreak(a, b);
    } else if k == |a| - 1 && a[|a| - 1] == '\r' {
      JoinCr(a, b);
    } else {
      NonBlankLinesJoin2(a[NextLineStart(a, k)..], b);
      JoinInner(a, b);
    }
  }

  /**
   * The name rules see the non-blank lines of every page, in page order, as
   * if the pages were one document.
   */
  lemma {:induction false} NonBlankLinesOfPages(texts: seq<string>)
    ensures NonBlankLines(Join("\n", texts)) == PageLines(texts)
  {
    if |texts| == 1 {
      assert PageLines(texts) == NonBlankLines(texts[0]) + PageLines([]);
    } else if |texts| > 1 {
      NonBlankLinesJoin2(texts[0], Join("\n", texts[1..]));
      NonBlankLinesOfPages(texts[1..]);
    }
  }

  /** For a PDF, the name is read from the pages' lines taken in page order. */
  lemma PdfNameFromPageLines<Image>(
    filePath: string,
    threshold: real,
    pdfToImages: string -> seq<Image>,
    openImage: string -> Image,
    ocr: Image -> string)
    requires IsPdfPath(filePath)
    requires ProcessTranscript(filePath, threshold, pdfToImages, openImage, ocr).Ok?
    ensures ProcessTranscript(filePath, threshold, pdfToImages, openImage, ocr).value.name
      == NameFromLines(PageLines(OcrPages(pdfToImages(filePath), ocr)))
  {
    NonBlankLinesOfPages(OcrPages(pdfToImages(filePath), ocr));
  }
}
