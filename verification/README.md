# Transcript analysis pipeline: a Dafny model

This project models the core of a transcript-screening service. A student's
transcript arrives as a PDF or an image. It is OCR'd into text. The
candidate's name and GPA are read from that text, and the GPA is classified
against an admission threshold as ELIGIBLE, REVIEW RECOMMENDED, NOT ELIGIBLE
or GPA NOT FOUND, with a one-sentence explanation.

Modules:

- `Wrappers` (`wrappers.dfy`): `Option` and `Result`.
- `PyText` (`pytext.dfy`): the Python string operations the core relies on,
  restricted to ASCII. These are `strip`, `splitlines`, `split`,
  `" ".join` / `"\n".join`, `upper`, `lower`, `endswith`, `isupper` and
  `title`. Each comes with the lemmas the rest of the model needs, such as
  `split()` undoing a single-space join, and the exact rule `title()`
  applies.
- `NameExtraction` (`name_extraction.dfy`): `extract_name` and `clean_name`.
  The label rule ("NAME OF THE CANDIDATE") comes first. Next is the
  all-capitals fallback, over the first 20 non-blank lines. Last is the
  `"UNKNOWN"` sentinel.
- `GpaExtraction` (`gpa_extraction.dfy`): `extract_gpa`.
  - Each pattern is tried at every position. The result is a table of the
    matches that start there.
  - `re.findall` is a left-to-right scan over that table. It takes the
    leftmost match, resumes at its end, and never overlaps. `ScanOf` states
    this, and `FindAll` is proved to satisfy it.
  - `float()` of a captured group is an exact `real` built from its digits.
    It is proved to succeed on every group either pattern can capture, so
    the `except` branch is never taken.
- `Eligibility` (`eligibility.dfy`): `evaluate_eligibility`. It gives four
  verdicts with inclusive lower bounds, plus the sentence that goes with
  each.
- `Pipeline` (`pipeline.dfy`): `process_transcript`.
  - Rasterising a PDF, opening an image and OCR are function parameters
    over an abstract image type.
  - The result is `Ok(Report)`, or `Err(NoPages)` for a PDF with no pages.
    The source indexes `images[0]` there and so raises.
  - Pages are joined with `"\n"`. The name extractor is proved to see the
    non-blank lines of every page, in page order. The GPA patterns scan the
    joined text itself. `[^\d]*` also crosses line breaks, so a label at the
    end of one page can take its number from the start of the next.

Two consequences of the code are worth stating:

- `clean_name` keeps a middle initial. Only a one-letter *last* word is
  dropped, and only when there are more than two words. So "JOHN Q SMITH"
  after the label gives "John Q Smith" (`NameExtraction.LabelThenName`).
- The name can be empty. This happens when the first label line is the last
  non-blank line and nothing but whitespace follows its last colon
  (`NameExtraction.LabelOnLastLine`, `NameExtraction.LabelAloneExample`).
  `NameExtraction.CleanNameIsNotUnknown` shows that the labelled result is
  never the sentinel, even then.

## Model

| member | source | states |
|---|---|---|
| PyText.StripIsSlice | transcript_pipeline.py:23 | `strip()` yields the slice left after removing only whitespace at both ends |
| PyText.Strip | transcript_pipeline.py:23 | the stripped line is empty or starts and ends with a non-whitespace character |
| PyText.StripEmptyIff | transcript_pipeline.py:23 | a line is dropped as blank exactly when every character is whitespace |
| PyText.SplitLines | transcript_pipeline.py:23 | `splitlines()` gives lines none of which holds a line break, and no line at all exactly for the empty text |
| PyText.SplitLinesOfLine | transcript_pipeline.py:23 | a non-empty text without a line break is one line |
| PyText.SplitLinesAtBreak | transcript_pipeline.py:23 | a line break that does not open a CR LF pair ends the line before it, and the rest is split on its own |
| PyText.SplitLinesAtCrLf | transcript_pipeline.py:23 | a CR LF pair is a single line break |
| PyText.Words | transcript_pipeline.py:42 | `split()` gives non-empty tokens without whitespace |
| PyText.WordsAtSpace | transcript_pipeline.py:42 | any whitespace character separates words: the words of `a + c + b` are those of `a`, then those of `b` |
| PyText.WordsOfToken | transcript_pipeline.py:42 | a non-empty run without whitespace is a single word |
| PyText.WordsEmptyIff | transcript_pipeline.py:34 | `split()` gives no word exactly when the text is all whitespace |
| PyText.JoinSnoc | transcript_pipeline.py:46 | `" ".join` of several parts is the join of all but the last, the separator, then the last part |
| PyText.Upper | transcript_pipeline.py:27 | `upper()` keeps the length and upper-cases each character on its own |
| PyText.Lower | transcript_pipeline.py:99 | `lower()` keeps the length and lower-cases each character on its own |
| PyText.IsUpperText | transcript_pipeline.py:35 | `isupper()` holds exactly when upper-casing changes nothing and lower-casing changes something, i.e. there is a cased letter and no lower-case one |
| PyText.WordsOfJoin | transcript_pipeline.py:42-46 | `split()` of a single-space join of whitespace-free, non-empty tokens gives the tokens back |
| PyText.TitleFromShape | transcript_pipeline.py:47 | title-casing keeps every character up to case; a letter becomes upper-case exactly when it does not follow a letter |
| PyText.Title | transcript_pipeline.py:47 | `title()` gives a title-cased string of the same length with the same letters up to case |
| NameExtraction.NonBlankLinesShape | transcript_pipeline.py:23 | every line the name rules see is non-empty, has no whitespace at either end and holds no line break |
| NameExtraction.NonBlankFromLines | transcript_pipeline.py:23 | a line is kept exactly when it is the non-empty strip of an input line: every kept line comes from one, and no input line with a non-blank strip is lost |
| NameExtraction.NonBlankAppend | transcript_pipeline.py:23 | the filter keeps order: the kept lines of `a + b` are those of `a`, then those of `b` |
| NameExtraction.NonBlankOne | transcript_pipeline.py:23 | a single line is kept, stripped, exactly when its strip is non-empty |
| NameExtraction.NonBlankLines | transcript_pipeline.py:23 | the lines the name rules see are stripped, non-empty and free of line breaks; `NonBlankLinesOfLine` and `NonBlankLinesAtBreak` fix which lines they are |
| NameExtraction.NonBlankLinesOfLine | transcript_pipeline.py:23 | a text without a line break yields its strip, unless that is empty |
| NameExtraction.NonBlankLinesAtBreak | transcript_pipeline.py:23 | across a line break (a CR LF pair counting as one), the lines seen are those before it, then those after it |
| NameExtraction.NonBlankLinesEmptyIff | transcript_pipeline.py:23 | the name rules see no line exactly when the text is all whitespace |
| NameExtraction.HasLabelIgnoringCase | transcript_pipeline.py:27 | the label test holds exactly when "NAME OF THE CANDIDATE" occurs in the line in any mix of case |
| NameExtraction.CapsNameCleaned | transcript_pipeline.py:34-35 | a line the capitals rule accepts is unchanged by `upper()` and cleans to two to four words |
| NameExtraction.KeptTokens | transcript_pipeline.py:43-44 | the kept tokens are a prefix of the tokens, shorter by one exactly when there are more than two and the last has one letter |
| NameExtraction.FirstWhere | transcript_pipeline.py:26-27 | the first index whose line satisfies the test: all earlier lines fail it, and None means no line passes |
| NameExtraction.AfterLastColon | transcript_pipeline.py:30 | `split(":")[-1]` is the colon-free suffix that is the whole line or follows a colon |
| NameExtraction.CleanName | transcript_pipeline.py:41-47 | the result's words are the input's words title-cased, less a one-letter last word when there are more than two; it is single-spaced and title-cased |
| NameExtraction.TitleOfJoin | transcript_pipeline.py:46-47 | title-casing a single-space join equals joining the title-cased words |
| NameExtraction.CleanNameOfJoin | transcript_pipeline.py:41-47 | on single-spaced words, `clean_name` joins the title-cased kept words |
| NameExtraction.CleanNameNotIdempotent | transcript_pipeline.py:43-44 | with two one-letter last words, a second `clean_name` removes one more word |
| NameExtraction.CleanNameTwice | transcript_pipeline.py:43-44 | "A B C D" cleans to "A B C", which cleans to "A B" |
| NameExtraction.JohnQSmith | transcript_pipeline.py:41-47 | "JOHN Q SMITH" cleans to "John Q Smith" |
| NameExtraction.CleanNameIsNotUnknown | transcript_pipeline.py:41-47 | `clean_name` never yields the "UNKNOWN" sentinel |
| NameExtraction.LabelledName | transcript_pipeline.py:28-30 | the name after a label is the cleaned next line, or the cleaned text after the label line's last colon; never the sentinel |
| NameExtraction.NameLabelRule | transcript_pipeline.py:26-30 | the first line containing the label (any case) decides the name |
| NameExtraction.NameCapsRule | transcript_pipeline.py:32-36 | without a label, the first all-capitals line of 2 to 4 words among the first 20 decides |
| NameExtraction.NameUnknownIff | transcript_pipeline.py:22-38 | "UNKNOWN" is returned exactly when no line has the label and none of the first 20 is an all-capitals 2-4 word line |
| NameExtraction.ExtractNameUnknownIff | transcript_pipeline.py:22-38 | `extract_name` of a text is "UNKNOWN" exactly when neither rule finds one of its non-blank lines |
| NameExtraction.NameFromLines | transcript_pipeline.py:22-38 | the name from the lines is "UNKNOWN" or single-spaced and title-cased |
| NameExtraction.ExtractName | transcript_pipeline.py:22-38 | `extract_name` returns "UNKNOWN" or a single-spaced, title-cased name |
| NameExtraction.CapsWindowOnly | transcript_pipeline.py:33 | without a label, lines after the twentieth never affect the name |
| NameExtraction.LabelOnLastLine | transcript_pipeline.py:26-30 | when the first label line is the last line and only whitespace follows its last colon, the name is the empty string |
| NameExtraction.LabelAloneExample | transcript_pipeline.py:28-30 | "NAME OF THE CANDIDATE:" as the only line gives the empty name |
| NameExtraction.LabelThenName | transcript_pipeline.py:26-29 | the label followed by "JOHN Q SMITH" yields "John Q Smith" |
| GpaExtraction.DigitsValueBound | transcript_pipeline.py:56 | `n` digits write a number below 10^n |
| GpaExtraction.DecimalValue | transcript_pipeline.py:56 | the value of `int.frac` lies in [int, int + 1) |
| GpaExtraction.DecimalValueFraction | transcript_pipeline.py:56 | the value of `int.frac` is the number written by all its digits divided by 10 to the number of fraction digits |
| GpaExtraction.ParseDecimal | transcript_pipeline.py:56 | `float()` of captured text succeeds exactly on `digits.digits`, and the value is non-negative |
| GpaExtraction.ParseDecimalValue | transcript_pipeline.py:56 | `float("a.b")` for digit strings `a` and `b` is exactly the number `ab` divided by 10^len(b) |
| GpaExtraction.NumberAt | transcript_pipeline.py:60 | the greedy `[0-9]+\.[0-9]+` match at a position is a decimal not followed by a digit; when it fails, no decimal starts there |
| GpaExtraction.TryLabel | transcript_pipeline.py:51 | a match for one label starts at the position, and its number starts after the label and ends inside the text |
| GpaExtraction.LabelAt | transcript_pipeline.py:51 | a labelled match starts at the position, and its number lies inside the text |
| GpaExtraction.BareAt | transcript_pipeline.py:60 | the bare pattern matches at a position exactly when a greedy decimal starts there, and the match is that decimal |
| GpaExtraction.TryLabelSound | transcript_pipeline.py:51 | a match found for one label is that label (any case), then non-digits, then a maximal decimal |
| GpaExtraction.TryLabelComplete | transcript_pipeline.py:51 | any way of laying out label, non-digits and decimal at a position is found |
| GpaExtraction.LabelAtSound | transcript_pipeline.py:51 | a labelled match at a position is one of the three alternatives followed by non-digits and a maximal decimal |
| GpaExtraction.LabelAtComplete | transcript_pipeline.py:51 | if any alternative can match at a position, the labelled pattern matches there |
| GpaExtraction.FindAll | transcript_pipeline.py:52 | `findall` returns genuine matches, in order and disjoint, and every position where a match could start lies inside one |
| GpaExtraction.LabelledMatches | transcript_pipeline.py:52 | the labelled `findall` is a leftmost non-overlapping scan of the labelled pattern over the text |
| GpaExtraction.BareMatches | transcript_pipeline.py:60 | the bare `findall` is a leftmost non-overlapping scan of the bare pattern over the text |
| GpaExtraction.ScanUnique | transcript_pipeline.py:52 | a leftmost non-overlapping scan is unique: two scans of the same match table from the same position are equal |
| GpaExtraction.ScanStartsAtFirstMatch | transcript_pipeline.py:52 | the first match returned is the leftmost match in the text |
| GpaExtraction.LastOfScan | transcript_pipeline.py:52 | if the text has a match, the scan is non-empty and no match starts after its last one ends |
| GpaExtraction.LabelledGroupParses | transcript_pipeline.py:55-58 | every captured group parses, so the `except` branch is dead |
| GpaExtraction.ExtractGpa | transcript_pipeline.py:50-64 | a GPA found is non-negative |
| GpaExtraction.ExtractGpaLabelledCase | transcript_pipeline.py:54-56 | with a labelled match, the GPA is the number of the last one |
| GpaExtraction.ExtractGpaBareCase | transcript_pipeline.py:60-62 | with no labelled match, the GPA is the last bare decimal |
| GpaExtraction.GpaFromLastLabel | transcript_pipeline.py:51-56 | a labelled match anywhere makes the GPA the number of a labelled match after which none starts, whatever bare decimals follow |
| GpaExtraction.GpaFromLastBare | transcript_pipeline.py:60-62 | with no labelled match, any sequence of spans that is a leftmost non-overlapping scan for the bare pattern ends in the decimal the GPA is read from |
| GpaExtraction.GpaNoneIff | transcript_pipeline.py:50-64 | no GPA is found exactly when the text holds no `digits.digits` substring |
| GpaExtraction.NoLabelledMatchWithoutLetters | transcript_pipeline.py:51-52 | a text without letters has no labelled match |
| GpaExtraction.BareScanExample | transcript_pipeline.py:60 | in "1.2.3" the bare scan returns only "1.2" (matches do not overlap) |
| GpaExtraction.OverlappingDecimalsExample | transcript_pipeline.py:60-62 | the GPA read from "1.2.3" is 1.2 |
| Eligibility.Label | transcript_pipeline.py:67-89 | each verdict is reported by its non-empty label |
| Eligibility.LabelInjective | transcript_pipeline.py:67-89 | distinct verdicts have distinct labels |
| Eligibility.SummaryText | transcript_pipeline.py:68-89 | the not-found message is fixed; each other verdict gets its own sentence, carrying the formatted GPA and threshold in the source's wording |
| Eligibility.Evaluate | transcript_pipeline.py:67-89 | GPA NOT FOUND iff no GPA; ELIGIBLE iff gpa >= threshold; REVIEW iff threshold - 1 <= gpa < threshold; NOT ELIGIBLE iff gpa < threshold - 1; the summary matches the verdict and carries both numbers |
| Eligibility.EvaluateMonotoneInGpa | transcript_pipeline.py:74-86 | a higher GPA never gets a worse verdict |
| Eligibility.EvaluateAntitoneInThreshold | transcript_pipeline.py:74-86 | a higher threshold never gets a better verdict |
| Eligibility.EvaluateBoundaries | transcript_pipeline.py:74-80 | gpa == threshold is ELIGIBLE and gpa == threshold - 1 is REVIEW RECOMMENDED |
| Pipeline.IsPdfPath | transcript_pipeline.py:99-102 | a path is treated as a PDF exactly when its last four characters are "." then p, d and f, each letter in either case |
| Pipeline.OcrPages | transcript_pipeline.py:104 | one OCR text per page, in page order |
| Pipeline.Analyse | transcript_pipeline.py:113-124 | the report carries the OCR text and preview it was given; its name and GPA are those extracted from that text, and its verdict and summary are the evaluation of that GPA; GPA NOT FOUND exactly when the GPA is absent |
| Pipeline.ProcessTranscript | transcript_pipeline.py:92-124 | error only for a PDF with no pages; PDF text is the page texts joined with "\n" and the preview is page 0; an image is OCR'd directly and is its own preview; name, GPA, verdict and summary all come from that one text |
| Pipeline.NotFoundIffNoDecimal | transcript_pipeline.py:113-115 | a report says GPA NOT FOUND exactly when its OCR text holds no decimal |
| Pipeline.UnknownNameIff | transcript_pipeline.py:113 | a report's name is "UNKNOWN" exactly when neither name rule applies to its OCR text |
| Pipeline.NonBlankLinesJoin2 | transcript_pipeline.py:104 | joining two texts with "\n" yields the non-blank lines of the first, then of the second |
| Pipeline.NonBlankLinesOfPages | transcript_pipeline.py:104 | the non-blank lines of the joined pages are each page's lines in page order |
| Pipeline.PdfNameFromPageLines | transcript_pipeline.py:103-113 | for a PDF, the name is read from the pages' lines taken in page order |

## Left out

- OCR (`pytesseract`), PDF rasterisation (`pdf2image`) and `Image.open` are function parameters. Their results are whatever those functions return.
- Exceptions raised inside those collaborators are not modelled. This covers an unreadable file, a corrupt PDF and an OCR failure.
- A PDF that rasterises to no pages makes the source raise on `images[0]`. It is modelled as `Err(NoPages)`.
- The `isinstance(file_path, str)` guard is not modelled. Dafny's types already make the path a string.
- Floating point is left out. The GPA is an exact `real`, and `gpa >= threshold` and `threshold - 1` are exact comparisons. Binary rounding of long decimals, and of thresholds near a band edge, is not modelled.
- Eligibility.SummaryText: the `{:.2f}` formatting of the two numbers is the abstract parameter `fmt2`, so the digits printed are not modelled.
- Character classes are ASCII only: whitespace, line breaks, digits (`\d`), upper/lower case, `title()` and `re.IGNORECASE`. Python's Unicode line separators, non-ASCII digits and non-ASCII case mappings are not modelled.
- `float()` accepts more syntaxes (signs, exponents, spaces, underscores, `inf`). Neither pattern can capture them, so only `digits.digits` is modelled.
- The web front end (`app.py`) is not part of this model. It covers file upload and display, including the "Not found" rendering of a missing GPA.
