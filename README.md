# Income Tax Act search: the text pipeline in Dafny

`income_tax_pdf_search/search_income_tax_act.py` downloads a statute PDF,
extracts the text of its pages, cuts the text into paragraphs, finds the
paragraphs that contain a query, and prints each match with one paragraph
of context on either side. This project models the four text-processing
stages of that script and proves what they promise.

- `extraction.dfy` (module `Extraction`): the page loop of
  `extract_pdf_text`. A page whose `extract_text()` gives nothing counts as
  `""`, and the page texts are joined with `"\n"`. It is a method with a
  loop, proved against `PageTexts` and `Join`.
- `paragraphs.dfy` (module `Paragraphs`): `split_into_paragraphs`. `Normalize` models
  `re.sub(r"\n\s*\n+", "\n\n", text)` as the left-to-right scan the regex
  engine performs, and `MatchLength` gives the length of the greedy
  match at a position. `CollapseRuns` is an independent reading that
  collapses each whitespace run, and it is proved to agree with the scan.
  `SplitIntoParagraphs` splits on `"\n\n"`, strips every chunk and keeps
  the non-empty ones. The paragraphs are proved to account for the whole
  normalised text. They appear in it in order, and only whitespace lies
  around and between them. Between two paragraphs that whitespace holds a
  blank line.
- `matches.dfy` (module `Matches`): `find_matches`. The needle is
  `Strip(Lower(query))` and the result lists the positions whose
  lower-cased paragraph contains the needle.
- `context.dfy` (module `Context`): the two loops of
  `show_matches_with_context`, as a method that returns the groups of
  labelled lines the loops print. `Present` is its functional
  specification.
- `strings.dfy` (module `Strings`): the Python string operations the
  script uses. These are `str.isspace` (which is also the regex `\s`), `strip`,
  `lower`, `in`, `join` and `split`.
- `scenario.dfy` (module `Scenario`): the whole pipeline on one small
  document, and the effect of a page with no text.

The code differs from a reading of the script's intent in one place. A
page with no text still adds its `"\n"` to the join. Between two
one-line pages that newline makes a blank line, so a page without text
can split in two what would otherwise be one paragraph
(`Scenario.EmptyPageSplitsParagraph`). The model follows the code.

## Model

| member | source | states |
|---|---|---|
| Strings.Strip | income_tax_pdf_search/search_income_tax_act.py:59 | `str.strip()`: its contract places the result right after the leading whitespace and makes it empty or bounded by non-whitespace; `StripTrims` and `StripUnique` pin it down |
| Strings.Lower | income_tax_pdf_search/search_income_tax_act.py:65-66 | `str.lower()` on ASCII letters; `LowerKeepsSpace` and `Matches.QueryCaseIgnored` state what the search relies on |
| Strings.Contains | income_tax_pdf_search/search_income_tax_act.py:66 | the `in` test on strings, specified by `ContainsIffOccurs` |
| Strings.Join | income_tax_pdf_search/search_income_tax_act.py:48 | `sep.join(xs)`, specified by `JoinSplit`, `SplitJoin` and `Extraction.JoinedLength` |
| Strings.Split | income_tax_pdf_search/search_income_tax_act.py:59 | `s.split(sep)`: never an empty list (its contract); `JoinSplit` shows that joining its pieces gives back the string, and `SplitJoin` that it gives back the pieces of a join when the list is not empty and no piece, nor a piece followed by the start of `sep`, contains `sep` (`Split(Join([], sep), sep)` is `[""]`) |
| Strings.StripTrims | income_tax_pdf_search/search_income_tax_act.py:59 | `strip` removes only whitespace from both ends, and its result is empty exactly when the string is all whitespace |
| Strings.StripUnique | income_tax_pdf_search/search_income_tax_act.py:59 | for any split `lead + r + trail` with whitespace ends and `r` not starting or ending in whitespace, `strip` gives `r` |
| Strings.StripPadding | income_tax_pdf_search/search_income_tax_act.py:65 | whitespace added around a string does not change its strip |
| Strings.LowerKeepsSpace | income_tax_pdf_search/search_income_tax_act.py:65 | lower-casing turns whitespace into whitespace and nothing else into whitespace |
| Strings.ContainsIffOccurs | income_tax_pdf_search/search_income_tax_act.py:66 | `t in s` holds exactly when `t` occurs in `s` at some position |
| Strings.JoinSplit | income_tax_pdf_search/search_income_tax_act.py:59 | joining the pieces of `s.split(sep)` with `sep` gives back `s` |
| Strings.SplitJoin | income_tax_pdf_search/search_income_tax_act.py:59 | splitting `sep.join(xs)` at `sep` gives back `xs` when no piece can produce a `sep` |
| Paragraphs.MatchLength | income_tax_pdf_search/search_income_tax_act.py:58 | the length of the greedy match of `\n\s*\n+` at the front of a text (0 when there is none), never past its end; specified by `MatchLengthLongest` and `GreedyExtent` |
| Paragraphs.Normalize | income_tax_pdf_search/search_income_tax_act.py:58 | `re.sub(r"\n\s*\n+", "\n\n", text)` as a left-to-right scan; specified by `NormalizeIsCollapseRuns`, `NormalizeBlankGap`, `NormalizeLeavesSingleBlankLines`, `NormalizeFixedPoints` and `NormalizeIdempotent` |
| Paragraphs.StripNonEmpty | income_tax_pdf_search/search_income_tax_act.py:59 | `[p.strip() for p in chunks if p.strip()]`; `ParagraphsWellFormed`, `ParagraphsEmptyIff` and `ParagraphsInDocumentOrder` state what it keeps |
| Paragraphs.SplitIntoParagraphs | income_tax_pdf_search/search_income_tax_act.py:53-60 | `split_into_paragraphs`: normalise, split at `"\n\n"`, strip and drop empty chunks; specified by the lemmas below from `ParagraphsWellFormed` on |
| Paragraphs.BlankGapIsPattern | income_tax_pdf_search/search_income_tax_act.py:58 | `BlankGap` is exactly the language of `\n\s*\n+` |
| Paragraphs.MatchLengthLongest | income_tax_pdf_search/search_income_tax_act.py:58 | the match found at a position is in the pattern's language and no longer prefix is |
| Paragraphs.GreedyExtent | income_tax_pdf_search/search_income_tax_act.py:58 | the match ends at the last newline of the whitespace run, and what remains of the run holds no newline |
| Paragraphs.NormalizeAppend | income_tax_pdf_search/search_income_tax_act.py:58 | the substitution works separately on both sides of a cut that falls outside any whitespace run |
| Paragraphs.NormalizeIsCollapseRuns | income_tax_pdf_search/search_income_tax_act.py:58 | the regex scan equals the run-by-run reading: in each whitespace run, the part from its first to its last newline becomes `"\n\n"` when there are two or more newlines |
| Paragraphs.NormalizeRun | income_tax_pdf_search/search_income_tax_act.py:58 | a single whitespace run is collapsed as described above |
| Paragraphs.NormalizeBlankGap | income_tax_pdf_search/search_income_tax_act.py:58 | any text in the pattern's language becomes exactly `"\n\n"` |
| Paragraphs.CollapsedIffSingle | income_tax_pdf_search/search_income_tax_act.py:58 | no match longer than two characters anywhere is the same as every blank-line gap being `"\n\n"` |
| Paragraphs.NormalizeLeavesSingleBlankLines | income_tax_pdf_search/search_income_tax_act.py:58 | after the substitution every blank-line gap is exactly `"\n\n"` |
| Paragraphs.NormalizeFixedPoints | income_tax_pdf_search/search_income_tax_act.py:58 | the substitution leaves a text unchanged exactly when all of its blank-line gaps are `"\n\n"` |
| Paragraphs.NormalizeIdempotent | income_tax_pdf_search/search_income_tax_act.py:58 | applying the substitution to its own output changes nothing |
| Paragraphs.NormalizeKeepsBlankness | income_tax_pdf_search/search_income_tax_act.py:58 | the output is all whitespace exactly when the input is |
| Paragraphs.ParagraphsWellFormed | income_tax_pdf_search/search_income_tax_act.py:58-59 | every paragraph is non-empty, has no whitespace at either end and does not span a blank line |
| Paragraphs.ParagraphsEmptyIff | income_tax_pdf_search/search_income_tax_act.py:58-59 | a text yields no paragraph exactly when it is empty or all whitespace |
| Paragraphs.ParagraphsInDocumentOrder | income_tax_pdf_search/search_income_tax_act.py:58-59 | the paragraphs occur in the normalised text at ascending, non-overlapping positions, in the order returned; before the first, after the last and between any two there is only whitespace, each stretch between two holds a blank line, and with no paragraph the whole text is whitespace |
| Paragraphs.ResegmentParagraphs | income_tax_pdf_search/search_income_tax_act.py:58-59 | well-formed paragraphs joined with `"\n\n"` segment back into the same list |
| Paragraphs.ParagraphsResegment | income_tax_pdf_search/search_income_tax_act.py:53-60 | segmenting `"\n\n".join` of the paragraphs gives the same paragraphs |
| Paragraphs.NormalizeJoined | income_tax_pdf_search/search_income_tax_act.py:58 | paragraphs joined with `"\n\n"` are left unchanged by the substitution |
| Paragraphs.BlankGapSeparates | income_tax_pdf_search/search_income_tax_act.py:58-59 | two paragraphs around any blank-line gap, whatever whitespace it holds, segment into exactly those two |
| Matches.Needle | income_tax_pdf_search/search_income_tax_act.py:65 | `query.lower().strip()`; `SameNeedleSameMatches`, `PaddingIgnored` and `QueryCaseIgnored` say what it keeps of the query |
| Matches.MatchesFrom | income_tax_pdf_search/search_income_tax_act.py:66 | the positions from `from` on whose lower-cased paragraph contains the needle, each in range, strictly ascending, and membership holds exactly for those positions |
| Matches.FindMatches | income_tax_pdf_search/search_income_tax_act.py:63-66 | the result is strictly ascending, within the list, and contains `i` exactly when the lower-cased paragraph `i` contains the stripped, lower-cased query |
| Matches.SameNeedleSameMatches | income_tax_pdf_search/search_income_tax_act.py:65-66 | the result depends on the query only through `query.lower().strip()` |
| Matches.PaddingIgnored | income_tax_pdf_search/search_income_tax_act.py:65 | whitespace around the query does not change the result |
| Matches.QueryCaseIgnored | income_tax_pdf_search/search_income_tax_act.py:65 | changing the case of letters in the query does not change the result |
| Matches.ParagraphCaseIgnored | income_tax_pdf_search/search_income_tax_act.py:66 | changing the case of letters in the paragraphs does not change the result |
| Context.WindowStart | income_tax_pdf_search/search_income_tax_act.py:78 | `max(0, idx - context_size)`; `WindowClamped` and `WindowWithinBounds` state the window it opens |
| Context.WindowEnd | income_tax_pdf_search/search_income_tax_act.py:79 | `min(len(paragraphs), idx + context_size + 1)`; `WindowClamped` and `WindowSize` state the window it closes |
| Context.LinesFrom | income_tax_pdf_search/search_income_tax_act.py:85-88 | the inner loop from a given position on, specified by `LinesFromShape` |
| Context.Window | income_tax_pdf_search/search_income_tax_act.py:78-88 | the lines printed for one match, specified by `WindowWithinBounds`, `WindowShowsMatch`, `WindowSize`, `RadiusZero`, `WindowOneMatch` and `WindowClamped` |
| Context.Present | income_tax_pdf_search/search_income_tax_act.py:71-88 | what the whole function prints, as a value; `PresentGroups` states its shape and `ShowMatchesWithContext` is proved to return it |
| Context.ShowMatchesWithContext | income_tax_pdf_search/search_income_tax_act.py:69-90 | the loops produce "no matches" for an empty list, and otherwise one group per match with the lines of `range(max(0, idx - k), min(n, idx + k + 1))` labelled MATCH at `idx` |
| Context.LinesFromShape | income_tax_pdf_search/search_income_tax_act.py:85-88 | the inner loop lists the positions from `start` to `end` in order, each with its own paragraph and labelled MATCH exactly at `idx` |
| Context.WindowWithinBounds | income_tax_pdf_search/search_income_tax_act.py:78-79 | every displayed position indexes the list, shows its own paragraph, and the positions are consecutive |
| Context.WindowShowsMatch | income_tax_pdf_search/search_income_tax_act.py:85-86 | the window around a position of the list contains that position labelled MATCH, and only that position is MATCH |
| Context.WindowSize | income_tax_pdf_search/search_income_tax_act.py:78-79 | a window has at most `2k + 1` lines, and none when the radius is negative |
| Context.RadiusZero | income_tax_pdf_search/search_income_tax_act.py:78-79 | with radius 0 only the matched paragraph is shown |
| Context.WindowOneMatch | income_tax_pdf_search/search_income_tax_act.py:85-86 | each group holds exactly one MATCH line |
| Context.WindowClamped | income_tax_pdf_search/search_income_tax_act.py:78-79 | the window starts at `max(0, idx - k)` and ends at `min(n - 1, idx + k)` |
| Context.PresentGroups | income_tax_pdf_search/search_income_tax_act.py:71-88 | "no matches" exactly for an empty match list; otherwise one group per match, in order, whose lines are the positions of `range(max(0, idx - k), min(n, idx + k + 1))`, consecutive, each with its own paragraph and labelled MATCH exactly at `idx`, so that a match inside the list with `k >= 0` has exactly one MATCH line |
| Extraction.PageText | income_tax_pdf_search/search_income_tax_act.py:41 | `page.extract_text() or ""`: a page without text gives `""`; `JoinedLength` and `PagesRecoverable` rely on it |
| Extraction.ExtractPdfText | income_tax_pdf_search/search_income_tax_act.py:39-48 | the loop collects the page texts and returns them joined with `"\n"` |
| Extraction.JoinedLength | income_tax_pdf_search/search_income_tax_act.py:48 | the joined text's length is the sum of the page lengths plus one per page boundary, and no pages give `""` |
| Extraction.PagesRecoverable | income_tax_pdf_search/search_income_tax_act.py:48 | when no page text holds a newline, splitting the joined text at newlines gives back the page texts in order |
| Scenario.PageJoinExample | income_tax_pdf_search/search_income_tax_act.py:48 | a single page `"Para A\n\n\nPara B"` is extracted as that text |
| Scenario.SegmentExample | income_tax_pdf_search/search_income_tax_act.py:58-59 | `"Para A\n\n\nPara B"` segments into `["Para A", "Para B"]` |
| Scenario.FindExample | income_tax_pdf_search/search_income_tax_act.py:63-66 | searching those paragraphs for `"para b"` gives `[1]` |
| Scenario.PresentExample | income_tax_pdf_search/search_income_tax_act.py:69-88 | with radius 1 the match at 1 shows paragraph 0 as CONTEXT and paragraph 1 as MATCH |
| Scenario.PagesWithoutGap | income_tax_pdf_search/search_income_tax_act.py:48-59 | two one-line pages form one two-line paragraph |
| Scenario.EmptyPageSplitsParagraph | income_tax_pdf_search/search_income_tax_act.py:41-59 | a page without text between them splits those two lines into two paragraphs |

## Left out

- `download_pdf_if_needed` (lines 20-31) is left out because it uses the network and the file system.
- PDF decoding (`PdfReader`, `page.extract_text()`) is outside the model. Each page arrives as the `Option<string>` the decoder returned.
- `main` (lines 93-121) is left out. It reads the query from the console, rejects an empty query, reports an empty paragraph list, and catches exceptions. `FindMatches` takes any query: an empty needle matches every paragraph.
- Console output is left out: the progress messages every 50 pages, the banners, and the 1-based numbers printed for matches and paragraphs. `ShowMatchesWithContext` returns what the loops would print instead of printing it.
- Strings.Lower: lower-cases ASCII letters only, while `str.lower` maps every Unicode letter. The properties proved rely only on lower-casing keeping whitespace and being the same for strings that differ in case.
- Paragraphs.Normalize models the one pattern `\n\s*\n+`, not a general regular-expression engine. Its greedy backtracking is written out in `MatchLength`.
