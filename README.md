# Nexus text-processing core in Dafny

Nexus turns a career repository and a job description into a tailored resume
and a cover letter. A language model writes both documents as Markdown, and the
application renders them to PDF. All of the application's local logic is done
by four small text routines, and this project models those four:

- **The resume parser** (`parseMarkdownResume`, module `ParseResume`). It reads
  the generated resume line by line. Every header line (`### title | company |
  dates`, or a `**` line containing `|`) opens a position. Every `- ` or `* `
  bullet line is appended to the position opened last. Headings, separator
  lines and other text are skipped. The model renders the source's `for`
  loop as a `method` with a `while` loop. It is proved equal to `Parse`, a
  reference definition that groups the classified lines by header.
- **The reply cleaner** (`extractJSON`, module `Claude`). It strips a Markdown
  code fence from a model reply. The regular expression
  ```` /```(?:json)?\s*([\s\S]*?)```/ ```` is modelled twice:
  - `RegexMatch` says what the pattern can match.
  - `Match` is the scan that picks the match a backtracking engine returns.
- **The cover-letter cleaner and greeting** (`parseCoverLetter`, module
  `CoverLetter`). It splits the letter at blank lines. Each paragraph then goes
  through the chain of global replacements: heading marks, bold, italic, list
  marks, newlines, the misencoded em dash, whitespace runs, and a final trim.
  Each replacement is a left-to-right scan, as a global `replace` performs it.
- **The resume enrichment** (`formatDate`, `positionMetadata`,
  `enrichedPositions`, module `ResumePdf`).
  - `formatDate` turns `YYYY-MM` into `Month YYYY`. JavaScript's `parseInt` is
    modelled with its NaN result, and so is the `undefined` printed for a month
    outside the name table.
  - The metadata `forEach` is a method whose loop fills a `map`. It is proved
    equal to `ExpectedMetadata`, a definition that does not depend on the order
    of the blocks.
  - Each parsed position takes company and dates from the first matched block
    whose title contains its title, or is contained in it.

The shared JavaScript string semantics live in `JsText`:
- whitespace is the ECMAScript WhiteSpace and LineTerminator set, shared by
  `\s` and `trim()`;
- `trim`;
- `split` on one character, which yields n + 1 fields for n separators;
- `startsWith` and `includes`.

`Types` mirrors the record shapes of the repository that the rendering code
reads.

The parser keeps no summary. It leaves dashes in bullets as written, keeps
bullets of any non-empty length and keeps duplicates. It does not stop at an
Education heading, so bullets after `## Education` go to the last position.

## Model

| member | source | states |
|---|---|---|
| ParseResume.ParseMarkdownResume | src/lib/parseResume.ts:14-87 | The loop returns, for every input string, exactly `Parse(markdown)`: the lines split at `\n`, each trimmed and classified, grouped so that each header line opens a position and each non-empty bullet joins the position opened last. |
| ParseResume.ReadLine | src/lib/parseResume.ts:20-79 | One pass of the loop body. With the open position flushed, the positions after the line are `Step` of the positions before it. A position is stored only once one is open. |
| ParseResume.GroupedSnoc | src/lib/parseResume.ts:20-84 | Adding one line at the end of the input applies one `Step` to the grouped result. This is the reference grouping read left to right. |
| ParseResume.Parse | src/lib/parseResume.ts:14-87 | The reference parse: the lines split at `\n`, each trimmed and classified, then grouped. There are never more positions than lines. |
| ParseResume.Grouped | src/lib/parseResume.ts:20-84 | The reference grouping: one position per header line, holding the bullets up to the next header. There are never more positions than lines. |
| ParseResume.Classify | src/lib/parseResume.ts:24-78 | The branch a trimmed line takes. A line is skipped exactly when the skip test holds. It is a header exactly when it is not skipped and is a `### ` line or a `**` line containing a pipe. The header holds the fields of the text after `### `, or of the line with `**` removed and trimmed. A line is a bullet exactly when it is neither skipped nor a header and starts with `- ` or `* `. The bullet of a trimmed line is the text after the marker, trimmed, and is never empty. |
| ParseResume.IsSkipped | src/lib/parseResume.ts:24-29 | Every line made only of pipe, `*`, `-` and whitespace is skipped, the empty line included. A skipped non-empty line starts with `#` or one of those characters. |
| ParseResume.OnlyFormatting | src/lib/parseResume.ts:29 | The pattern for stray formatting lines holds exactly when the line is non-empty and every character is a pipe, `*`, `-` or whitespace. |
| ParseResume.HeaderFields | src/lib/parseResume.ts:43-50 | A header without a pipe gives only a title, the header trimmed, with an empty company and empty dates. |
| ParseResume.GroupedHeaders | src/lib/parseResume.ts:34-69 | There are as many positions as header lines. The k-th position carries the title, company and dates of the k-th header line, in input order. |
| ParseResume.HeaderFieldsOfJoin | src/lib/parseResume.ts:43-50 | For a header made of pipe-separated fields: title, company and dates are the first three fields, trimmed. A missing field gives `""`, and fields beyond the third are dropped. |
| ParseResume.HeaderFieldsClean | src/lib/parseResume.ts:43-50 | Every header field is trimmed and contains no pipe. |
| ParseResume.TrimmedFieldsCount | src/lib/parseResume.ts:43 | Splitting a header gives one field more than it has pipe characters. |
| ParseResume.RemoveDoubleStars | src/lib/parseResume.ts:60 | Removing every `**` leaves no two adjacent asterisks and never lengthens the line. A first character other than `*` is kept. |
| ParseResume.RemoveDoubleStarsKeepsText | src/lib/parseResume.ts:60 | Removing `**` deletes only asterisks: every other character of a `**` header line survives, in order, to be split into fields. |
| ParseResume.RemoveDoubleStarsNoop | src/lib/parseResume.ts:60 | A line without `**` is unchanged. |
| ParseResume.RemoveDoubleStarsIdempotent | src/lib/parseResume.ts:60 | Removing `**` twice is the same as removing it once. |
| ParseResume.InertLineChangesNothing | src/lib/parseResume.ts:21-33 | Inserting a skipped line or an unclassified line anywhere leaves the result unchanged. Skipped lines are blank lines, `# ` and `## ` headings, pipe, `**`, and lines of only pipe, `*`, `-` and whitespace. Such a line does not close the open position. |
| ParseResume.LinesBeforeFirstHeaderDropped | src/lib/parseResume.ts:71-78 | Lines before the first header, bullets included, contribute nothing. |
| ParseResume.StoredBulletsFromBulletLines | src/lib/parseResume.ts:71-78 | Every stored bullet is non-empty and is the text of some bullet line of the input. |
| ParseResume.BulletText | src/lib/parseResume.ts:73-75 | The text of a trimmed `- ` or `* ` line is the line without its marker, trimmed, and it is never empty. |
| ParseResume.BulletMarkerStripped | src/lib/parseResume.ts:73 | The marker replacement removes the marker and all the whitespace after it. |
| ParseResume.StripBulletMarker | src/lib/parseResume.ts:73 | The result is a suffix of the line. When anything is removed, it is a `-` or `*` marker and whitespace only, and the rest does not start with whitespace. |
| Claude.ExtractJson | src/lib/claude.ts:34-44 | The result is always trimmed. When the pattern finds no fence, the result is the whole reply trimmed. |
| Claude.FindFence | src/lib/claude.ts:36 | Returns the first three-backtick run at or after a position, or none when there is none. |
| Claude.SkipWs | src/lib/claude.ts:36 | Greedy `\s*`: it covers only whitespace and stops before a non-whitespace character. |
| Claude.SkipWsIsWsRun | src/lib/claude.ts:36 | The scan's `\s*` is the shared greedy whitespace run taken from the index. |
| Claude.RegexMatch | src/lib/claude.ts:36 | What the pattern can match: an opening fence, the optional `json` tag, whitespace, the lazy body and a closing fence. The body lies after the opening fence and the closing fence lies within the text. |
| Claude.Match | src/lib/claude.ts:36-37 | A match the scan returns is a match of the pattern. |
| Claude.MatchComplete | src/lib/claude.ts:36-37 | Whenever the pattern can match, the scan finds a match. |
| Claude.MatchPreferred | src/lib/claude.ts:36-37 | The scan returns the match the engine prefers: the leftmost start, then the `json` tag when it can be taken, then the longest `\s*`, then the shortest lazy body. |
| Claude.FencedResultHasNoFence | src/lib/claude.ts:36-41 | A fenced result never contains three backticks. |
| Claude.NoFenceNoMatch | src/lib/claude.ts:36-37 | Text without three backticks does not match. |
| Claude.FencePairMatches | src/lib/claude.ts:36-37 | Two non-overlapping fences always produce a match. |
| Claude.NoMatchInfix | src/lib/claude.ts:37-43 | A substring of a reply that does not match does not match either. |
| Claude.ExtractJsonIdempotent | src/lib/claude.ts:34-44 | Cleaning a reply twice is the same as cleaning it once. |
| Claude.MatchFencedReply | src/lib/claude.ts:36-37 | For any reply that opens a fence, tagged `json` or not, after text without backticks, the scan takes the tag exactly when there is one, and the whole whitespace run after it. The body runs up to the next fence, when the body has no backtick and does not start with whitespace. An untagged body right after the fence must not itself start with `json`. |
| Claude.ExtractJsonFencedReply | src/lib/claude.ts:34-44 | Such a reply, tagged or not, yields its body trimmed, whatever text precedes or follows the fence. |
| JsText.Trim | src/lib/claude.ts:43 | `trim()` leaves no whitespace at either end, and leaves a trimmed string unchanged. |
| JsText.TrimStart | src/lib/parseResume.ts:73 | Removes exactly the leading whitespace run. |
| JsText.TrimStartIsWsRun | src/lib/parseResume.ts:73 | `trimStart()` drops exactly the whitespace run that a greedy `\s*` takes. |
| JsText.TrimEnd | src/lib/parseResume.ts:21 | Removes exactly the trailing whitespace run. |
| JsText.TrimIsInfix | src/lib/claude.ts:40 | The trimmed string is a contiguous substring of the input. |
| JsText.TrimNoNewChar | src/lib/claude.ts:40 | Trimming introduces no character. |
| JsText.TrimAfterTrimStart | src/lib/parseResume.ts:73 | Trimming after removing the leading whitespace is the same as trimming. |
| JsText.SplitFields | src/lib/parseResume.ts:16 | `split(sep)` yields one field more than there are separators, and no field contains the separator. |
| JsText.JoinSplit | src/lib/parseResume.ts:16 | Joining the fields with the separator gives back the text. |
| JsText.SplitJoin | src/lib/parseResume.ts:16 | Splitting fields joined by the separator gives back the fields, when no field contains the separator. |
| JsText.SplitNoSeparator | src/components/ResumePDF.tsx:233 | Text without the separator splits into itself alone. |
| JsText.Split | src/lib/parseResume.ts:16 | `split` on one character always yields at least one field. |
| JsText.StartsWith | src/lib/parseResume.ts:25-26 | `startsWith`: the prefix of the text of the pattern's length is the pattern. |
| JsText.Contains | src/components/ResumePDF.tsx:161-162 | `includes`: a text never includes a longer text, and includes every prefix of itself. |
| JsText.ContainsIff | src/components/ResumePDF.tsx:161-162 | `includes` holds exactly when the text occurs at some position. |
| CoverLetter.ParseCoverLetter | src/components/CoverLetterPDF.tsx:137-167 | There is one output paragraph per non-blank trimmed block, in order. No paragraph contains a newline, any has surrounding whitespace, or any has two adjacent whitespace characters. |
| CoverLetter.CleanParagraph | src/components/CoverLetterPDF.tsx:145-166 | The replacement chain leaves no newline and no surrounding whitespace. Its only whitespace is single spaces. |
| CoverLetter.SkipNewlines | src/components/CoverLetterPDF.tsx:140 | Skips a leading run of newlines and returns the rest of the text. |
| CoverLetter.SplitBlankLines | src/components/CoverLetterPDF.tsx:140 | Splitting at runs of two or more newlines yields at least one field. The first field begins with the text's first character, unless the text begins with a blank line. |
| CoverLetter.SplitBlankLinesFields | src/components/CoverLetterPDF.tsx:140 | No field contains two adjacent newlines. |
| CoverLetter.SplitJoinParagraphs | src/components/CoverLetterPDF.tsx:140 | Blocks joined by blank lines split back into the same blocks. |
| CoverLetter.Paragraphs | src/components/CoverLetterPDF.tsx:139-142 | The kept paragraphs are trimmed and non-empty, and none holds a blank line. There are never more of them than fields. |
| CoverLetter.NonBlank | src/components/CoverLetterPDF.tsx:141-142 | The kept blocks are trimmed and non-empty. There are never more of them than fields. |
| CoverLetter.NonBlankOfTrimmed | src/components/CoverLetterPDF.tsx:141-142 | Trimmed non-empty blocks are all kept, unchanged. |
| CoverLetter.ParagraphsOfJoin | src/components/CoverLetterPDF.tsx:139-142 | Trimmed paragraphs without blank lines, joined by blank lines, come back as exactly those paragraphs in order. |
| CoverLetter.ParseCoverLetterOfPlainText | src/components/CoverLetterPDF.tsx:139-166 | Such a letter gives, for each paragraph in order, exactly that paragraph cleaned by the replacement chain. |
| CoverLetter.ParseCoverLetterRoundTrip | src/components/CoverLetterPDF.tsx:137-167 | Plain paragraphs joined by blank lines come back exactly. The paragraphs are trimmed and single-spaced, with no `#`, `*`, `-` or U+00E2. |
| CoverLetter.CleanParagraphOfPlainText | src/components/CoverLetterPDF.tsx:145-166 | A plain paragraph of that kind goes through the whole replacement chain unchanged. |
| CoverLetter.StripLineMarks | src/components/CoverLetterPDF.tsx:147 | Removing line-start marks never lengthens the text. |
| CoverLetter.StripLineMarksKeepsText | src/components/CoverLetterPDF.tsx:147 | Removing `#+\s+` or `[-*]\s+` at line starts deletes only marker characters and whitespace. Every other character survives, in order. |
| CoverLetter.StripLineMarksNoMark | src/components/CoverLetterPDF.tsx:154 | Text with no marker character is unchanged. |
| CoverLetter.ListMarkRemoved | src/components/CoverLetterPDF.tsx:154 | A list item `- text` or `* text` loses its marker and the space after it. |
| CoverLetter.LineBreakListMarkRemoved | src/components/CoverLetterPDF.tsx:154 | With the multiline flag, a list marker that opens a later line is removed as well, and the text before the line break is kept. |
| CoverLetter.HeadingMarkRemoved | src/components/CoverLetterPDF.tsx:147 | A heading, one or more `#` and any whitespace run before its title, becomes its title. `## Title` becomes `Title`. |
| CoverLetter.LineBreakHeadingMarkRemoved | src/components/CoverLetterPDF.tsx:147 | With the multiline flag, a heading marker that opens a later line is removed as well, and the text before the line break is kept. |
| CoverLetter.HashRun | src/components/CoverLetterPDF.tsx:147 | `#+` takes the whole run of leading `#` characters. |
| CoverLetter.NonStarRun | src/components/CoverLetterPDF.tsx:150 | `[^*]+` takes the whole run of characters before the next `*`. |
| CoverLetter.Unwrap | src/components/CoverLetterPDF.tsx:150-151 | The bold and italic replacements never lengthen the text. |
| CoverLetter.UnwrapKeepsText | src/components/CoverLetterPDF.tsx:150-151 | The bold and italic replacements delete only asterisks. |
| CoverLetter.UnwrapWrapped | src/components/CoverLetterPDF.tsx:150-151 | `**x**` or `*x*` with a non-empty x without `*` is replaced by x. The scan then continues after the closing delimiter. |
| CoverLetter.UnwrapNoStar | src/components/CoverLetterPDF.tsx:150-151 | Text without asterisks is unchanged. |
| JsText.Unstarred | src/components/CoverLetterPDF.tsx:150-151 | The text without its asterisks contains no asterisk. |
| CoverLetter.NewlinesToSpaces | src/components/CoverLetterPDF.tsx:157 | The same length, no newline left, and every other character kept in place. |
| CoverLetter.NewlinesToSpacesOfClean | src/components/CoverLetterPDF.tsx:157 | Text whose only whitespace is spaces has no newline to replace. |
| CoverLetter.FixMisencodedDash | src/components/CoverLetterPDF.tsx:160 | Replacing each dash and its surrounding whitespace by `, ` never lengthens the text. |
| CoverLetter.FixMisencodedDashNoop | src/components/CoverLetterPDF.tsx:160 | Text without U+00E2 is unchanged, so a real U+2014 em dash is kept. |
| CoverLetter.FixMisencodedDashBetween | src/components/CoverLetterPDF.tsx:160 | `x`, any whitespace run, the misencoded em dash, any whitespace run and `y` becomes `x, y`. The runs may be empty. |
| CoverLetter.CollapseWs | src/components/CoverLetterPDF.tsx:163 | After collapsing, no two whitespace characters are adjacent and every whitespace character is a space. The text starts with whitespace exactly when the input does. |
| CoverLetter.Unspaced | src/components/CoverLetterPDF.tsx:163 | The text without its whitespace contains no whitespace. |
| CoverLetter.CollapseWsKeepsText | src/components/CoverLetterPDF.tsx:163 | Collapsing changes only whitespace: the non-whitespace characters are kept, in order. |
| CoverLetter.CollapseWsOfClean | src/components/CoverLetterPDF.tsx:163 | Text that already has only single spaces is unchanged by collapsing. |
| CoverLetter.TrimKeepsClean | src/components/CoverLetterPDF.tsx:163 | The final trim keeps the collapsed form. |
| CoverLetter.Greeting | src/components/CoverLetterPDF.tsx:99-101 | The greeting always begins with `Dear `. |
| CoverLetter.GreetingNamesCompany | src/components/CoverLetterPDF.tsx:99-101 | The greeting addresses the company's hiring team exactly when a non-empty company name is given, and then names that company. Otherwise it is `Dear Hiring Manager,`. |
| CoverLetter.GreetedCompanyGreeting | src/components/CoverLetterPDF.tsx:99-101 | Every greeting that addresses a company comes from that company's non-empty name. |
| ResumePdf.LeadingDigits | src/components/ResumePDF.tsx:238 | The longest run of decimal digits at the start of the text. |
| ResumePdf.ParseUnsigned | src/components/ResumePDF.tsx:238 | An unsigned `parseInt` value is never negative. |
| ResumePdf.ParseInt | src/components/ResumePDF.tsx:238 | `parseInt` skips leading whitespace. Blank text, or text starting with something other than a digit or a sign, gives NaN. Text starting with a digit gives a non-negative number. |
| ResumePdf.NatToString | src/components/ResumePDF.tsx:238 | Every number has a non-empty decimal numeral. |
| ResumePdf.DigitsValueOfNat | src/components/ResumePDF.tsx:238 | The value of a number's numeral is the number. |
| ResumePdf.ParseIntOfDigits | src/components/ResumePDF.tsx:238 | `parseInt` of a digit run followed by a non-digit is the value of the run. |
| ResumePdf.ParseIntOfNat | src/components/ResumePDF.tsx:238 | `parseInt` of a numeral gives back its number. |
| ResumePdf.ParseIntOfTwoDigits | src/components/ResumePDF.tsx:238 | `parseInt` of a two-digit month such as `03` is its value. |
| ResumePdf.ParseIntOfUndefined | src/components/ResumePDF.tsx:233-238 | The missing month field, text `undefined`, parses as NaN. |
| ResumePdf.MonthNameOfInt | src/components/ResumePDF.tsx:238-239 | Months 1 to 12 name the month. Any other value prints `undefined`. |
| ResumePdf.MonthName | src/components/ResumePDF.tsx:238-239 | The month text is `undefined` exactly when the month is NaN or outside 1 to 12. Otherwise it is one of the twelve month names. |
| ResumePdf.FormatDate | src/components/ResumePDF.tsx:232-240 | The result is a month name or `undefined`, a space, and the year field. |
| ResumePdf.FormatDateOfJoin | src/components/ResumePDF.tsx:233-239 | A date made of `-`-separated fields is formatted from its fields. |
| ResumePdf.FormatDateOfYearAndMonth | src/components/ResumePDF.tsx:232-240 | `YYYY-MM[-…]` gives the name of the parsed month, a space and the year field unchanged. |
| ResumePdf.FormatDateOfYearMonth | src/components/ResumePDF.tsx:232-240 | For a month 01 to 12 the result is the English month name, a space and the year. |
| ResumePdf.FormatDateOfInvalidMonth | src/components/ResumePDF.tsx:238-239 | A two-digit month outside 01 to 12 gives `undefined <year>`. |
| ResumePdf.FormatDateWithoutMonth | src/components/ResumePDF.tsx:233-239 | A date without `-` gives `undefined <date>`. |
| ResumePdf.FindPosition | src/components/ResumePDF.tsx:144 | The position found has the id and is in the repository. None is found exactly when no position has the id. |
| ResumePdf.Dates | src/components/ResumePDF.tsx:147-152 | With a null or empty end date, the dates read `start – Present` with an en dash. Otherwise they read `start – end`, both formatted. |
| ResumePdf.BuildPositionMetadata | src/components/ResumePDF.tsx:141-155 | The table the `forEach` fills is `ExpectedMetadata` of the blocks and the repository. |
| ResumePdf.ExpectedMetadata | src/components/ResumePDF.tsx:141-155 | The table's ids are exactly the ids that some block refers to and the repository knows. |
| ResumePdf.ExpectedMetadataEntries | src/components/ResumePDF.tsx:143-153 | An id has an entry exactly when a block refers to it and the repository has a position with it. The entry holds the company and dates of the first such position. |
| ResumePdf.ExpectedMetadataOrderFree | src/components/ResumePDF.tsx:143-155 | The table depends only on which blocks occur, not on their order or repetition. So the first block for an id wins without loss. |
| ResumePdf.FindTitleMatch | src/components/ResumePDF.tsx:160-163 | A block is found exactly when some block's title contains the position title or is contained in it. The block found is such a block. |
| ResumePdf.TitleMatches | src/components/ResumePDF.tsx:161-162 | A block matches a title equal to its own. An empty title, or a block with an empty title, always matches. |
| ResumePdf.TitleMatchesIff | src/components/ResumePDF.tsx:161-162 | A block matches a title exactly when either title occurs somewhere in the other. |
| ResumePdf.FindTitleMatchFirst | src/components/ResumePDF.tsx:160-163 | The block found is the first matching block. |
| ResumePdf.EmptyTitleMatchesFirst | src/components/ResumePDF.tsx:161-162 | An empty title matches the first block. |
| ResumePdf.Enrich | src/components/ResumePDF.tsx:165-173 | Enriching never changes a position's title or bullets. |
| ResumePdf.EnrichPositions | src/components/ResumePDF.tsx:158-174 | The same number of positions, in order, each with its title and bullets unchanged. |
| ResumePdf.EnrichChanges | src/components/ResumePDF.tsx:160-173 | If the first matching block has metadata, the position takes that company and those dates. Otherwise it is returned unchanged. |
| ResumePdf.EnrichUnmatched | src/components/ResumePDF.tsx:160-173 | A position no block matches is returned unchanged. |
| ResumePdf.EnrichIdempotent | src/components/ResumePDF.tsx:158-174 | Enriching twice is the same as enriching once. |
| ResumePdf.ResumePositions | src/components/ResumePDF.tsx:141-174 | The rendered positions are the parsed ones enriched with the metadata the blocks and the repository determine. |

## Left out

- The React pages and components, the PDF layout and styles, the API route handlers, the prompts module and the localStorage history. They are UI, network calls to the model and transcription services, string templates, or browser storage, and hold none of the text logic above.
- The inline fence pattern of the experience-extraction route is not part of this model. It sits inside a network handler.
- The model client in src/lib/claude.ts (`callClaude`, the SDK client and the environment check) is foreign SDK code and is left out.
- The wall-clock date of the cover letter and of the download file names is left out. A clock is not modelled.
- src/types/index.ts holds only interface declarations. Its shapes are mirrored in `Types`, and the fields the core never reads are kept without meaning.
- ParseResume.ParseMarkdownResume: the open position is a local `Option` value that is rebuilt on each bullet. The source pushes onto the same object, which no other reference sees before the flush, so the result is the same but the update in place is not modelled. The loop body is the separate method `ReadLine`.
- ResumePdf.BuildPositionMetadata: the source's object keys are plain strings. Ids that name properties of `Object.prototype` (such as `constructor`) behave differently in JavaScript and are not modelled.
- ResumePdf.ParseIntOfNat: JavaScript's `parseInt` returns a double, so numerals above 2^53 lose precision. The model's integers are exact, which does not matter for month numbers.
- Strings are sequences of Unicode scalar values, while JavaScript strings are UTF-16 code units. The two differ only for characters outside the Basic Multilingual Plane, which none of the patterns mentions.
