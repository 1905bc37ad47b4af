# pdf-to-epub-ai in Dafny

A model of the text-processing core of pdf-to-epub-ai, a tool that turns a
scanned PDF into an EPUB book. The OCR engines, the OpenAI client and the EPUB
writer stay outside the model. What is modelled is everything the pipeline does
with text between them:

- **Page texts and documents** (`pipeline/pages.py`): header and footer
  candidates, and the combined raw and cleaned texts.
- **Intermediate files** (`pipeline/storage.py`): the `--- Page N ---` marker
  format, writing, and reading back.
- **Page cleaning** (`pipeline/preprocess.py`): the repeated header and footer
  tally, the line filter, hyphen repair, paragraph merging, the OCR glitch
  table and whitespace shrinking.
- **The pure parts of the OCR stage** (`pipeline/ocr.py`): the page text
  format, page selection, the compressed page-range argument and 1-based page
  numbers.
- **The bookkeeping of the AI refinement stage** (`pipeline/refine.py`): the
  token estimate, the price table, the cost gate, the blank-page short cut,
  result slots and usage totals.
- **`PipelineConfig.load`** (`pipeline/config.py`).
- **The text side of EPUB generation** (`pipeline/epub.py`).
- **The standalone cleaner `process_ocr.py`**: paragraph and chapter
  detection, sentence flow, punctuation repair and the `clean_ocr_text`
  pipeline.

Modules follow the source files:

| Module | Contents |
|---|---|
| `Base` | `Option` and the Python exception kinds |
| `Text` | Python string primitives (`strip`, `split`, `splitlines`, `lower`, `replace`, `str(int)`) |
| `Pages` | Page and document records |
| `Storage` | Intermediate file format |
| `Normalise`, `Boilerplate`, `Hyphenation`, `Merge`, `Glyphs`, `Whitespace` | The helpers of `preprocess.py` |
| `Preprocess` | `clean_document` |
| `Ocr` | Pure parts of the OCR stage |
| `Refine` | Refinement bookkeeping |
| `Config` | Configuration loading |
| `Epub` | EPUB text |
| `LegacyLines`, `LegacyPunctuation`, `LegacyParagraphs`, `Legacy` | `process_ocr.py` |

## How a regular expression is modelled

Every `re.sub` is a left-to-right scan. At each position the pattern either
matches, and the scan resumes after the match, or one character is copied.
This gives Python's leftmost, non-overlapping semantics.

Greedy quantifiers with backtracking are worked out per pattern. For example,
`(\w)[­-]\s*\n\s*(\w)` matches exactly when the whitespace run after the
hyphen contains a line feed and is followed by a word character.

`\s` and `str.strip` use Python's whitespace set exactly (`str.isspace`).
`\w`, `\d`, `str.lower` and `re.IGNORECASE` are restricted to ASCII (see
"Left out").

## How the properties are stated

Most cleaning passes only delete or insert whitespace and hyphens. Their
partner property says so: once every whitespace and hyphen character is erased,
the output and the input read the same (`Erase(out, WhitespaceOrHyphen) ==
Erase(in, WhitespaceOrHyphen)`). Shape properties state what the output
satisfies: no double blanks, stripped paragraphs, and so on. Round trips cover
the file format, the page-range argument and HTML escaping. Lemmas connect
functions to independent reference definitions: the header tally against the
set of pages, and the read loop against `Sections`.

## Model

| member | source | states |
|---|---|---|
| Pages.HeaderCandidateIsFirstNonBlank | pipeline/pages.py:20-23 | The header candidate is the first non-blank line of the page, stripped, and it is "" exactly when the page has no non-blank line |
| Pages.FooterCandidateIsLastNonBlank | pipeline/pages.py:25-28 | The footer candidate is the last non-blank line, stripped, and "" exactly when there is none |
| Pages.SingleLineHeaderIsFooter | pipeline/pages.py:20-28 | A page with exactly one non-blank line has that line, stripped, as both header and footer |
| Pages.NonBlankStrippedEmpty | pipeline/pages.py:22 | The comprehension of stripped non-blank lines is empty exactly when every line is blank |
| Pages.CombinedRaw | pipeline/pages.py:38-40 | The combined raw text is "" for no pages and the page's raw text for one page; for two or more pages it is the combination of all but the last page, a newline, then the last page's raw text |
| Pages.CombinedClean | pipeline/pages.py:42-48 | The combined cleaned text is stripped; for a single page it is that page's cleaned-else-raw text, stripped |
| Pages.CombinedCleanKeepsText | pipeline/pages.py:42-48 | With a blank marker, such as the default "\n\n", the combined cleaned text holds exactly the non-whitespace characters of the pages' cleaned-else-raw texts, in page order |
| Pages.CombinedCleanIgnoresRawOfCleaned | pipeline/pages.py:45-46 | Replacing the raw text of a page whose `cleaned` is set, even to "", does not change the combined cleaned text |
| Pages.CleanedOrRaw | pipeline/refine.py:124 | `page.cleaned or page.raw` is the cleaned text, except that an empty cleaned text falls back to the raw text |
| Storage.MarkerLine | pipeline/storage.py:29 | A marker line holds no line boundary |
| Storage.MarkerLineRead | pipeline/storage.py:44-51 | The marker written for a non-negative page index is recognised by the reader, which takes that index from it |
| Storage.TranslateNewlines | pipeline/storage.py:42-43 | Text read in universal-newline mode holds no carriage return |
| Storage.FileLinesTerminated | pipeline/storage.py:43-53 | Iterating over a text written line by line, each line with its `\n` removed, gives the lines back |
| Storage.SectionsNoMarker | pipeline/storage.py:43-58 | Lines with no marker form a single page numbered by the current index |
| Storage.SectionsAtMarker | pipeline/storage.py:45-52 | A marker closes the current page, if any line was collected, and numbers the next page with its own index |
| Storage.ReadLinesIsSections | pipeline/storage.py:43-58 | The read loop, with its mutable `current_lines` and `current_index`, computes the reference sectioning of the lines |
| Storage.ParseLinesIsSections | pipeline/storage.py:36-60 | Reading a file gives the reference sections of its classified lines, starting at page 1 |
| Storage.TextWithoutMarkers | pipeline/storage.py:36-60 | One or more lines without a marker read as the single page 1, holding the lines joined and stripped |
| Storage.WritePagesTerminated | pipeline/storage.py:27-32 | With markers, each page is written as its marker line, its right-stripped content and one blank line, every line terminated |
| Storage.GroupOfBody | pipeline/storage.py:46-49 | The lines written for one page are collected back as that page, its content stripped |
| Storage.WriteReadRoundTrip | pipeline/storage.py:18-60 | Writing with markers and reading back gives the same number of pages, in order, with the same indices, each raw text being the written content stripped |
| Normalise.CollapseSpaces | pipeline/preprocess.py:98 | `re.sub(r"\s+", " ")` is no longer than its input and starts with a space exactly where the input starts with whitespace |
| Normalise.CollapseSpacesCollapsed | pipeline/preprocess.py:98 | After collapsing, the only whitespace is single plain spaces |
| Normalise.EraseCollapseSpaces | pipeline/preprocess.py:98 | Collapsing keeps every non-whitespace character, in order |
| Normalise.NormaliseLineIsNormalised | pipeline/preprocess.py:96-98 | Every normalised line is stripped, lower-case and has only single spaces |
| Normalise.NormaliseLineNoop | pipeline/preprocess.py:96-98 | A line already in that form is its own normal form |
| Normalise.NormaliseLineIdempotent | pipeline/preprocess.py:96-98 | `_normalise_line` is idempotent |
| Normalise.NormaliseLineKeepsContent | pipeline/preprocess.py:96-98 | Normalising keeps every non-whitespace character, in order, lower-cased |
| Normalise.NormaliseLineEmpty | pipeline/preprocess.py:96-98 | A line normalises to "" exactly when it is blank |
| Normalise.PageNumberIsCounter | pipeline/preprocess.py:101-107 | A rendered page number counts as a page counter exactly when it has at most four digits |
| Boilerplate.Tallied | pipeline/preprocess.py:26-31 | A page adds a key to the tally exactly when its raw text is non-empty |
| Boilerplate.TallyCountsPages | pipeline/preprocess.py:26-31 | A key's count is the number of pages with non-empty raw text whose candidate normalises to it |
| Boilerplate.CandidateKeysNormalised | pipeline/preprocess.py:26-31 | Every tallied key is a normalised line |
| Boilerplate.Threshold | pipeline/preprocess.py:34 | The threshold is at least 3 and at least a quarter of the page count (floor), and equals one of the two |
| Boilerplate.RemovalSet | pipeline/preprocess.py:33-38 | A key is in the removal set exactly when its count reaches the threshold |
| Boilerplate.ToRemove | pipeline/preprocess.py:26-38 | A line is removed exactly when at least `max(3, n // 4)` pages with non-empty raw text have it as their candidate, after normalising |
| Boilerplate.ToRemoveNormalised | pipeline/preprocess.py:26-38 | Only normalised lines are ever in a removal set |
| Boilerplate.EmptyRawPagesNotTallied | pipeline/preprocess.py:27 | A page with empty raw text never contributes to a tally, wherever it stands |
| Boilerplate.FilterLine | pipeline/preprocess.py:63-79 | A line is dropped or kept stripped; a blank line is always kept as "" |
| Boilerplate.FilterLines | pipeline/preprocess.py:60-79 | The kept lines are no more than the input lines, and each is stripped and either "" or a line that passes the marker, header, footer and counter tests |
| Boilerplate.FilterLinesAppend | pipeline/preprocess.py:63-79 | Filtering works line by line: filtering a concatenation concatenates the filtered parts |
| Boilerplate.FilterLinesKeepsPlainText | pipeline/preprocess.py:63-79 | When every non-blank line passes, every line is kept, stripped |
| Boilerplate.FilterLinesKeepsBlankCount | pipeline/preprocess.py:64-67 | The number of "" lines kept equals the number of blank input lines |
| Boilerplate.EmptyKeyHarmless | pipeline/preprocess.py:71-74 | An empty key in a removal set removes nothing, since only blank lines normalise to "" and those are kept before the test |
| Hyphenation.BreakMatchSpan | pipeline/preprocess.py:91 | What a hyphen-break match removes between its two word characters is only whitespace and hyphens |
| Hyphenation.JoinBrokenWordsKeepsContent | pipeline/preprocess.py:91 | The hyphen-break repair deletes only whitespace and hyphens; every other character stays, in order |
| Hyphenation.DropSoftHyphensKeepsContent | pipeline/preprocess.py:92 | The soft-hyphen pass deletes only soft hyphens |
| Hyphenation.PrepareLines | pipeline/preprocess.py:88-93 | `_prepare_lines` returns at least one line, none holding a line feed |
| Hyphenation.PrepareLinesKeepsContent | pipeline/preprocess.py:88-93 | Preparing lines keeps every character other than whitespace and hyphens, in order |
| Hyphenation.JoinBrokenWordsNoHyphen | pipeline/preprocess.py:91 | Without a hyphen or soft hyphen the break pass copies its input |
| Hyphenation.DropSoftHyphensNoSoftHyphen | pipeline/preprocess.py:92 | Without soft hyphens the soft-hyphen pass copies its input |
| Hyphenation.PrepareLinesNoop | pipeline/preprocess.py:88-93 | Lines free of hyphens and line feeds come back unchanged |
| Hyphenation.PrepareNoLines | pipeline/preprocess.py:90-93 | An empty page still yields one blank line |
| Merge.JoinFragments | pipeline/preprocess.py:178-181 | When the new line is not blank, the joined fragment ends with its last character |
| Merge.ParagraphsNonEmpty | pipeline/preprocess.py:110-145 | `_merge_lines` never emits an empty paragraph, and every paragraph is stripped |
| Merge.MergeLinesKeepsContent | pipeline/preprocess.py:110-181 | Merging keeps every character other than whitespace and hyphens, in input order |
| Merge.RunAfter | pipeline/preprocess.py:122-142 | Paragraphs already emitted never influence how the rest of the lines merge |
| Merge.SplitWhereFlushed | pipeline/preprocess.py:122-144 | Where the next line flushes the buffer anyway, the input splits into independently merged parts |
| Merge.BlankLineSeparates | pipeline/preprocess.py:124-126 | A blank line separates: the lines before and after it merge independently |
| Merge.ListItemStandsAlone | pipeline/preprocess.py:128-131 | A list item becomes a paragraph of its own, right-stripped, between the independently merged lines around it |
| Merge.HeadingStartsParagraph | pipeline/preprocess.py:133-134 | An all-capitals line or a section heading starts a new paragraph |
| Merge.BreakAfterPunctuation | pipeline/preprocess.py:152-155 | A line ending in a colon, question mark or exclamation mark ends its paragraph |
| Merge.TwoLinesOneParagraph | pipeline/preprocess.py:136-142 | Two lines of running text with no break between them form one paragraph, either single-space separated or glued with the hyphen removed |
| Glyphs.ReplaceGlyphsRemoves | pipeline/preprocess.py:195-205 | After the replacement table no ligature, soft hyphen, non-breaking hyphen or no-break space is left |
| Glyphs.ReplaceGlyphsAppend | pipeline/preprocess.py:204-205 | The table acts on each character on its own |
| Glyphs.ReplaceSelf | pipeline/preprocess.py:198-199 | The em-dash and en-dash entries, which replace a character by itself, change nothing |
| Glyphs.JoinSpacedHyphensKeepsContent | pipeline/preprocess.py:206 | `(\w)-\s+(\w)` deletes only the hyphen and the whitespace after it |
| Glyphs.DropLineHyphensKeepsContent | pipeline/preprocess.py:207 | `(?<=\w)-\n(?=\w)` keeps every character other than whitespace and hyphens, in order |
| Glyphs.TightenPunctuationKeepsContent | pipeline/preprocess.py:208 | `\s+([,.;:])` keeps every character other than whitespace and hyphens, in order |
| Glyphs.TightenPunctuationTight | pipeline/preprocess.py:208 | After the pass no whitespace stands directly before `,`, `.`, `;` or `:` |
| Glyphs.InsertSpacesKeepsContent | pipeline/preprocess.py:209-210 | The comma and sentence passes keep every character other than whitespace and hyphens, in order |
| Glyphs.SentencesSpaced | pipeline/preprocess.py:210 | After the sentence pass every `.`, `!` or `?` followed by a capital has a space between them |
| Glyphs.FixGlitchesKeepsContent | pipeline/preprocess.py:193-211 | Past the replacement table, the glitch passes only remove or insert whitespace and hyphens |
| Whitespace.SqueezeBlanksShape | pipeline/preprocess.py:216 | Squeezing leaves no tab and no two spaces in a row |
| Whitespace.CapNewlinesShape | pipeline/preprocess.py:217 | Capping leaves no three line feeds in a row |
| Whitespace.ShrinkWhitespace | pipeline/preprocess.py:214-218 | The result is stripped |
| Whitespace.ShrinkWhitespaceShape | pipeline/preprocess.py:214-218 | The result holds no no-break space, no tab, no double space and no three line feeds in a row |
| Whitespace.ShrinkWhitespaceNoop | pipeline/preprocess.py:214-218 | A text already in that shape comes back unchanged |
| Whitespace.ShrinkWhitespaceIdempotent | pipeline/preprocess.py:214-218 | `_shrink_whitespace` is idempotent |
| Whitespace.ShrinkWhitespaceKeepsContent | pipeline/preprocess.py:214-218 | Shrinking changes only whitespace: every other character stays, in order |
| Preprocess.CleanPage | pipeline/preprocess.py:54-85 | A cleaned page is in the shrunk whitespace shape |
| Preprocess.CleanPageKeepsContent | pipeline/preprocess.py:54-85 | Up to whitespace and hyphens, the cleaned page holds exactly the characters of the kept lines after the glyph table |
| Preprocess.CleanDocument | pipeline/preprocess.py:18-51 | Every page gets its cleaned text; the source, the order, the indices and the raw texts are kept |
| Preprocess.RemovalSetsReadOnlyRaw | pipeline/preprocess.py:26-38 | The removal sets depend only on the raw texts of the pages |
| Preprocess.CleanDocumentReadsRaw | pipeline/preprocess.py:18-51 | The result depends only on the source, the indices and the raw texts: any existing cleaned texts are ignored |
| Preprocess.CleanDocumentIdempotent | pipeline/preprocess.py:18-51 | Cleaning a cleaned document again changes nothing |
| Preprocess.EmptyPageCleansToEmpty | pipeline/preprocess.py:54-85 | A page with no text cleans to "" |
| Ocr.FormatPage | pipeline/ocr.py:125-131 | A formatted page starts with its marker line, and it is the marker line alone exactly when the text is blank once form feeds are removed |
| Ocr.MarkerLineShape | pipeline/ocr.py:128 | The marker line is non-empty, stripped, single-spaced and holds no line boundary, so the cleaner's normalisation only lower-cases it |
| Ocr.StripPageMarkerOfFormatted | pipeline/storage.py:63-67 | Stripping the marker from a formatted page gives back the trimmed text without form feeds, when `\n` is its only line boundary |
| Ocr.FormattedHeader | pipeline/ocr.py:125-131 | The header candidate of a freshly formatted page is its marker line |
| Ocr.MarkerKeyInjective | pipeline/ocr.py:128 | Different page numbers give different normalised marker lines |
| Ocr.SelectPageIndices | pipeline/ocr.py:134-156 | An empty document, or a range starting past the end, is an error |
| Ocr.SelectedPages | pipeline/ocr.py:139-156 | A successful selection is increasing, inside the document, and holds exactly the pages from the range start up to the range end or the document end, cut by the cap as a Python slice cuts |
| Ocr.SelectionNonEmpty | pipeline/ocr.py:139-156 | A valid range starting inside a non-empty document, with no cap or a positive one, always selects pages |
| Ocr.CompressIndices | pipeline/ocr.py:161-162 | No indices compress to "" |
| Ocr.RunsCover | pipeline/ocr.py:163-171 | The runs found by the loop cover the indices exactly, in order |
| Ocr.RunsMaximal | pipeline/ocr.py:163-171 | For increasing indices consecutive runs are at least two apart, so no run could be extended |
| Ocr.RunTextDash | pipeline/ocr.py:174-178 | A run is written with a dash exactly when it holds more than one index |
| Ocr.CompressExpand | pipeline/ocr.py:159-179 | Reading the compressed text back as ranges gives the non-negative indices again |
| Ocr.ExtractedPages | pipeline/ocr.py:109-119 | One page per pair of the shorter list, numbered from one (`page_idx + 1`), with no cleaned text |
| Ocr.ExtractedTallyAtMostOne | pipeline/ocr.py:59-64 | On freshly extracted pages each header key is tallied from at most one page |
| Ocr.ExtractedHeadersKept | pipeline/ocr.py:59-64 | Freshly extracted pages with increasing indices never lose a header line to the cleaner |
| Refine.TokenCount | pipeline/refine.py:44-46 | Without a tokenizer the count t of a text with w words satisfies 7t ≤ 10w < 7(t + 1), the truncation of w / 0.7 |
| Refine.WordsOfJoin | pipeline/refine.py:45 | Splitting words joined by single spaces gives the words back |
| Refine.PriceOf | pipeline/refine.py:30-34 | Every price is positive |
| Refine.UnlistedPricedAsGpt4 | pipeline/refine.py:50-51 | A model missing from the price table costs what `gpt-4` costs |
| Refine.EstimateCostMonotone | pipeline/refine.py:49-53 | The estimate grows with either token count |
| Refine.EstimateCostAdditive | pipeline/refine.py:49-53 | The estimate of a sum of token counts is the sum of the estimates |
| Refine.RefinePage | pipeline/refine.py:123-158 | The answer is stripped and the reported token counts are non-negative |
| Refine.AddPriced | pipeline/refine.py:110-112 | Adding two records whose cost is the price of their tokens gives such a record again |
| Refine.NewRefiner | pipeline/refine.py:66-72 | Construction succeeds exactly when an API key is present and non-empty, and starts from zero usage |
| Refine.PendingIsSubmitted | pipeline/refine.py:91-95 | A position is pending exactly when its page's text is non-blank after stripping |
| Refine.SubmittedWhenStrippedNonEmpty | pipeline/refine.py:93-94 | A page counts as submitted exactly when its screened text is non-empty after `strip` |
| Refine.SentTextIsScreened | pipeline/refine.py:93-95 | The text sent for a submitted page (`cleaned or raw`) is the text screened for blankness |
| Refine.RefineDocument | pipeline/refine.py:74-121 | A run the cost gate stops sends nothing and leaves the statistics alone; a successful run keeps the source and the number of pages |
| Refine.MarkBlankByPosition | pipeline/refine.py:92-97 | With position slots the first loop marks a page `cleaned = ""` exactly when it is not submitted, and cannot fail |
| Refine.CompleteByPosition | pipeline/refine.py:106-112 | With position slots the result loop writes each completed page's answer into its slot and adds its usage |
| Refine.UsageSumPermutation | pipeline/refine.py:106-112 | The usage added up does not depend on the order the pages complete in |
| Refine.RefinedPages | pipeline/refine.py:74-121 | With position slots: every index and raw text kept, non-submitted pages get "", submitted pages get their stripped answer, and the statistics grow by the submitted pages' usage |
| Refine.CompletionOrderIrrelevant | pipeline/refine.py:99-112 | Any two completion orders give the same pages, texts sent and statistics |
| Refine.StatsAccumulate | pipeline/refine.py:72-112 | Statistics are not reset between documents: the second document's usage is added to the first's |
| Refine.RunningCostIsPriced | pipeline/refine.py:110-112 | Starting from a priced record, the running cost stays the price of the running token totals |
| Refine.OnlyNonBlankSent | pipeline/refine.py:91-104 | Every text sent to the model is non-blank |
| Refine.EmptyCleanedEstimatedNotSent | pipeline/refine.py:75-97 | A page with `cleaned == ""` and words in its raw text counts in the estimate yet is never sent |
| Refine.ByIndexAgreesWhenNumberedFromOne | pipeline/refine.py:97-109 | For pages numbered 1..n the source's `index - 1` slots give exactly the position-slot result |
| Refine.ByIndexFailsFromPageTwo | pipeline/refine.py:97-109 | A one-page document holding page 2 makes the `index - 1` slot rule raise `IndexError` |
| Config.ValidatePageRange | pipeline/config.py:124-135 | Validation passes exactly the valid ranges (both ends at least 1, end not before start), unchanged |
| Config.ValidatePageRangeIdempotent | pipeline/config.py:124-135 | Validating a validated range changes nothing |
| Config.Setting | pipeline/config.py:103-113 | A non-empty command-line value wins; otherwise the environment's value, if set |
| Config.SettingDefault | pipeline/config.py:103-113 | With neither a command-line value nor an environment value, the default is used |
| Config.SettingIgnoresEnvironment | pipeline/config.py:103-113 | Once a value is given on the command line the environment does not matter |
| Config.ParseIntOfIntToString | pipeline/config.py:110-112 | `int(str(i))` is `i` |
| Config.IntSetting | pipeline/config.py:110-112 | A non-zero command-line value is used as is; 0 or nothing falls through to the default when the environment is silent |
| Config.RealSetting | pipeline/config.py:113 | A non-zero command-line value is used as is; 0.0 or nothing falls through to the default when the environment is silent |
| Config.ResolveEngine | pipeline/config.py:88-90 | The engine is accepted exactly when its lower-cased setting is `text` or `surya`, and is returned lower-cased |
| Config.EngineCaseInsensitive | pipeline/config.py:88 | Every spelling of an engine name that lower-cases to `text` or `surya`, such as `SURYA` or `Text`, selects that engine, lower-cased |
| Config.Load | pipeline/config.py:48-121 | A missing input is `FileNotFoundError` unless allowed; a loaded configuration carries the validated range given |
| Config.LoadedPaths | pipeline/config.py:82-86 | Each stage file is the input's stem plus the stage's ending, the first three under the temporary directory and the last two under the output directory |
| Config.DerivedFilesDistinct | pipeline/config.py:82-86 | The five stage files differ whatever the directories and the stem |
| Config.OutputFilesDistinct | pipeline/config.py:82-86 | No stage of a loaded configuration overwrites another stage's file |
| Config.CommandLineWins | pipeline/config.py:88-108 | A model, language or engine given on the command line is used as given, the engine lower-cased |
| Config.BuiltInDefaults | pipeline/config.py:37-44 | With nothing given and an empty environment, the built-in defaults are used and the directories are `output` and `temp` under the working directory |
| Epub.Escape | pipeline/epub.py:64 | Escaped text holds no markup character, and holds a line break exactly when the text does |
| Epub.UnescapeEscape | pipeline/epub.py:64 | Escaping loses nothing: unescaping gives the text back |
| Epub.Paragraphs | pipeline/epub.py:62 | Every paragraph is non-empty and stripped |
| Epub.ParagraphsKeepText | pipeline/epub.py:62 | The paragraphs hold every non-whitespace character of the page, in order, and nothing else |
| Epub.BlankContentHasNoParagraphs | pipeline/epub.py:62 | A blank page has no paragraphs |
| Epub.PageToHtml | pipeline/epub.py:61-68 | The page's HTML starts with the escaped title heading, and is that heading alone when the page has no paragraphs |
| Epub.PageHtmlKeepsLineBreaks | pipeline/epub.py:61-68 | As written, a page without backslashes gets no `<br/>`: each paragraph is only escaped, its line breaks left raw inside `<p>` |
| Epub.PageToHtmlWithBreaks | pipeline/epub.py:61-68 | The corrected page HTML starts with the escaped title heading, and is that heading alone when the page has no paragraphs |
| Epub.ParagraphHtmlRoundTrip | pipeline/epub.py:64 | With `<br/>` for each line break, a paragraph's HTML holds no raw line break and the paragraph, line breaks included, reads back from it |
| Epub.ChapterFileName | pipeline/epub.py:35 | Chapter files are named `page_….xhtml` |
| Epub.FormatIndexInjective | pipeline/epub.py:35 | Different indices are formatted differently by `{index:04d}` |
| Epub.ChapterFileNameInjective | pipeline/epub.py:35 | Different page indices land in different chapter files |
| Epub.ChapterFileNameWidth | pipeline/epub.py:35 | Indices 0 to 9999 all give names of 15 characters |
| Epub.BookTitle | pipeline/epub.py:24 | The title is the stem with every underscore shown as a space |
| Epub.PagewiseBook | pipeline/epub.py:20-58 | One chapter per page in page order, listed in the table of contents and in the spine after `nav` |
| Epub.BookChaptersDistinct | pipeline/epub.py:29-40 | Pages with distinct indices give a spine without repeated files, and each chapter's heading names its page |
| Epub.EmptyCleanedShowsRaw | pipeline/epub.py:33 | An empty `cleaned` falls back to the raw text, marker line included |
| Epub.PlainTextIsMarkerFile | pipeline/epub.py:79-87 | The inspection file is the marker file `write_document` writes for the stripped contents |
| Epub.PlainTextReadsBack | pipeline/epub.py:79-87 | The inspection file reads back as the same pages with the same indices, each holding its stripped content |
| LegacyLines.Flow | process_ocr.py:66-106 | Each step emits one line and consumes one or two, so the output has between half and all of the input's lines |
| LegacyLines.FlowRegroups | process_ocr.py:70-104 | Each output line is one input line or the merge of two consecutive input lines |
| LegacyLines.SmartSentenceFlowKeepsText | process_ocr.py:56-106 | The flow pass changes the text only in its whitespace |
| LegacyLines.FlowKeepsClosedLines | process_ocr.py:87-104 | Lines that cannot continue are only right-stripped, one output line each |
| LegacyLines.SeparatorAfterRStrip | process_ocr.py:71-98 | On a right-stripped line the separator is empty exactly when the line ends in a hyphen: the space case never applies |
| LegacyLines.FlowMergesPair | process_ocr.py:87-101 | A line that may continue, followed by one that may be glued on, is merged with it |
| LegacyLines.BrokenSentenceRejoined | process_ocr.py:87-101 | A line that may continue and does not end in a hyphen is joined to a following line that may be glued on, with exactly one space |
| LegacyLines.HyphenKeptInMerge | process_ocr.py:98 | A long line ending in a hyphen is glued to the next without a space, the hyphen kept |
| LegacyLines.BreakBefore | process_ocr.py:33-50 | A blank line is inserted only before a non-blank line following a non-blank one |
| LegacyLines.BreaksInsertOnly | process_ocr.py:24-54 | The boundary pass is the stripped lines with blank lines inserted, nothing else |
| LegacyLines.DetectKeepsLines | process_ocr.py:24-54 | The boundary pass keeps the sequence of non-blank lines, each stripped, in order |
| LegacyLines.SentenceOpensParagraph | process_ocr.py:36-50 | A line opening with a capital or digit after a line ending a sentence gets a blank line before it |
| LegacyPunctuation.UpperChar | process_ocr.py:119 | `upper` raises an ASCII lower-case letter and keeps every other character |
| LegacyPunctuation.CapitaliseSentences | process_ocr.py:119 | The first pass only raises letters to upper case |
| LegacyPunctuation.CapitaliseSentencesComplete | process_ocr.py:119 | Afterwards no lower-case letter follows a stop and whitespace |
| LegacyPunctuation.CapitaliseSentencesSound | process_ocr.py:119 | Only letters following a stop and whitespace are changed |
| LegacyPunctuation.CapitaliseLines | process_ocr.py:122 | Exactly the lower-case letters that open a line are raised; nothing else changes |
| LegacyPunctuation.TightenPunctuationTight | process_ocr.py:125 | Afterwards no whitespace precedes `.`, `!`, `?`, `,`, `:` or `;` |
| LegacyPunctuation.TightenPunctuationKeepsText | process_ocr.py:125 | The pass deletes only whitespace |
| LegacyPunctuation.TightenPunctuationNoop | process_ocr.py:125 | Text already tight is left alone |
| LegacyPunctuation.SpaceAfterStopsSpaced | process_ocr.py:126 | Afterwards every stop before a capital is followed by a space |
| LegacyPunctuation.SpaceAfterStopsKeepsText | process_ocr.py:126 | The pass only inserts spaces |
| LegacyPunctuation.SpaceAfterStopsKeepsTight | process_ocr.py:125-126 | Inserting those spaces never puts whitespace before punctuation |
| LegacyPunctuation.EnhanceKeepsLetters | process_ocr.py:108-131 | The punctuation passes keep every non-whitespace character, up to case |
| LegacyPunctuation.EnhanceTidiesPunctuation | process_ocr.py:108-131 | The result has no whitespace before punctuation and a space after every stop before a capital |
| LegacyParagraphs.Sentences | process_ocr.py:220 | The split always gives at least one piece |
| LegacyParagraphs.SentencesUnbroken | process_ocr.py:220 | No piece holds a separator |
| LegacyParagraphs.UnbrokenIsOneSentence | process_ocr.py:220 | A paragraph without a separator is one piece, itself |
| LegacyParagraphs.SentencesKeepText | process_ocr.py:220 | The split removes only stops and whitespace |
| LegacyParagraphs.Chunks | process_ocr.py:226-227 | There are ⌈n / size⌉ chunks |
| LegacyParagraphs.ChunksFlatten | process_ocr.py:226-227 | The chunks, put back together, are the pieces in order |
| LegacyParagraphs.ChunkText | process_ocr.py:229 | A chunk's text ends in exactly one stop |
| LegacyParagraphs.SplitParagraph | process_ocr.py:214-229 | A paragraph fails exactly when the limit is 0 and it has text, and then with `ValueError` |
| LegacyParagraphs.SplitAll | process_ocr.py:211-231 | The split fails exactly when the limit is 0 and some paragraph has text |
| LegacyParagraphs.SplitOversizedParagraphs | process_ocr.py:200-231 | A positive limit never fails |
| LegacyParagraphs.OversizedParagraphChunked | process_ocr.py:222-229 | An oversized paragraph becomes ⌈pieces / limit⌉ chunks, at least two, each the text of its run of pieces |
| LegacyParagraphs.ShortParagraphKept | process_ocr.py:222-223 | A paragraph with text within the limit is kept as it is |
| LegacyParagraphs.NegativeLimitDropsText | process_ocr.py:214-229 | With a negative limit every paragraph becomes empty |
| LegacyParagraphs.SplitOversizedNoop | process_ocr.py:200-231 | Text whose paragraphs all have text and fit the limit comes back unchanged |
| Legacy.LineEndingsTranslate | process_ocr.py:247-248 | The two line-ending substitutions agree with universal-newline translation |
| Legacy.NormaliseBreaksTranslates | process_ocr.py:246-248 | Step 1 leaves neither form feed nor carriage return |
| Legacy.DropStandaloneKeepsText | process_ocr.py:251-252 | The standalone-line passes delete only whitespace and the pattern's own characters |
| Legacy.DropStandaloneNoop | process_ocr.py:251-252 | A text without the pattern's characters passes unchanged |
| Legacy.StandaloneMatchSound | process_ocr.py:251-252 | A match holds only whitespace and the pattern's characters, at least one of the latter, and ends at a line end |
| Legacy.StandaloneLineDropped | process_ocr.py:251-252 | At a line start, blank lines followed by a line of the pattern's characters only all go, with the whitespace after them up to its last line end |
| Legacy.StandaloneLastLineDropped | process_ocr.py:251-252 | A last line of the pattern's characters goes, with the blank lines before it |
| Legacy.StandaloneLineBeforeText | process_ocr.py:251-252 | Such a line before a line of text goes, with the blank lines before it; one line break stays |
| Legacy.PageNumberLineDropped | process_ocr.py:251 | A page number on its own line goes, with the blank lines before it |
| Legacy.JoinHyphenatedKeepsText | process_ocr.py:259-260 | The hyphen passes delete only hyphens and whitespace |
| Legacy.JoinHyphenatedNoHyphen | process_ocr.py:259-260 | Without a hyphen the pass copies its input |
| Legacy.WordBreakRejoined | process_ocr.py:259-260 | A word broken by a hyphen and a qualifying gap is rejoined, the hyphen and the gap gone |
| Legacy.ChainedBreakKept | process_ocr.py:259-260 | Matches do not overlap: in a chain of two breaks the second survives |
| Legacy.CollapseSpacesSingle | process_ocr.py:275 | No two spaces in a row remain |
| Legacy.CollapseSpacesFixedPoint | process_ocr.py:275 | The pass changes a text exactly when it holds two spaces in a row |
| Legacy.CollapseSpacesKeepsText | process_ocr.py:275 | Only spaces go |
| Legacy.BlankLinesMatchBlank | process_ocr.py:276 | A blank-lines match is whitespace only |
| Legacy.CollapseBlankLinesKeepsText | process_ocr.py:276 | Only whitespace changes |
| Legacy.CollapseBlankLinesOneLine | process_ocr.py:276 | Without a line break the pass copies its input |
| Legacy.SmartQuotesPlain | process_ocr.py:279-290 | Curly quotes, dashes and the ellipsis are all gone afterwards; a text without them is unchanged |
| Legacy.FinishShape | process_ocr.py:297-302 | The result is empty or ends with a line break, and no line of it ends with whitespace |
| Legacy.FinishKeepsText | process_ocr.py:297-302 | Only whitespace changes |
| Legacy.CleanOcrTextShape | process_ocr.py:233-305 | Whatever the corrections do, the cleaned text is empty or ends with a line break, and no line of it ends with whitespace |

## Left out

- Reading PDFs, rendering pages, Surya and PyMuPDF (`pipeline/ocr.py`, `extract_text`, `_extract_via_text`, `_extract_via_surya`): they call libraries this model cannot see. Only their pure parts are modelled: page selection, the page format and `page_idx + 1`.
- File and directory I/O, `load_dotenv`, `mkdir`, logging, `print`, the command-line front ends (`main`, `process_file`) and the EPUB library calls. Files are modelled as the text they hold. The environment and the file system are a parameter (`Config.Environment`). The EPUB is modelled as the record of what would be added to it (`Epub.Book`).
- The thread pool and the OpenAI client. The completion order is a parameter (a permutation of the submitted pages). The chat completion is a parameter `reply`.
- Refine.RefinePage: `reply` is a total function, so two failure paths are not modelled. One is the `AuthenticationError` that `_refine_page` turns into a `RuntimeError` (`pipeline/refine.py:146-149`). The other is a `None` message content, on which `.strip()` raises.
- Refine.TokenCount: only the fallback estimate is modelled. The `tiktoken` branch (`pipeline/refine.py:38-43`) calls an external tokenizer.
- Refine.EstimateCost, Refine.Blocked: prices and costs are exact reals, not IEEE doubles. The two can disagree at the cost gate. For `gpt-4` with 100000 input tokens, Python computes `5.999999999999999`, which does not exceed a limit of `5.999999999999999`, so the source proceeds. The exact cost is 6, so the model blocks.
- Refine.EstimateCostAdditive: holds in exact arithmetic only; IEEE addition is not associative.
- Refine.AddPriced: priced records add to a priced record only in exact arithmetic; with IEEE doubles the sum of two rounded costs can differ from the rounded cost of the summed tokens.
- Refine.RunningCostIsPriced: the running cost equals the price of the token totals only in exact arithmetic, for the same reason.
- Refine.UsageSumPermutation: usage totals are independent of the order of addition only in exact arithmetic; IEEE addition is not associative.
- CompletionOrderIrrelevant: the running cost is summed in completion order. With IEEE doubles the sum can differ in the last bits between two orders (`0.1 + 0.2 + 0.3` is not `0.3 + 0.2 + 0.1`). The lemma states order independence for exact reals. Token counts and page texts do not depend on the order in either arithmetic.
- Refine.StatsAccumulate: like `CompletionOrderIrrelevant`, the cost part holds in exact arithmetic.
- Legacy.CleanOcrText: `advanced_ocr_corrections` (`process_ocr.py:133-198`) is an unconstrained parameter `correct`. Its word table, with case-insensitive `\b` patterns and look-arounds, is not modelled. Every property of the cleaner is stated for any correction function.
- Legacy.JoinHyphenated: `\w` is ASCII letters, digits and `_`, where Python's `re` takes every Unicode word character. On `é-\nl` the source joins the word into `él`; the model leaves it as it is. The same restriction applies to `Hyphenation.JoinBrokenWords`, `Glyphs.JoinSpacedHyphens` and the `\b` after the heading keywords of `Merge.IsSectionHeading` (`pipeline/preprocess.py:187`).
- Storage.MarkerLineRead: `\d` is ASCII `0`-`9`. Python's `\d+` in the page marker (`pipeline/storage.py:15`) also matches other decimal digits, such as `١`, and `int` reads them. A line `--- Page ١ ---` is a marker for the source but content for the model. The same ASCII `\d` shapes `Normalise.IsPageCounter` (`\d{1,4}`, `pipeline/preprocess.py:103`), the numbered list-item test `Merge.IsListItem` (`pipeline/preprocess.py:149`) and `Legacy.DropStandaloneLines` (`process_ocr.py:251`): a line `١٢` is dropped by the source and kept by the model.
- Text.Lower: `str.lower`, `re.IGNORECASE` and `str.upper` fold only ASCII letters. `É` lower-cases to `é` in Python but is left alone here. This affects header keys (`Normalise.NormaliseLine`), the roman-numeral test of `Normalise.IsPageCounter` (`line.lower()`, `pipeline/preprocess.py:105`), the keyword test of `Merge.IsSectionHeading` (`line.lower()`, `pipeline/preprocess.py:187-188`), the engine name (`Config.ResolveEngine`), the heading words (`LegacyLines.IsHeading`) and capitalisation (`LegacyPunctuation.UpperChar`).
- Epub.PagewiseBook: the book identifier is the title lower-cased with the same ASCII-only `Lower`, where the source uses full Unicode `str.lower`.
- Config.Load: `Path.expanduser().resolve()` and `Path.cwd()` are parameters of the environment (`resolve`, `cwd`). Symbolic links, `~` and `..` are not modelled. `JoinPath` joins relative names only.
- Config.IntSetting: `int()` of an environment value accepts ASCII digits with an optional sign and surrounding whitespace. Underscores between digits and non-ASCII digits are not accepted. A command-line value is used as given.
- Config.RealSetting: `float()` of an environment value is a parameter of the environment (`parseFloat`); float syntax is not modelled.
- `max_tokens_per_chunk`, `tesseract_lang`, `force_ocr` and `max_workers` are carried but never used by the modelled core.

Details of the code that are easy to misread:

- A page whose raw text is non-empty but blank contributes the empty header candidate `""` to the tally (`pipeline/preprocess.py:26-31`). `Boilerplate.EmptyKeyHarmless` shows that this removes nothing.
- The token estimate truncates `words / 0.7` with `int()` rather than rounding it (`pipeline/refine.py:46`).
- The standalone-number and roman-numeral patterns (`process_ocr.py:251-252`) start with `^\s*`, and `\s` spans line breaks. A match therefore also swallows the blank lines before the numeral line, and the whitespace after it up to its last line end (`Legacy.StandaloneLineDropped`).
- In `smart_sentence_flow` the separator's space case never applies (`LegacyLines.SeparatorAfterRStrip`). The current line is right-stripped first, so only a final hyphen suppresses the space.

## Findings

| source | as written | input that shows it | evidently intended | confidence | as-written member | corrected member |
|---|---|---|---|---|---|---|
| pipeline/refine.py:97-109 | Each page's result goes to `refined_pages[page.index - 1]`, where `refined_pages` is indexed by position | A selection holding only page 2 (`PipelineConfig.load(..., page_range=(2, 2))`, `pipeline/config.py:59`, selected at `pipeline/ocr.py:139-146`) gives a one-page document with `index == 2`. `refined_pages[1]` raises `IndexError`. Any selection that does not start at page 1 sends its last page past the end of the list | Each page's result goes to the slot at its own position in `doc.pages` | high; not executed | Refine.ByIndexFailsFromPageTwo | Refine.RefinedPages (with Refine.ByIndexAgreesWhenNumberedFromOne: both rules agree when pages are numbered 1..n) |
| pipeline/epub.py:64 | `.replace('\\n', '<br/>')` replaces the two characters backslash and `n`, never a line break | The paragraph `a` + line break + `b` stays `<p>a` + line break + `b</p>`, which a browser shows as `a b`. The paragraph `a\nb`, with a literal backslash, becomes `<p>a<br/>b</p>` | Each line break inside a paragraph becomes `<br/>`, so the line structure survives | high; not executed | Epub.PageToHtml (with Epub.PageHtmlKeepsLineBreaks, Epub.AsWrittenDropsLineBreak, Epub.AsWrittenInventsLineBreak) | Epub.PageToHtmlWithBreaks (with Epub.ParagraphHtmlRoundTrip) |
