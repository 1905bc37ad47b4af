/**
  * The page-oriented document representation shared by every stage
  * (`PageText` and `DocumentText`).
  */
module Pages {
  import opened Base
  import opened Text

  /** One page: a 1-based index, the OCR text, and the cleaned text once a stage set it. */
  datatype Page = Page(index: int, raw: string, cleaned: Option<string>)

  /** A source identifier and the pages in document order. */
  datatype Document = Document(source: string, pages: seq<Page>)

  /** The stripped, non-blank lines among `lines`, in order. */
  function NonBlankStripped(lines: seq<string>): (r: seq<string>)
    ensures forall i :: 0 <= i < |r| ==> r[i] != "" && IsStripped(r[i])
    decreases |lines|
  {
    if |lines| == 0 then []
    else
      var s := Strip(lines[0]);
      var rest := NonBlankStripped(lines[1..]);
      if s != "" then [s] + rest else rest
  }

  lemma {:induction false} NonBlankStrippedAppend(a: seq<string>, b: seq<string>)
    ensures NonBlankStripped(a + b) == NonBlankStripped(a) + NonBlankStripped(b)
    decreases |a|
  {
    if |a| == 0 {
      assert a + b == b;
    } else {
      assert (a + b)[1..] == a[1..] + b;
      NonBlankStrippedAppend(a[1..], b);
    }
  }

  /** The non-blank lines are exactly the stripped forms of the lines that are not blank. */
  lemma {:induction false} NonBlankStrippedEmpty(lines: seq<string>)
    ensures NonBlankStripped(lines) == [] <==> forall k :: 0 <= k < |lines| ==> IsBlank(lines[k])
    decreases |lines|
  {
    if |lines| > 0 {
      StripOfBlank(lines[0]);
      NonBlankStrippedEmpty(lines[1..]);
      assert forall k :: 1 <= k < |lines| ==> lines[k] == lines[1..][k - 1];
    }
  }

  /** The position of the first non-blank line, or `|lines|` when every line is blank. */
  function FirstNonBlank(lines: seq<string>): (i: nat)
    ensures i <= |lines|
    ensures forall j :: 0 <= j < i ==> IsBlank(lines[j])
    ensures i < |lines| ==> !IsBlank(lines[i])
    decreases |lines|
  {
    if |lines| == 0 then 0
    else if !IsBlank(lines[0]) then 0
    else
      var i := FirstNonBlank(lines[1..]);
      assert forall j :: 1 <= j < i + 1 ==> lines[j] == lines[1..][j - 1];
      1 + i
  }

  /** The position of the last non-blank line, or -1 when every line is blank. */
  function LastNonBlank(lines: seq<string>): (i: int)
    ensures -1 <= i < |lines|
    ensures forall j :: i < j < |lines| ==> IsBlank(lines[j])
    ensures 0 <= i ==> !IsBlank(lines[i])
    decreases |lines|
  {
    if |lines| == 0 then -1
    else if !IsBlank(lines[|lines| - 1]) then |lines| - 1
    else
      var i := LastNonBlank(lines[..|lines| - 1]);
      assert forall j :: i < j < |lines| - 1 ==> lines[j] == lines[..|lines| - 1][j];
      i
  }

  /** The first kept line is the stripped first non-blank line; nothing is kept when all are blank. */
  lemma {:induction false} NonBlankStrippedFirst(lines: seq<string>)
    ensures NonBlankStripped(lines) == [] <==> FirstNonBlank(lines) == |lines|
    ensures FirstNonBlank(lines) < |lines| ==>
              NonBlankStripped(lines)[0] == Strip(lines[FirstNonBlank(lines)])
    decreases |lines|
  {
    if |lines| > 0 {
      StripOfBlank(lines[0]);
      NonBlankStrippedFirst(lines[1..]);
    }
  }

  /** The last kept line is the stripped last non-blank line. */
  lemma {:induction false} NonBlankStrippedLast(lines: seq<string>)
    ensures NonBlankStripped(lines) == [] <==> LastNonBlank(lines) == -1
    ensures 0 <= LastNonBlank(lines) ==>
              NonBlankStripped(lines)[|NonBlankStripped(lines)| - 1] == Strip(lines[LastNonBlank(lines)])
    decreases |lines|
  {
    if |lines| > 0 {
      var n := |lines| - 1;
      assert lines == lines[..n] + [lines[n]];
      NonBlankStrippedAppend(lines[..n], [lines[n]]);
      StripOfBlank(lines[n]);
      NonBlankStrippedLast(lines[..n]);
      assert [lines[n]][1..] == [];
    }
  }

  /** `PageText.header_candidate`: the first non-blank line, stripped, or "". */
  function HeaderCandidate(p: Page): (r: string)
    ensures IsStripped(r)
  {
    var lines := NonBlankStripped(SplitLines(p.raw));
    if |lines| > 0 then lines[0] else ""
  }

  /** `PageText.footer_candidate`: the last non-blank line, stripped, or "". */
  function FooterCandidate(p: Page): (r: string)
    ensures IsStripped(r)
  {
    var lines := NonBlankStripped(SplitLines(p.raw));
    if |lines| > 0 then lines[|lines| - 1] else ""
  }

  /** The header is the stripped first non-blank line of the page, and "" exactly when there is none. */
  lemma HeaderCandidateIsFirstNonBlank(p: Page)
    ensures var L := SplitLines(p.raw); var i := FirstNonBlank(L);
            (HeaderCandidate(p) == "" <==> i == |L|)
            && (i < |L| ==> HeaderCandidate(p) == Strip(L[i]))
  {
    var L := SplitLines(p.raw);
    NonBlankStrippedFirst(L);
  }

  /** The footer is the stripped last non-blank line of the page, and "" exactly when there is none. */
  lemma FooterCandidateIsLastNonBlank(p: Page)
    ensures var L := SplitLines(p.raw); var i := LastNonBlank(L);
            (FooterCandidate(p) == "" <==> i == -1)
            && (0 <= i ==> FooterCandidate(p) == Strip(L[i]))
  {
    var L := SplitLines(p.raw);
    NonBlankStrippedLast(L);
  }

  /** A page with exactly one non-blank line has that line as both header and footer. */
  lemma SingleLineHeaderIsFooter(p: Page, k: nat)
    requires k < |SplitLines(p.raw)| && !IsBlank(SplitLines(p.raw)[k])
    requires forall j :: 0 <= j < |SplitLines(p.raw)| && j != k ==> IsBlank(SplitLines(p.raw)[j])
    ensures HeaderCandidate(p) == FooterCandidate(p) == Strip(SplitLines(p.raw)[k])
  {
    var L := SplitLines(p.raw);
    HeaderCandidateIsFirstNonBlank(p);
    FooterCandidateIsLastNonBlank(p);
    assert FirstNonBlank(L) == k;
    assert LastNonBlank(L) == k;
  }

  /** The text a page contributes once cleaned: `cleaned` when set (even if empty), else `raw`. */
  function PageText(p: Page): string {
    if p.cleaned.Some? then p.cleaned.value else p.raw
  }

  /** Python's `page.cleaned or page.raw`: an empty cleaned text falls back to the raw text. */
  function CleanedOrRaw(p: Page): (r: string)
    ensures r == PageText(p) || (p.cleaned == Some("") && r == p.raw)
  {
    if p.cleaned.Some? && p.cleaned.value != "" then p.cleaned.value else p.raw
  }

  /** `DocumentText.combined_raw`: the raw texts joined by newlines. */
  function CombinedRaw(pages: seq<Page>): (r: string)
    ensures |pages| == 0 ==> r == ""
    ensures |pages| == 1 ==> r == pages[0].raw
    ensures |pages| > 1 ==> r == CombinedRaw(pages[..|pages| - 1]) + "\n" + pages[|pages| - 1].raw
    decreases |pages|
  {
    var raws := seq(|pages|, i requires 0 <= i < |pages| => pages[i].raw);
    if |pages| > 1 then
      assert raws == raws[..|pages| - 1] + [pages[|pages| - 1].raw];
      JoinAppendOne(raws[..|pages| - 1], pages[|pages| - 1].raw, "\n");
      assert raws[..|pages| - 1] ==
             seq(|pages| - 1, i requires 0 <= i < |pages| - 1 => pages[..|pages| - 1][i].raw);
      Join(raws, "\n")
    else
      Join(raws, "\n")
  }

  /** The stripped per-page contents `combined_clean` joins. */
  function CleanPayload(pages: seq<Page>): seq<string> {
    seq(|pages|, i requires 0 <= i < |pages| => Strip(PageText(pages[i])))
  }

  /** `DocumentText.combined_clean(marker)`. */
  function CombinedClean(pages: seq<Page>, marker: string): (r: string)
    ensures IsStripped(r)
    ensures |pages| == 1 ==> r == Strip(PageText(pages[0]))
  {
    assert |pages| == 1 ==> CleanPayload(pages) == [Strip(PageText(pages[0]))];
    StripIdempotent(if |pages| == 1 then PageText(pages[0]) else "");
    Strip(Join(CleanPayload(pages), marker))
  }

  /** Each page's text, `cleaned` when set and `raw` otherwise, before any stripping. */
  function PageTexts(pages: seq<Page>): seq<string> {
    seq(|pages|, i requires 0 <= i < |pages| => PageText(pages[i]))
  }

  /** Stripping each page changes only whitespace. */
  lemma {:induction false} EraseCleanPayload(pages: seq<Page>)
    ensures Erase(Concat(CleanPayload(pages)), Whitespace) == Erase(Concat(PageTexts(pages)), Whitespace)
    decreases |pages|
  {
    if |pages| > 0 {
      EraseCleanPayload(pages[1..]);
      assert CleanPayload(pages)[1..] == CleanPayload(pages[1..]);
      assert PageTexts(pages)[1..] == PageTexts(pages[1..]);
      EraseAppend(Strip(PageText(pages[0])), Concat(CleanPayload(pages[1..])), Whitespace);
      EraseAppend(PageText(pages[0]), Concat(PageTexts(pages[1..])), Whitespace);
      EraseStrip(PageText(pages[0]), Whitespace);
    }
  }

  /**
    * With a blank marker (the default is "\n\n"), `combined_clean` holds exactly the
    * non-whitespace characters of the pages' texts, page after page.
    */
  lemma CombinedCleanKeepsText(pages: seq<Page>, marker: string)
    requires IsBlank(marker)
    ensures Erase(CombinedClean(pages, marker), Whitespace) == Erase(Concat(PageTexts(pages)), Whitespace)
  {
    EraseStrip(Join(CleanPayload(pages), marker), Whitespace);
    EraseJoinBlank(CleanPayload(pages), marker);
    EraseCleanPayload(pages);
  }

  /** `combined_clean` never reads the raw text of a page whose `cleaned` is set, even to "". */
  lemma CombinedCleanIgnoresRawOfCleaned(pages: seq<Page>, k: nat, otherRaw: string, marker: string)
    requires k < |pages| && pages[k].cleaned.Some?
    ensures CombinedClean(pages[k := Page(pages[k].index, otherRaw, pages[k].cleaned)], marker)
            == CombinedClean(pages, marker)
  {
    var q := pages[k := Page(pages[k].index, otherRaw, pages[k].cleaned)];
    assert CleanPayload(q) == CleanPayload(pages);
  }
}
