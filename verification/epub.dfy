/**
  * The text side of EPUB generation (`pipeline/epub.py`): the HTML body of a page,
  * the chapter title and file name of each page, the book's title, and the
  * plain-text inspection file. Packaging and writing the EPUB container are
  * left to `ebooklib` and are not modelled.
  */
module Epub {
  import opened Base
  import opened Text
  import opened Pages
  import opened Storage
  import opened Config

  // ---------------------------------------------------------------------------
  // html.escape
  // ---------------------------------------------------------------------------

  /** `html.escape` on one character: the five characters it rewrites, with `quote=True`. */
  function EscapeChar(c: char): (r: string)
    ensures |r| >= 1
  {
    if c == '&' then "&amp;"
    else if c == '<' then "&lt;"
    else if c == '>' then "&gt;"
    else if c == '"' then "&quot;"
    else if c == '\'' then "&#x27;"
    else [c]
  }

  /** The characters `html.escape` never leaves in its output. */
  predicate Markup(c: char) {
    c == '<' || c == '>' || c == '"' || c == '\''
  }

  /** `html.escape(s)`. */
  function Escape(s: string): (r: string)
    ensures forall i :: 0 <= i < |r| ==> !Markup(r[i])
    ensures '\n' in r <==> '\n' in s
    ensures '\\' in r <==> '\\' in s
    decreases |s|
  {
    if |s| == 0 then "" else EscapeChar(s[0]) + Escape(s[1..])
  }

  /** Decoding of the five entities `html.escape` produces; everything else is kept. */
  function Unescape(s: string): string
    decreases |s|
  {
    if |s| == 0 then ""
    else if s[0] != '&' then [s[0]] + Unescape(s[1..])
    else if StartsWith(s, "&amp;") then "&" + Unescape(s[5..])
    else if StartsWith(s, "&lt;") then "<" + Unescape(s[4..])
    else if StartsWith(s, "&gt;") then ">" + Unescape(s[4..])
    else if StartsWith(s, "&quot;") then "\"" + Unescape(s[6..])
    else if StartsWith(s, "&#x27;") then "'" + Unescape(s[6..])
    else [s[0]] + Unescape(s[1..])
  }

  lemma UnescapeStep(c: char, t: string)
    ensures Unescape(EscapeChar(c) + t) == [c] + Unescape(t)
  {
    var e := EscapeChar(c);
    var s := e + t;
    assert s[..|e|] == e;
    assert s[|e|..] == t;
    assert s[0] == e[0];
    if c == '<' || c == '>' {
      assert s[1] == e[1];
      assert !StartsWith(s, "&amp;");
    } else if c == '"' {
      assert s[1] == 'q';
      assert !StartsWith(s, "&amp;") && !StartsWith(s, "&lt;") && !StartsWith(s, "&gt;");
    } else if c == '\'' {
      assert s[1] == '#';
      assert !StartsWith(s, "&amp;") && !StartsWith(s, "&lt;") && !StartsWith(s, "&gt;") && !StartsWith(s, "&quot;");
    }
  }

  /** Unescaping undoes escaping: no text is lost in a page's HTML. */
  lemma {:induction false} UnescapeEscape(s: string)
    ensures Unescape(Escape(s)) == s
    decreases |s|
  {
    if |s| > 0 {
      UnescapeEscape(s[1..]);
      UnescapeStep(s[0], Escape(s[1..]));
      assert [s[0]] + s[1..] == s;
    }
  }

  /** Text without the five special characters is left as it is. */
  lemma {:induction false} EscapePlain(s: string)
    requires forall i :: 0 <= i < |s| ==> !Markup(s[i]) && s[i] != '&'
    ensures Escape(s) == s
    decreases |s|
  {
    if |s| > 0 {
      EscapePlain(s[1..]);
      assert [s[0]] + s[1..] == s;
    }
  }

  // ---------------------------------------------------------------------------
  // Paragraphs
  // ---------------------------------------------------------------------------

  const ParagraphBreak := "\n\n"

  /** `[p.strip() for p in content.split("\n\n") if p.strip()]`. */
  function Paragraphs(content: string): (r: seq<string>)
    ensures forall i :: 0 <= i < |r| ==> r[i] != "" && IsStripped(r[i])
  {
    NonBlankStripped(SplitOn(content, ParagraphBreak))
  }

  lemma {:induction false} EraseNonBlankStripped(lines: seq<string>)
    ensures Erase(Concat(NonBlankStripped(lines)), Whitespace) == Erase(Concat(lines), Whitespace)
    decreases |lines|
  {
    if |lines| > 0 {
      var s := Strip(lines[0]);
      var rest := NonBlankStripped(lines[1..]);
      EraseNonBlankStripped(lines[1..]);
      EraseAppend(lines[0], Concat(lines[1..]), Whitespace);
      EraseStrip(lines[0], Whitespace);
      if s != "" {
        assert Concat([s] + rest) == s + Concat(rest) by {
          assert ([s] + rest)[1..] == rest;
        }
        EraseAppend(s, Concat(rest), Whitespace);
      } else {
        assert Erase(s, Whitespace) == "";
      }
    }
  }

  /** The paragraphs hold every non-whitespace character of the page, in order, and nothing else. */
  lemma ParagraphsKeepText(content: string)
    ensures Erase(Concat(Paragraphs(content)), Whitespace) == Erase(content, Whitespace)
  {
    var pieces := SplitOn(content, ParagraphBreak);
    JoinSplit(content, ParagraphBreak);
    EraseJoinBlank(pieces, ParagraphBreak);
    EraseNonBlankStripped(pieces);
  }

  /** A page whose content is blank has no paragraphs. */
  lemma BlankContentHasNoParagraphs(content: string)
    requires IsBlank(content)
    ensures Paragraphs(content) == []
  {
    var pieces := SplitOn(content, ParagraphBreak);
    JoinSplit(content, ParagraphBreak);
    forall k | 0 <= k < |pieces| ensures IsBlank(pieces[k]) {
      JoinedPieceBlank(pieces, ParagraphBreak, k);
    }
    NonBlankStrippedEmpty(pieces);
  }

  lemma {:induction false} JoinedPieceBlank(parts: seq<string>, sep: string, k: nat)
    requires k < |parts| && IsBlank(Join(parts, sep))
    ensures IsBlank(parts[k])
    decreases |parts|
  {
    if |parts| > 1 {
      var j := Join(parts, sep);
      assert j == parts[0] + (sep + Join(parts[1..], sep));
      if k == 0 {
        assert forall i :: 0 <= i < |parts[0]| ==> parts[0][i] == j[i];
      } else {
        var tail := Join(parts[1..], sep);
        assert forall i :: 0 <= i < |tail| ==> tail[i] == j[|parts[0]| + |sep| + i];
        JoinedPieceBlank(parts[1..], sep, k - 1);
      }
    }
  }

  // ---------------------------------------------------------------------------
  // Page HTML
  // ---------------------------------------------------------------------------

  /** The two-character sequence backslash, `n` that the source's `replace` looks for. */
  const BackslashN := ['\\', 'n']

  const LineBreakTag := "<br/>"

  /** One paragraph as `_page_to_html` writes it: escaped, the backslash-`n` pairs turned into `<br/>`. */
  function ParagraphHtmlAsWritten(paragraph: string): string {
    "<p>" + Replace(Escape(paragraph), BackslashN, LineBreakTag) + "</p>"
  }

  function ParagraphsHtmlAsWritten(paragraphs: seq<string>): (r: seq<string>)
    ensures |r| == |paragraphs|
    ensures forall i :: 0 <= i < |r| ==> r[i] == ParagraphHtmlAsWritten(paragraphs[i])
  {
    seq(|paragraphs|, i requires 0 <= i < |paragraphs| => ParagraphHtmlAsWritten(paragraphs[i]))
  }

  /** One paragraph with its line breaks turned into `<br/>`, as the surrounding code means. */
  function ParagraphHtml(paragraph: string): string {
    "<p>" + Replace(Escape(paragraph), "\n", LineBreakTag) + "</p>"
  }

  function ParagraphsHtml(paragraphs: seq<string>): (r: seq<string>)
    ensures |r| == |paragraphs|
    ensures forall i :: 0 <= i < |r| ==> r[i] == ParagraphHtml(paragraphs[i])
  {
    seq(|paragraphs|, i requires 0 <= i < |paragraphs| => ParagraphHtml(paragraphs[i]))
  }

  /** The heading every chapter body starts with. */
  function Heading(title: string): string {
    "<h2>" + Escape(title) + "</h2>\n"
  }

  /** `_page_to_html`, as written: only backslash-`n` pairs become `<br/>`. */
  function PageToHtml(title: string, content: string): (r: string)
    ensures StartsWith(r, Heading(title))
    ensures Paragraphs(content) == [] ==> r == Heading(title)
  {
    var r := Heading(title) + Join(ParagraphsHtmlAsWritten(Paragraphs(content)), "\n");
    assert r[..|Heading(title)|] == Heading(title);
    r
  }

  /** `_page_to_html` as the surrounding code means it: each line break inside a paragraph becomes `<br/>`. */
  function PageToHtmlWithBreaks(title: string, content: string): (r: string)
    ensures StartsWith(r, Heading(title))
    ensures Paragraphs(content) == [] ==> r == Heading(title)
  {
    var r := Heading(title) + Join(ParagraphsHtml(Paragraphs(content)), "\n");
    assert r[..|Heading(title)|] == Heading(title);
    r
  }

  /** Each paragraph only escaped and wrapped in `<p>`: its line breaks are kept as they are. */
  function EscapedParagraphs(paragraphs: seq<string>): (r: seq<string>)
    ensures |r| == |paragraphs|
    ensures forall i :: 0 <= i < |r| ==> r[i] == "<p>" + Escape(paragraphs[i]) + "</p>"
  {
    seq(|paragraphs|, i requires 0 <= i < |paragraphs| => "<p>" + Escape(paragraphs[i]) + "</p>")
  }

  /** A page without backslashes has none in any of its paragraphs. */
  lemma ParagraphsWithoutBackslash(content: string, i: nat)
    requires '\\' !in content && i < |Paragraphs(content)|
    ensures '\\' !in Paragraphs(content)[i]
  {
    var ps := Paragraphs(content);
    if '\\' in ps[i] {
      ConcatHasParts(ps, i, '\\');
      EraseKeepsOthers(Concat(ps), Whitespace, '\\');
      ParagraphsKeepText(content);
      EraseKeepsOthers(content, Whitespace, '\\');
    }
  }

  /**
    * As written, a page without backslashes keeps every line break inside its
    * paragraphs: the body is the paragraphs, each only escaped, with no `<br/>`.
    */
  lemma PageHtmlKeepsLineBreaks(title: string, content: string)
    requires '\\' !in content
    ensures PageToHtml(title, content) == Heading(title) + Join(EscapedParagraphs(Paragraphs(content)), "\n")
  {
    var ps := Paragraphs(content);
    forall i | 0 <= i < |ps| ensures ParagraphsHtmlAsWritten(ps)[i] == EscapedParagraphs(ps)[i] {
      ParagraphsWithoutBackslash(content, i);
      AsWrittenKeepsLineBreaks(ps[i]);
    }
    assert ParagraphsHtmlAsWritten(ps) == EscapedParagraphs(ps);
  }

  /** The escaped paragraph text with `<br/>` for each line break holds no raw line break and no markup. */
  lemma {:induction false} EncodedLineFree(e: string)
    requires forall i :: 0 <= i < |e| ==> !Markup(e[i])
    ensures '\n' !in Replace(e, "\n", LineBreakTag)
    decreases |e|
  {
    if |e| > 0 {
      EncodedLineFree(e[1..]);
    }
  }

  /** `replace("<br/>", "\n")` undoes `replace("\n", "<br/>")` on text without `<`. */
  lemma {:induction false} LineBreaksBack(e: string)
    requires '<' !in e
    ensures Replace(Replace(e, "\n", LineBreakTag), LineBreakTag, "\n") == e
    decreases |e|
  {
    if |e| > 0 {
      var rest := Replace(e[1..], "\n", LineBreakTag);
      LineBreaksBack(e[1..]);
      if e[0] == '\n' {
        assert Replace(e, "\n", LineBreakTag) == LineBreakTag + rest;
        assert (LineBreakTag + rest)[..5] == LineBreakTag;
        assert (LineBreakTag + rest)[5..] == rest;
      } else {
        assert Replace(e, "\n", LineBreakTag) == [e[0]] + rest;
        assert ([e[0]] + rest)[1..] == rest;
      }
      assert [e[0]] + e[1..] == e;
    }
  }

  /** Reading a paragraph back from its HTML. */
  function ParagraphText(html: string): string
    requires StartsWith(html, "<p>") && EndsWith(html, "</p>") && |html| >= 7
  {
    Unescape(Replace(html[3..|html| - 4], LineBreakTag, "\n"))
  }

  /**
    * A paragraph's HTML has no raw line break left inside, and the paragraph, line
    * breaks included, can be read back from it.
    */
  lemma ParagraphHtmlRoundTrip(paragraph: string)
    ensures var h := ParagraphHtml(paragraph);
            && StartsWith(h, "<p>") && EndsWith(h, "</p>") && |h| >= 7
            && '\n' !in h
            && ParagraphText(h) == paragraph
  {
    var e := Escape(paragraph);
    var inner := Replace(e, "\n", LineBreakTag);
    var h := "<p>" + inner + "</p>";
    assert h[3..|h| - 4] == inner;
    assert h[..3] == "<p>";
    assert h[|h| - 4..] == "</p>";
    EncodedLineFree(e);
    LineBreaksBack(e);
    UnescapeEscape(paragraph);
  }

  /** `replace` of a target whose first character is absent changes nothing. */
  lemma {:induction false} ReplaceNoHead(s: string, target: string, replacement: string)
    requires |target| > 0 && target[0] !in s
    ensures Replace(s, target, replacement) == s
    decreases |s|
  {
    if |s| > 0 {
      ReplaceNoHead(s[1..], target, replacement);
      assert [s[0]] + s[1..] == s;
    }
  }

  /** As written, a line break inside a paragraph is not touched: without a backslash the paragraph is only escaped. */
  lemma AsWrittenKeepsLineBreaks(paragraph: string)
    requires '\\' !in paragraph
    ensures ParagraphHtmlAsWritten(paragraph) == "<p>" + Escape(paragraph) + "</p>"
  {
    ReplaceNoHead(Escape(paragraph), BackslashN, LineBreakTag);
  }

  /** The paragraph "a\nb" keeps its raw line break inside `<p>`, where HTML renders it as a space. */
  lemma AsWrittenDropsLineBreak()
    ensures ParagraphHtmlAsWritten("a\nb") == "<p>a\nb</p>"
  {
    EscapePlain("a\nb");
    AsWrittenKeepsLineBreaks("a\nb");
  }

  lemma BackslashNReplaced()
    ensures Replace("a\\nb", BackslashN, LineBreakTag) == "a<br/>b"
  {
    var s := "a\\nb";
    assert s[1..] == BackslashN + "b";
    assert s[3..] == "b";
    assert Replace("b", BackslashN, LineBreakTag) == "b";
    assert Replace(s[1..], BackslashN, LineBreakTag) == "<br/>b";
  }

  /** The paragraph "a\\nb" (a backslash, then n) gets a `<br/>` that stands for no line break at all. */
  lemma AsWrittenInventsLineBreak()
    ensures ParagraphHtmlAsWritten("a\\nb") == "<p>a<br/>b</p>"
  {
    EscapePlain("a\\nb");
    BackslashNReplaced();
  }

  /** With line breaks turned into `<br/>`, the paragraph "a\nb" shows its line break. */
  lemma LineBreakShown()
    ensures ParagraphHtml("a\nb") == "<p>a<br/>b</p>"
  {
    var t := "a\nb";
    EscapePlain(t);
    assert t[1..] == "\nb";
    assert t[2..] == "b";
    assert Replace("b", "\n", LineBreakTag) == "b";
    assert Replace(t[1..], "\n", LineBreakTag) == "<br/>b";
  }

  // ---------------------------------------------------------------------------
  // Chapters and book
  // ---------------------------------------------------------------------------

  /** f"{i:04d}": at least four characters, zero-padded after a minus sign. */
  function FormatIndex(i: int): (r: string)
    ensures |r| >= 4
  {
    if i < 0 then "-" + ZeroPad(NatToString(-i), 3) else ZeroPad(NatToString(i), 4)
  }

  lemma {:induction false} DigitsValueZeros(z: string)
    requires forall i :: 0 <= i < |z| ==> z[i] == '0'
    ensures AllDigits(z) && DigitsValue(z) == 0
    decreases |z|
  {
    if |z| > 0 {
      DigitsValueZeros(z[..|z| - 1]);
    }
  }

  /** Leading zeros do not change the value of a numeral. */
  lemma {:induction false} DigitsValueLeadingZeros(z: string, s: string)
    requires forall i :: 0 <= i < |z| ==> z[i] == '0'
    requires AllDigits(s)
    ensures AllDigits(z + s) && DigitsValue(z + s) == DigitsValue(s)
    decreases |s|
  {
    if |s| == 0 {
      assert z + s == z;
      DigitsValueZeros(z);
    } else {
      DigitsValueLeadingZeros(z, s[..|s| - 1]);
      assert (z + s)[..|z + s| - 1] == z + s[..|s| - 1];
    }
  }

  lemma PaddedValue(n: nat, width: nat)
    ensures AllDigits(ZeroPad(NatToString(n), width))
    ensures DigitsValue(ZeroPad(NatToString(n), width)) == n
  {
    var s := NatToString(n);
    var r := ZeroPad(s, width);
    var z := r[..|r| - |s|];
    assert r == z + s;
    DigitsValueLeadingZeros(z, s);
    DigitsValueOfNat(n);
  }

  /** A negative index is a minus sign followed by the digits of its magnitude. */
  lemma FormatNegativeValue(i: int)
    requires i < 0
    ensures FormatIndex(i)[0] == '-'
    ensures AllDigits(FormatIndex(i)[1..]) && DigitsValue(FormatIndex(i)[1..]) == -i
  {
    var m: nat := -i;
    var z := ZeroPad(NatToString(m), 3);
    assert FormatIndex(i) == "-" + z;
    assert ("-" + z)[1..] == z;
    PaddedValue(m, 3);
  }

  /** A non-negative index is written in digits only, at least four of them. */
  lemma FormatNonNegativeValue(i: int)
    requires i >= 0
    ensures FormatIndex(i)[0] != '-'
    ensures AllDigits(FormatIndex(i)) && DigitsValue(FormatIndex(i)) == i
  {
    var f := FormatIndex(i);
    PaddedValue(i, 4);
    assert IsDigit(f[0]);
  }

  /** Different indices are formatted differently. */
  lemma FormatIndexInjective(a: int, b: int)
    requires FormatIndex(a) == FormatIndex(b)
    ensures a == b
  {
    if a < 0 {
      FormatNegativeValue(a);
      if b < 0 {
        FormatNegativeValue(b);
      } else {
        FormatNonNegativeValue(b);
      }
    } else {
      FormatNonNegativeValue(a);
      if b < 0 {
        FormatNegativeValue(b);
      } else {
        FormatNonNegativeValue(b);
      }
    }
  }

  /** `f"page_{index:04d}.xhtml"`. */
  function ChapterFileName(index: int): (r: string)
    ensures StartsWith(r, "page_") && EndsWith(r, ".xhtml")
  {
    var r := "page_" + FormatIndex(index) + ".xhtml";
    assert r[..5] == "page_";
    assert r[|r| - 6..] == ".xhtml";
    r
  }

  /** Pages with different indices land in different chapter files. */
  lemma ChapterFileNameInjective(a: int, b: int)
    requires ChapterFileName(a) == ChapterFileName(b)
    ensures a == b
  {
    var fa := ChapterFileName(a);
    var fb := ChapterFileName(b);
    assert fa[5..|fa| - 6] == FormatIndex(a);
    assert fb[5..|fb| - 6] == FormatIndex(b);
    FormatIndexInjective(a, b);
  }

  /** Indices from 0 to 9999 give names of one length. */
  lemma ChapterFileNameWidth(index: int)
    requires 0 <= index < 10000
    ensures |ChapterFileName(index)| == 15
  {
    NatToStringLength(index, 4);
  }

  /** `f"Page {index}"`. */
  function ChapterTitle(index: int): string {
    "Page " + IntToString(index)
  }

  /** A chapter title is plain text, so its HTML heading shows it as it is. */
  lemma ChapterTitleUnescaped(index: int)
    ensures Escape(ChapterTitle(index)) == ChapterTitle(index)
  {
    var t := ChapterTitle(index);
    var d := NatToString(if index < 0 then -index else index);
    assert forall i :: 0 <= i < |d| ==> IsDigit(d[i]);
    assert forall i :: 0 <= i < |t| ==> !Markup(t[i]) && t[i] != '&';
    EscapePlain(t);
  }

  /** One EPUB chapter: its title, its file name and its HTML. */
  datatype Chapter = Chapter(title: string, fileName: string, content: string)

  /** The chapter of a page: its HTML shows `cleaned or raw`. */
  function ChapterOf(p: Page): Chapter {
    var title := ChapterTitle(p.index);
    Chapter(title, ChapterFileName(p.index), PageToHtml(title, CleanedOrRaw(p)))
  }

  /** What `write_pagewise_epub` hands to the EPUB writer, besides the navigation and style sheet. */
  datatype Book = Book(identifier: string, title: string, author: string, toc: seq<Chapter>, spine: seq<string>)

  /** The book title: the source file's stem with underscores shown as spaces. */
  function BookTitle(source: string): (r: string)
    ensures '_' !in r && |r| == |Stem(source)|
  {
    ReplaceRemovesChar(Stem(source), '_', " ");
    ReplaceOneCharLength(Stem(source), '_', ' ');
    Replace(Stem(source), "_", " ")
  }

  lemma {:induction false} ReplaceOneCharLength(s: string, c: char, d: char)
    ensures |Replace(s, [c], [d])| == |s|
    decreases |s|
  {
    if |s| > 0 {
      ReplaceOneCharLength(s[1..], c, d);
    }
  }

  /** `write_pagewise_epub`: one chapter per page, in page order, listed in the table of contents and after `nav` in the spine. */
  function PagewiseBook(doc: Document): (r: Book)
    ensures |r.toc| == |doc.pages| && |r.spine| == |doc.pages| + 1 && r.spine[0] == "nav"
    ensures forall i :: 0 <= i < |doc.pages| ==> r.toc[i] == ChapterOf(doc.pages[i]) && r.spine[i + 1] == r.toc[i].fileName
  {
    var chapters := seq(|doc.pages|, i requires 0 <= i < |doc.pages| => ChapterOf(doc.pages[i]));
    var names := seq(|chapters|, i requires 0 <= i < |chapters| => chapters[i].fileName);
    var title := BookTitle(doc.source);
    Book(Lower(title), title, "Unknown Author", chapters, ["nav"] + names)
  }

  /** Pages with distinct indices give a spine without repeated files, and each chapter heading names its page. */
  lemma BookChaptersDistinct(doc: Document)
    requires forall i, j :: 0 <= i < j < |doc.pages| ==> doc.pages[i].index != doc.pages[j].index
    ensures var b := PagewiseBook(doc);
            forall i, j :: 1 <= i < j < |b.spine| ==> b.spine[i] != b.spine[j]
    ensures forall i :: 0 <= i < |doc.pages| ==>
              StartsWith(PagewiseBook(doc).toc[i].content, "<h2>" + ChapterTitle(doc.pages[i].index) + "</h2>\n")
  {
    var b := PagewiseBook(doc);
    forall i, j | 1 <= i < j < |b.spine| ensures b.spine[i] != b.spine[j] {
      if b.spine[i] == b.spine[j] {
        ChapterFileNameInjective(doc.pages[i - 1].index, doc.pages[j - 1].index);
      }
    }
    forall i | 0 <= i < |doc.pages|
      ensures StartsWith(b.toc[i].content, "<h2>" + ChapterTitle(doc.pages[i].index) + "</h2>\n")
    {
      ChapterTitleUnescaped(doc.pages[i].index);
    }
  }

  /** An empty `cleaned` falls back to the raw text, marker line included. */
  lemma EmptyCleanedShowsRaw(p: Page)
    requires p.cleaned == Some("")
    ensures ChapterOf(p).content == PageToHtml(ChapterTitle(p.index), p.raw)
  {}

  // ---------------------------------------------------------------------------
  // Plain text
  // ---------------------------------------------------------------------------

  /** The content `write_plain_text` writes: `cleaned` when non-empty, else the raw text without its marker. */
  function PlainContent(p: Page): string {
    if p.cleaned.Some? && p.cleaned.value != "" then p.cleaned.value else StripPageMarker(p.raw)
  }

  function PlainPage(p: Page): string {
    MarkerLine(p.index) + "\n" + Strip(PlainContent(p)) + "\n\n"
  }

  /** `write_plain_text`: the text of the file it writes. */
  function PlainText(pages: seq<Page>): string
    decreases |pages|
  {
    if |pages| == 0 then "" else PlainPage(pages[0]) + PlainText(pages[1..])
  }

  /** The page as `write_document` would need it to write the same text. */
  function AsWritten(p: Page): Page {
    Page(p.index, p.raw, Some(Strip(PlainContent(p))))
  }

  function AllAsWritten(pages: seq<Page>): (r: seq<Page>)
    ensures |r| == |pages| && forall i :: 0 <= i < |pages| ==> r[i] == AsWritten(pages[i])
  {
    seq(|pages|, i requires 0 <= i < |pages| => AsWritten(pages[i]))
  }

  /** The inspection file is the marker file `write_document` writes for the stripped contents. */
  lemma {:induction false} PlainTextIsMarkerFile(pages: seq<Page>)
    ensures PlainText(pages) == WritePages(AllAsWritten(pages), true)
    decreases |pages|
  {
    if |pages| > 0 {
      PlainTextIsMarkerFile(pages[1..]);
      assert AllAsWritten(pages)[1..] == AllAsWritten(pages[1..]);
      var c := Strip(PlainContent(pages[0]));
      RStripNoop(c);
    }
  }

  /**
    * The inspection file reads back with the pipeline's own reader: the same pages in the
    * same order with the same indices, each holding the stripped content written for it.
    */
  lemma PlainTextReadsBack(doc: Document, source: string)
    requires forall i :: 0 <= i < |doc.pages| ==> Writable(AsWritten(doc.pages[i]))
    ensures |ReadDocument(source, PlainText(doc.pages)).pages| == |doc.pages|
    ensures forall i :: 0 <= i < |doc.pages| ==>
              ReadDocument(source, PlainText(doc.pages)).pages[i]
              == Page(doc.pages[i].index, Strip(PlainContent(doc.pages[i])), None)
  {
    var written := Document(doc.source, AllAsWritten(doc.pages));
    PlainTextIsMarkerFile(doc.pages);
    WriteReadRoundTrip(written, source);
    forall i | 0 <= i < |doc.pages| ensures Strip(Strip(PlainContent(doc.pages[i]))) == Strip(PlainContent(doc.pages[i])) {
      StripIdempotent(PlainContent(doc.pages[i]));
    }
  }
}
