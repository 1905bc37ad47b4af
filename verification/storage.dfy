/**
  * The page-marker text format of intermediate files: `write_document`,
  * the line parser of `read_document`, and `strip_page_marker`.
  *
  * A file is modelled by its text; `read_document` sees that text after
  * universal-newline translation, one line per `\n`.
  */
module Storage {
  import opened Base
  import opened Text
  import opened Pages

  const MarkerHead: string := "--- Page "
  const MarkerTail: string := " ---"

  /** The marker line of page `index`. */
  function MarkerLine(index: int): (r: string)
    ensures '\n' !in r && '\r' !in r
  {
    MarkerHead + IntToString(index) + MarkerTail
  }

  /** `PAGE_MARKER_PATTERN.match(line.strip())`: the page number when the stripped line is a marker. */
  function MarkerIndex(line: string): (r: Option<nat>)
    ensures r.Some? ==> StartsWith(Strip(line), MarkerHead)
  {
    var s := Strip(line);
    if |s| > |MarkerHead| + |MarkerTail| && StartsWith(s, MarkerHead) && EndsWith(s, MarkerTail)
       && AllDigits(s[|MarkerHead|..|s| - |MarkerTail|])
    then Some(DigitsValue(s[|MarkerHead|..|s| - |MarkerTail|]))
    else None
  }

  /** A marker line written for a non-negative index is read back as that index. */
  lemma MarkerLineRead(index: nat)
    ensures MarkerIndex(MarkerLine(index)) == Some(index)
  {
    var s := MarkerLine(index);
    var d := NatToString(index);
    assert IsStripped(s);
    StripNoop(s);
    assert s[|MarkerHead|..|s| - |MarkerTail|] == d;
    DigitsValueOfNat(index);
  }

  /** No line is a marker. */
  ghost predicate Unmarked(lines: seq<string>) {
    forall i :: 0 <= i < |lines| ==> MarkerIndex(lines[i]).None?
  }

  // ---------------------------------------------------------------------------
  // Reading
  // ---------------------------------------------------------------------------

  /** Universal-newline translation on reading: `\r\n` and a lone `\r` become `\n`. */
  function TranslateNewlines(s: string): (r: string)
    ensures '\r' !in r
    decreases |s|
  {
    if |s| == 0 then ""
    else if s[0] == '\r' then "\n" + TranslateNewlines(if |s| > 1 && s[1] == '\n' then s[2..] else s[1..])
    else [s[0]] + TranslateNewlines(s[1..])
  }

  lemma {:induction false} TranslateNewlinesNoCR(s: string)
    requires '\r' !in s
    ensures TranslateNewlines(s) == s
    decreases |s|
  {
    if |s| > 0 {
      TranslateNewlinesNoCR(s[1..]);
      assert [s[0]] + s[1..] == s;
    }
  }

  /** The lines `for line in handle` yields, each with its final `\n` removed. */
  function FileLines(s: string): seq<string> {
    if |s| == 0 then []
    else if s[|s| - 1] == '\n' then SplitOn(s[..|s| - 1], "\n")
    else SplitOn(s, "\n")
  }

  /** A line of the file with the page number the marker pattern reads in it, if any. */
  datatype Line = Line(text: string, mark: Option<nat>)

  function Classify(lines: seq<string>): (r: seq<Line>)
    ensures |r| == |lines|
    decreases |lines|
  {
    if |lines| == 0 then [] else [Line(lines[0], MarkerIndex(lines[0]))] + Classify(lines[1..])
  }

  lemma {:induction false} ClassifyAt(lines: seq<string>, i: nat)
    requires i < |lines|
    ensures Classify(lines)[i] == Line(lines[i], MarkerIndex(lines[i]))
    decreases i
  {
    if i > 0 {
      ClassifyAt(lines[1..], i - 1);
    }
  }

  lemma {:induction false} ClassifyAppend(a: seq<string>, b: seq<string>)
    ensures Classify(a + b) == Classify(a) + Classify(b)
    decreases |a|
  {
    if |a| == 0 {
      assert a + b == b;
    } else {
      assert (a + b)[1..] == a[1..] + b;
      ClassifyAppend(a[1..], b);
    }
  }

  function Texts(ls: seq<Line>): (r: seq<string>)
    ensures |r| == |ls|
    decreases |ls|
  {
    if |ls| == 0 then [] else [ls[0].text] + Texts(ls[1..])
  }

  lemma {:induction false} TextsOfClassify(lines: seq<string>)
    ensures Texts(Classify(lines)) == lines
    decreases |lines|
  {
    if |lines| > 0 {
      TextsOfClassify(lines[1..]);
    }
  }

  /** No line is a marker. */
  ghost predicate NoMarker(ls: seq<Line>) {
    forall i :: 0 <= i < |ls| ==> ls[i].mark.None?
  }

  lemma UnmarkedClassify(lines: seq<string>)
    requires Unmarked(lines)
    ensures NoMarker(Classify(lines))
  {
    forall i | 0 <= i < |lines| ensures Classify(lines)[i].mark.None? {
      ClassifyAt(lines, i);
    }
  }

  /** The page collected from `current`, if any line (even a blank one) was collected. */
  function Group(index: int, current: seq<Line>): (r: seq<Page>)
    ensures |r| <= 1
  {
    if |current| > 0 then [Page(index, Strip(Join(Texts(current), "\n")), None)] else []
  }

  /** The loop state of `read_document`; `current` holds the lines collected since the last marker. */
  datatype Reader = Reader(pages: seq<Page>, current: seq<Line>, index: int)

  function ReadStep(st: Reader, line: Line): Reader {
    match line.mark
    case Some(n) => Reader(st.pages + Group(st.index, st.current), [], n)
    case None => Reader(st.pages, st.current + [line], st.index)
  }

  function ReadLines(st: Reader, lines: seq<Line>): Reader
    decreases |lines|
  {
    if |lines| == 0 then st else ReadLines(ReadStep(st, lines[0]), lines[1..])
  }

  /** The pages `read_document` builds from the lines of a file. */
  function ParseLines(lines: seq<string>): seq<Page> {
    var st := ReadLines(Reader([], [], 1), Classify(lines));
    st.pages + Group(st.index, st.current)
  }

  /** `read_document`, given the file's text. */
  function ReadDocument(source: string, text: string): Document {
    Document(source, ParseLines(FileLines(TranslateNewlines(text))))
  }

  /** Position of the first marker line, or the length when there is none. */
  function FirstMarker(ls: seq<Line>): (k: nat)
    ensures k <= |ls|
    ensures k < |ls| ==> ls[k].mark.Some?
    decreases |ls|
  {
    if |ls| == 0 then 0
    else if ls[0].mark.Some? then 0
    else 1 + FirstMarker(ls[1..])
  }

  lemma {:induction false} FirstMarkerAfter(body: seq<Line>, rest: seq<Line>)
    requires NoMarker(body)
    ensures FirstMarker(body + rest) == |body| + FirstMarker(rest)
    decreases |body|
  {
    if |body| == 0 {
      assert body + rest == rest;
    } else {
      assert (body + rest)[1..] == body[1..] + rest;
      FirstMarkerAfter(body[1..], rest);
    }
  }

  /**
    * The reference reading: the lines before the first marker form a page numbered `index`
    * (when there are any), and each marker starts the next page with its own number.
    */
  function Sections(index: int, ls: seq<Line>): seq<Page>
    decreases |ls|
  {
    var k := FirstMarker(ls);
    if k == |ls| then Group(index, ls)
    else Group(index, ls[..k]) + Sections(ls[k].mark.value, ls[k + 1..])
  }

  /** Lines without markers form one section. */
  lemma SectionsNoMarker(index: int, body: seq<Line>)
    requires NoMarker(body)
    ensures Sections(index, body) == Group(index, body)
  {
    FirstMarkerAfter(body, []);
    assert body + [] == body;
  }

  /** The first marker ends the current section and numbers the next. */
  lemma SectionsAtMarker(index: int, body: seq<Line>, ls: seq<Line>)
    requires NoMarker(body) && |ls| > 0 && ls[0].mark.Some?
    ensures Sections(index, body + ls) == Group(index, body) + Sections(ls[0].mark.value, ls[1..])
  {
    var all := body + ls;
    FirstMarkerAfter(body, ls);
    assert all[..|body|] == body;
    assert all[|body|] == ls[0];
    assert all[|body| + 1..] == ls[1..];
  }

  /** The loop of `read_document` computes the reference reading. */
  lemma {:induction false} ReadLinesIsSections(st: Reader, ls: seq<Line>)
    requires NoMarker(st.current)
    ensures var fin := ReadLines(st, ls);
            fin.pages + Group(fin.index, fin.current) == st.pages + Sections(st.index, st.current + ls)
    decreases |ls|
  {
    if |ls| == 0 {
      assert st.current + ls == st.current;
      SectionsNoMarker(st.index, st.current);
    } else {
      var next := ReadStep(st, ls[0]);
      assert NoMarker(next.current);
      ReadLinesIsSections(next, ls[1..]);
      if ls[0].mark.Some? {
        SectionsAtMarker(st.index, st.current, ls);
        assert next.current + ls[1..] == ls[1..];
        AppendAssoc(st.pages, Group(st.index, st.current), Sections(next.index, ls[1..]));
      } else {
        assert next.current + ls[1..] == st.current + ls;
      }
    }
  }

  /** The parser reads exactly the reference sections, starting at page 1. */
  lemma ParseLinesIsSections(lines: seq<string>)
    ensures ParseLines(lines) == Sections(1, Classify(lines))
  {
    ReadLinesIsSections(Reader([], [], 1), Classify(lines));
    assert [] + Classify(lines) == Classify(lines);
  }

  /** Lines before any marker form page 1. */
  lemma TextWithoutMarkers(lines: seq<string>)
    requires |lines| > 0 && Unmarked(lines)
    ensures ParseLines(lines) == [Page(1, Strip(Join(lines, "\n")), None)]
  {
    ParseLinesIsSections(lines);
    UnmarkedClassify(lines);
    SectionsNoMarker(1, Classify(lines));
    TextsOfClassify(lines);
  }

  // ---------------------------------------------------------------------------
  // Writing
  // ---------------------------------------------------------------------------

  /** `strip_page_marker`: drops the first line when it starts with `--- Page`. */
  function StripPageMarker(text: string): string {
    var lines := SplitLines(text);
    if |lines| > 0 && StartsWith(lines[0], "--- Page") then Join(lines[1..], "\n") else text
  }

  /** What `write_document` writes for a page: `cleaned` when set, else the raw text without its marker. */
  function PageContent(p: Page): string {
    if p.cleaned.Some? then p.cleaned.value else StripPageMarker(p.raw)
  }

  function WritePage(p: Page, markers: bool): string {
    (if markers then MarkerLine(p.index) + "\n" else "") + RStrip(PageContent(p)) + "\n\n"
  }

  function WritePages(pages: seq<Page>, markers: bool): string
    decreases |pages|
  {
    if |pages| == 0 then "" else WritePage(pages[0], markers) + WritePages(pages[1..], markers)
  }

  /** `write_document`: the text of the file it writes. */
  function WriteDocument(doc: Document, markers: bool): string {
    WritePages(doc.pages, markers)
  }

  /** Lines each followed by `\n`. */
  function Terminated(lines: seq<string>): string
    decreases |lines|
  {
    if |lines| == 0 then "" else lines[0] + "\n" + Terminated(lines[1..])
  }

  lemma {:induction false} TerminatedJoin(lines: seq<string>)
    requires |lines| >= 1
    ensures Terminated(lines) == Join(lines, "\n") + "\n"
    decreases |lines|
  {
    if |lines| > 1 {
      TerminatedJoin(lines[1..]);
      var j := Join(lines[1..], "\n");
      assert lines[0] + "\n" + (j + "\n") == (lines[0] + "\n" + j) + "\n";
    }
  }

  lemma {:induction false} TerminatedAppend(a: seq<string>, b: seq<string>)
    ensures Terminated(a + b) == Terminated(a) + Terminated(b)
    decreases |a|
  {
    if |a| == 0 {
      assert a + b == b;
    } else {
      assert (a + b)[1..] == a[1..] + b;
      TerminatedAppend(a[1..], b);
      assert a[0] + "\n" + (Terminated(a[1..]) + Terminated(b)) == (a[0] + "\n" + Terminated(a[1..])) + Terminated(b);
    }
  }

  /** Reading the lines of a text written line by line gives the lines back. */
  lemma FileLinesTerminated(lines: seq<string>)
    requires forall i :: 0 <= i < |lines| ==> '\n' !in lines[i]
    ensures FileLines(Terminated(lines)) == lines
  {
    if |lines| > 0 {
      TerminatedJoin(lines);
      var t := Terminated(lines);
      assert t[..|t| - 1] == Join(lines, "\n");
      SplitJoin(lines, '\n');
    }
  }

  /** The lines after a page's marker: its content, then the blank line of `"\n\n"`. */
  function BodyLines(p: Page): (r: seq<string>)
    ensures |r| >= 2
  {
    SplitOn(RStrip(PageContent(p)), "\n") + [""]
  }

  function WrittenLines(pages: seq<Page>): seq<string>
    decreases |pages|
  {
    if |pages| == 0 then [] else [MarkerLine(pages[0].index)] + BodyLines(pages[0]) + WrittenLines(pages[1..])
  }

  lemma JoinMarkerBody(m: string, c: string)
    ensures Join([m] + SplitOn(c, "\n") + [""], "\n") == m + "\n" + c + "\n"
  {
    var pieces := SplitOn(c, "\n");
    JoinAppendOne([m] + pieces, "", "\n");
    assert ([m] + pieces)[1..] == pieces;
    JoinSplit(c, "\n");
    assert Join([m] + pieces, "\n") == m + "\n" + c;
    assert m + "\n" + c + "\n" + "" == m + "\n" + c + "\n";
  }

  lemma WritePageTerminated(p: Page)
    ensures WritePage(p, true) == Terminated([MarkerLine(p.index)] + BodyLines(p))
  {
    var m, c := MarkerLine(p.index), RStrip(PageContent(p));
    var lines := [m] + SplitOn(c, "\n") + [""];
    assert [m] + BodyLines(p) == lines;
    TerminatedJoin(lines);
    JoinMarkerBody(m, c);
    assert m + "\n" + c + "\n" + "\n" == (m + "\n") + c + "\n\n";
  }

  lemma {:induction false} WritePagesTerminated(pages: seq<Page>)
    ensures WritePages(pages, true) == Terminated(WrittenLines(pages))
    decreases |pages|
  {
    if |pages| > 0 {
      var head := [MarkerLine(pages[0].index)] + BodyLines(pages[0]);
      WritePagesTerminated(pages[1..]);
      WritePageTerminated(pages[0]);
      TerminatedAppend(head, WrittenLines(pages[1..]));
    }
  }

  /** What a round trip needs of a page: a non-negative index, no `\r`, and no content line that reads as a marker. */
  ghost predicate Writable(p: Page) {
    && p.index >= 0
    && '\r' !in PageContent(p)
    && Unmarked(SplitOn(RStrip(PageContent(p)), "\n"))
  }

  lemma BodyLinesShape(p: Page)
    requires Writable(p)
    ensures Unmarked(BodyLines(p))
    ensures forall i :: 0 <= i < |BodyLines(p)| ==> '\n' !in BodyLines(p)[i]
  {
    SplitPiecesFree(RStrip(PageContent(p)), '\n');
    assert MarkerIndex("").None?;
  }

  lemma {:induction false} WrittenLinesFree(pages: seq<Page>)
    requires forall i :: 0 <= i < |pages| ==> Writable(pages[i])
    ensures forall i :: 0 <= i < |WrittenLines(pages)| ==> '\n' !in WrittenLines(pages)[i]
    decreases |pages|
  {
    if |pages| > 0 {
      WrittenLinesFree(pages[1..]);
      BodyLinesShape(pages[0]);
    }
  }

  lemma RStripNoCR(s: string)
    requires '\r' !in s
    ensures '\r' !in RStrip(s)
  {
    RStripDropsBlank(s);
    assert forall i :: 0 <= i < |RStrip(s)| ==> RStrip(s)[i] == s[i];
  }

  lemma {:induction false} WritePagesNoCR(pages: seq<Page>)
    requires forall i :: 0 <= i < |pages| ==> Writable(pages[i])
    ensures '\r' !in WritePages(pages, true)
    decreases |pages|
  {
    if |pages| > 0 {
      WritePagesNoCR(pages[1..]);
      RStripNoCR(PageContent(pages[0]));
    }
  }

  /** The page a written page reads back as. */
  function ReadBack(p: Page): Page {
    Page(p.index, Strip(PageContent(p)), None)
  }

  lemma GroupOfBody(p: Page)
    ensures Group(p.index, Classify(BodyLines(p))) == [ReadBack(p)]
  {
    var c := RStrip(PageContent(p));
    var pieces := SplitOn(c, "\n");
    TextsOfClassify(BodyLines(p));
    JoinAppendOne(pieces, "", "\n");
    JoinSplit(c, "\n");
    assert Join(BodyLines(p), "\n") == RStrip(PageContent(p)) + "\n";
    StripOfRStripPlusBlank(PageContent(p), "\n");
  }

  /** A marker line classifies as the page number written in it. */
  lemma ClassifyMarker(index: nat)
    ensures Classify([MarkerLine(index)]) == [Line(MarkerLine(index), Some(index))]
  {
    MarkerLineRead(index);
  }

  lemma WrittenLinesCons(pages: seq<Page>)
    requires |pages| > 0
    ensures WrittenLines(pages) == [MarkerLine(pages[0].index)] + (BodyLines(pages[0]) + WrittenLines(pages[1..]))
  {}

  /** How the written lines of the first page classify: its marker, then unmarked lines. */
  lemma ClassifyWritten(pages: seq<Page>)
    requires |pages| > 0 && Writable(pages[0])
    ensures var p := pages[0];
            var body := Classify(BodyLines(p));
            && Classify(WrittenLines(pages)) == [Line(MarkerLine(p.index), Some(p.index))] + (body + Classify(WrittenLines(pages[1..])))
            && NoMarker(body)
  {
    var p := pages[0];
    var m := MarkerLine(p.index);
    var rest := WrittenLines(pages[1..]);
    WrittenLinesCons(pages);
    ClassifyAppend([m], BodyLines(p) + rest);
    ClassifyAppend(BodyLines(p), rest);
    ClassifyMarker(p.index);
    BodyLinesShape(p);
    UnmarkedClassify(BodyLines(p));
  }

  /** The pages a sequence of written pages reads back as. */
  function ReadBacks(pages: seq<Page>): (r: seq<Page>)
    ensures |r| == |pages|
    decreases |pages|
  {
    if |pages| == 0 then [] else [ReadBack(pages[0])] + ReadBacks(pages[1..])
  }

  lemma {:induction false} ReadBacksAt(pages: seq<Page>, i: nat)
    requires i < |pages|
    ensures ReadBacks(pages)[i] == ReadBack(pages[i])
    decreases i
  {
    var r := [ReadBack(pages[0])] + ReadBacks(pages[1..]);
    assert ReadBacks(pages) == r;
    if i > 0 {
      ReadBacksAt(pages[1..], i - 1);
      assert pages[1..][i - 1] == pages[i];
      assert r[i] == ReadBacks(pages[1..])[i - 1];
    } else {
      assert r[0] == ReadBack(pages[0]);
    }
  }

  lemma {:induction false} SectionsOfWritten(index: int, body: seq<Line>, pages: seq<Page>)
    requires NoMarker(body)
    requires forall i :: 0 <= i < |pages| ==> Writable(pages[i])
    ensures Sections(index, body + Classify(WrittenLines(pages))) == Group(index, body) + ReadBacks(pages)
    decreases |pages|
  {
    if |pages| == 0 {
      assert body + [] == body;
      SectionsNoMarker(index, body);
      assert Group(index, body) + [] == Group(index, body);
    } else {
      var p := pages[0];
      var bodyLines := Classify(BodyLines(p));
      var rest := bodyLines + Classify(WrittenLines(pages[1..]));
      ClassifyWritten(pages);
      var ls := [Line(MarkerLine(p.index), Some(p.index))] + rest;
      assert ls[1..] == rest;
      SectionsAtMarker(index, body, ls);
      SectionsOfWritten(p.index, bodyLines, pages[1..]);
      GroupOfBody(p);
    }
  }

  /**
    * Writing with markers and reading back gives the same pages in the same order,
    * with the same indices, each `raw` being the written content stripped.
    */
  lemma WriteReadRoundTrip(doc: Document, source: string)
    requires forall i :: 0 <= i < |doc.pages| ==> Writable(doc.pages[i])
    ensures var back := ReadDocument(source, WriteDocument(doc, true));
            && |back.pages| == |doc.pages|
            && forall i :: 0 <= i < |doc.pages| ==>
                 back.pages[i] == Page(doc.pages[i].index, Strip(PageContent(doc.pages[i])), None)
  {
    var lines := WrittenLines(doc.pages);
    WritePagesNoCR(doc.pages);
    TranslateNewlinesNoCR(WriteDocument(doc, true));
    WritePagesTerminated(doc.pages);
    WrittenLinesFree(doc.pages);
    FileLinesTerminated(lines);
    ParseLinesIsSections(lines);
    SectionsOfWritten(1, [], doc.pages);
    assert [] + Classify(lines) == Classify(lines);
    forall i | 0 <= i < |doc.pages| ensures ReadBacks(doc.pages)[i] == ReadBack(doc.pages[i]) {
      ReadBacksAt(doc.pages, i);
    }
  }
}
