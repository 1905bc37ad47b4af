/**
  * `clean_document` and `_clean_page`: the removal sets are computed once per
  * document, then every page's lines are filtered, repaired, merged into
  * paragraphs, corrected and shrunk.
  */
module Preprocess {
  import opened Base
  import opened Text
  import opened Pages
  import opened Boilerplate
  import opened Hyphenation
  import opened Merge
  import opened Glyphs
  import opened Whitespace

  /** The lines of `_clean_page` that survive the filter. */
  function KeptLines(raw: string, headers: set<string>, footers: set<string>): seq<string> {
    FilterLines(SplitLines(raw), headers, footers)
  }

  /** `_clean_page`. */
  function CleanPage(raw: string, headers: set<string>, footers: set<string>): (r: string)
    ensures IsShrunk(r)
  {
    var merged := MergeLines(PrepareLines(KeptLines(raw, headers, footers)));
    var shrunk := ShrinkWhitespace(FixGlitches(merged));
    ShrinkWhitespaceShape(FixGlitches(merged));
    StripNoop(shrunk);
    Strip(shrunk)
  }

  /** `clean_document`: every page gets its `cleaned` text; source, order, indices and raw text are kept. */
  function CleanDocument(doc: Document): (r: Document)
    ensures r.source == doc.source && |r.pages| == |doc.pages|
    ensures forall i :: 0 <= i < |doc.pages| ==>
              && r.pages[i].index == doc.pages[i].index
              && r.pages[i].raw == doc.pages[i].raw
              && r.pages[i].cleaned.Some?
              && IsShrunk(r.pages[i].cleaned.value)
  {
    var headers := ToRemove(doc.pages, Header);
    var footers := ToRemove(doc.pages, Footer);
    var pages := seq(|doc.pages|, i requires 0 <= i < |doc.pages| =>
      Page(doc.pages[i].index, doc.pages[i].raw, Some(CleanPage(doc.pages[i].raw, headers, footers))));
    Document(doc.source, pages)
  }

  /**
    * Cleaning keeps the text of the kept lines: after the glyph table, and up to
    * whitespace and hyphens, the cleaned page holds exactly the kept lines' characters in order.
    */
  lemma CleanPageKeepsContent(raw: string, headers: set<string>, footers: set<string>)
    ensures Erase(CleanPage(raw, headers, footers), WhitespaceOrHyphen)
            == GlyphContent(Concat(KeptLines(raw, headers, footers)))
  {
    var kept := KeptLines(raw, headers, footers);
    var prepared := PrepareLines(kept);
    var merged := MergeLines(prepared);
    var fixed := FixGlitches(merged);
    var shrunk := ShrinkWhitespace(fixed);
    EraseStrip(shrunk, WhitespaceOrHyphen);
    ShrinkWhitespaceKeepsContent(fixed, WhitespaceOrHyphen);
    FixGlitchesKeepsContent(merged);
    MergeLinesKeepsContent(prepared);
    PrepareLinesKeepsContent(kept);
    GlyphContentRespectsErase(merged, Concat(kept));
  }

  /** Cleaning reads only the raw text, so cleaning a cleaned document again changes nothing. */
  lemma CleanDocumentIdempotent(doc: Document)
    ensures CleanDocument(CleanDocument(doc)) == CleanDocument(doc)
  {
    CleanDocumentReadsRaw(CleanDocument(doc), doc);
  }

  /** Two documents with the same source and the same raw pages clean alike. */
  lemma CleanDocumentReadsRaw(a: Document, b: Document)
    requires a.source == b.source && |a.pages| == |b.pages|
    requires forall i :: 0 <= i < |a.pages| ==> a.pages[i].index == b.pages[i].index && a.pages[i].raw == b.pages[i].raw
    ensures CleanDocument(a) == CleanDocument(b)
  {
    RemovalSetsReadOnlyRaw(a.pages, b.pages, Header);
    RemovalSetsReadOnlyRaw(a.pages, b.pages, Footer);
    assert CleanDocument(a).pages == CleanDocument(b).pages;
  }

  /** The removal sets read only the raw text of the pages. */
  lemma RemovalSetsReadOnlyRaw(a: seq<Page>, b: seq<Page>, side: Side)
    requires |a| == |b|
    requires forall i :: 0 <= i < |a| ==> a[i].raw == b[i].raw
    ensures ToRemove(a, side) == ToRemove(b, side)
  {
    assert Tallied(a, side) == Tallied(b, side) by {
      forall i | 0 <= i < |a| ensures Key(a[i], side) == Key(b[i], side) {
        assert Candidate(a[i], side) == Candidate(b[i], side) by {
          assert HeaderCandidate(a[i]) == HeaderCandidate(b[i]);
          assert FooterCandidate(a[i]) == FooterCandidate(b[i]);
        }
      }
    }
    assert CandidateKeys(a, side) == CandidateKeys(b, side);
  }

  /** A page with no text cleans to the empty string. */
  lemma EmptyPageCleansToEmpty(headers: set<string>, footers: set<string>)
    ensures CleanPage("", headers, footers) == ""
  {
    assert SplitLines("") == [];
    assert KeptLines("", headers, footers) == [];
    PrepareNoLines();
    assert Run(Start, [""]) == Step(Start, "");
    assert MergeLines([""]) == "";
  }
}
