/**
  * Repeated header and footer detection and the line filter of `_clean_page`:
  * the tallies and removal sets built in `clean_document`, and the per-line
  * decision to keep, blank or drop a line.
  */
module Boilerplate {
  import opened Base
  import opened Text
  import opened Pages
  import opened Normalise

  /** Which end of a page a candidate line is taken from. */
  datatype Side = Header | Footer

  function Candidate(p: Page, side: Side): string {
    match side
    case Header => HeaderCandidate(p)
    case Footer => FooterCandidate(p)
  }

  /** The key a page contributes to the tally of `side`. */
  function Key(p: Page, side: Side): string {
    NormaliseLine(Candidate(p, side))
  }

  /** Per page, the key it adds to the tally of `side`: none for a page whose `raw` is empty. */
  function Tallied(pages: seq<Page>, side: Side): (r: seq<Option<string>>)
    ensures |r| == |pages|
    ensures forall i :: 0 <= i < |pages| ==> (r[i].Some? <==> pages[i].raw != "")
  {
    seq(|pages|, i requires 0 <= i < |pages| => if pages[i].raw != "" then Some(Key(pages[i], side)) else None)
  }

  /** The keys tallied for `side`, in page order. */
  function CandidateKeys(pages: seq<Page>, side: Side): (keys: seq<string>)
    ensures |keys| <= |pages|
  {
    Somes(Tallied(pages, side))
  }

  /** The positions holding `Some(k)`. */
  function Positions<T(==)>(xs: seq<Option<T>>, k: T): set<nat> {
    set i: nat | i < |xs| && xs[i] == Some(k)
  }

  /** Counting `k` among the present values counts the positions holding it. */
  lemma {:induction false} CountSomes<T>(xs: seq<Option<T>>, k: T)
    ensures Count(Somes(xs), k) == |Positions(xs, k)|
    decreases |xs|
  {
    if |xs| > 0 {
      var n := |xs| - 1;
      var init := xs[..n];
      CountSomes(init, k);
      assert forall i :: 0 <= i < n ==> init[i] == xs[i];
      if xs[n].Some? {
        CountAppendOne(Somes(init), xs[n].value, k);
      }
      if xs[n] == Some(k) {
        assert Positions(xs, k) == Positions(init, k) + {n};
      } else {
        assert Positions(xs, k) == Positions(init, k);
      }
    }
  }

  lemma {:induction false} SomesAll<T>(xs: seq<Option<T>>, p: T -> bool)
    requires forall i :: 0 <= i < |xs| && xs[i].Some? ==> p(xs[i].value)
    ensures forall j :: 0 <= j < |Somes(xs)| ==> p(Somes(xs)[j])
    decreases |xs|
  {
    if |xs| > 0 {
      SomesAll(xs[..|xs| - 1], p);
    }
  }

  /** The pages a key is tallied from. */
  function TallyPages(pages: seq<Page>, side: Side, key: string): set<nat> {
    set i: nat | i < |pages| && pages[i].raw != "" && Key(pages[i], side) == key
  }

  /** A key's tally is the number of pages with non-empty `raw` whose candidate normalises to it. */
  lemma TallyCountsPages(pages: seq<Page>, side: Side, key: string)
    ensures Count(CandidateKeys(pages, side), key) == |TallyPages(pages, side, key)|
  {
    CountSomes(Tallied(pages, side), key);
    assert Positions(Tallied(pages, side), key) == TallyPages(pages, side, key);
  }

  /** Every tallied key is normalised. */
  lemma CandidateKeysNormalised(pages: seq<Page>, side: Side)
    ensures forall j :: 0 <= j < |CandidateKeys(pages, side)| ==> IsNormalised(CandidateKeys(pages, side)[j])
  {
    forall i | 0 <= i < |pages| {
      NormaliseLineIsNormalised(Candidate(pages[i], side));
    }
    SomesAll(Tallied(pages, side), IsNormalised);
  }

  /** `max(3, page_count // 4)`. */
  function Threshold(pageCount: nat): (t: nat)
    ensures t >= 3 && t >= pageCount / 4
    ensures t == 3 || t == pageCount / 4
  {
    if pageCount / 4 > 3 then pageCount / 4 else 3
  }

  /** The keys whose tally reaches `threshold`. */
  function RemovalSet(keys: seq<string>, threshold: nat): (r: set<string>)
    requires threshold >= 1
    ensures forall k :: k in r <==> Count(keys, k) >= threshold
  {
    var r := set k | k in keys && Count(keys, k) >= threshold;
    assert forall k :: Count(keys, k) >= threshold ==> k in r by {
      forall k | Count(keys, k) >= threshold ensures k in r {
        CountPositive(keys, k);
      }
    }
    r
  }

  /** `headers_to_remove` / `footers_to_remove` for a document. */
  function ToRemove(pages: seq<Page>, side: Side): (r: set<string>)
    ensures forall k :: k in r <==> |TallyPages(pages, side, k)| >= Threshold(|pages|)
  {
    var r := RemovalSet(CandidateKeys(pages, side), Threshold(|pages|));
    assert forall k :: k in r <==> |TallyPages(pages, side, k)| >= Threshold(|pages|) by {
      forall k ensures k in r <==> |TallyPages(pages, side, k)| >= Threshold(|pages|) {
        TallyCountsPages(pages, side, k);
      }
    }
    r
  }

  /** Only normalised keys can be removed. */
  lemma ToRemoveNormalised(pages: seq<Page>, side: Side, k: string)
    requires k in ToRemove(pages, side)
    ensures IsNormalised(k)
  {
    var keys := CandidateKeys(pages, side);
    CountPositive(keys, k);
    CandidateKeysNormalised(pages, side);
    var i :| 0 <= i < |keys| && keys[i] == k;
  }

  /** Pages with an empty `raw` never contribute to a tally, wherever they stand. */
  lemma EmptyRawPagesNotTallied(pages: seq<Page>, side: Side, key: string, i: nat)
    requires i < |pages| && pages[i].raw == ""
    ensures i !in TallyPages(pages, side, key)
  {}

  // ---------------------------------------------------------------------------
  // The line filter of `_clean_page`
  // ---------------------------------------------------------------------------

  const PageMarkerPrefix: string := "--- Page"

  /** The three reasons `_clean_page` drops a non-blank line, negated. */
  predicate Passes(s: string, headers: set<string>, footers: set<string>) {
    && !StartsWith(s, PageMarkerPrefix)
    && NormaliseLine(s) !in headers
    && NormaliseLine(s) !in footers
    && !IsPageCounter(s)
  }

  /** What `_clean_page` does with one line: `Some` of what it keeps, or `None` when it drops it. */
  function FilterLine(line: string, headers: set<string>, footers: set<string>): (r: Option<string>)
    ensures r.Some? ==> r.value == Strip(line)
    ensures Strip(line) == "" ==> r == Some("")
    ensures Strip(line) != "" ==> (r.Some? <==> Passes(Strip(line), headers, footers))
  {
    var stripped := Strip(line);
    if stripped == "" then Some("")
    else if StartsWith(stripped, PageMarkerPrefix) then None
    else
      var key := NormaliseLine(stripped);
      if key in headers || key in footers then None
      else if IsPageCounter(stripped) then None
      else Some(stripped)
  }

  /** The decision for every line of a page. */
  function FilterDecisions(lines: seq<string>, headers: set<string>, footers: set<string>): (r: seq<Option<string>>)
    ensures |r| == |lines|
  {
    seq(|lines|, i requires 0 <= i < |lines| => FilterLine(lines[i], headers, footers))
  }

  /** The lines `_clean_page` keeps, in order: blank lines as "", and stripped lines that pass. */
  function FilterLines(lines: seq<string>, headers: set<string>, footers: set<string>): (r: seq<string>)
    ensures |r| <= |lines|
    ensures forall i :: 0 <= i < |r| ==> IsStripped(r[i]) && (r[i] == "" || Passes(r[i], headers, footers))
  {
    var d := FilterDecisions(lines, headers, footers);
    SomesAll(d, (s: string) => IsStripped(s) && (s == "" || Passes(s, headers, footers)));
    Somes(d)
  }

  /** Filtering a concatenation filters each part. */
  lemma FilterLinesAppend(a: seq<string>, b: seq<string>, headers: set<string>, footers: set<string>)
    ensures FilterLines(a + b, headers, footers) == FilterLines(a, headers, footers) + FilterLines(b, headers, footers)
  {
    var da, db := FilterDecisions(a, headers, footers), FilterDecisions(b, headers, footers);
    var dab := FilterDecisions(a + b, headers, footers);
    forall i | 0 <= i < |a + b| ensures dab[i] == (da + db)[i] {
      if i < |a| {
        assert (a + b)[i] == a[i];
      } else {
        assert (a + b)[i] == b[i - |a|];
      }
    }
    assert dab == da + db;
    SomesAppend(FilterDecisions(a, headers, footers), FilterDecisions(b, headers, footers));
  }

  /** When every non-blank line passes, the page keeps all its lines, stripped. */
  lemma FilterLinesKeepsPlainText(lines: seq<string>, headers: set<string>, footers: set<string>)
    requires forall i :: 0 <= i < |lines| ==> Strip(lines[i]) == "" || Passes(Strip(lines[i]), headers, footers)
    ensures FilterLines(lines, headers, footers) == seq(|lines|, i requires 0 <= i < |lines| => Strip(lines[i]))
  {
    var d := FilterDecisions(lines, headers, footers);
    SomesAllPresent(d);
    assert Values(d) == seq(|lines|, i requires 0 <= i < |lines| => Strip(lines[i]));
  }

  /** Blank lines survive as "": their number is unchanged. */
  lemma FilterLinesKeepsBlankCount(lines: seq<string>, headers: set<string>, footers: set<string>)
    ensures Count(FilterLines(lines, headers, footers), "") == |set i: nat | i < |lines| && Strip(lines[i]) == ""|
  {
    var d := FilterDecisions(lines, headers, footers);
    CountSomes(d, "");
    assert Positions(d, "") == set i: nat | i < |lines| && Strip(lines[i]) == "";
  }

  /** An empty key in a removal set never removes anything: only blank lines normalise to "". */
  lemma EmptyKeyHarmless(lines: seq<string>, headers: set<string>, footers: set<string>)
    ensures FilterLines(lines, headers, footers) == FilterLines(lines, headers - {""}, footers - {""})
  {
    forall i | 0 <= i < |lines|
      ensures FilterLine(lines[i], headers, footers) == FilterLine(lines[i], headers - {""}, footers - {""})
    {
      var s := Strip(lines[i]);
      if s != "" {
        NormaliseLineEmpty(s);
        assert !IsSpace(s[0]);
      }
    }
    assert FilterDecisions(lines, headers, footers) == FilterDecisions(lines, headers - {""}, footers - {""});
  }
}
