/**
  * The pure parts of the OCR stage: the page text format of `_format_page`,
  * page selection (`_select_page_indices`), the page-range argument
  * (`_compress_indices`) and the 1-based numbering of extracted pages.
  */
module Ocr {
  import opened Base
  import opened Text
  import opened Pages
  import opened Normalise
  import opened Boilerplate
  import opened Storage
  import opened Config

  // ---------------------------------------------------------------------------
  // Page text
  // ---------------------------------------------------------------------------

  /** `_format_page`: form feeds removed and the text trimmed, under the page's marker line. */
  function FormatPage(index: int, text: string): (r: string)
    ensures StartsWith(r, MarkerLine(index))
    ensures Strip(Replace(text, [FormFeed], "")) == "" <==> r == MarkerLine(index)
  {
    var body := Strip(Replace(text, [FormFeed], ""));
    if body != "" then MarkerLine(index) + "\n" + body else MarkerLine(index)
  }

  /** The only line boundary in `s` is `\n`. */
  predicate OnlyNewlineBreaks(s: string) {
    forall i :: 0 <= i < |s| ==> IsLineBreak(s[i]) ==> s[i] == '\n'
  }

  /** Whitespace is single plain spaces and there is no line boundary. */
  predicate Tidy(s: string) {
    && (forall i :: 0 <= i < |s| ==> !IsLineBreak(s[i]) && (IsSpace(s[i]) ==> s[i] == ' '))
    && (forall i :: 0 <= i < |s| - 1 ==> !(s[i] == ' ' && s[i + 1] == ' '))
  }

  /** Two tidy texts that do not meet in two spaces make a tidy text. */
  lemma TidyAppend(a: string, b: string)
    requires Tidy(a) && Tidy(b) && |a| > 0 && |b| > 0
    requires !(a[|a| - 1] == ' ' && b[0] == ' ')
    ensures Tidy(a + b)
  {
    var s := a + b;
    forall i | 0 <= i < |s| ensures !IsLineBreak(s[i]) && (IsSpace(s[i]) ==> s[i] == ' ') {
      if i < |a| { assert s[i] == a[i]; } else { assert s[i] == b[i - |a|]; }
    }
    forall i | 0 <= i < |s| - 1 ensures !(s[i] == ' ' && s[i + 1] == ' ') {
      if i + 1 < |a| {
        assert s[i] == a[i] && s[i + 1] == a[i + 1];
      } else if i >= |a| {
        assert s[i] == b[i - |a|] && s[i + 1] == b[i + 1 - |a|];
      } else {
        assert s[i] == a[|a| - 1] && s[i + 1] == b[0];
      }
    }
  }

  lemma DigitsTidy(d: string)
    requires AllDigits(d)
    ensures Tidy(d)
  {}

  lemma MarkerEndsTidy()
    ensures Tidy(MarkerHead) && Tidy(MarkerTail)
  {
    assert MarkerHead == ['-', '-', '-', ' ', 'P', 'a', 'g', 'e', ' '];
    assert MarkerTail == [' ', '-', '-', '-'];
  }

  /** A marker line holds single spaces, no surrounding whitespace and no line boundary. */
  lemma MarkerLineShape(index: nat)
    ensures var m := MarkerLine(index);
            && SpacesCollapsed(m) && IsStripped(m) && m != ""
            && (forall i :: 0 <= i < |m| ==> !IsLineBreak(m[i]))
  {
    var m := MarkerLine(index);
    var d := NatToString(index);
    assert m == MarkerHead + d + MarkerTail;
    MarkerEndsTidy();
    DigitsTidy(d);
    TidyAppend(MarkerHead, d);
    TidyAppend(MarkerHead + d, MarkerTail);
    assert m[0] == '-' && m[|m| - 1] == '-';
    forall i, j | 0 <= i < j < |m| && j == i + 1 ensures !(m[i] == ' ' && m[j] == ' ') {
      assert i < |m| - 1;
    }
  }

  /** Removing a character and trimming keeps the text free of other line boundaries. */
  lemma {:induction false} ReplaceKeepsOnlyNewlines(s: string)
    requires forall i :: 0 <= i < |s| ==> IsLineBreak(s[i]) ==> s[i] == '\n' || s[i] == FormFeed
    ensures OnlyNewlineBreaks(Replace(s, [FormFeed], ""))
    decreases |s|
  {
    if |s| > 0 {
      ReplaceKeepsOnlyNewlines(s[1..]);
      ReplaceCharAppend([s[0]], s[1..], FormFeed, "");
      ReplaceOneChar(s[0], FormFeed, "");
      assert [s[0]] + s[1..] == s;
    }
  }

  lemma StripKeepsOnlyNewlines(s: string)
    requires OnlyNewlineBreaks(s)
    ensures OnlyNewlineBreaks(Strip(s))
  {
    StripSlice(s);
    var a := StripStart(s);
    assert forall i :: 0 <= i < |Strip(s)| ==> Strip(s)[i] == s[a + i];
  }

  /** Joining the lines of a text whose only boundary is `\n`, and which does not end in one, gives it back. */
  lemma {:induction false} JoinSplitLines(s: string)
    requires OnlyNewlineBreaks(s)
    requires s == [] || s[|s| - 1] != '\n'
    ensures Join(SplitLines(s), "\n") == s
    decreases |s|
  {
    if |s| > 0 {
      var rest := s[1..];
      assert OnlyNewlineBreaks(rest) by {
        assert forall i :: 0 <= i < |rest| ==> rest[i] == s[i + 1];
      }
      JoinSplitLines(rest);
      if IsLineBreak(s[0]) {
        assert SplitLines(s) == [""] + SplitLines(rest);
        assert ([""] + SplitLines(rest))[1..] == SplitLines(rest);
        assert s == "\n" + rest;
      } else {
        var t := SplitLines(rest);
        if |t| > 0 {
          JoinConsHead([s[0]], t, "\n");
        }
        assert s == [s[0]] + rest;
      }
    }
  }

  /**
    * `strip_page_marker` undoes `_format_page`: it gives back the trimmed text
    * without form feeds, provided `\n` is the only other line boundary in it.
    */
  lemma StripPageMarkerOfFormatted(index: nat, text: string)
    requires forall i :: 0 <= i < |text| ==> IsLineBreak(text[i]) ==> text[i] == '\n' || text[i] == FormFeed
    ensures StripPageMarker(FormatPage(index, text)) == Strip(Replace(text, [FormFeed], ""))
  {
    var body := Strip(Replace(text, [FormFeed], ""));
    var m := MarkerLine(index);
    MarkerLineShape(index);
    assert StartsWith(m, "--- Page");
    if body != "" {
      ReplaceKeepsOnlyNewlines(text);
      StripKeepsOnlyNewlines(Replace(text, [FormFeed], ""));
      assert IsLineBreak('\n');
    }
    StripMarkerLine(m, body);
  }

  /** A marker line, and below it a text without trailing line break, loses exactly the marker line. */
  lemma StripMarkerLine(m: string, body: string)
    requires StartsWith(m, "--- Page") && forall i :: 0 <= i < |m| ==> !IsLineBreak(m[i])
    requires body != "" ==> OnlyNewlineBreaks(body) && body[|body| - 1] != '\n'
    ensures StripPageMarker(if body != "" then m + "\n" + body else m) == body
  {
    if body != "" {
      SplitLinesHead(m, body);
      JoinSplitLines(body);
      assert ([m] + SplitLines(body))[1..] == SplitLines(body);
    } else {
      SplitLinesOneLine(m);
      assert [m][1..] == [];
    }
  }

  /** The first non-blank line of a formatted page is its marker. */
  lemma FormattedHeader(index: nat, text: string)
    ensures HeaderCandidate(Page(index, FormatPage(index, text), None)) == MarkerLine(index)
  {
    var body := Strip(Replace(text, [FormFeed], ""));
    var m := MarkerLine(index);
    MarkerLineShape(index);
    StripNoop(m);
    var lines := SplitLines(FormatPage(index, text));
    if body != "" {
      SplitLinesHead(m, body);
    } else {
      SplitLinesOneLine(m);
    }
    assert lines == [m] + lines[1..];
    NonBlankStrippedAppend([m], lines[1..]);
    assert NonBlankStripped([m]) == [m];
  }

  /** Normalising a marker line only lower-cases it. */
  lemma MarkerKey(index: nat)
    ensures NormaliseLine(MarkerLine(index)) == Lower(MarkerLine(index))
  {
    var m := MarkerLine(index);
    MarkerLineShape(index);
    CollapseSpacesNoop(m);
    StripNoop(m);
  }

  /** The page number sits unchanged between the lower-cased marker's fixed ends. */
  lemma MarkerKeyDigits(index: nat)
    ensures var d := NatToString(index);
            var key := Lower(MarkerLine(index));
            |key| == |MarkerHead| + |d| + |MarkerTail| && key[|MarkerHead|..|MarkerHead| + |d|] == d
  {
    var m := MarkerLine(index);
    var d := NatToString(index);
    var n := |MarkerHead|;
    assert m == MarkerHead + d + MarkerTail;
    var key := Lower(m);
    forall i | 0 <= i < |d| ensures key[n..n + |d|][i] == d[i] {
      assert m[n + i] == d[i];
      assert IsDigit(d[i]);
      assert key[n + i] == LowerChar(m[n + i]);
    }
  }

  /** The normalised marker lines of distinct pages differ. */
  lemma MarkerKeyInjective(a: nat, b: nat)
    requires NormaliseLine(MarkerLine(a)) == NormaliseLine(MarkerLine(b))
    ensures a == b
  {
    MarkerKey(a);
    MarkerKey(b);
    MarkerKeyDigits(a);
    MarkerKeyDigits(b);
    NatToStringInjective(a, b);
  }

  // ---------------------------------------------------------------------------
  // Page selection
  // ---------------------------------------------------------------------------

  /** `list(range(lo, hi))`. */
  function Range(lo: int, hi: int): (r: seq<int>)
    ensures |r| == if hi > lo then hi - lo else 0
    ensures forall i :: 0 <= i < |r| ==> r[i] == lo + i
  {
    seq(if hi > lo then hi - lo else 0, i => lo + i)
  }

  /** `xs[:stop]`: a negative stop counts from the end. */
  function Take<T>(xs: seq<T>, stop: int): (r: seq<T>)
    ensures |r| <= |xs| && r == xs[..|r|]
    ensures stop >= 0 ==> |r| == if stop < |xs| then stop else |xs|
    ensures stop < 0 ==> |r| == if |xs| + stop > 0 then |xs| + stop else 0
  {
    if stop >= 0 then (if stop < |xs| then xs[..stop] else xs)
    else if |xs| + stop > 0 then xs[..|xs| + stop] else []
  }

  /** The indices before the page cap: the range clamped to the document, or every page. */
  function Candidates(total: int, range: Option<PageRange>): seq<int> {
    match range
    case Some(r) => Range(r.start - 1, if r.end < total then r.end else total)
    case None => Range(0, total)
  }

  /** `_select_page_indices`: zero-based indices of the pages to extract. */
  function SelectPageIndices(total: int, range: Option<PageRange>, maxPages: Option<int>): (r: Result<seq<int>>)
    ensures total <= 0 ==> r.Err?
    ensures range.Some? && range.value.start > total ==> r.Err?
    ensures r.Ok? ==> |r.value| >= 1 && forall i :: 0 <= i < |r.value| ==> r.value[i] == r.value[0] + i
  {
    if total <= 0 then Err(ValueError("The source PDF contains no pages."))
    else if range.Some? && range.value.start > total then
      Err(ValueError("Page range start " + IntToString(range.value.start) + " exceeds document length ("
                     + IntToString(total) + ")."))
    else
      var all := Candidates(total, range);
      var indices := if maxPages.Some? then Take(all, maxPages.value) else all;
      if |indices| == 0 then Err(ValueError("No pages selected for extraction. Adjust --page-range or --max-pages."))
      else Ok(indices)
  }

  /** Strictly increasing. */
  predicate Increasing(xs: seq<int>) {
    forall i, j :: 0 <= i < j < |xs| ==> xs[i] < xs[j]
  }

  /**
    * With a validated range the selection is exactly the pages from the range start
    * (or page 1) up to the range end or the document end, whichever comes first,
    * cut by the cap as a Python slice cuts (a negative cap drops pages from the end),
    * in ascending order, all of them pages of the document.
    */
  lemma SelectedPages(total: int, range: Option<PageRange>, maxPages: Option<int>)
    requires ValidRange(range)
    ensures var r := SelectPageIndices(total, range, maxPages);
            r.Ok? ==>
              && Increasing(r.value)
              && (forall i :: 0 <= i < |r.value| ==> 0 <= r.value[i] < total)
              && var lo := if range.Some? then range.value.start - 1 else 0;
                 var hi := if range.Some? && range.value.end < total then range.value.end else total;
                 forall x :: x in r.value <==>
                   && lo <= x < hi
                   && (maxPages.Some? ==> x < (if maxPages.value >= 0 then lo + maxPages.value else hi + maxPages.value))
  {
    var r := SelectPageIndices(total, range, maxPages);
    if r.Ok? {
      var lo := if range.Some? then range.value.start - 1 else 0;
      var hi := if range.Some? && range.value.end < total then range.value.end else total;
      var all := Candidates(total, range);
      assert all == Range(lo, hi);
      var v := r.value;
      assert |v| <= |all| && v == all[..|v|];
      PrefixOfRange(lo, hi, v);
    }
  }

  /** A prefix of `range(lo, hi)` holds exactly the integers from `lo` up to its length. */
  lemma PrefixOfRange(lo: int, hi: int, v: seq<int>)
    requires |v| <= |Range(lo, hi)| && v == Range(lo, hi)[..|v|]
    ensures forall i :: 0 <= i < |v| ==> v[i] == lo + i
    ensures forall x :: x in v <==> lo <= x < lo + |v|
  {
    forall x ensures x in v <==> lo <= x < lo + |v| {
      if lo <= x < lo + |v| {
        assert v[x - lo] == x;
      }
    }
  }

  /** A validated range that starts inside the document, with no cap or a positive one, always selects pages. */
  lemma SelectionNonEmpty(total: int, range: Option<PageRange>, maxPages: Option<int>)
    requires total > 0 && ValidRange(range)
    requires range.Some? ==> range.value.start <= total
    requires maxPages.Some? ==> maxPages.value >= 1
    ensures SelectPageIndices(total, range, maxPages).Ok?
  {}

  // ---------------------------------------------------------------------------
  // Page-range argument
  // ---------------------------------------------------------------------------

  /** A run of consecutive indices, `first..last` inclusive. */
  datatype Run = Run(first: int, last: int)

  /** The runs of the loop of `_compress_indices`, from a run `first..prev` still open. */
  function RunsFrom(first: int, prev: int, rest: seq<int>): (r: seq<Run>)
    requires first <= prev
    ensures |r| >= 1 && r[0].first == first && r[0].last >= prev
    ensures forall i :: 0 <= i < |r| ==> r[i].first <= r[i].last
    decreases |rest|
  {
    if |rest| == 0 then [Run(first, prev)]
    else if rest[0] == prev + 1 then RunsFrom(first, rest[0], rest[1..])
    else [Run(first, prev)] + RunsFrom(rest[0], rest[0], rest[1..])
  }

  function Runs(indices: seq<int>): (r: seq<Run>)
    ensures forall i :: 0 <= i < |r| ==> r[i].first <= r[i].last
  {
    if |indices| == 0 then [] else RunsFrom(indices[0], indices[0], indices[1..])
  }

  /** `str(start)` for a one-page run, else `f"{start}-{end}"`. */
  function RunText(run: Run): string {
    if run.first == run.last then IntToString(run.first)
    else IntToString(run.first) + "-" + IntToString(run.last)
  }

  function RunTexts(runs: seq<Run>): (r: seq<string>)
    ensures |r| == |runs|
    ensures forall i :: 0 <= i < |runs| ==> r[i] == RunText(runs[i])
  {
    seq(|runs|, i requires 0 <= i < |runs| => RunText(runs[i]))
  }

  /** `_compress_indices`. */
  function CompressIndices(indices: seq<int>): (r: string)
    ensures indices == [] ==> r == ""
  {
    Join(RunTexts(Runs(indices)), ",")
  }

  /** The indices a run stands for. */
  function Span(run: Run): seq<int> {
    Range(run.first, run.last + 1)
  }

  function Spans(runs: seq<Run>): seq<int>
    decreases |runs|
  {
    if |runs| == 0 then [] else Span(runs[0]) + Spans(runs[1..])
  }

  /** The runs cover the open run `first..prev`, then the remaining indices, in order. */
  lemma {:induction false} RunsFromCover(first: int, prev: int, rest: seq<int>)
    requires first <= prev
    ensures Spans(RunsFrom(first, prev, rest)) == Range(first, prev + 1) + rest
    decreases |rest|
  {
    var r := RunsFrom(first, prev, rest);
    if |rest| == 0 {
      assert Spans(r) == Span(Run(first, prev)) + [];
    } else if rest[0] == prev + 1 {
      RunsFromCover(first, rest[0], rest[1..]);
      assert Range(first, prev + 2) == Range(first, prev + 1) + [rest[0]];
      assert rest == [rest[0]] + rest[1..];
      AppendAssoc(Range(first, prev + 1), [rest[0]], rest[1..]);
    } else {
      RunsFromCover(rest[0], rest[0], rest[1..]);
      var tail := RunsFrom(rest[0], rest[0], rest[1..]);
      assert r[1..] == tail;
      assert Range(rest[0], rest[0] + 1) == [rest[0]];
      assert rest == [rest[0]] + rest[1..];
    }
  }

  /** The runs cover the indices exactly, in order. */
  lemma RunsCover(indices: seq<int>)
    ensures Spans(Runs(indices)) == indices
  {
    if |indices| > 0 {
      RunsFromCover(indices[0], indices[0], indices[1..]);
      assert Range(indices[0], indices[0] + 1) == [indices[0]];
      assert indices == [indices[0]] + indices[1..];
    }
  }

  /** Consecutive runs are at least two apart: none could have been extended into the next. */
  ghost predicate Separated(runs: seq<Run>) {
    forall i, j :: 0 <= i < j < |runs| && j == i + 1 ==> runs[j].first >= runs[i].last + 2
  }

  /** Runs never touch: the next run does not start right after the previous one ends. */
  lemma {:induction false} RunsFromMaximal(first: int, prev: int, rest: seq<int>)
    requires first <= prev
    requires Increasing([prev] + rest)
    ensures Separated(RunsFrom(first, prev, rest))
    decreases |rest|
  {
    var r := RunsFrom(first, prev, rest);
    if |rest| > 0 {
      assert Increasing([rest[0]] + rest[1..]) by {
        assert [rest[0]] + rest[1..] == ([prev] + rest)[1..];
      }
      assert prev < rest[0] by {
        assert ([prev] + rest)[0] == prev && ([prev] + rest)[1] == rest[0];
      }
      if rest[0] == prev + 1 {
        RunsFromMaximal(first, rest[0], rest[1..]);
        assert r == RunsFrom(first, rest[0], rest[1..]);
      } else {
        RunsFromMaximal(rest[0], rest[0], rest[1..]);
        var tail := RunsFrom(rest[0], rest[0], rest[1..]);
        assert r == [Run(first, prev)] + tail;
        forall i, j | 0 <= i < j < |r| && j == i + 1 ensures r[j].first >= r[i].last + 2 {
          if i > 0 {
            assert r[i] == tail[i - 1] && r[j] == tail[j - 1];
            assert tail[j - 1].first >= tail[i - 1].last + 2;
          } else {
            assert r[j] == tail[0];
          }
        }
      }
    }
  }

  /** For strictly increasing indices the runs are maximal: consecutive runs are at least two apart. */
  lemma RunsMaximal(indices: seq<int>)
    requires Increasing(indices)
    ensures Separated(Runs(indices))
  {
    if |indices| > 0 {
      assert [indices[0]] + indices[1..] == indices;
      RunsFromMaximal(indices[0], indices[0], indices[1..]);
      assert Runs(indices) == RunsFrom(indices[0], indices[0], indices[1..]);
    }
  }

  /** A run's text holds a dash exactly when the run holds more than one index. */
  lemma RunTextDash(run: Run)
    requires 0 <= run.first <= run.last
    ensures '-' in RunText(run) <==> run.first < run.last
  {
    var a := NatToString(run.first);
    assert forall i :: 0 <= i < |a| ==> IsDigit(a[i]);
    if run.first < run.last {
      assert RunText(run)[|a|] == '-';
    }
  }

  /** Reading one part of a page-range argument: `"a"` or `"a-b"` with decimal `a`, `b`. */
  function ExpandPart(part: string): Option<seq<int>> {
    var ends := SplitOn(part, "-");
    if |ends| == 1 && ends[0] != "" && AllDigits(ends[0]) then Some([DigitsValue(ends[0])])
    else if |ends| == 2 && ends[0] != "" && ends[1] != "" && AllDigits(ends[0]) && AllDigits(ends[1]) then
      Some(Range(DigitsValue(ends[0]), DigitsValue(ends[1]) + 1))
    else None
  }

  function ExpandParts(parts: seq<string>): Option<seq<int>>
    decreases |parts|
  {
    if |parts| == 0 then Some([])
    else match (ExpandPart(parts[0]), ExpandParts(parts[1..]))
      case (Some(a), Some(b)) => Some(a + b)
      case _ => None
  }

  /** A page-range argument read back: comma-separated parts, each expanded. */
  function Expand(arg: string): Option<seq<int>> {
    if arg == "" then Some([]) else ExpandParts(SplitOn(arg, ","))
  }

  lemma NatTextFree(n: nat, c: char)
    requires !IsDigit(c)
    ensures c !in NatToString(n)
  {
    var s := NatToString(n);
    assert forall i :: 0 <= i < |s| ==> IsDigit(s[i]);
  }

  /** Each part reads back as the indices of its run. */
  lemma ExpandRunText(run: Run)
    requires 0 <= run.first <= run.last
    ensures ExpandPart(RunText(run)) == Some(Span(run))
  {
    if run.first == run.last {
      ExpandSingle(run.first);
      assert Span(run) == [run.first];
    } else {
      ExpandPair(run.first, run.last);
    }
  }

  /** A single index reads back as itself. */
  lemma ExpandSingle(n: nat)
    ensures ExpandPart(NatToString(n)) == Some([n])
  {
    var a := NatToString(n);
    NatTextFree(n, '-');
    DigitsValueOfNat(n);
    SplitNoSep(a, '-');
  }

  /** `first-last` reads back as the indices from `first` to `last`. */
  lemma ExpandPair(first: nat, last: nat)
    ensures ExpandPart(NatToString(first) + "-" + NatToString(last)) == Some(Range(first, last + 1))
  {
    var a, b := NatToString(first), NatToString(last);
    NatTextFree(first, '-');
    NatTextFree(last, '-');
    SplitPair(a, b, '-');
    ExpandPartOfEnds(a + "-" + b, a, b);
    DigitsValueOfNat(first);
    DigitsValueOfNat(last);
  }

  /** Two digit strings around a hyphen read back as the range between their values. */
  lemma ExpandPartOfEnds(part: string, a: string, b: string)
    requires SplitOn(part, "-") == [a, b]
    requires a != "" && b != "" && AllDigits(a) && AllDigits(b)
    ensures ExpandPart(part) == Some(Range(DigitsValue(a), DigitsValue(b) + 1))
  {
  }

  lemma {:induction false} ExpandRunTexts(runs: seq<Run>)
    requires forall i :: 0 <= i < |runs| ==> 0 <= runs[i].first <= runs[i].last
    ensures ExpandParts(RunTexts(runs)) == Some(Spans(runs))
    decreases |runs|
  {
    if |runs| > 0 {
      ExpandRunTexts(runs[1..]);
      ExpandRunText(runs[0]);
      assert RunTexts(runs)[1..] == RunTexts(runs[1..]);
    }
  }

  /** Every run of non-negative indices starts at a non-negative index. */
  lemma RunsNonNegative(indices: seq<int>)
    requires forall i :: 0 <= i < |indices| ==> indices[i] >= 0
    ensures forall i :: 0 <= i < |Runs(indices)| ==> 0 <= Runs(indices)[i].first
  {
    var r := Runs(indices);
    RunsCover(indices);
    forall i | 0 <= i < |r| ensures 0 <= r[i].first {
      SpansHead(r, i);
      var k :| 0 <= k < |indices| && indices[k] == r[i].first;
    }
  }

  /** The first index of every run occurs in the covered indices. */
  lemma {:induction false} SpansHead(runs: seq<Run>, i: nat)
    requires i < |runs| && runs[i].first <= runs[i].last
    ensures runs[i].first in Spans(runs)
    decreases i
  {
    if i == 0 {
      assert Span(runs[0])[0] == runs[0].first;
    } else {
      SpansHead(runs[1..], i - 1);
    }
  }

  /**
    * Reading the compressed argument back gives the indices again, for any list
    * of non-negative indices (strictly increasing or not).
    */
  lemma CompressExpand(indices: seq<int>)
    requires forall i :: 0 <= i < |indices| ==> indices[i] >= 0
    ensures Expand(CompressIndices(indices)) == Some(indices)
  {
    if |indices| > 0 {
      var runs := Runs(indices);
      var texts := RunTexts(runs);
      RunsNonNegative(indices);
      forall i | 0 <= i < |texts| ensures ',' !in texts[i] {
        var run := runs[i];
        NatTextFree(run.first, ',');
        NatTextFree(run.last, ',');
      }
      SplitJoin(texts, ',');
      assert texts[0] != "" by {
        assert |NatToString(runs[0].first)| >= 1;
      }
      assert CompressIndices(indices) != "";
      ExpandRunTexts(runs);
      RunsCover(indices);
    }
  }

  // ---------------------------------------------------------------------------
  // Extracted pages
  // ---------------------------------------------------------------------------

  /**
    * The pages built from the selected zero-based indices and the text found on each
    * selected page (pairs beyond the shorter list are dropped, as `zip` does).
    */
  function ExtractedPages(indices: seq<int>, texts: seq<string>): (r: seq<Page>)
    ensures |r| == if |indices| < |texts| then |indices| else |texts|
    ensures forall i :: 0 <= i < |r| ==> r[i].index == indices[i] + 1 && r[i].cleaned.None?
  {
    var n := if |indices| < |texts| then |indices| else |texts|;
    seq(n, i requires 0 <= i < n => Page(indices[i] + 1, FormatPage(indices[i] + 1, texts[i]), None))
  }

  lemma AtMostOne(s: set<nat>)
    requires forall a, b :: a in s && b in s ==> a == b
    ensures |s| <= 1
  {
    if s != {} {
      var a :| a in s;
      assert s == {a};
    }
  }

  /** The header key of an extracted page is its normalised marker line. */
  lemma ExtractedKey(indices: seq<int>, texts: seq<string>, i: nat)
    requires i < |ExtractedPages(indices, texts)| && indices[i] >= 0
    ensures Key(ExtractedPages(indices, texts)[i], Header) == NormaliseLine(MarkerLine(indices[i] + 1))
  {
    FormattedHeader(indices[i] + 1, texts[i]);
  }

  lemma IncreasingInjective(xs: seq<int>, a: nat, b: nat)
    requires Increasing(xs) && a < |xs| && b < |xs| && xs[a] == xs[b]
    ensures a == b
  {}

  /** Two pages numbered from strictly increasing indices with the same normalised marker are the same page. */
  lemma MarkerKeysDistinct(indices: seq<int>, a: nat, b: nat)
    requires Increasing(indices) && a < |indices| && b < |indices| && indices[a] >= 0 && indices[b] >= 0
    requires NormaliseLine(MarkerLine(indices[a] + 1)) == NormaliseLine(MarkerLine(indices[b] + 1))
    ensures a == b
  {
    var x, y := indices[a] + 1, indices[b] + 1;
    MarkerKeyInjective(x, y);
    IncreasingInjective(indices, a, b);
  }

  /** Each header key is tallied from at most one extracted page. */
  lemma ExtractedTallyAtMostOne(indices: seq<int>, texts: seq<string>, k: string)
    requires Increasing(indices) && forall i :: 0 <= i < |indices| ==> indices[i] >= 0
    ensures |TallyPages(ExtractedPages(indices, texts), Header, k)| <= 1
  {
    var s := TallyPages(ExtractedPages(indices, texts), Header, k);
    forall a, b | a in s && b in s ensures a == b {
      ExtractedKey(indices, texts, a);
      ExtractedKey(indices, texts, b);
      MarkerKeysDistinct(indices, a, b);
    }
    AtMostOne(s);
  }

  /**
    * Freshly extracted pages with distinct indices never lose a header line: each
    * page's first line is its own marker, so no header key is shared by three pages.
    */
  lemma ExtractedHeadersKept(indices: seq<int>, texts: seq<string>)
    requires Increasing(indices) && forall i :: 0 <= i < |indices| ==> indices[i] >= 0
    ensures ToRemove(ExtractedPages(indices, texts), Header) == {}
  {
    var pages := ExtractedPages(indices, texts);
    forall k | k in ToRemove(pages, Header) ensures false {
      ExtractedTallyAtMostOne(indices, texts, k);
    }
  }
}
