/**
  * The two line-level passes of the legacy single-blob cleaner:
  * `smart_sentence_flow`, which glues a line that breaks off mid-sentence to
  * the next one, and `detect_paragraph_boundaries`, which strips every line
  * and inserts blank lines where a new paragraph seems to start.
  *
  * Both passes split the text on `"\n"`, walk the lines once and join the
  * result with `"\n"`; the model walks the same list recursively. Regex case
  * folding (`re.IGNORECASE`) is ASCII-only here, like `Text.Lower`.
  */
module LegacyLines {
  import opened Base
  import opened Text

  // ---------------------------------------------------------------------------
  // Recognisers used by the merge rule
  // ---------------------------------------------------------------------------

  /** Number of leading ASCII lower-case letters. */
  function LowerRun(s: string): (n: nat)
    ensures n <= |s|
    decreases |s|
  {
    if |s| > 0 && IsLower(s[0]) then 1 + LowerRun(s[1..]) else 0
  }

  /** `s` begins with one of `words`. */
  predicate StartsWithAny(s: string, words: seq<string>) {
    exists j :: 0 <= j < |words| && StartsWith(s, words[j])
  }

  /** Headings named after a capitalised word: `^[A-Z][a-z]*\s+(Chapter|Part|Section)`. */
  const TitledHeadings: seq<string> := ["Chapter", "Part", "Section"]

  /** Headings the merge rule refuses, matched case-insensitively and without a word boundary. */
  const FlowHeadings: seq<string> := ["chapter", "part", "section", "foreword", "introduction"]

  /**
    * `re.match(r'^[A-Z][a-z]*\s+(Chapter|Part|Section)', s)`. Neither run can
    * give characters back to the next item (`[a-z]` and `\s` are disjoint, and
    * a keyword starts with a capital), so both runs are taken whole.
    */
  predicate NamedHeading(s: string) {
    |s| > 0 && IsUpper(s[0]) &&
    var k := 1 + LowerRun(s[1..]);
    var n := SpaceRun(s[k..]);
    n > 0 && StartsWithAny(s[k + n..], TitledHeadings)
  }

  /** `re.match(r'^[A-Z]{2,}', s)`: an all-capitals opening such as a shouted header. */
  predicate CapitalsStart(s: string) {
    |s| >= 2 && IsUpper(s[0]) && IsUpper(s[1])
  }

  /** The characters after which a line counts as finished: `[.!?:;"']`. */
  predicate Closing(c: char) {
    c == '.' || c == '!' || c == '?' || c == ':' || c == ';' || c == '"' || c == '\''
  }

  /** `re.search(r'[.!?:;"\']\s*$', s)`: the last non-whitespace character closes the line. */
  predicate ClosesLine(s: string) {
    var t := RStrip(s);
    |t| > 0 && Closing(t[|t| - 1])
  }

  /** A right-stripped line that may be continued by the next one: longer than 10 and not closed. */
  predicate MayContinue(line: string) {
    |line| > 10 && !ClosesLine(line)
  }

  /** A stripped next line that may be glued on: non-empty and no heading or capitals opening. */
  predicate Continues(next: string) {
    next != "" && !NamedHeading(next) && !StartsWithAny(Lower(next), FlowHeadings) && !CapitalsStart(next)
  }

  /** `should_merge` of `smart_sentence_flow` (process_ocr.py:87-94). */
  predicate ShouldMerge(line: string, next: string) {
    line != "" && MayContinue(line) && Continues(next)
  }

  /** No space after a hyphen or a space, one space otherwise. */
  function Separator(line: string): (r: string)
    ensures |r| <= 1 && (r == "" || r == " ")
  {
    if EndsWithChar(line, '-') || EndsWithChar(line, ' ') then "" else " "
  }

  // ---------------------------------------------------------------------------
  // smart_sentence_flow
  // ---------------------------------------------------------------------------

  /** The line loop of `smart_sentence_flow`: each step emits one line and consumes one or two. */
  function Flow(lines: seq<string>): (r: seq<string>)
    ensures |r| <= |lines|
    ensures |lines| <= 2 * |r|
    decreases |lines|
  {
    if |lines| == 0 then []
    else
      var line := RStrip(lines[0]);
      if line == "" then [""] + Flow(lines[1..])
      else if |lines| > 1 && ShouldMerge(line, Strip(lines[1])) then
        [line + Separator(line) + Strip(lines[1])] + Flow(lines[2..])
      else [line] + Flow(lines[1..])
  }

  /** `smart_sentence_flow(text)`. */
  function SmartSentenceFlow(text: string): string {
    Join(Flow(SplitOn(text, "\n")), "\n")
  }

  /**
    * `out` is `lines` regrouped: every entry is either one input line,
    * right-stripped, or a line that may continue glued to the stripped,
    * non-empty line after it, with at most one space between them.
    */
  predicate Regroups(out: seq<string>, lines: seq<string>)
    decreases |lines|
  {
    if |lines| == 0 then out == []
    else
      |out| > 0 &&
      ((out[0] == RStrip(lines[0]) && Regroups(out[1..], lines[1..]))
       || (|lines| > 1 && MayContinue(RStrip(lines[0])) && Strip(lines[1]) != ""
           && (out[0] == RStrip(lines[0]) + " " + Strip(lines[1]) || out[0] == RStrip(lines[0]) + Strip(lines[1]))
           && Regroups(out[1..], lines[2..])))
  }

  /** An input line kept as it is, in front of a regrouped rest. */
  lemma RegroupsKept(h: string, t: seq<string>, lines: seq<string>)
    requires |lines| > 0 && h == RStrip(lines[0]) && Regroups(t, lines[1..])
    ensures Regroups([h] + t, lines)
  {
    assert ([h] + t)[1..] == t;
  }

  /** Two input lines glued together, in front of a regrouped rest. */
  lemma RegroupsMerged(h: string, t: seq<string>, lines: seq<string>)
    requires |lines| > 1 && MayContinue(RStrip(lines[0])) && Strip(lines[1]) != ""
    requires h == RStrip(lines[0]) + Separator(RStrip(lines[0])) + Strip(lines[1])
    requires Regroups(t, lines[2..])
    ensures Regroups([h] + t, lines)
  {
    var a, b := RStrip(lines[0]), Strip(lines[1]);
    if Separator(a) == "" {
      assert a + "" == a;
    }
    assert h == a + " " + b || h == a + b;
    assert ([h] + t)[1..] == t;
  }

  /** Each output line of the flow pass is one input line or the merge of two consecutive ones. */
  lemma {:induction false} FlowRegroups(lines: seq<string>)
    ensures Regroups(Flow(lines), lines)
    decreases |lines|
  {
    if |lines| > 0 {
      var line := RStrip(lines[0]);
      if line == "" {
        FlowRegroups(lines[1..]);
        RegroupsKept(line, Flow(lines[1..]), lines);
      } else if |lines| > 1 && ShouldMerge(line, Strip(lines[1])) {
        FlowRegroups(lines[2..]);
        RegroupsMerged(line + Separator(line) + Strip(lines[1]), Flow(lines[2..]), lines);
      } else {
        FlowRegroups(lines[1..]);
        RegroupsKept(line, Flow(lines[1..]), lines);
      }
    }
  }

  /** A regrouping never adds lines and at most halves their number. */
  lemma {:induction false} RegroupsLength(out: seq<string>, lines: seq<string>)
    requires Regroups(out, lines)
    ensures |out| <= |lines| <= 2 * |out|
    decreases |lines|
  {
    if |lines| > 0 {
      if out[0] == RStrip(lines[0]) && Regroups(out[1..], lines[1..]) {
        RegroupsLength(out[1..], lines[1..]);
      } else {
        RegroupsLength(out[1..], lines[2..]);
      }
    }
  }

  lemma KeepTextCopied(head: string, line: string, restOut: string, restLines: string)
    requires head == RStrip(line)
    requires Erase(restOut, Whitespace) == Erase(restLines, Whitespace)
    ensures Erase(head + restOut, Whitespace) == Erase(line + restLines, Whitespace)
  {
    EraseAppend(head, restOut, Whitespace);
    EraseAppend(line, restLines, Whitespace);
    EraseRStrip(line, Whitespace);
  }

  /** A merged line holds the text of both lines it merges. */
  lemma MergedErase(head: string, first: string, second: string)
    requires head == RStrip(first) + " " + Strip(second) || head == RStrip(first) + Strip(second)
    ensures Erase(head, Whitespace) == Erase(first, Whitespace) + Erase(second, Whitespace)
  {
    var a := RStrip(first);
    var b := Strip(second);
    EraseRStrip(first, Whitespace);
    EraseStrip(second, Whitespace);
    if head == a + " " + b {
      EraseAroundDropped(a, " ", b, Whitespace);
    } else {
      EraseAppend(a, b, Whitespace);
    }
  }

  lemma KeepTextMerged(head: string, first: string, second: string, restOut: string, restLines: string)
    requires Erase(head, Whitespace) == Erase(first, Whitespace) + Erase(second, Whitespace)
    requires Erase(restOut, Whitespace) == Erase(restLines, Whitespace)
    ensures Erase(head + restOut, Whitespace) == Erase(first + (second + restLines), Whitespace)
  {
    EraseAppend(head, restOut, Whitespace);
    EraseAppend(first, second + restLines, Whitespace);
    EraseAppend(second, restLines, Whitespace);
    AppendAssoc(Erase(first, Whitespace), Erase(second, Whitespace), Erase(restLines, Whitespace));
  }

  /** A regrouping keeps every non-whitespace character, in order. */
  lemma {:induction false} RegroupsKeepsText(out: seq<string>, lines: seq<string>)
    requires Regroups(out, lines)
    ensures Erase(Concat(out), Whitespace) == Erase(Concat(lines), Whitespace)
    decreases |lines|
  {
    if |lines| > 0 {
      if out[0] == RStrip(lines[0]) && Regroups(out[1..], lines[1..]) {
        RegroupsKeepsText(out[1..], lines[1..]);
        KeepTextCopied(out[0], lines[0], Concat(out[1..]), Concat(lines[1..]));
      } else {
        RegroupsKeepsText(out[1..], lines[2..]);
        assert Concat(lines) == lines[0] + (lines[1] + Concat(lines[2..])) by {
          assert Concat(lines[1..]) == lines[1] + Concat(lines[2..]) by {
            assert lines[1..][1..] == lines[2..];
          }
        }
        MergedErase(out[0], lines[0], lines[1]);
        KeepTextMerged(out[0], lines[0], lines[1], Concat(out[1..]), Concat(lines[2..]));
      }
    }
  }

  /** The flow pass changes the text only in its whitespace. */
  lemma SmartSentenceFlowKeepsText(text: string)
    ensures Erase(SmartSentenceFlow(text), Whitespace) == Erase(text, Whitespace)
  {
    var lines := SplitOn(text, "\n");
    var out := Flow(lines);
    FlowRegroups(lines);
    RegroupsKeepsText(out, lines);
    EraseJoin(out, "\n", Whitespace);
    EraseJoin(lines, "\n", Whitespace);
    JoinSplit(text, "\n");
  }

  /** Lines that cannot continue are only right-stripped. */
  lemma {:induction false} FlowKeepsClosedLines(lines: seq<string>)
    requires forall i :: 0 <= i < |lines| ==> !MayContinue(RStrip(lines[i]))
    ensures |Flow(lines)| == |lines|
    ensures forall i :: 0 <= i < |lines| ==> Flow(lines)[i] == RStrip(lines[i])
    decreases |lines|
  {
    if |lines| > 0 {
      FlowKeepsClosedLines(lines[1..]);
      assert Flow(lines) == [RStrip(lines[0])] + Flow(lines[1..]);
    }
  }

  /**
    * The separator's space case never applies: the current line has been
    * right-stripped, so only a final hyphen suppresses the space, and the
    * hyphen itself stays in the merged line.
    */
  lemma SeparatorAfterRStrip(s: string)
    ensures Separator(RStrip(s)) == "" <==> EndsWithChar(RStrip(s), '-')
  {}

  /** A line that may continue, followed by one that may be glued on, is merged with the next one. */
  lemma FlowMergesPair(a: string, b: string, rest: seq<string>)
    requires MayContinue(RStrip(a)) && Continues(Strip(b))
    ensures Flow([a, b] + rest) == [RStrip(a) + Separator(RStrip(a)) + Strip(b)] + Flow(rest)
  {
    var lines := [a, b] + rest;
    assert lines[0] == a && lines[1] == b && lines[2..] == rest;
  }

  /** A sentence broken over two lines is rejoined with one space. */
  lemma BrokenSentenceRejoined(a: string, b: string, rest: seq<string>)
    requires MayContinue(RStrip(a)) && Continues(Strip(b)) && !EndsWithChar(RStrip(a), '-')
    ensures Flow([a, b] + rest) == [RStrip(a) + " " + Strip(b)] + Flow(rest)
  {
    FlowMergesPair(a, b, rest);
    SeparatorAfterRStrip(a);
  }

  /** A hyphenated word broken over two lines is glued together with its hyphen kept. */
  lemma HyphenKeptInMerge(a: string, b: string, rest: seq<string>)
    requires MayContinue(RStrip(a)) && Continues(Strip(b)) && EndsWithChar(RStrip(a), '-')
    ensures Flow([a, b] + rest) == [RStrip(a) + Strip(b)] + Flow(rest)
  {
    FlowMergesPair(a, b, rest);
    SeparatorAfterRStrip(a);
    assert RStrip(a) + "" + Strip(b) == RStrip(a) + Strip(b);
  }

  // ---------------------------------------------------------------------------
  // detect_paragraph_boundaries
  // ---------------------------------------------------------------------------

  /** Headings that always open a paragraph, matched case-insensitively and followed by `\b`. */
  const HeadingWords: seq<string> :=
    ["chapter", "part", "section", "foreword", "introduction", "conclusion",
     "appendix", "index", "bibliography", "table of contents"]

  /** `\b` after a word character at position `k`: the end, or a character that is not `\w`. */
  predicate WordEndsAt(s: string, k: nat) {
    k >= |s| || !IsWord(s[k])
  }

  /** The heading regex of process_ocr.py:45. */
  predicate IsHeading(line: string) {
    exists j :: 0 <= j < |HeadingWords| && StartsWith(Lower(line), HeadingWords[j]) && WordEndsAt(line, |HeadingWords[j]|)
  }

  predicate SentenceStop(c: char) { c == '.' || c == '!' || c == '?' }

  /**
    * `re.search(r'[.!?]\s*["\']?$', t)` for a stripped line `t`: the line ends
    * in a stop, or in a quote that follows a stop and optional whitespace.
    */
  predicate EndsSentence(t: string) {
    var u := if |t| > 0 && (t[|t| - 1] == '"' || t[|t| - 1] == '\'') then RStrip(t[..|t| - 1]) else t;
    |u| > 0 && SentenceStop(u[|u| - 1])
  }

  /** `re.match(r'^[A-Z0-9]', line)`. */
  predicate OpensSentence(line: string) {
    |line| > 0 && (IsUpper(line[0]) || IsDigit(line[0]))
  }

  /** `should_break` for a non-blank stripped `line` whose predecessor, stripped, is `prev`. */
  predicate StartsParagraph(prev: string, line: string) {
    (prev != "" && EndsSentence(prev) && OpensSentence(line)) || IsHeading(line)
  }

  /** The loop of `detect_paragraph_boundaries`, with `prev` the previous line as appended. */
  function Breaks(prev: string, lines: seq<string>): (r: seq<string>)
    decreases |lines|
  {
    if |lines| == 0 then []
    else
      var line := Strip(lines[0]);
      if line == "" then [""] + Breaks("", lines[1..])
      else if prev != "" && StartsParagraph(prev, line) then ["", line] + Breaks(line, lines[1..])
      else [line] + Breaks(line, lines[1..])
  }

  /** `detect_paragraph_boundaries(text)`. */
  function DetectParagraphBoundaries(text: string): string {
    Join(Breaks("", SplitOn(text, "\n")), "\n")
  }

  /** Every line, stripped. */
  function StripAll(lines: seq<string>): (r: seq<string>)
    ensures |r| == |lines|
    ensures forall i :: 0 <= i < |lines| ==> r[i] == Strip(lines[i])
  {
    seq(|lines|, i requires 0 <= i < |lines| => Strip(lines[i]))
  }

  /** `xs` with an empty line inserted before each entry whose flag is set. */
  function InsertBlanks(xs: seq<string>, before: seq<bool>): (r: seq<string>)
    requires |before| == |xs|
    ensures |r| >= |xs|
    decreases |xs|
  {
    if |xs| == 0 then []
    else (if before[0] then ["", xs[0]] else [xs[0]]) + InsertBlanks(xs[1..], before[1..])
  }

  /** Where the boundary pass inserts a blank line: only before a non-blank line that follows a non-blank one. */
  function BreakBefore(prev: string, lines: seq<string>): (r: seq<bool>)
    ensures |r| == |lines|
    ensures forall i :: 0 <= i < |r| && r[i] ==>
              Strip(lines[i]) != "" && (if i == 0 then prev else Strip(lines[i - 1])) != ""
    decreases |lines|
  {
    if |lines| == 0 then []
    else
      var line := Strip(lines[0]);
      var rest := BreakBefore(line, lines[1..]);
      assert forall i :: 1 <= i < |lines| ==> lines[1..][i - 1] == lines[i];
      [line != "" && prev != "" && StartsParagraph(prev, line)] + rest
  }

  /** The boundary pass is the stripped lines with blank lines inserted, nothing else. */
  lemma {:induction false} BreaksInsertOnly(prev: string, lines: seq<string>)
    ensures Breaks(prev, lines) == InsertBlanks(StripAll(lines), BreakBefore(prev, lines))
    decreases |lines|
  {
    if |lines| > 0 {
      var line := Strip(lines[0]);
      BreaksInsertOnly(line, lines[1..]);
      assert StripAll(lines)[1..] == StripAll(lines[1..]);
      assert BreakBefore(prev, lines)[1..] == BreakBefore(line, lines[1..]);
      if line == "" {
        assert Breaks(prev, lines) == [""] + Breaks(line, lines[1..]);
      }
    }
  }

  /** The non-empty entries of a list of lines, in order. */
  function Texts(xs: seq<string>): (r: seq<string>)
    ensures |r| <= |xs|
    decreases |xs|
  {
    if |xs| == 0 then [] else (if xs[0] == "" then [] else [xs[0]]) + Texts(xs[1..])
  }

  lemma {:induction false} InsertBlanksKeepsTexts(xs: seq<string>, before: seq<bool>)
    requires |before| == |xs|
    ensures Texts(InsertBlanks(xs, before)) == Texts(xs)
    decreases |xs|
  {
    if |xs| > 0 {
      InsertBlanksKeepsTexts(xs[1..], before[1..]);
      var head := if before[0] then ["", xs[0]] else [xs[0]];
      var tail := InsertBlanks(xs[1..], before[1..]);
      TextsAppend(head, tail);
      if before[0] {
        assert Texts(head) == Texts([xs[0]]) by {
          assert head[1..] == [xs[0]];
        }
      }
      assert Texts([xs[0]]) == (if xs[0] == "" then [] else [xs[0]]) by {
        assert [xs[0]][1..] == [];
      }
    }
  }

  lemma {:induction false} TextsAppend(a: seq<string>, b: seq<string>)
    ensures Texts(a + b) == Texts(a) + Texts(b)
    decreases |a|
  {
    if |a| == 0 {
      assert a + b == b;
    } else {
      assert (a + b)[1..] == a[1..] + b;
      TextsAppend(a[1..], b);
    }
  }

  /** The boundary pass keeps the sequence of non-blank lines, each stripped, in order. */
  lemma DetectKeepsLines(lines: seq<string>)
    ensures Texts(Breaks("", lines)) == Texts(StripAll(lines))
  {
    BreaksInsertOnly("", lines);
    InsertBlanksKeepsTexts(StripAll(lines), BreakBefore("", lines));
  }

  /** A line opening a sentence after a line that ends one starts a new paragraph: a blank line goes before it. */
  lemma SentenceOpensParagraph(prev: string, line: string, rest: seq<string>)
    requires prev != "" && EndsSentence(prev) && OpensSentence(Strip(line))
    ensures Breaks(prev, [line] + rest) == ["", Strip(line)] + Breaks(Strip(line), rest)
  {
    assert ([line] + rest)[1..] == rest;
  }

  /** A word that merely starts with a heading word is no heading: `\b` must follow it. */
  lemma IndexingIsNoHeading()
    ensures !IsHeading("Indexing")
    ensures IsHeading("Index of names")
  {
    var s := "Indexing";
    forall j | 0 <= j < |HeadingWords| && StartsWith(Lower(s), HeadingWords[j])
      ensures !WordEndsAt(s, |HeadingWords[j]|)
    {
      assert Lower(s)[0] == 'i' && Lower(s)[1] == 'n' && Lower(s)[2] == 'd';
    }
    var t := "Index of names";
    assert StartsWith(Lower(t), HeadingWords[7]) && WordEndsAt(t, |HeadingWords[7]|);
  }
}
