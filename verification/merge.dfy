/**
  * `_merge_lines`: the fold that turns the prepared lines of a page into
  * paragraphs. A buffer collects the fragments of the current paragraph; a
  * flush turns the buffer into one paragraph. Blank lines and list items always
  * flush; the break rules decide when a plain line starts a new paragraph and
  * the join rules when it is glued to the previous fragment.
  */
module Merge {
  import opened Base
  import opened Text

  // ---------------------------------------------------------------------------
  // Line classification
  // ---------------------------------------------------------------------------

  /** Length of the leading run of ASCII digits. */
  function DigitRun(s: string): (n: nat)
    ensures n <= |s|
    decreases |s|
  {
    if |s| > 0 && IsDigit(s[0]) then 1 + DigitRun(s[1..]) else 0
  }

  /** The bullet characters of `_looks_like_list_item`: hyphen, asterisk and U+2022. */
  predicate IsBullet(c: char) {
    c == '-' || c == '*' || c == '\U{2022}'
  }

  /**
    * `_looks_like_list_item`: `^([-*\u2022]|(\d+|[a-zA-Z])\.)\s+`. The digit run must be
    * followed by the dot, so only the maximal run can match.
    */
  predicate IsListItem(line: string) {
    || (|line| >= 2 && IsBullet(line[0]) && IsSpace(line[1]))
    || (var d := DigitRun(line); 1 <= d && d + 1 < |line| && line[d] == '.' && IsSpace(line[d + 1]))
    || (|line| >= 3 && IsLetter(line[0]) && line[1] == '.' && IsSpace(line[2]))
  }

  /**
    * `^[A-Z][A-Z\s]{3,}$`: an upper-case letter, then at least three upper-case
    * letters or whitespace characters up to the end.
    */
  predicate IsAllCapsLine(line: string) {
    |line| >= 4 && IsUpper(line[0]) && forall i :: 1 <= i < |line| ==> IsUpper(line[i]) || IsSpace(line[i])
  }

  const HeadingWords: seq<string> :=
    ["chapter", "part", "section", "book", "foreword", "preface", "appendix", "introduction", "conclusion"]

  /** `s` starts with the word `w` followed by a word boundary (`\b`). */
  predicate StartsWithWord(s: string, w: string) {
    StartsWith(s, w) && (|s| == |w| || !IsWord(s[|w|]))
  }

  predicate StartsWithAnyWord(s: string, words: seq<string>)
    decreases |words|
  {
    |words| > 0 && (StartsWithWord(s, words[0]) || StartsWithAnyWord(s, words[1..]))
  }

  /** `_looks_like_section_heading`: the lower-cased line starts with a heading keyword. */
  predicate IsSectionHeading(line: string) {
    StartsWithAnyWord(Lower(line), HeadingWords)
  }

  predicate IsTerminalPunct(c: char) {
    c == '.' || c == '!' || c == '?'
  }

  predicate IsQuote(c: char) {
    c == '\'' || c == '"'
  }

  /** `[.!?](['"])?` ends `s`. */
  predicate EndsSentence(s: string) {
    || (|s| >= 1 && IsTerminalPunct(s[|s| - 1]))
    || (|s| >= 2 && IsTerminalPunct(s[|s| - 2]) && IsQuote(s[|s| - 1]))
  }

  /** `re.search(r"[.!?](['\"])?$", s)`: `$` also matches just before a final newline. */
  predicate EndsTerminal(s: string) {
    EndsSentence(s) || (EndsWithChar(s, '\n') && EndsSentence(s[..|s| - 1]))
  }

  /** `_should_break`. */
  predicate ShouldBreak(prev: string, current: string) {
    || EndsWithChar(prev, ':') || EndsWithChar(prev, '?') || EndsWithChar(prev, '!')
    || IsAllCapsLine(current)
    || IsSectionHeading(current)
  }

  /** `_should_join`: dashes and commas always join; so does a fragment that does not end a sentence. */
  predicate ShouldJoin(prev: string, current: string) {
    || EndsWithChar(prev, '-')
    || EndsWithChar(prev, ',') || EndsWithChar(prev, '\U{2014}') || EndsWithChar(prev, '\U{2013}')
    || (&& !EndsTerminal(prev)
        && !IsSectionHeading(current)
        && !StartsWith(current, "\"") && !StartsWith(current, "\U{201C}"))
  }

  /** `_join_fragments`: a trailing hyphen is dropped and the fragments glued, otherwise one space. */
  function JoinFragments(prev: string, current: string): (r: string)
    ensures LStrip(current) != [] ==> EndsWithChar(r, current[|current| - 1])
  {
    LStripDropsBlank(current);
    if EndsWithChar(prev, '-') then prev[..|prev| - 1] + LStrip(current)
    else prev + " " + LStrip(current)
  }

  // ---------------------------------------------------------------------------
  // The state machine
  // ---------------------------------------------------------------------------

  /** The paragraphs emitted so far and the fragments of the current one. */
  datatype State = State(paragraphs: seq<string>, buffer: seq<string>)

  const Start: State := State([], [])

  function Last(s: seq<string>): string
    requires |s| > 0
  {
    s[|s| - 1]
  }

  /** `flush_buffer`: a non-empty buffer becomes one paragraph, its fragments space-joined and stripped. */
  function Flush(st: State): (r: State)
    ensures r.buffer == []
    ensures st.buffer == [] ==> r == st
    ensures st.buffer != [] ==> |r.paragraphs| == |st.paragraphs| + 1 && r.paragraphs[..|st.paragraphs|] == st.paragraphs
  {
    if |st.buffer| > 0 then State(st.paragraphs + [Strip(Join(st.buffer, " "))], []) else st
  }

  /** A plain line (neither blank nor a list item) added to the buffer after the break rule. */
  function AddFragment(st: State, line: string): (r: State)
    ensures r.paragraphs == st.paragraphs
    ensures |r.buffer| > 0
  {
    if |st.buffer| > 0 then
      var n := |st.buffer|;
      if ShouldJoin(st.buffer[n - 1], line) then State(st.paragraphs, st.buffer[..n - 1] + [JoinFragments(st.buffer[n - 1], line)])
      else State(st.paragraphs, st.buffer + [line])
    else State(st.paragraphs, [line])
  }

  /** One iteration of the loop of `_merge_lines`. */
  function Step(st: State, rawLine: string): State {
    var line := RStrip(rawLine);
    if line == "" then Flush(st)
    else if IsListItem(line) then State(Flush(st).paragraphs + [line], [])
    else if |st.buffer| > 0 && ShouldBreak(Last(st.buffer), line) then AddFragment(Flush(st), line)
    else AddFragment(st, line)
  }

  /** The loop of `_merge_lines` over `lines`, from state `st`. */
  function Run(st: State, lines: seq<string>): State
    decreases |lines|
  {
    if |lines| == 0 then st else Run(Step(st, lines[0]), lines[1..])
  }

  /** The paragraphs `_merge_lines` produces, after the final flush. */
  function Paragraphs(lines: seq<string>): seq<string> {
    Flush(Run(Start, lines)).paragraphs
  }

  /** `_merge_lines`: the paragraphs separated by blank lines. */
  function MergeLines(lines: seq<string>): string {
    Join(Paragraphs(lines), "\n\n")
  }

  // ---------------------------------------------------------------------------
  // Paragraphs are never empty
  // ---------------------------------------------------------------------------

  /** Every paragraph is non-empty and stripped; every buffered fragment holds a non-space character. */
  ghost predicate Good(st: State) {
    && (forall i :: 0 <= i < |st.paragraphs| ==> st.paragraphs[i] != "" && IsStripped(st.paragraphs[i]))
    && (forall i :: 0 <= i < |st.buffer| ==> !IsBlank(st.buffer[i]))
  }

  lemma JoinKeepsNonBlankHead(parts: seq<string>, sep: string)
    requires |parts| > 0 && !IsBlank(parts[0])
    ensures !IsBlank(Join(parts, sep))
  {
    var k :| 0 <= k < |parts[0]| && !IsSpace(parts[0][k]);
    if |parts| > 1 {
      assert Join(parts, sep)[k] == parts[0][k];
    }
  }

  lemma FlushGood(st: State)
    requires Good(st)
    ensures Good(Flush(st))
  {
    if |st.buffer| > 0 {
      JoinKeepsNonBlankHead(st.buffer, " ");
      StripOfBlank(Join(st.buffer, " "));
    }
  }

  /** A right-stripped non-empty line ends with a non-space character. */
  lemma RStripNotBlank(s: string)
    requires RStrip(s) != ""
    ensures !IsBlank(RStrip(s))
  {
    var r := RStrip(s);
    assert !IsSpace(r[|r| - 1]);
  }

  lemma JoinFragmentsNotBlank(prev: string, line: string)
    requires line != "" && !IsSpace(line[|line| - 1])
    ensures !IsBlank(JoinFragments(prev, line))
  {
    LStripDropsBlank(line);
    var r := JoinFragments(prev, line);
    assert !IsSpace(r[|r| - 1]);
  }

  lemma AddFragmentGood(st: State, line: string)
    requires Good(st) && line != "" && !IsSpace(line[|line| - 1])
    ensures Good(AddFragment(st, line))
  {
    if |st.buffer| > 0 {
      JoinFragmentsNotBlank(st.buffer[|st.buffer| - 1], line);
    }
  }

  lemma StepGood(st: State, rawLine: string)
    requires Good(st)
    ensures Good(Step(st, rawLine))
  {
    var line := RStrip(rawLine);
    FlushGood(st);
    if line != "" {
      assert !IsSpace(line[|line| - 1]);
      if IsListItem(line) {
        assert !IsSpace(line[0]);
      } else if |st.buffer| > 0 && ShouldBreak(Last(st.buffer), line) {
        AddFragmentGood(Flush(st), line);
      } else {
        AddFragmentGood(st, line);
      }
    }
  }

  lemma {:induction false} RunGood(st: State, lines: seq<string>)
    requires Good(st)
    ensures Good(Run(st, lines))
    decreases |lines|
  {
    if |lines| > 0 {
      StepGood(st, lines[0]);
      RunGood(Step(st, lines[0]), lines[1..]);
    }
  }

  /** `_merge_lines` never emits an empty paragraph, and each one is stripped. */
  lemma ParagraphsNonEmpty(lines: seq<string>)
    ensures forall i :: 0 <= i < |Paragraphs(lines)| ==> Paragraphs(lines)[i] != "" && IsStripped(Paragraphs(lines)[i])
  {
    RunGood(Start, lines);
    FlushGood(Run(Start, lines));
  }

  // ---------------------------------------------------------------------------
  // Content is kept, in order
  // ---------------------------------------------------------------------------

  /** What a state holds, with whitespace and hyphens erased. */
  function Content(st: State): string {
    Erase(Concat(st.paragraphs), WhitespaceOrHyphen) + Erase(Concat(st.buffer), WhitespaceOrHyphen)
  }

  lemma ConcatOne(x: string)
    ensures Concat([x]) == x
  {
    assert [x][1..] == [];
  }

  /** Erasing the concatenation of `xs + [x]` appends the erased `x`. */
  lemma EraseConcatSnoc(xs: seq<string>, x: string)
    ensures Erase(Concat(xs + [x]), WhitespaceOrHyphen) == Erase(Concat(xs), WhitespaceOrHyphen) + Erase(x, WhitespaceOrHyphen)
  {
    ConcatAppend(xs, [x]);
    ConcatOne(x);
    EraseAppend(Concat(xs), x, WhitespaceOrHyphen);
  }

  lemma SpaceDropped()
    ensures forall i :: 0 <= i < |" "| ==> InClass(" "[i], WhitespaceOrHyphen)
  {}

  lemma FlushContent(st: State)
    ensures Content(Flush(st)) == Content(st)
  {
    if |st.buffer| > 0 {
      var p := Strip(Join(st.buffer, " "));
      assert Erase(p, WhitespaceOrHyphen) == Erase(Concat(st.buffer), WhitespaceOrHyphen) by {
        EraseStrip(Join(st.buffer, " "), WhitespaceOrHyphen);
        SpaceDropped();
        EraseJoin(st.buffer, " ", WhitespaceOrHyphen);
      }
      EraseConcatSnoc(st.paragraphs, p);
      assert Erase(Concat([]), WhitespaceOrHyphen) == "";
    }
  }

  /** Dropping a trailing hyphen changes nothing once hyphens are erased. */
  lemma EraseDropHyphen(prev: string)
    requires EndsWithChar(prev, '-')
    ensures Erase(prev, WhitespaceOrHyphen) == Erase(prev[..|prev| - 1], WhitespaceOrHyphen)
  {
    var n := |prev| - 1;
    SplitLast(prev);
    HyphenErased();
    EraseAppend(prev[..n], [prev[n]], WhitespaceOrHyphen);
  }

  lemma HyphenErased()
    ensures Erase("-", WhitespaceOrHyphen) == ""
  {}

  /** Joining fragments erases to the two fragments erased. */
  lemma JoinFragmentsContent(prev: string, line: string)
    ensures Erase(JoinFragments(prev, line), WhitespaceOrHyphen) == Erase(prev, WhitespaceOrHyphen) + Erase(line, WhitespaceOrHyphen)
  {
    EraseLStrip(line, WhitespaceOrHyphen);
    if EndsWithChar(prev, '-') {
      EraseDropHyphen(prev);
      EraseAppend(prev[..|prev| - 1], LStrip(line), WhitespaceOrHyphen);
    } else {
      SpaceDropped();
      EraseAroundDropped(prev, " ", LStrip(line), WhitespaceOrHyphen);
    }
  }

  lemma AddFragmentContent(st: State, line: string)
    ensures Content(AddFragment(st, line)) == Content(st) + Erase(line, WhitespaceOrHyphen)
  {
    var b := st.buffer;
    var r := AddFragment(st, line);
    assert Erase(Concat(r.buffer), WhitespaceOrHyphen) == Erase(Concat(b), WhitespaceOrHyphen) + Erase(line, WhitespaceOrHyphen) by {
      if |b| > 0 {
        var n := |b| - 1;
        assert b == b[..n] + [b[n]];
        EraseConcatSnoc(b[..n], b[n]);
        if ShouldJoin(b[n], line) {
          EraseConcatSnoc(b[..n], JoinFragments(b[n], line));
          JoinFragmentsContent(b[n], line);
          AppendAssoc(Erase(Concat(b[..n]), WhitespaceOrHyphen), Erase(b[n], WhitespaceOrHyphen), Erase(line, WhitespaceOrHyphen));
        } else {
          EraseConcatSnoc(b, line);
        }
      } else {
        ConcatOne(line);
      }
    }
    AppendAssoc(Erase(Concat(st.paragraphs), WhitespaceOrHyphen), Erase(Concat(b), WhitespaceOrHyphen), Erase(line, WhitespaceOrHyphen));
  }

  lemma ContentNoBuffer(ps: seq<string>)
    ensures Content(State(ps, [])) == Erase(Concat(ps), WhitespaceOrHyphen)
  {
    var e := Erase(Concat(ps), WhitespaceOrHyphen);
    assert Erase(Concat([]), WhitespaceOrHyphen) == "";
    assert e + "" == e;
  }

  lemma ListItemContent(st: State, line: string)
    ensures Content(State(Flush(st).paragraphs + [line], [])) == Content(st) + Erase(line, WhitespaceOrHyphen)
  {
    var f := Flush(st);
    FlushContent(st);
    assert f == State(f.paragraphs, []);
    ContentNoBuffer(f.paragraphs);
    ContentNoBuffer(f.paragraphs + [line]);
    EraseConcatSnoc(f.paragraphs, line);
  }

  lemma StepContent(st: State, rawLine: string)
    ensures Content(Step(st, rawLine)) == Content(st) + Erase(rawLine, WhitespaceOrHyphen)
  {
    var line := RStrip(rawLine);
    EraseRStrip(rawLine, WhitespaceOrHyphen);
    if line == "" {
      FlushContent(st);
      assert Content(st) + Erase(line, WhitespaceOrHyphen) == Content(st);
    } else if IsListItem(line) {
      ListItemContent(st, line);
    } else if |st.buffer| > 0 && ShouldBreak(Last(st.buffer), line) {
      FlushContent(st);
      AddFragmentContent(Flush(st), line);
    } else {
      AddFragmentContent(st, line);
    }
  }

  lemma {:induction false} RunContent(st: State, lines: seq<string>)
    ensures Content(Run(st, lines)) == Content(st) + Erase(Concat(lines), WhitespaceOrHyphen)
    decreases |lines|
  {
    if |lines| == 0 {
      assert Content(st) + Erase(Concat(lines), WhitespaceOrHyphen) == Content(st);
    } else {
      var e0, er := Erase(lines[0], WhitespaceOrHyphen), Erase(Concat(lines[1..]), WhitespaceOrHyphen);
      StepContent(st, lines[0]);
      RunContent(Step(st, lines[0]), lines[1..]);
      EraseAppend(lines[0], Concat(lines[1..]), WhitespaceOrHyphen);
      AppendAssoc(Content(st), e0, er);
    }
  }

  /** Merging keeps every character but whitespace and hyphens, in input order. */
  lemma MergeLinesKeepsContent(lines: seq<string>)
    ensures Erase(MergeLines(lines), WhitespaceOrHyphen) == Erase(Concat(lines), WhitespaceOrHyphen)
  {
    var fin := Flush(Run(Start, lines));
    var e := Erase(Concat(lines), WhitespaceOrHyphen);
    assert Content(fin) == e by {
      RunContent(Start, lines);
      FlushContent(Run(Start, lines));
      ContentNoBuffer([]);
      assert "" + e == e;
    }
    assert fin == State(fin.paragraphs, []);
    ContentNoBuffer(fin.paragraphs);
    assert forall i :: 0 <= i < |"\n\n"| ==> InClass("\n\n"[i], WhitespaceOrHyphen);
    EraseJoin(fin.paragraphs, "\n\n", WhitespaceOrHyphen);
  }

  // ---------------------------------------------------------------------------
  // Where paragraphs necessarily end
  // ---------------------------------------------------------------------------

  /** `st` with the paragraphs `ps` emitted before it. */
  function After(ps: seq<string>, st: State): State {
    State(ps + st.paragraphs, st.buffer)
  }

  lemma FlushAfter(ps: seq<string>, st: State)
    ensures Flush(After(ps, st)) == After(ps, Flush(st))
  {
    if |st.buffer| > 0 {
      AppendAssoc(ps, st.paragraphs, [Strip(Join(st.buffer, " "))]);
    }
  }

  lemma AddFragmentAfter(ps: seq<string>, st: State, line: string)
    ensures AddFragment(After(ps, st), line) == After(ps, AddFragment(st, line))
  {}

  lemma StepAfter(ps: seq<string>, st: State, rawLine: string)
    ensures Step(After(ps, st), rawLine) == After(ps, Step(st, rawLine))
  {
    var line := RStrip(rawLine);
    FlushAfter(ps, st);
    if line == "" {
    } else if IsListItem(line) {
      AppendAssoc(ps, Flush(st).paragraphs, [line]);
    } else if |st.buffer| > 0 && ShouldBreak(Last(st.buffer), line) {
      AddFragmentAfter(ps, Flush(st), line);
    } else {
      AddFragmentAfter(ps, st, line);
    }
  }

  /** Earlier paragraphs never influence the rest of the fold. */
  lemma {:induction false} RunAfter(ps: seq<string>, st: State, lines: seq<string>)
    ensures Run(After(ps, st), lines) == After(ps, Run(st, lines))
    decreases |lines|
  {
    if |lines| > 0 {
      StepAfter(ps, st, lines[0]);
      RunAfter(ps, Step(st, lines[0]), lines[1..]);
    }
  }

  lemma {:induction false} RunAppend(st: State, a: seq<string>, b: seq<string>)
    ensures Run(st, a + b) == Run(Run(st, a), b)
    decreases |a|
  {
    if |a| == 0 {
      assert a + b == b;
    } else {
      assert (a + b)[1..] == a[1..] + b;
      RunAppend(Step(st, a[0]), a[1..], b);
    }
  }

  /** The next line flushes the buffer anyway: a blank line, a list item, or a break. */
  predicate FlushesBefore(st: State, rawLine: string) {
    var line := RStrip(rawLine);
    st.buffer == [] || line == "" || IsListItem(line) || ShouldBreak(Last(st.buffer), line)
  }

  lemma FlushFirst(st: State, rawLine: string)
    requires FlushesBefore(st, rawLine)
    ensures Step(st, rawLine) == Step(Flush(st), rawLine)
  {}

  lemma RunSameStep(s1: State, s2: State, b: seq<string>)
    requires |b| > 0 && Step(s1, b[0]) == Step(s2, b[0])
    ensures Run(s1, b) == Run(s2, b)
  {}

  lemma FlushedStart(a: seq<string>)
    ensures Flush(Run(Start, a)) == After(Paragraphs(a), Start)
  {
    assert Paragraphs(a) + [] == Paragraphs(a);
  }

  lemma RunFromFlushed(a: seq<string>, b: seq<string>)
    requires |b| > 0 && FlushesBefore(Run(Start, a), b[0])
    ensures Run(Start, a + b) == After(Paragraphs(a), Run(Start, b))
  {
    var st := Run(Start, a);
    RunAppend(Start, a, b);
    FlushedStart(a);
    FlushFirst(st, b[0]);
    RunSameStep(st, Flush(st), b);
    RunAfter(Paragraphs(a), Start, b);
  }

  /** Where the next line flushes anyway, the input splits into independently merged parts. */
  lemma SplitWhereFlushed(a: seq<string>, b: seq<string>)
    requires |b| > 0 ==> FlushesBefore(Run(Start, a), b[0])
    ensures Paragraphs(a + b) == Paragraphs(a) + Paragraphs(b)
  {
    if |b| == 0 {
      assert a + b == a;
      assert Paragraphs(b) == [];
    } else {
      RunFromFlushed(a, b);
      FlushAfter(Paragraphs(a), Run(Start, b));
    }
  }

  /** A blank line ends the paragraph: what precedes and what follows merge independently. */
  lemma BlankLineSeparates(a: seq<string>, blank: string, b: seq<string>)
    requires IsBlank(blank)
    ensures Paragraphs(a + [blank] + b) == Paragraphs(a) + Paragraphs(b)
  {
    RStripOfBlank(blank);
    RunAppend(Start, a, [blank]);
    assert Run(Start, a + [blank]) == Flush(Run(Start, a));
    SplitWhereFlushed(a + [blank], b);
  }

  /** A list item is a paragraph of its own, right-stripped. */
  lemma ListItemStandsAlone(a: seq<string>, item: string, b: seq<string>)
    requires IsListItem(RStrip(item))
    ensures Paragraphs(a + [item] + b) == Paragraphs(a) + [RStrip(item)] + Paragraphs(b)
  {
    RunAppend(Start, a, [item]);
    assert Run(Start, a + [item]) == State(Paragraphs(a) + [RStrip(item)], []);
    SplitWhereFlushed(a + [item], b);
  }

  /** An all-capitals line or a section heading starts a new paragraph. */
  lemma HeadingStartsParagraph(a: seq<string>, b: seq<string>)
    requires |b| > 0 && (IsAllCapsLine(RStrip(b[0])) || IsSectionHeading(RStrip(b[0])))
    ensures Paragraphs(a + b) == Paragraphs(a) + Paragraphs(b)
  {
    SplitWhereFlushed(a, b);
  }

  lemma AddFragmentEnd(st: State, line: string)
    requires line != "" && !IsSpace(line[|line| - 1])
    ensures EndsWithChar(Last(AddFragment(st, line).buffer), line[|line| - 1])
  {
    LStripKeepsLast(line);
  }

  /** The buffer is empty or its last fragment ends with `c`. */
  predicate BufferEndsWith(st: State, c: char) {
    st.buffer == [] || EndsWithChar(Last(st.buffer), c)
  }

  /** The last character of a non-empty line. */
  function LastChar(line: string): char
    requires line != ""
  {
    line[|line| - 1]
  }

  /** Adding a non-blank line leaves a buffer that is empty or ends with that line's last character. */
  lemma StepBufferEnd(st: State, rawLine: string)
    requires RStrip(rawLine) != ""
    ensures BufferEndsWith(Step(st, rawLine), LastChar(RStrip(rawLine)))
  {
    var line := RStrip(rawLine);
    if !IsListItem(line) {
      if |st.buffer| > 0 && ShouldBreak(Last(st.buffer), line) {
        AddFragmentEnd(Flush(st), line);
      } else {
        AddFragmentEnd(st, line);
      }
    }
  }

  /** The state after some lines is one step on from the state before the last of them. */
  lemma RunLast(a: seq<string>)
    requires |a| > 0
    ensures Run(Start, a) == Step(Run(Start, a[..|a| - 1]), a[|a| - 1])
  {
    var n := |a| - 1;
    SplitLast(a);
    RunAppend(Start, a[..n], [a[n]]);
    RunOne(Run(Start, a[..n]), a[n]);
  }

  lemma RunOne(st: State, line: string)
    ensures Run(st, [line]) == Step(st, line)
  {
    assert [line][1..] == [];
  }

  /** A line ending with a colon, question mark or exclamation mark ends its paragraph. */
  lemma BreakAfterPunctuation(a: seq<string>, b: seq<string>)
    requires |a| > 0
    requires EndsWithChar(RStrip(a[|a| - 1]), ':') || EndsWithChar(RStrip(a[|a| - 1]), '?') || EndsWithChar(RStrip(a[|a| - 1]), '!')
    ensures Paragraphs(a + b) == Paragraphs(a) + Paragraphs(b)
  {
    LastLineEndsBuffer(a);
    if |b| > 0 {
      FlushesAfterMark(Run(Start, a), b[0], LastChar(RStrip(a[|a| - 1])));
    }
    SplitWhereFlushed(a, b);
  }

  /** After a non-blank last line the buffer is empty or ends with that line's last character. */
  lemma LastLineEndsBuffer(a: seq<string>)
    requires |a| > 0 && RStrip(a[|a| - 1]) != ""
    ensures BufferEndsWith(Run(Start, a), LastChar(RStrip(a[|a| - 1])))
  {
    var n := |a| - 1;
    RunLast(a);
    StepBufferEnd(Run(Start, a[..n]), a[n]);
  }

  /** A buffer ending with a colon, question mark or exclamation mark is flushed before any next line. */
  lemma FlushesAfterMark(st: State, rawLine: string, c: char)
    requires c == ':' || c == '?' || c == '!'
    requires BufferEndsWith(st, c)
    ensures FlushesBefore(st, rawLine)
  {}

  // ---------------------------------------------------------------------------
  // Two lines of running text
  // ---------------------------------------------------------------------------

  /** A plain line: stripped, not blank, not a list item. */
  predicate IsPlain(line: string) {
    line != "" && IsStripped(line) && !IsListItem(line)
  }

  lemma ParagraphsOfTwo(x: string, y: string)
    ensures Paragraphs([x, y]) == Flush(Step(Step(Start, x), y)).paragraphs
  {
    assert [x, y][1..] == [y];
    assert [y][1..] == [];
    assert Run(Start, [x, y]) == Run(Step(Start, x), [y]);
    assert Run(Step(Start, x), [y]) == Run(Step(Step(Start, x), y), []);
  }

  /** How two lines of running text end up in one paragraph. */
  function Glued(x: string, y: string): string
    requires x != ""
  {
    if EndsWithChar(x, '-') then x[..|x| - 1] + y else x + " " + y
  }

  lemma GluedStripped(x: string, y: string)
    requires IsPlain(x) && IsPlain(y)
    ensures Strip(Glued(x, y)) == Glued(x, y)
  {
    var g := Glued(x, y);
    assert !IsSpace(g[|g| - 1]);
    if EndsWithChar(x, '-') && |x| == 1 {
      assert g == y;
    } else {
      assert g[0] == x[0];
    }
    StripNoop(g);
  }

  lemma SecondPlainLine(x: string, y: string)
    requires IsPlain(x) && IsPlain(y) && !ShouldBreak(x, y)
    ensures Flush(Step(State([], [x]), y)).paragraphs == [Strip(Glued(x, y))]
  {
    RStripNoop(y);
    LStripNoop(y);
    if ShouldJoin(x, y) {
      assert Step(State([], [x]), y) == State([], [JoinFragments(x, y)]);
    } else {
      assert Step(State([], [x]), y) == State([], [x, y]);
      assert Join([x, y], " ") == x + " " + Join([y], " ");
    }
  }

  /**
    * Two lines of running text with no break between them form one paragraph:
    * single-space separated, or glued with the hyphen removed. Whether the join
    * rule fires makes no difference here.
    */
  lemma TwoLinesOneParagraph(x: string, y: string)
    requires IsPlain(x) && IsPlain(y) && !ShouldBreak(x, y)
    ensures Paragraphs([x, y]) == [Glued(x, y)]
  {
    RStripNoop(x);
    assert Step(Start, x) == State([], [x]);
    ParagraphsOfTwo(x, y);
    SecondPlainLine(x, y);
    GluedStripped(x, y);
  }
}
