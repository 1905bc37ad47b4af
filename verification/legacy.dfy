/**
  * `clean_ocr_text` of the legacy cleaner: the fixed sequence of passes the
  * standalone script applies to a whole OCR text. Every `re.sub` is modelled
  * as a left-to-right scan: at each position the pattern either matches (the
  * match is replaced and the scan resumes after it) or one character is
  * copied.
  */
module Legacy {
  import opened Base
  import opened Text
  import opened Storage
  import opened LegacyLines
  import opened LegacyPunctuation
  import opened LegacyParagraphs

  // ---------------------------------------------------------------------------
  // Step 1: form feeds and line endings
  // ---------------------------------------------------------------------------

  /** Form feeds removed, then `\r\n` and lone `\r` turned into `\n`. */
  function NormaliseBreaks(text: string): string {
    Replace(Replace(Replace(text, [FormFeed], ""), "\r\n", "\n"), "\r", "\n")
  }

  /** The two `re.sub` calls on line endings agree with universal-newline translation. */
  lemma {:induction false} LineEndingsTranslate(s: string)
    ensures Replace(Replace(s, "\r\n", "\n"), "\r", "\n") == TranslateNewlines(s)
    decreases |s|
  {
    if |s| > 0 {
      var inner := Replace(s, "\r\n", "\n");
      if StartsWith(s, "\r\n") {
        assert s[0] == '\r' && s[1] == '\n';
        assert inner == "\n" + Replace(s[2..], "\r\n", "\n");
        ReplaceCharAppend("\n", Replace(s[2..], "\r\n", "\n"), '\r', "\n");
        LineEndingsTranslate(s[2..]);
      } else {
        assert inner == [s[0]] + Replace(s[1..], "\r\n", "\n");
        ReplaceCharAppend([s[0]], Replace(s[1..], "\r\n", "\n"), '\r', "\n");
        LineEndingsTranslate(s[1..]);
        if s[0] == '\r' {
          assert !(|s| > 1 && s[1] == '\n');
        }
      }
    }
  }

  /** Step 1 is `TranslateNewlines` after dropping form feeds, and leaves neither `\f` nor `\r`. */
  lemma NormaliseBreaksTranslates(text: string)
    ensures NormaliseBreaks(text) == TranslateNewlines(Replace(text, [FormFeed], ""))
    ensures FormFeed !in NormaliseBreaks(text) && '\r' !in NormaliseBreaks(text)
  {
    var t := Replace(text, [FormFeed], "");
    ReplaceRemovesChar(text, FormFeed, "");
    LineEndingsTranslate(t);
    TranslateNewlinesKeepsAbsent(t, FormFeed);
  }

  /** Translation only introduces `\n`. */
  lemma {:induction false} TranslateNewlinesKeepsAbsent(s: string, x: char)
    requires x != '\n' && x !in s
    ensures x !in TranslateNewlines(s)
    decreases |s|
  {
    if |s| > 0 {
      if s[0] == '\r' {
        if |s| > 1 && s[1] == '\n' {
          TranslateNewlinesKeepsAbsent(s[2..], x);
        } else {
          TranslateNewlinesKeepsAbsent(s[1..], x);
        }
      } else {
        TranslateNewlinesKeepsAbsent(s[1..], x);
      }
    }
  }

  // ---------------------------------------------------------------------------
  // Step 2: standalone page numbers and roman numerals
  // ---------------------------------------------------------------------------

  /** The two line patterns: `^\s*\d+\s*$` and `^\s*[ivxlcdm]+\s*$`, multi-line. */
  datatype Standalone = Numerals | RomanNumerals

  /** The characters of the pattern's middle class; the roman class is lower case only. */
  predicate InStandalone(cls: Standalone, c: char) {
    match cls
    case Numerals => IsDigit(c)
    case RomanNumerals => IsRomanDigit(c)
  }

  /** `[ivxlcdm]`: lower case only. */
  predicate IsRomanDigit(c: char) {
    c == 'i' || c == 'v' || c == 'x' || c == 'l' || c == 'c' || c == 'd' || c == 'm'
  }

  /** What a line-pattern match may consist of. */
  predicate InLinePattern(cls: Standalone, c: char) {
    IsSpace(c) || InStandalone(cls, c)
  }

  /** Number of leading class characters. */
  function ClassRun(cls: Standalone, s: string): (n: nat)
    ensures n <= |s|
    decreases |s|
  {
    if |s| > 0 && InStandalone(cls, s[0]) then 1 + ClassRun(cls, s[1..]) else 0
  }

  /** The run is class characters and ends at the first other character. */
  lemma {:induction false} ClassRunIsMaximal(cls: Standalone, s: string)
    ensures forall i :: 0 <= i < ClassRun(cls, s) ==> InStandalone(cls, s[i])
    ensures ClassRun(cls, s) == |s| || !InStandalone(cls, s[ClassRun(cls, s)])
    decreases |s|
  {
    if |s| > 0 && InStandalone(cls, s[0]) {
      ClassRunIsMaximal(cls, s[1..]);
      forall i | 1 <= i < ClassRun(cls, s) ensures InStandalone(cls, s[i]) {
        assert s[i] == s[1..][i - 1];
      }
    }
  }

  /**
    * The last position in `[lo, hi]` where `$` holds (the end of the text,
    * or just before a `\n`): where the trailing greedy `\s*` settles after
    * backtracking.
    */
  function LineEndIn(s: string, lo: nat, hi: nat): (r: Option<nat>)
    requires lo <= hi <= |s|
    ensures r.Some? ==> lo <= r.value <= hi && (r.value == |s| || s[r.value] == '\n')
    decreases hi
  {
    if hi == |s| || s[hi] == '\n' then Some(hi)
    else if hi == lo then None
    else LineEndIn(s, lo, hi - 1)
  }

  /** `LineEndIn` finds a line end whenever there is one in range, and none comes after the one it finds. */
  lemma {:induction false} LineEndInIsLast(s: string, lo: nat, hi: nat, q: nat)
    requires lo <= q <= hi <= |s|
    requires q == |s| || s[q] == '\n'
    ensures LineEndIn(s, lo, hi).Some? && q <= LineEndIn(s, lo, hi).value
    decreases hi
  {
    if !(hi == |s| || s[hi] == '\n') {
      LineEndInIsLast(s, lo, hi - 1, q);
    }
  }

  /**
    * Length of the match of the line pattern at the start of `s`, which must
    * be a line start: leading whitespace (which may span blank lines), at
    * least one class character, then trailing whitespace up to its last
    * line end.
    */
  function StandaloneMatch(cls: Standalone, s: string): (r: Option<nat>)
    ensures r.Some? ==> 0 < r.value <= |s|
  {
    var w := SpaceRun(s);
    MatchAfterRuns(s, w, ClassRun(cls, s[w..]))
  }

  /** The match once the leading runs are known: `w` whitespace, then `d` class characters. */
  function MatchAfterRuns(s: string, w: nat, d: nat): (r: Option<nat>)
    requires w + d <= |s|
    ensures r.Some? ==> 0 < r.value <= |s|
  {
    if d == 0 then None
    else LineEndIn(s, w + d, w + d + SpaceRun(s[w + d..]))
  }

  /** `re.sub(pattern, '', s, flags=re.MULTILINE)`; `atStart` says whether `^` holds at the start of `s`. */
  function DropStandalone(cls: Standalone, atStart: bool, s: string): (r: string)
    ensures |r| <= |s|
    decreases |s|
  {
    if |s| == 0 then ""
    else match (if atStart then StandaloneMatch(cls, s) else None)
      case Some(k) => DropStandalone(cls, s[k - 1] == '\n', s[k..])
      case None => [s[0]] + DropStandalone(cls, s[0] == '\n', s[1..])
  }

  /** Step 2: page numbers first, then lower-case roman numerals. */
  function DropStandaloneLines(text: string): string {
    DropStandalone(RomanNumerals, true, DropStandalone(Numerals, true, text))
  }

  /** `s` without whitespace and without the class characters of `cls`. */
  function Essential(cls: Standalone, s: string): (r: string)
    ensures |r| <= |s|
    decreases |s|
  {
    if |s| == 0 then ""
    else (if InLinePattern(cls, s[0]) then "" else [s[0]]) + Essential(cls, s[1..])
  }

  lemma {:induction false} EssentialAppend(cls: Standalone, a: string, b: string)
    ensures Essential(cls, a + b) == Essential(cls, a) + Essential(cls, b)
    decreases |a|
  {
    if |a| > 0 {
      var h := if InLinePattern(cls, a[0]) then "" else [a[0]];
      assert (a + b)[0] == a[0] && (a + b)[1..] == a[1..] + b;
      assert Essential(cls, a + b) == h + Essential(cls, a[1..] + b);
      EssentialAppend(cls, a[1..], b);
      AppendAssoc(h, Essential(cls, a[1..]), Essential(cls, b));
    } else {
      assert a + b == b;
    }
  }

  lemma {:induction false} EssentialOfDropped(cls: Standalone, s: string)
    requires forall i :: 0 <= i < |s| ==> InLinePattern(cls, s[i])
    ensures Essential(cls, s) == ""
    decreases |s|
  {
    if |s| > 0 {
      EssentialOfDropped(cls, s[1..]);
    }
  }

  /**
    * A match is a line start's whitespace and class characters only, holds at
    * least one class character, and ends at a line end.
    */
  lemma StandaloneMatchSound(cls: Standalone, s: string)
    requires StandaloneMatch(cls, s).Some?
    ensures forall i :: 0 <= i < StandaloneMatch(cls, s).value ==> InLinePattern(cls, s[i])
    ensures exists i :: 0 <= i < StandaloneMatch(cls, s).value && InStandalone(cls, s[i])
    ensures StandaloneMatch(cls, s).value == |s| || s[StandaloneMatch(cls, s).value] == '\n'
  {
    var k := StandaloneMatch(cls, s).value;
    var w := SpaceRun(s);
    var d := ClassRun(cls, s[w..]);
    var t := s[w + d..];
    SpaceRunIsMaximal(s);
    SpaceRunIsMaximal(t);
    ClassRunIsMaximal(cls, s[w..]);
    forall i | 0 <= i < k ensures InLinePattern(cls, s[i]) {
      if w <= i < w + d {
        assert s[i] == s[w..][i - w];
      } else if w + d <= i {
        assert s[i] == t[i - w - d];
      }
    }
    assert s[w] == s[w..][0];
  }

  lemma StandaloneMatchKeeps(cls: Standalone, s: string, k: nat)
    requires StandaloneMatch(cls, s) == Some(k)
    ensures Essential(cls, s) == Essential(cls, s[k..])
  {
    StandaloneMatchSound(cls, s);
    assert s == s[..k] + s[k..];
    EssentialAppend(cls, s[..k], s[k..]);
    EssentialOfDropped(cls, s[..k]);
  }

  /** Putting a character in front of two texts with the same essential text keeps them alike. */
  lemma EssentialCons(cls: Standalone, c: char, u: string, v: string)
    requires Essential(cls, u) == Essential(cls, v)
    ensures Essential(cls, [c] + u) == Essential(cls, [c] + v)
  {
    EssentialAppend(cls, [c], u);
    EssentialAppend(cls, [c], v);
  }

  lemma DropKeepsAtMatch(cls: Standalone, s: string, k: nat)
    requires StandaloneMatch(cls, s) == Some(k)
    requires Essential(cls, DropStandalone(cls, s[k - 1] == '\n', s[k..])) == Essential(cls, s[k..])
    ensures Essential(cls, DropStandalone(cls, true, s)) == Essential(cls, s)
  {
    assert DropStandalone(cls, true, s) == DropStandalone(cls, s[k - 1] == '\n', s[k..]);
    StandaloneMatchKeeps(cls, s, k);
  }

  lemma DropKeepsAtCopy(cls: Standalone, atStart: bool, s: string)
    requires |s| > 0 && (atStart ==> StandaloneMatch(cls, s).None?)
    requires Essential(cls, DropStandalone(cls, s[0] == '\n', s[1..])) == Essential(cls, s[1..])
    ensures Essential(cls, DropStandalone(cls, atStart, s)) == Essential(cls, s)
  {
    assert DropStandalone(cls, atStart, s) == [s[0]] + DropStandalone(cls, s[0] == '\n', s[1..]);
    EssentialCons(cls, s[0], DropStandalone(cls, s[0] == '\n', s[1..]), s[1..]);
    assert [s[0]] + s[1..] == s;
  }

  /** The pass deletes only whitespace and class characters: everything else stays, in order. */
  lemma {:induction false} DropStandaloneKeepsText(cls: Standalone, atStart: bool, s: string)
    ensures Essential(cls, DropStandalone(cls, atStart, s)) == Essential(cls, s)
    decreases |s|
  {
    if |s| > 0 {
      var m := if atStart then StandaloneMatch(cls, s) else None;
      if m.Some? {
        var k := m.value;
        DropStandaloneKeepsText(cls, s[k - 1] == '\n', s[k..]);
        DropKeepsAtMatch(cls, s, k);
      } else {
        DropStandaloneKeepsText(cls, s[0] == '\n', s[1..]);
        DropKeepsAtCopy(cls, atStart, s);
      }
    }
  }

  /** A text without class characters passes unchanged. */
  lemma {:induction false} DropStandaloneNoop(cls: Standalone, atStart: bool, s: string)
    requires forall i :: 0 <= i < |s| ==> !InStandalone(cls, s[i])
    ensures DropStandalone(cls, atStart, s) == s
    decreases |s|
  {
    if |s| > 0 {
      assert StandaloneMatch(cls, s).None? by {
        var w := SpaceRun(s);
        if w < |s| { assert s[w..][0] == s[w]; }
      }
      DropStandaloneNoop(cls, s[0] == '\n', s[1..]);
      assert s == [s[0]] + s[1..];
    }
  }

  /** Inside a line (no `^`, no `\n`) the pass copies characters. */
  lemma {:induction false} DropStandaloneInLine(cls: Standalone, s: string, n: nat)
    requires n <= |s|
    requires forall i :: 0 <= i < n ==> s[i] != '\n'
    ensures DropStandalone(cls, false, s) == s[..n] + DropStandalone(cls, false, s[n..])
    decreases n
  {
    if n > 0 {
      DropStandaloneCopy(cls, false, s);
      DropStandaloneInLine(cls, s[1..], n - 1);
      assert s[1..][..n - 1] == s[1..n];
      assert s[1..][n - 1..] == s[n..];
      assert s[..n] == [s[0]] + s[1..n];
      AppendAssoc([s[0]], s[1..n], DropStandalone(cls, false, s[n..]));
    }
  }

  /** At a line start that does not open with whitespace or a class character the character is copied. */
  lemma DropStandaloneOtherStart(cls: Standalone, s: string)
    requires |s| > 0 && !IsSpace(s[0]) && !InStandalone(cls, s[0])
    ensures DropStandalone(cls, true, s) == [s[0]] + DropStandalone(cls, s[0] == '\n', s[1..])
  {
    assert SpaceRun(s) == 0;
    assert s[0..] == s;
  }

  lemma {:induction false} SpaceRunOfBlankPrefix(w: string, x: string)
    requires IsBlank(w)
    requires x == [] || !IsSpace(x[0])
    ensures SpaceRun(w + x) == |w|
    decreases |w|
  {
    if |w| > 0 {
      assert (w + x)[1..] == w[1..] + x;
      SpaceRunOfBlankPrefix(w[1..], x);
    } else {
      assert w + x == x;
    }
  }

  lemma {:induction false} ClassRunOfPrefix(cls: Standalone, d: string, x: string)
    requires forall i :: 0 <= i < |d| ==> InStandalone(cls, d[i])
    requires x == [] || !InStandalone(cls, x[0])
    ensures ClassRun(cls, d + x) == |d|
    decreases |d|
  {
    if |d| > 0 {
      assert (d + x)[1..] == d[1..] + x;
      ClassRunOfPrefix(cls, d[1..], x);
    } else {
      assert d + x == x;
    }
  }

  /** Blank lines, class characters, then the end of the text or a line break. */
  lemma LeadingRuns(cls: Standalone, w: string, d: string, rest: string)
    requires IsBlank(w)
    requires |d| > 0 && forall i :: 0 <= i < |d| ==> InStandalone(cls, d[i])
    requires rest == "" || rest[0] == '\n'
    ensures SpaceRun(w + d + rest) == |w|
    ensures ClassRun(cls, (w + d + rest)[|w|..]) == |d|
  {
    assert !IsSpace(d[0]) by {
      match cls
      case Numerals =>
      case RomanNumerals =>
    }
    assert (d + rest)[0] == d[0];
    assert w + d + rest == w + (d + rest);
    SpaceRunOfBlankPrefix(w, d + rest);
    assert (w + d + rest)[|w|..] == d + rest;
    ClassRunOfPrefix(cls, d, rest);
  }

  /** `LineEndIn` reads only the positions it scans: shifting the text shifts the answer. */
  lemma {:induction false} LineEndInShift(s: string, k: nat, lo: nat, hi: nat, j: nat)
    requires k <= |s| && lo <= hi <= |s| - k
    requires LineEndIn(s[k..], lo, hi) == Some(j)
    ensures LineEndIn(s, k + lo, k + hi) == Some(k + j)
    decreases hi
  {
    var t := s[k..];
    if hi == |t| || t[hi] == '\n' {
      assert k + hi == |s| || s[k + hi] == '\n';
    } else {
      assert s[k + hi] == t[hi];
      LineEndInShift(s, k, lo, hi - 1, j);
    }
  }

  /**
    * Where the trailing `\s*$` of a standalone line settles inside `rest`, the
    * text after the class characters: the last line end within the leading
    * whitespace of `rest`.
    */
  function TrailingLineEnd(rest: string): (j: nat)
    requires rest == "" || rest[0] == '\n'
    ensures j <= |rest| && (j == |rest| || rest[j] == '\n')
    ensures IsBlank(rest[..j])
  {
    SpaceRunIsMaximal(rest);
    LineEndInIsLast(rest, 0, SpaceRun(rest), 0);
    LineEndIn(rest, 0, SpaceRun(rest)).value
  }

  /**
    * The match at a line start whose whitespace run has length `w` and whose
    * class run has length `d`, followed by `rest`: it takes the whitespace of
    * `rest` up to its last line end.
    */
  lemma StandaloneLineMatch(cls: Standalone, s: string, w: nat, d: nat, rest: string)
    requires SpaceRun(s) == w && ClassRun(cls, s[w..]) == d && d > 0
    requires s[w + d..] == rest && (rest == "" || rest[0] == '\n')
    ensures StandaloneMatch(cls, s) == Some(w + d + TrailingLineEnd(rest))
  {
    StandaloneMatchUnfold(cls, s, w, d);
    TrailingLineEndAt(s, w + d, rest);
  }

  lemma StandaloneMatchUnfold(cls: Standalone, s: string, w: nat, d: nat)
    requires SpaceRun(s) == w && ClassRun(cls, s[w..]) == d && d > 0
    ensures StandaloneMatch(cls, s) == MatchAfterRuns(s, w, d)
  {
  }

  /** The trailing line end found in `rest` is found at the same place in a text that ends with `rest`. */
  lemma TrailingLineEndAt(s: string, k: nat, rest: string)
    requires k <= |s| && s[k..] == rest
    requires rest == "" || rest[0] == '\n'
    ensures LineEndIn(s, k, k + SpaceRun(rest)) == Some(k + TrailingLineEnd(rest))
  {
    LineEndInIsLast(rest, 0, SpaceRun(rest), 0);
    assert LineEndIn(rest, 0, SpaceRun(rest)) == Some(TrailingLineEnd(rest));
    LineEndInShift(s, k, 0, SpaceRun(rest), TrailingLineEnd(rest));
  }

  lemma StandaloneNotBreak(cls: Standalone, c: char)
    requires InStandalone(cls, c)
    ensures c != '\n'
  {
  }

  lemma DropStandaloneAtMatch(cls: Standalone, s: string, k: nat)
    requires |s| > 0 && StandaloneMatch(cls, s) == Some(k)
    ensures DropStandalone(cls, true, s) == DropStandalone(cls, s[k - 1] == '\n', s[k..])
  {
  }

  lemma DropStandaloneCopy(cls: Standalone, atStart: bool, s: string)
    requires |s| > 0 && (!atStart || StandaloneMatch(cls, s).None?)
    ensures DropStandalone(cls, atStart, s) == [s[0]] + DropStandalone(cls, s[0] == '\n', s[1..])
  {
  }

  /** Whether `^` holds after the match that ends `j` characters into `rest`. */
  function LineStartAfter(rest: string, j: nat): bool
    requires j <= |rest|
  {
    j > 0 && rest[j - 1] == '\n'
  }

  /** The pass at a line start where `StandaloneLineMatch` applies. */
  lemma DropAtStandaloneLine(cls: Standalone, s: string, w: nat, d: nat, rest: string)
    requires SpaceRun(s) == w && ClassRun(cls, s[w..]) == d && d > 0
    requires s[w + d..] == rest && (rest == "" || rest[0] == '\n')
    ensures DropStandalone(cls, true, s)
            == DropStandalone(cls, LineStartAfter(rest, TrailingLineEnd(rest)), rest[TrailingLineEnd(rest)..])
  {
    var k := w + d;
    var j := TrailingLineEnd(rest);
    assert DropStandalone(cls, true, s) == DropStandalone(cls, s[k + j - 1] == '\n', s[k + j..]) by {
      StandaloneLineMatch(cls, s, w, d, rest);
      DropStandaloneAtMatch(cls, s, k + j);
    }
    assert s[k + j..] == rest[j..];
    assert (s[k + j - 1] == '\n') == LineStartAfter(rest, j) by {
      if j == 0 {
        ClassRunIsMaximal(cls, s[w..]);
        assert s[k - 1] == s[w..][d - 1];
        StandaloneNotBreak(cls, s[k - 1]);
      } else {
        assert s[k + j - 1] == rest[j - 1];
      }
    }
  }

  /**
    * At a line start, blank lines followed by a line of class characters only
    * all go, with the whitespace after them up to its last line end; the pass
    * goes on from that line end, so the line itself becomes empty.
    */
  lemma StandaloneLineDropped(cls: Standalone, w: string, d: string, rest: string)
    requires IsBlank(w)
    requires |d| > 0 && forall i :: 0 <= i < |d| ==> InStandalone(cls, d[i])
    requires rest == "" || rest[0] == '\n'
    ensures DropStandalone(cls, true, w + d + rest)
            == DropStandalone(cls, LineStartAfter(rest, TrailingLineEnd(rest)), rest[TrailingLineEnd(rest)..])
  {
    LeadingRuns(cls, w, d, rest);
    assert (w + d + rest)[|w| + |d|..] == rest;
    DropAtStandaloneLine(cls, w + d + rest, |w|, |d|, rest);
  }

  /** A last line of class characters only goes, with the blank lines before it. */
  lemma StandaloneLastLineDropped(cls: Standalone, w: string, d: string)
    requires IsBlank(w)
    requires |d| > 0 && forall i :: 0 <= i < |d| ==> InStandalone(cls, d[i])
    ensures DropStandalone(cls, true, w + d) == ""
  {
    StandaloneLineDropped(cls, w, d, "");
    assert w + d + "" == w + d;
  }

  /** A class-character line before a line of text goes with the blank lines before it; one line break stays. */
  lemma StandaloneLineBeforeText(cls: Standalone, w: string, d: string, next: string)
    requires IsBlank(w)
    requires |d| > 0 && forall i :: 0 <= i < |d| ==> InStandalone(cls, d[i])
    requires |next| > 0 && !IsSpace(next[0])
    ensures DropStandalone(cls, true, w + d + ("\n" + next)) == "\n" + DropStandalone(cls, true, next)
  {
    var x := "\n" + next;
    assert x[1..] == next;
    assert TrailingLineEnd(x) == 0 by {
      assert SpaceRun(x) == 1;
      LineBreakIsSpace(next[0]);
    }
    StandaloneLineDropped(cls, w, d, x);
    DropStandaloneCopy(cls, false, x);
  }

  /** A page number on its own line goes, together with the blank lines before it. */
  lemma PageNumberLineDropped(number: string, next: string)
    requires |number| > 0 && AllDigits(number)
    requires |next| > 0 && !IsSpace(next[0])
    ensures DropStandalone(Numerals, true, "\n\n" + number + "\n" + next) == "\n" + DropStandalone(Numerals, true, next)
  {
    assert IsBlank("\n\n") by {
      LineBreakIsSpace('\n');
    }
    assert forall i :: 0 <= i < |number| ==> InStandalone(Numerals, number[i]);
    StandaloneLineBeforeText(Numerals, "\n\n", number, next);
    AppendAssoc("\n\n" + number, "\n", next);
  }

  /** The roman pattern is case-sensitive: an upper-case numeral line stays. */
  lemma UpperRomanLineKept()
    ensures DropStandaloneLines("IV\n") == "IV\n"
  {
    DropStandaloneNoop(Numerals, true, "IV\n");
    DropStandaloneNoop(RomanNumerals, true, "IV\n");
  }

  // ---------------------------------------------------------------------------
  // Step 4: words hyphenated across a gap
  // ---------------------------------------------------------------------------

  /** `(\w)-\s*\n\s*(\w)` (the gap must hold a line break) or `(\w)-\s+(\w)`. */
  datatype Gap = AcrossLines | AnyGap

  /**
    * Where the hyphen pattern matches at the start of `s`: the position of the
    * second word character. The greedy whitespace takes the whole run, so the
    * pattern matches exactly when the run qualifies and a word character follows it.
    */
  function HyphenMatch(gap: Gap, s: string): (r: Option<nat>)
    ensures r.Some? ==> 3 <= r.value < |s|
  {
    if |s| >= 3 && IsWord(s[0]) && s[1] == '-' then
      var k := 2 + SpaceRun(s[2..]);
      var qualifies := match gap
        case AcrossLines => '\n' in s[2..k]
        case AnyGap => k > 2;
      if k < |s| && IsWord(s[k]) && qualifies then Some(k) else None
    else None
  }

  /** `re.sub(pattern, r'\1\2', s)`. */
  function JoinHyphenated(gap: Gap, s: string): (r: string)
    ensures |r| <= |s|
    decreases |s|
  {
    if |s| == 0 then ""
    else match HyphenMatch(gap, s)
      case Some(k) => [s[0], s[k]] + JoinHyphenated(gap, s[k + 1..])
      case None => [s[0]] + JoinHyphenated(gap, s[1..])
  }

  /** Step 4: breaks across lines first, then breaks on one line. */
  function JoinHyphenBreaks(text: string): string {
    JoinHyphenated(AnyGap, JoinHyphenated(AcrossLines, text))
  }

  lemma HyphenMatchErase(gap: Gap, s: string, k: nat)
    requires HyphenMatch(gap, s) == Some(k)
    ensures Erase(s, WhitespaceOrHyphen) == Erase([s[0], s[k]], WhitespaceOrHyphen) + Erase(s[k + 1..], WhitespaceOrHyphen)
  {
    SpaceRunIsMaximal(s[2..]);
    forall i | 1 <= i < k ensures InClass(s[i], WhitespaceOrHyphen) {
      if i >= 2 { assert s[2..][i - 2] == s[i]; }
    }
    EraseGap(s, k, WhitespaceOrHyphen);
  }

  lemma JoinHyphenatedAtMatch(gap: Gap, s: string, k: nat)
    requires HyphenMatch(gap, s) == Some(k)
    ensures JoinHyphenated(gap, s) == [s[0], s[k]] + JoinHyphenated(gap, s[k + 1..])
  {}

  lemma HyphenKeepsAfterMatch(gap: Gap, s: string, k: nat)
    requires HyphenMatch(gap, s) == Some(k)
    requires Erase(JoinHyphenated(gap, s[k + 1..]), WhitespaceOrHyphen) == Erase(s[k + 1..], WhitespaceOrHyphen)
    ensures Erase(JoinHyphenated(gap, s), WhitespaceOrHyphen) == Erase(s, WhitespaceOrHyphen)
  {
    JoinHyphenatedAtMatch(gap, s, k);
    HyphenMatchErase(gap, s, k);
    EraseAppend([s[0], s[k]], JoinHyphenated(gap, s[k + 1..]), WhitespaceOrHyphen);
  }

  lemma HyphenKeepsAfterCopy(gap: Gap, s: string)
    requires |s| > 0 && HyphenMatch(gap, s).None?
    requires Erase(JoinHyphenated(gap, s[1..]), WhitespaceOrHyphen) == Erase(s[1..], WhitespaceOrHyphen)
    ensures Erase(JoinHyphenated(gap, s), WhitespaceOrHyphen) == Erase(s, WhitespaceOrHyphen)
  {
    assert JoinHyphenated(gap, s) == [s[0]] + JoinHyphenated(gap, s[1..]);
    EraseAppend([s[0]], JoinHyphenated(gap, s[1..]), WhitespaceOrHyphen);
  }

  /** A hyphen pass deletes only hyphens and whitespace: every other character stays, in order. */
  lemma {:induction false} JoinHyphenatedKeepsText(gap: Gap, s: string)
    ensures Erase(JoinHyphenated(gap, s), WhitespaceOrHyphen) == Erase(s, WhitespaceOrHyphen)
    decreases |s|
  {
    if |s| > 0 {
      match HyphenMatch(gap, s)
      case Some(k) =>
        JoinHyphenatedKeepsText(gap, s[k + 1..]);
        HyphenKeepsAfterMatch(gap, s, k);
      case None =>
        JoinHyphenatedKeepsText(gap, s[1..]);
        HyphenKeepsAfterCopy(gap, s);
    }
  }

  lemma JoinHyphenBreaksKeepsText(text: string)
    ensures Erase(JoinHyphenBreaks(text), WhitespaceOrHyphen) == Erase(text, WhitespaceOrHyphen)
  {
    JoinHyphenatedKeepsText(AcrossLines, text);
    JoinHyphenatedKeepsText(AnyGap, JoinHyphenated(AcrossLines, text));
  }

  /** Without a hyphen a pass copies its input. */
  lemma {:induction false} JoinHyphenatedNoHyphen(gap: Gap, s: string)
    requires '-' !in s
    ensures JoinHyphenated(gap, s) == s
    decreases |s|
  {
    if |s| > 0 {
      JoinHyphenatedNoHyphen(gap, s[1..]);
      assert s == [s[0]] + s[1..];
    }
  }

  /** A word broken by a hyphen and a qualifying gap is rejoined: the hyphen and the gap go. */
  lemma WordBreakRejoined(gap: Gap, x: char, g: string, y: char, rest: string)
    requires IsWord(x) && IsWord(y) && IsBlank(g)
    requires gap == AcrossLines ==> '\n' in g
    requires gap == AnyGap ==> |g| > 0
    ensures JoinHyphenated(gap, [x, '-'] + g + [y] + rest) == [x, y] + JoinHyphenated(gap, rest)
  {
    var s := [x, '-'] + g + [y] + rest;
    var k := 2 + |g|;
    assert s[2..] == g + ([y] + rest);
    assert !IsSpace(y) by {
      assert IsWord(y);
    }
    SpaceRunOfBlankPrefix(g, [y] + rest);
    assert s[2..k] == g;
    assert s[k] == y;
    assert HyphenMatch(gap, s) == Some(k);
    assert s[k + 1..] == rest;
  }

  /**
    * Matches do not overlap, so in a chain of breaks the word character that
    * ends one match cannot start the next: the second break survives.
    */
  lemma ChainedBreakKept(gap: Gap, x: char, g1: string, y: char, g2: string, z: char)
    requires IsWord(x) && IsWord(y) && IsWord(z) && IsBlank(g1) && IsBlank(g2)
    requires gap == AcrossLines ==> '\n' in g1
    requires gap == AnyGap ==> |g1| > 0
    ensures JoinHyphenated(gap, [x, '-'] + g1 + [y, '-'] + g2 + [z]) == [x, y, '-'] + g2 + [z]
  {
    var rest := g2 + [z];
    var tail := ['-'] + rest;
    calc {
      JoinHyphenated(gap, [x, '-'] + g1 + [y, '-'] + g2 + [z]);
      { assert [x, '-'] + g1 + [y, '-'] + g2 + [z] == [x, '-'] + g1 + [y] + tail; }
      JoinHyphenated(gap, [x, '-'] + g1 + [y] + tail);
      { WordBreakRejoined(gap, x, g1, y, tail); }
      [x, y] + JoinHyphenated(gap, tail);
      {
        assert !IsSpace('-');
        assert '-' !in rest;
        assert tail[1..] == rest;
        JoinHyphenatedNoHyphen(gap, rest);
      }
      [x, y] + tail;
      [x, y, '-'] + g2 + [z];
    }
  }

  // ---------------------------------------------------------------------------
  // Step 8: runs of spaces and of blank lines
  // ---------------------------------------------------------------------------

  /** Number of leading ASCII spaces. */
  function SpaceCount(s: string): (n: nat)
    ensures n <= |s|
    ensures forall i :: 0 <= i < n ==> s[i] == ' '
    ensures n == |s| || s[n] != ' '
    decreases |s|
  {
    if |s| > 0 && s[0] == ' ' then 1 + SpaceCount(s[1..]) else 0
  }

  /** `re.sub(r' +', ' ', s)`: every run of spaces becomes one space. */
  function CollapseSpaces(s: string): (r: string)
    ensures |r| <= |s|
    ensures |s| > 0 ==> |r| > 0 && r[0] == s[0]
    decreases |s|
  {
    if |s| == 0 then ""
    else if s[0] == ' ' then " " + CollapseSpaces(s[SpaceCount(s)..])
    else [s[0]] + CollapseSpaces(s[1..])
  }

  /** No two spaces in a row. */
  predicate NoDoubleSpace(s: string) {
    forall i :: 0 <= i < |s| - 1 ==> !(s[i] == ' ' && s[i + 1] == ' ')
  }

  /** The collapsed text has no two spaces in a row. */
  lemma {:induction false} CollapseSpacesSingle(s: string)
    ensures NoDoubleSpace(CollapseSpaces(s))
    decreases |s|
  {
    if |s| > 0 {
      var r := CollapseSpaces(s);
      if s[0] == ' ' {
        var n := SpaceCount(s);
        var rest := CollapseSpaces(s[n..]);
        CollapseSpacesSingle(s[n..]);
        assert r == " " + rest;
        assert |rest| > 0 ==> rest[0] != ' ' by {
          if |rest| > 0 { assert rest[0] == s[n..][0]; }
        }
        forall i | 0 <= i < |r| - 1 ensures !(r[i] == ' ' && r[i + 1] == ' ') {
          if i > 0 { assert r[i] == rest[i - 1] && r[i + 1] == rest[i]; }
        }
      } else {
        var rest := CollapseSpaces(s[1..]);
        CollapseSpacesSingle(s[1..]);
        assert r == [s[0]] + rest;
        forall i | 0 <= i < |r| - 1 ensures !(r[i] == ' ' && r[i + 1] == ' ') {
          if i > 0 { assert r[i] == rest[i - 1] && r[i + 1] == rest[i]; }
        }
      }
    }
  }

  /** A text without two spaces in a row passes unchanged. */
  lemma {:induction false} CollapseSpacesNoop(s: string)
    requires NoDoubleSpace(s)
    ensures CollapseSpaces(s) == s
    decreases |s|
  {
    if |s| > 0 {
      assert NoDoubleSpace(s[1..]) by {
        forall i | 0 <= i < |s[1..]| - 1 ensures !(s[1..][i] == ' ' && s[1..][i + 1] == ' ') {
          assert s[1..][i] == s[i + 1] && s[1..][i + 1] == s[i + 2];
        }
      }
      CollapseSpacesNoop(s[1..]);
      if s[0] == ' ' {
        assert SpaceCount(s) == 1 by {
          if |s| > 1 { assert s[1..][0] == s[1]; }
        }
      }
      assert s == [s[0]] + s[1..];
    }
  }

  /** The pass changes the text exactly when it holds two spaces in a row. */
  lemma CollapseSpacesFixedPoint(s: string)
    ensures CollapseSpaces(s) == s <==> NoDoubleSpace(s)
  {
    if NoDoubleSpace(s) {
      CollapseSpacesNoop(s);
    } else {
      CollapseSpacesSingle(s);
    }
  }

  /** Only spaces go: the text without whitespace is unchanged. */
  lemma {:induction false} CollapseSpacesKeepsText(s: string)
    ensures Erase(CollapseSpaces(s), Whitespace) == Erase(s, Whitespace)
    decreases |s|
  {
    if |s| > 0 {
      if s[0] == ' ' {
        var n := SpaceCount(s);
        CollapseSpacesKeepsText(s[n..]);
        EraseAppend(" ", CollapseSpaces(s[n..]), Whitespace);
        assert s == s[..n] + s[n..];
        EraseAppend(s[..n], s[n..], Whitespace);
        EraseAllDropped(s[..n], Whitespace);
        EraseAllDropped(" ", Whitespace);
      } else {
        CollapseSpacesKeepsText(s[1..]);
        EraseAppend([s[0]], CollapseSpaces(s[1..]), Whitespace);
        assert s == [s[0]] + s[1..];
        EraseAppend([s[0]], s[1..], Whitespace);
      }
    }
  }

  /** Number of `\n` in `t`. */
  function NewlineCount(t: string): nat
    decreases |t|
  {
    if |t| == 0 then 0 else NewlineCount(t[..|t| - 1]) + (if t[|t| - 1] == '\n' then 1 else 0)
  }

  /** The length of `t` up to and including its last `\n` (0 without one). */
  function ThroughLastNewline(t: string): (n: nat)
    ensures n <= |t|
    ensures n > 0 ==> t[n - 1] == '\n'
    ensures NewlineCount(t) > 0 ==> n > 0
    ensures NewlineCount(t[..n]) == NewlineCount(t)
    decreases |t|
  {
    if |t| == 0 then 0
    else if t[|t| - 1] == '\n' then (assert t[..|t|] == t; |t|)
    else (assert t[..|t| - 1][..ThroughLastNewline(t[..|t| - 1])] == t[..ThroughLastNewline(t[..|t| - 1])];
          ThroughLastNewline(t[..|t| - 1]))
  }

  /**
    * Where `\n\s*\n\s*\n+` matches at the start of `s`: the greedy
    * whitespace settles so that the match is the whitespace run up to and
    * including its last `\n`, provided the run holds at least three.
    */
  function BlankLinesMatch(s: string): (r: Option<nat>)
    ensures r.Some? ==> 3 <= r.value <= |s|
  {
    if |s| > 0 && s[0] == '\n' then
      var run := s[..SpaceRun(s)];
      if NewlineCount(run) >= 3 then
        var n := ThroughLastNewline(run);
        assert n >= 3 by { NewlinesBound(run[..n]); }
        Some(n)
      else None
    else None
  }

  /** There are no more newlines than characters. */
  lemma {:induction false} NewlinesBound(t: string)
    ensures NewlineCount(t) <= |t|
    decreases |t|
  {
    if |t| > 0 {
      NewlinesBound(t[..|t| - 1]);
    }
  }

  /** `re.sub(r'\n\s*\n\s*\n+', '\n\n', s)`: three or more line breaks in one whitespace run become two. */
  function CollapseBlankLines(s: string): (r: string)
    ensures |r| <= |s|
    decreases |s|
  {
    if |s| == 0 then ""
    else match BlankLinesMatch(s)
      case Some(k) => "\n\n" + CollapseBlankLines(s[k..])
      case None => [s[0]] + CollapseBlankLines(s[1..])
  }

  /** A blank-lines match is whitespace only. */
  lemma BlankLinesMatchBlank(s: string)
    requires BlankLinesMatch(s).Some?
    ensures IsBlank(s[..BlankLinesMatch(s).value])
  {
    var k := BlankLinesMatch(s).value;
    var w := SpaceRun(s);
    SpaceRunIsMaximal(s);
    forall i | 0 <= i < k ensures IsSpace(s[..k][i]) {
      assert s[..k][i] == s[i];
    }
  }

  lemma BlankLinesKeepAfterMatch(s: string, k: nat)
    requires BlankLinesMatch(s) == Some(k)
    requires Erase(CollapseBlankLines(s[k..]), Whitespace) == Erase(s[k..], Whitespace)
    ensures Erase(CollapseBlankLines(s), Whitespace) == Erase(s, Whitespace)
  {
    assert CollapseBlankLines(s) == "\n\n" + CollapseBlankLines(s[k..]);
    EraseAppend("\n\n", CollapseBlankLines(s[k..]), Whitespace);
    EraseAllDropped("\n\n", Whitespace);
    BlankLinesMatchBlank(s);
    assert s == s[..k] + s[k..];
    EraseAppend(s[..k], s[k..], Whitespace);
    EraseAllDropped(s[..k], Whitespace);
  }

  lemma BlankLinesKeepAfterCopy(s: string)
    requires |s| > 0 && BlankLinesMatch(s).None?
    requires Erase(CollapseBlankLines(s[1..]), Whitespace) == Erase(s[1..], Whitespace)
    ensures Erase(CollapseBlankLines(s), Whitespace) == Erase(s, Whitespace)
  {
    CollapseAtCopy(s);
    EraseCons(s[0], CollapseBlankLines(s[1..]), s[1..], Whitespace);
    assert [s[0]] + s[1..] == s;
  }

  /** Where no blank-line run starts, the first character is copied. */
  lemma CollapseAtCopy(s: string)
    requires |s| > 0 && BlankLinesMatch(s).None?
    ensures CollapseBlankLines(s) == [s[0]] + CollapseBlankLines(s[1..])
  {
  }

  /** Only whitespace changes: the text without whitespace is unchanged. */
  lemma {:induction false} CollapseBlankLinesKeepsText(s: string)
    ensures Erase(CollapseBlankLines(s), Whitespace) == Erase(s, Whitespace)
    decreases |s|
  {
    if |s| > 0 {
      match BlankLinesMatch(s)
      case Some(k) =>
        CollapseBlankLinesKeepsText(s[k..]);
        BlankLinesKeepAfterMatch(s, k);
      case None =>
        CollapseBlankLinesKeepsText(s[1..]);
        BlankLinesKeepAfterCopy(s);
    }
  }

  /** Without a `\n` the pass copies its input. */
  lemma {:induction false} CollapseBlankLinesOneLine(s: string)
    requires '\n' !in s
    ensures CollapseBlankLines(s) == s
    decreases |s|
  {
    if |s| > 0 {
      CollapseBlankLinesOneLine(s[1..]);
      assert s == [s[0]] + s[1..];
    }
  }

  // ---------------------------------------------------------------------------
  // Step 9: typographic characters
  // ---------------------------------------------------------------------------

  /** The replacement table, in its iteration order. */
  const Typography: seq<(char, string)> := [
    ('\U{201C}', "\""),
    ('\U{201D}', "\""),
    ('\U{2018}', "'"),
    ('\U{2019}', "'"),
    ('\U{2013}', "-"),
    ('\U{2014}', "--"),
    ('\U{2026}', "...")
  ]

  /** `for old, new in table: text = text.replace(old, new)`. */
  function ReplaceEach(s: string, table: seq<(char, string)>): string
    decreases |table|
  {
    if |table| == 0 then s else ReplaceEach(Replace(s, [table[0].0], table[0].1), table[1..])
  }

  function SmartQuotes(s: string): string {
    ReplaceEach(s, Typography)
  }

  /** No replacement text holds a character the table replaces. */
  predicate Closed(table: seq<(char, string)>) {
    forall i, j :: 0 <= i < |table| && 0 <= j < |table| ==> table[i].0 !in table[j].1
  }

  lemma {:induction false} ReplaceEachKeepsAbsent(s: string, table: seq<(char, string)>, x: char)
    requires x !in s
    requires forall j :: 0 <= j < |table| ==> x !in table[j].1
    ensures x !in ReplaceEach(s, table)
    decreases |table|
  {
    if |table| > 0 {
      ReplaceCharKeepsAbsent(s, table[0].0, table[0].1, x);
      ReplaceEachKeepsAbsent(Replace(s, [table[0].0], table[0].1), table[1..], x);
    }
  }

  /** After a closed table, none of its characters is left. */
  lemma {:induction false} ReplaceEachRemoves(s: string, table: seq<(char, string)>)
    requires Closed(table)
    ensures forall i :: 0 <= i < |table| ==> table[i].0 !in ReplaceEach(s, table)
    decreases |table|
  {
    if |table| > 0 {
      var t := Replace(s, [table[0].0], table[0].1);
      ReplaceRemovesChar(s, table[0].0, table[0].1);
      ReplaceEachKeepsAbsent(t, table[1..], table[0].0);
      ReplaceEachRemoves(t, table[1..]);
    }
  }

  /** A text without the table's characters passes unchanged. */
  lemma {:induction false} ReplaceEachNoop(s: string, table: seq<(char, string)>)
    requires forall i :: 0 <= i < |table| ==> table[i].0 !in s
    ensures ReplaceEach(s, table) == s
    decreases |table|
  {
    if |table| > 0 {
      ReplaceAbsent(s, table[0].0, table[0].1);
      ReplaceEachNoop(s, table[1..]);
    }
  }

  lemma TypographyClosed()
    ensures Closed(Typography)
  {}

  /** Curly quotes, dashes and the ellipsis are all gone afterwards; a text without them is unchanged. */
  lemma SmartQuotesPlain(s: string)
    ensures forall i :: 0 <= i < |Typography| ==> Typography[i].0 !in SmartQuotes(s)
    ensures (forall i :: 0 <= i < |Typography| ==> Typography[i].0 !in s) ==> SmartQuotes(s) == s
  {
    TypographyClosed();
    ReplaceEachRemoves(s, Typography);
    if forall i :: 0 <= i < |Typography| ==> Typography[i].0 !in s {
      ReplaceEachNoop(s, Typography);
    }
  }

  // ---------------------------------------------------------------------------
  // Step 11: trailing whitespace and the final newline
  // ---------------------------------------------------------------------------

  function RStripEach(lines: seq<string>): (r: seq<string>)
    ensures |r| == |lines|
    ensures forall i :: 0 <= i < |r| ==> r[i] == RStrip(lines[i])
    decreases |lines|
  {
    if |lines| == 0 then [] else [RStrip(lines[0])] + RStripEach(lines[1..])
  }

  /** Every line right-stripped, and a final `\n` added to a non-empty text that lacks one. */
  function Finish(text: string): string {
    var t := Join(RStripEach(SplitOn(text, "\n")), "\n");
    if t != "" && !EndsWithChar(t, '\n') then t + "\n" else t
  }

  /** No trailing whitespace. */
  predicate RStripped(line: string) {
    line == [] || !IsSpace(line[|line| - 1])
  }

  /** The finished text is empty or ends with `\n`, and none of its lines ends with whitespace. */
  lemma FinishShape(text: string)
    ensures Finish(text) == "" || EndsWithChar(Finish(text), '\n')
    ensures forall i :: 0 <= i < |SplitOn(Finish(text), "\n")| ==> RStripped(SplitOn(Finish(text), "\n")[i])
  {
    var lines := SplitOn(text, "\n");
    var parts := RStripEach(lines);
    SplitPiecesFree(text, '\n');
    forall i | 0 <= i < |parts| ensures '\n' !in parts[i] {
      RStripDropsBlank(lines[i]);
      assert parts[i] == lines[i][..|parts[i]|];
    }
    forall i | 0 <= i < |parts| ensures RStripped(parts[i]) {
      assert parts[i] == RStrip(lines[i]);
    }
    var t := Join(parts, "\n");
    SplitJoin(parts, '\n');
    if t != "" && !EndsWithChar(t, '\n') {
      JoinAppendOne(parts, "", "\n");
      assert t + "\n" == Join(parts + [""], "\n");
      SplitJoin(parts + [""], '\n');
      assert forall i :: 0 <= i < |parts + [""]| ==> RStripped((parts + [""])[i]);
      AllRStripped(parts + [""], SplitOn(Finish(text), "\n"));
    } else {
      AllRStripped(parts, SplitOn(Finish(text), "\n"));
    }
  }

  lemma AllRStripped(parts: seq<string>, out: seq<string>)
    requires out == parts && forall i :: 0 <= i < |parts| ==> RStripped(parts[i])
    ensures forall i :: 0 <= i < |out| ==> RStripped(out[i])
  {
  }

  lemma {:induction false} EraseRStripEach(lines: seq<string>, cls: CharClass)
    ensures Erase(Concat(RStripEach(lines)), cls) == Erase(Concat(lines), cls)
    decreases |lines|
  {
    if |lines| > 0 {
      EraseRStripEach(lines[1..], cls);
      assert RStripEach(lines)[1..] == RStripEach(lines[1..]);
      EraseAppend(RStrip(lines[0]), Concat(RStripEach(lines[1..])), cls);
      EraseAppend(lines[0], Concat(lines[1..]), cls);
      EraseRStrip(lines[0], cls);
    }
  }

  /** Only whitespace changes: the text without whitespace is unchanged. */
  lemma FinishKeepsText(text: string)
    ensures Erase(Finish(text), Whitespace) == Erase(text, Whitespace)
  {
    var lines := SplitOn(text, "\n");
    var t := Join(RStripEach(lines), "\n");
    EraseJoin(RStripEach(lines), "\n", Whitespace);
    EraseRStripEach(lines, Whitespace);
    JoinSplit(text, "\n");
    EraseJoin(lines, "\n", Whitespace);
    EraseAppend(t, "\n", Whitespace);
    EraseAllDropped("\n", Whitespace);
  }

  // ---------------------------------------------------------------------------
  // The whole cleaner
  // ---------------------------------------------------------------------------

  /**
    * `clean_ocr_text`. The OCR-correction pass, whose rules are not part of
    * this model, is the parameter `correct`.
    */
  function CleanOcrText(text: string, correct: string -> string): string {
    var lines := DropStandaloneLines(NormaliseBreaks(text));
    var joined := JoinHyphenBreaks(correct(lines));
    var flowed := EnhancePunctuation(DetectParagraphBoundaries(SmartSentenceFlow(joined)));
    var t := SmartQuotes(CollapseBlankLines(CollapseSpaces(flowed)));
    var split := SplitOversizedParagraphs(t, 8);
    Finish(split.value)
  }

  /**
    * Whatever the corrections do, the cleaned text is empty or ends with one
    * `\n`, and no line of it ends with whitespace.
    */
  lemma CleanOcrTextShape(text: string, correct: string -> string)
    ensures var r := CleanOcrText(text, correct);
      (r == "" || EndsWithChar(r, '\n'))
      && forall i :: 0 <= i < |SplitOn(r, "\n")| ==> RStripped(SplitOn(r, "\n")[i])
  {
    var lines := DropStandaloneLines(NormaliseBreaks(text));
    var joined := JoinHyphenBreaks(correct(lines));
    var flowed := EnhancePunctuation(DetectParagraphBoundaries(SmartSentenceFlow(joined)));
    var t := SmartQuotes(CollapseBlankLines(CollapseSpaces(flowed)));
    FinishShape(SplitOversizedParagraphs(t, 8).value);
  }
}
