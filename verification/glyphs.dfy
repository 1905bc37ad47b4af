/**
  * `_fix_common_ocr_glitches`: literal glyph replacements followed by five
  * regular-expression passes, each a left-to-right scan that either rewrites
  * the match starting at the current position or copies one character.
  */
module Glyphs {
  import opened Base
  import opened Text

  // ---------------------------------------------------------------------------
  // Literal replacements
  // ---------------------------------------------------------------------------

  const LigatureFi: char := '\U{FB01}'
  const LigatureFl: char := '\U{FB02}'
  const EmDash: char := '\U{2014}'
  const EnDash: char := '\U{2013}'
  const NonBreakingHyphen: char := '\U{2011}'

  /** The replacement table applied with `str.replace`, in its order. */
  function ReplaceGlyphs(s: string): string {
    var s1 := Replace(s, [LigatureFi], "fi");
    var s2 := Replace(s1, [LigatureFl], "fl");
    var s3 := Replace(s2, [EmDash], [EmDash]);
    var s4 := Replace(s3, [EnDash], [EnDash]);
    var s5 := Replace(s4, [SoftHyphen], "");
    var s6 := Replace(s5, [NonBreakingHyphen], "-");
    Replace(s6, [Nbsp], " ")
  }

  /** Replacing a character by itself changes nothing. */
  lemma {:induction false} ReplaceSelf(s: string, c: char)
    ensures Replace(s, [c], [c]) == s
    decreases |s|
  {
    if |s| > 0 {
      ReplaceSelf(s[1..], c);
      assert [s[0]] + s[1..] == s;
    }
  }

  /** After the table no ligature, soft hyphen, non-breaking hyphen or no-break space is left. */
  lemma ReplaceGlyphsRemoves(s: string)
    ensures var r := ReplaceGlyphs(s);
            LigatureFi !in r && LigatureFl !in r && SoftHyphen !in r && NonBreakingHyphen !in r && Nbsp !in r
  {
    var s1 := Replace(s, [LigatureFi], "fi");
    var s2 := Replace(s1, [LigatureFl], "fl");
    var s3 := Replace(s2, [EmDash], [EmDash]);
    var s4 := Replace(s3, [EnDash], [EnDash]);
    var s5 := Replace(s4, [SoftHyphen], "");
    var s6 := Replace(s5, [NonBreakingHyphen], "-");
    ReplaceSelf(s2, EmDash);
    ReplaceSelf(s3, EnDash);
    ReplaceRemovesChar(s, LigatureFi, "fi");
    ReplaceCharKeepsAbsent(s1, LigatureFl, "fl", LigatureFi);
    ReplaceRemovesChar(s1, LigatureFl, "fl");
    ReplaceCharKeepsAbsent(s4, SoftHyphen, "", LigatureFi);
    ReplaceCharKeepsAbsent(s4, SoftHyphen, "", LigatureFl);
    ReplaceRemovesChar(s4, SoftHyphen, "");
    ReplaceCharKeepsAbsent(s5, NonBreakingHyphen, "-", LigatureFi);
    ReplaceCharKeepsAbsent(s5, NonBreakingHyphen, "-", LigatureFl);
    ReplaceCharKeepsAbsent(s5, NonBreakingHyphen, "-", SoftHyphen);
    ReplaceRemovesChar(s5, NonBreakingHyphen, "-");
    ReplaceCharKeepsAbsent(s6, Nbsp, " ", LigatureFi);
    ReplaceCharKeepsAbsent(s6, Nbsp, " ", LigatureFl);
    ReplaceCharKeepsAbsent(s6, Nbsp, " ", SoftHyphen);
    ReplaceCharKeepsAbsent(s6, Nbsp, " ", NonBreakingHyphen);
    ReplaceRemovesChar(s6, Nbsp, " ");
  }

  /** Every entry of the table has a one-character target, so the table acts on each character on its own. */
  lemma ReplaceGlyphsAppend(a: string, b: string)
    ensures ReplaceGlyphs(a + b) == ReplaceGlyphs(a) + ReplaceGlyphs(b)
  {
    var a1, b1 := Replace(a, [LigatureFi], "fi"), Replace(b, [LigatureFi], "fi");
    var a2, b2 := Replace(a1, [LigatureFl], "fl"), Replace(b1, [LigatureFl], "fl");
    var a3, b3 := Replace(a2, [EmDash], [EmDash]), Replace(b2, [EmDash], [EmDash]);
    var a4, b4 := Replace(a3, [EnDash], [EnDash]), Replace(b3, [EnDash], [EnDash]);
    var a5, b5 := Replace(a4, [SoftHyphen], ""), Replace(b4, [SoftHyphen], "");
    var a6, b6 := Replace(a5, [NonBreakingHyphen], "-"), Replace(b5, [NonBreakingHyphen], "-");
    ReplaceCharAppend(a, b, LigatureFi, "fi");
    ReplaceCharAppend(a1, b1, LigatureFl, "fl");
    ReplaceCharAppend(a2, b2, EmDash, [EmDash]);
    ReplaceCharAppend(a3, b3, EnDash, [EnDash]);
    ReplaceCharAppend(a4, b4, SoftHyphen, "");
    ReplaceCharAppend(a5, b5, NonBreakingHyphen, "-");
    ReplaceCharAppend(a6, b6, Nbsp, " ");
  }

  /** A whitespace or hyphen character becomes whitespace or hyphens, or disappears. */
  lemma ReplaceGlyphsOfClass(c: char)
    requires InClass(c, WhitespaceOrHyphen)
    ensures Erase(ReplaceGlyphs([c]), WhitespaceOrHyphen) == ""
  {
    ReplaceOneChar(c, LigatureFi, "fi");
    ReplaceOneChar(c, LigatureFl, "fl");
    ReplaceSelf([c], EmDash);
    ReplaceSelf([c], EnDash);
    ReplaceOneChar(c, SoftHyphen, "");
    if c == SoftHyphen {
      assert ReplaceGlyphs([c]) == "";
    } else {
      ReplaceOneChar(c, NonBreakingHyphen, "-");
      ReplaceOneChar(c, Nbsp, " ");
      assert ReplaceGlyphs([c]) == if c == Nbsp then " " else [c];
    }
  }

  /** Erasing after the table. */
  function GlyphContent(s: string): string {
    Erase(ReplaceGlyphs(s), WhitespaceOrHyphen)
  }

  lemma GlyphContentAppend(a: string, b: string)
    ensures GlyphContent(a + b) == GlyphContent(a) + GlyphContent(b)
  {
    ReplaceGlyphsAppend(a, b);
    EraseAppend(ReplaceGlyphs(a), ReplaceGlyphs(b), WhitespaceOrHyphen);
  }

  /** What erasing removes before the table does not matter after it. */
  lemma {:induction false} GlyphContentOfErase(s: string)
    ensures GlyphContent(s) == GlyphContent(Erase(s, WhitespaceOrHyphen))
    decreases |s|
  {
    if |s| > 0 {
      var c, t := s[0], s[1..];
      assert s == [c] + t;
      GlyphContentAppend([c], t);
      GlyphContentOfErase(t);
      if InClass(c, WhitespaceOrHyphen) {
        ReplaceGlyphsOfClass(c);
        assert GlyphContent(s) == GlyphContent(t);
        assert Erase(s, WhitespaceOrHyphen) == "" + Erase(t, WhitespaceOrHyphen) == Erase(t, WhitespaceOrHyphen);
      } else {
        assert Erase(s, WhitespaceOrHyphen) == [c] + Erase(t, WhitespaceOrHyphen);
        GlyphContentAppend([c], Erase(t, WhitespaceOrHyphen));
      }
    }
  }

  /** Two texts with the same content keep the same content through the table. */
  lemma GlyphContentRespectsErase(x: string, y: string)
    requires Erase(x, WhitespaceOrHyphen) == Erase(y, WhitespaceOrHyphen)
    ensures GlyphContent(x) == GlyphContent(y)
  {
    GlyphContentOfErase(x);
    GlyphContentOfErase(y);
  }

  // ---------------------------------------------------------------------------
  // `(\w)-\s+(\w)` -> `\1\2`
  // ---------------------------------------------------------------------------

  /** Where `(\w)-\s+(\w)` matches at the start of `s`: the position of the second word character. */
  function SpacedHyphenMatch(s: string): (r: Option<nat>)
    ensures r.Some? ==> 3 <= r.value < |s|
  {
    if |s| >= 3 && IsWord(s[0]) && s[1] == '-' then
      var k := 2 + SpaceRun(s[2..]);
      if k > 2 && k < |s| && IsWord(s[k]) then Some(k) else None
    else None
  }

  function JoinSpacedHyphens(s: string): (r: string)
    ensures |r| <= |s|
    decreases |s|
  {
    if |s| == 0 then ""
    else match SpacedHyphenMatch(s)
      case Some(k) => [s[0], s[k]] + JoinSpacedHyphens(s[k + 1..])
      case None => [s[0]] + JoinSpacedHyphens(s[1..])
  }

  lemma SpacedHyphenSpan(s: string)
    requires SpacedHyphenMatch(s).Some?
    ensures forall i :: 1 <= i < SpacedHyphenMatch(s).value ==> InClass(s[i], WhitespaceOrHyphen)
  {
    var k := SpacedHyphenMatch(s).value;
    SpaceRunIsMaximal(s[2..]);
    forall i | 2 <= i < k ensures IsSpace(s[i]) {
      assert s[2..][i - 2] == s[i];
    }
  }

  lemma JoinSpacedAtMatch(s: string, k: nat)
    requires SpacedHyphenMatch(s) == Some(k)
    ensures JoinSpacedHyphens(s) == [s[0], s[k]] + JoinSpacedHyphens(s[k + 1..])
  {
  }

  /** A match step keeps the content, given that the rest of the pass does. */
  lemma SpacedKeepsAfterMatch(s: string, k: nat)
    requires SpacedHyphenMatch(s) == Some(k)
    requires Erase(JoinSpacedHyphens(s[k + 1..]), WhitespaceOrHyphen) == Erase(s[k + 1..], WhitespaceOrHyphen)
    ensures Erase(JoinSpacedHyphens(s), WhitespaceOrHyphen) == Erase(s, WhitespaceOrHyphen)
  {
    var head := Erase([s[0], s[k]], WhitespaceOrHyphen);
    assert Erase(JoinSpacedHyphens(s), WhitespaceOrHyphen) == head + Erase(JoinSpacedHyphens(s[k + 1..]), WhitespaceOrHyphen) by {
      JoinSpacedAtMatch(s, k);
      EraseAppend([s[0], s[k]], JoinSpacedHyphens(s[k + 1..]), WhitespaceOrHyphen);
    }
    assert Erase(s, WhitespaceOrHyphen) == head + Erase(s[k + 1..], WhitespaceOrHyphen) by {
      SpacedHyphenSpan(s);
      EraseGap(s, k, WhitespaceOrHyphen);
    }
  }

  /** A copy step keeps the content, given that the rest of the pass does. */
  lemma SpacedKeepsAfterCopy(s: string)
    requires |s| > 0 && SpacedHyphenMatch(s).None?
    requires Erase(JoinSpacedHyphens(s[1..]), WhitespaceOrHyphen) == Erase(s[1..], WhitespaceOrHyphen)
    ensures Erase(JoinSpacedHyphens(s), WhitespaceOrHyphen) == Erase(s, WhitespaceOrHyphen)
  {
    assert JoinSpacedHyphens(s) == [s[0]] + JoinSpacedHyphens(s[1..]);
    EraseAppend([s[0]], JoinSpacedHyphens(s[1..]), WhitespaceOrHyphen);
    EraseAt(s, 0, WhitespaceOrHyphen);
    assert s[0..] == s;
  }

  /** The pass deletes only the hyphen and the whitespace after it. */
  lemma {:induction false} JoinSpacedHyphensKeepsContent(s: string)
    ensures Erase(JoinSpacedHyphens(s), WhitespaceOrHyphen) == Erase(s, WhitespaceOrHyphen)
    decreases |s|
  {
    if |s| > 0 {
      match SpacedHyphenMatch(s)
      case Some(k) =>
        JoinSpacedHyphensKeepsContent(s[k + 1..]);
        SpacedKeepsAfterMatch(s, k);
      case None =>
        JoinSpacedHyphensKeepsContent(s[1..]);
        SpacedKeepsAfterCopy(s);
    }
  }

  // ---------------------------------------------------------------------------
  // `(?<=\w)-\n(?=\w)` -> ``
  // ---------------------------------------------------------------------------

  /** The pass on `s`, where `before` is the character of the whole text just before `s`. */
  function DropLineHyphensAfter(before: Option<char>, s: string): (r: string)
    ensures |r| <= |s|
    decreases |s|
  {
    if |s| == 0 then ""
    else if before.Some? && IsWord(before.value) && |s| >= 3 && s[0] == '-' && s[1] == '\n' && IsWord(s[2]) then
      DropLineHyphensAfter(Some('\n'), s[2..])
    else [s[0]] + DropLineHyphensAfter(Some(s[0]), s[1..])
  }

  /** `re.sub(r"(?<=\w)-\n(?=\w)", "", s)`: the look-behind reads the original text. */
  function DropLineHyphens(s: string): string {
    DropLineHyphensAfter(None, s)
  }

  lemma {:induction false} DropLineHyphensAfterKeepsContent(before: Option<char>, s: string)
    ensures Erase(DropLineHyphensAfter(before, s), WhitespaceOrHyphen) == Erase(s, WhitespaceOrHyphen)
    decreases |s|
  {
    if |s| > 0 {
      if before.Some? && IsWord(before.value) && |s| >= 3 && s[0] == '-' && s[1] == '\n' && IsWord(s[2]) {
        DropLineHyphensAfterKeepsContent(Some('\n'), s[2..]);
        EraseSplice(s, 0, 2, WhitespaceOrHyphen);
        assert s[..0] == "";
      } else {
        DropLineHyphensAfterKeepsContent(Some(s[0]), s[1..]);
        EraseAppend([s[0]], DropLineHyphensAfter(Some(s[0]), s[1..]), WhitespaceOrHyphen);
      }
    }
  }

  lemma DropLineHyphensKeepsContent(s: string)
    ensures Erase(DropLineHyphens(s), WhitespaceOrHyphen) == Erase(s, WhitespaceOrHyphen)
  {
    DropLineHyphensAfterKeepsContent(None, s);
  }

  /** A hyphen at a line end between word characters goes, wherever it stands after a word character. */
  lemma LineHyphenDropped()
    ensures DropLineHyphens("ab-\nc") == "abc"
  {
    assert "ab-\nc"[1..] == "b-\nc";
    assert "b-\nc"[1..] == "-\nc";
    assert "-\nc"[2..] == "c";
    assert DropLineHyphensAfter(Some('\n'), "c") == "c";
  }

  // ---------------------------------------------------------------------------
  // `\s+([,.;:])` -> `\1`
  // ---------------------------------------------------------------------------

  predicate IsClosingPunct(c: char) {
    c == ',' || c == '.' || c == ';' || c == ':'
  }

  /** A whitespace run starting `s` is followed by a closing punctuation mark. */
  predicate SpaceBeforePunct(s: string) {
    var k := SpaceRun(s);
    0 < k < |s| && IsClosingPunct(s[k])
  }

  function TightenPunctuation(s: string): (r: string)
    ensures |r| <= |s|
    decreases |s|
  {
    if |s| == 0 then ""
    else if SpaceBeforePunct(s) then [s[SpaceRun(s)]] + TightenPunctuation(s[SpaceRun(s) + 1..])
    else [s[0]] + TightenPunctuation(s[1..])
  }

  lemma {:induction false} TightenPunctuationKeepsContent(s: string)
    ensures Erase(TightenPunctuation(s), WhitespaceOrHyphen) == Erase(s, WhitespaceOrHyphen)
    decreases |s|
  {
    if |s| > 0 {
      if SpaceBeforePunct(s) {
        var k := SpaceRun(s);
        TightenPunctuationKeepsContent(s[k + 1..]);
        SpaceRunIsMaximal(s);
        EraseSkip(s, 0, k, WhitespaceOrHyphen);
        assert s[..0] + s[k..] == s[k..];
        EraseAt(s, k, WhitespaceOrHyphen);
        EraseAppend([s[k]], TightenPunctuation(s[k + 1..]), WhitespaceOrHyphen);
      } else {
        TightenPunctuationKeepsContent(s[1..]);
        EraseAppend([s[0]], TightenPunctuation(s[1..]), WhitespaceOrHyphen);
      }
    }
  }

  /** No whitespace character is directly followed by a closing punctuation mark. */
  predicate NoSpaceBeforePunct(s: string)
    decreases |s|
  {
    |s| < 2 || (!(IsSpace(s[0]) && IsClosingPunct(s[1])) && NoSpaceBeforePunct(s[1..]))
  }

  /** The first character of the pass's output. */
  lemma TightenPunctuationHead(s: string)
    requires |s| > 0
    ensures |TightenPunctuation(s)| > 0
    ensures TightenPunctuation(s)[0] == if SpaceBeforePunct(s) then s[SpaceRun(s)] else s[0]
  {}

  /** Without a match at a whitespace character, none follows at the next one. */
  lemma NoMatchInsideRun(s: string)
    requires |s| >= 2 && IsSpace(s[0]) && !SpaceBeforePunct(s)
    ensures !SpaceBeforePunct(s[1..])
  {
    assert SpaceRun(s) == 1 + SpaceRun(s[1..]);
    if 0 < SpaceRun(s[1..]) < |s[1..]| {
      assert s[1..][SpaceRun(s[1..])] == s[SpaceRun(s)];
    }
  }

  /** After the pass, no whitespace stands directly before `,`, `.`, `;` or `:`. */
  lemma {:induction false} TightenPunctuationTight(s: string)
    ensures NoSpaceBeforePunct(TightenPunctuation(s))
    decreases |s|
  {
    if |s| > 0 {
      var r := TightenPunctuation(s);
      if SpaceBeforePunct(s) {
        var k := SpaceRun(s);
        var t := s[k + 1..];
        TightenPunctuationTight(t);
        assert r == [s[k]] + TightenPunctuation(t);
        assert r[1..] == TightenPunctuation(t);
      } else {
        TightenPunctuationTight(s[1..]);
        assert r == [s[0]] + TightenPunctuation(s[1..]);
        assert r[1..] == TightenPunctuation(s[1..]);
        if |s| >= 2 {
          TightenPunctuationHead(s[1..]);
          if IsSpace(s[0]) {
            NoMatchInsideRun(s);
            assert SpaceRun(s) == 1 + SpaceRun(s[1..]);
            if !IsSpace(s[1]) {
              assert SpaceRun(s) == 1;
            }
          }
        }
      }
    }
  }

  // ---------------------------------------------------------------------------
  // `([,;])([^\s])` -> `\1 \2` and `([.!?])([A-Z])` -> `\1 \2`
  // ---------------------------------------------------------------------------

  /** The two spacing passes: after a comma or semicolon, and after a sentence end. */
  datatype SpacingRule = AfterComma | AfterSentence

  predicate Opens(rule: SpacingRule, c: char) {
    match rule
    case AfterComma => c == ',' || c == ';'
    case AfterSentence => c == '.' || c == '!' || c == '?'
  }

  predicate Follows(rule: SpacingRule, c: char) {
    match rule
    case AfterComma => !IsSpace(c)
    case AfterSentence => IsUpper(c)
  }

  /** A space is inserted between an opening mark and the character that follows it. */
  function InsertSpaces(s: string, rule: SpacingRule): (r: string)
    ensures |r| >= |s|
    decreases |s|
  {
    if |s| == 0 then ""
    else if |s| >= 2 && Opens(rule, s[0]) && Follows(rule, s[1]) then [s[0], ' ', s[1]] + InsertSpaces(s[2..], rule)
    else [s[0]] + InsertSpaces(s[1..], rule)
  }

  lemma {:induction false} InsertSpacesKeepsContent(s: string, rule: SpacingRule)
    ensures Erase(InsertSpaces(s, rule), WhitespaceOrHyphen) == Erase(s, WhitespaceOrHyphen)
    decreases |s|
  {
    if |s| > 0 {
      if |s| >= 2 && Opens(rule, s[0]) && Follows(rule, s[1]) {
        InsertSpacesKeepsContent(s[2..], rule);
        EraseAppend([s[0], ' ', s[1]], InsertSpaces(s[2..], rule), WhitespaceOrHyphen);
        assert Erase([s[0], ' ', s[1]], WhitespaceOrHyphen) == Erase([s[0], s[1]], WhitespaceOrHyphen) by {
          EraseGap([s[0], ' ', s[1]], 2, WhitespaceOrHyphen);
          ErasePair(s[0], s[1], WhitespaceOrHyphen);
        }
        assert s == [s[0], s[1]] + s[2..];
        EraseAppend([s[0], s[1]], s[2..], WhitespaceOrHyphen);
      } else {
        InsertSpacesKeepsContent(s[1..], rule);
        EraseAppend([s[0]], InsertSpaces(s[1..], rule), WhitespaceOrHyphen);
      }
    }
  }

  /** No opening mark is directly followed by a character the rule would separate from it. */
  predicate Spaced(s: string, rule: SpacingRule)
    decreases |s|
  {
    |s| < 2 || (!(Opens(rule, s[0]) && Follows(rule, s[1])) && Spaced(s[1..], rule))
  }

  /** A character in front of a spaced text keeps it spaced unless it opens before the text's first character. */
  lemma SpacedCons(c: char, t: string, rule: SpacingRule)
    requires Spaced(t, rule)
    requires |t| == 0 || !(Opens(rule, c) && Follows(rule, t[0]))
    ensures Spaced([c] + t, rule)
  {
    assert ([c] + t)[1..] == t;
  }

  /** A pass keeps the first character in front. */
  lemma InsertSpacesHead(s: string, rule: SpacingRule)
    requires |s| > 0
    ensures |InsertSpaces(s, rule)| > 0 && InsertSpaces(s, rule)[0] == s[0]
  {}

  /** A sentence end, a space and a capital in front of a spaced text keep it spaced. */
  lemma SpacedAfterInsert(c0: char, c1: char, t: string)
    requires Opens(AfterSentence, c0) && Follows(AfterSentence, c1)
    requires Spaced(t, AfterSentence)
    ensures Spaced([c0, ' ', c1] + t, AfterSentence)
  {
    SpacedCons(c1, t, AfterSentence);
    SpacedCons(' ', [c1] + t, AfterSentence);
    SpacedCons(c0, [' '] + ([c1] + t), AfterSentence);
    assert [c0] + ([' '] + ([c1] + t)) == [c0, ' ', c1] + t;
  }

  /** After the sentence pass every sentence end is separated from a following capital. */
  lemma {:induction false} SentencesSpaced(s: string)
    ensures Spaced(InsertSpaces(s, AfterSentence), AfterSentence)
    decreases |s|
  {
    if |s| > 0 {
      if |s| >= 2 && Opens(AfterSentence, s[0]) && Follows(AfterSentence, s[1]) {
        SentencesSpaced(s[2..]);
        SpacedAfterInsert(s[0], s[1], InsertSpaces(s[2..], AfterSentence));
      } else {
        SentencesSpaced(s[1..]);
        if |s| >= 2 {
          InsertSpacesHead(s[1..], AfterSentence);
        }
        SpacedCons(s[0], InsertSpaces(s[1..], AfterSentence), AfterSentence);
      }
    }
  }

  /** The comma pass is a single scan: a comma it uses as the following character is not itself spaced. */
  lemma CommaPassIsSinglePass()
    ensures InsertSpaces(",,x", AfterComma) == ", ,x"
    ensures !Spaced(", ,x", AfterComma)
  {
    assert ",,x"[2..] == "x";
    assert InsertSpaces("x", AfterComma) == "x";
    assert ", ,x"[1..] == " ,x";
    assert " ,x"[1..] == ",x";
  }

  // ---------------------------------------------------------------------------
  // The whole function
  // ---------------------------------------------------------------------------

  /** `_fix_common_ocr_glitches`. */
  function FixGlitches(text: string): string {
    var t := ReplaceGlyphs(text);
    InsertSpaces(InsertSpaces(TightenPunctuation(DropLineHyphens(JoinSpacedHyphens(t))), AfterComma), AfterSentence)
  }

  /** Past the replacement table, the passes only remove or insert whitespace and hyphens. */
  lemma FixGlitchesKeepsContent(text: string)
    ensures Erase(FixGlitches(text), WhitespaceOrHyphen) == Erase(ReplaceGlyphs(text), WhitespaceOrHyphen)
  {
    var t := ReplaceGlyphs(text);
    var t2 := JoinSpacedHyphens(t);
    var t3 := DropLineHyphens(t2);
    var t4 := TightenPunctuation(t3);
    var t5 := InsertSpaces(t4, AfterComma);
    JoinSpacedHyphensKeepsContent(t);
    DropLineHyphensKeepsContent(t2);
    TightenPunctuationKeepsContent(t3);
    InsertSpacesKeepsContent(t4, AfterComma);
    InsertSpacesKeepsContent(t5, AfterSentence);
  }
}
