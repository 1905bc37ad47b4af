/**
  * `_prepare_lines`: repairs words hyphenated across line breaks and removes
  * soft hyphens between word characters, before the paragraph merge.
  *
  * Each `re.sub` is a left-to-right scan: at each position the pattern either
  * matches (the match is replaced and the scan resumes after it) or the
  * character is copied and the scan moves on by one.
  */
module Hyphenation {
  import opened Base
  import opened Text

  /**
    * Where `(\w)[\u00ad-]\s*\n\s*(\w)` matches at the start of `s`: the position of the
    * second word character. Both `\s*` are greedy over one whitespace run, so the
    * pattern matches exactly when that run holds a `\n` and a word character follows it.
    */
  function BreakMatch(s: string): (r: Option<nat>)
    ensures r.Some? ==> 3 <= r.value < |s|
  {
    if |s| >= 3 && IsWord(s[0]) && (s[1] == '-' || s[1] == SoftHyphen) then
      var k := 2 + SpaceRun(s[2..]);
      if k < |s| && IsWord(s[k]) && '\n' in s[2..k] then Some(k) else None
    else None
  }

  /** `re.sub(r"(\w)[\u00ad-]\s*\n\s*(\w)", r"\1\2", s)`. */
  function JoinBrokenWords(s: string): (r: string)
    ensures |r| <= |s|
    decreases |s|
  {
    if |s| == 0 then ""
    else match BreakMatch(s)
      case Some(k) => [s[0], s[k]] + JoinBrokenWords(s[k + 1..])
      case None => [s[0]] + JoinBrokenWords(s[1..])
  }

  /** `re.sub(r"(\w)\u00ad(\w)", r"\1\2", s)`. */
  function DropSoftHyphens(s: string): (r: string)
    ensures |r| <= |s|
    decreases |s|
  {
    if |s| == 0 then ""
    else if |s| >= 3 && IsWord(s[0]) && s[1] == SoftHyphen && IsWord(s[2]) then
      [s[0], s[2]] + DropSoftHyphens(s[3..])
    else [s[0]] + DropSoftHyphens(s[1..])
  }

  /** `_prepare_lines`. */
  function PrepareLines(lines: seq<string>): (r: seq<string>)
    ensures |r| >= 1
    ensures forall i :: 0 <= i < |r| ==> '\n' !in r[i]
  {
    var blob := DropSoftHyphens(JoinBrokenWords(Join(lines, "\n")));
    SplitPiecesFree(blob, '\n');
    SplitOn(blob, "\n")
  }

  // ---------------------------------------------------------------------------
  // Properties
  // ---------------------------------------------------------------------------

  /** What a break match removes lies between the two word characters and is all whitespace and hyphen. */
  lemma BreakMatchSpan(s: string)
    requires BreakMatch(s).Some?
    ensures forall i :: 1 <= i < BreakMatch(s).value ==> InClass(s[i], WhitespaceOrHyphen)
  {
    var k := BreakMatch(s).value;
    SpaceRunIsMaximal(s[2..]);
    forall i | 2 <= i < k ensures IsSpace(s[i]) {
      assert s[2..][i - 2] == s[i];
    }
  }

  /** Erasing a matched text leaves the erased pair of word characters, then the erased rest. */
  lemma BreakMatchErase(s: string, k: nat)
    requires BreakMatch(s) == Some(k)
    ensures Erase(s, WhitespaceOrHyphen) == Erase([s[0], s[k]], WhitespaceOrHyphen) + Erase(s[k + 1..], WhitespaceOrHyphen)
  {
    BreakMatchSpan(s);
    EraseGap(s, k, WhitespaceOrHyphen);
  }

  lemma JoinBrokenWordsAtBreak(s: string, k: nat)
    requires BreakMatch(s) == Some(k)
    ensures JoinBrokenWords(s) == [s[0], s[k]] + JoinBrokenWords(s[k + 1..])
  {}

  lemma KeepsContentAfterBreak(s: string, k: nat)
    requires BreakMatch(s) == Some(k)
    requires Erase(JoinBrokenWords(s[k + 1..]), WhitespaceOrHyphen) == Erase(s[k + 1..], WhitespaceOrHyphen)
    ensures Erase(JoinBrokenWords(s), WhitespaceOrHyphen) == Erase(s, WhitespaceOrHyphen)
  {
    JoinBrokenWordsAtBreak(s, k);
    BreakMatchErase(s, k);
    EraseAppend([s[0], s[k]], JoinBrokenWords(s[k + 1..]), WhitespaceOrHyphen);
  }

  lemma KeepsContentAfterCopy(s: string)
    requires |s| > 0 && BreakMatch(s).None?
    requires Erase(JoinBrokenWords(s[1..]), WhitespaceOrHyphen) == Erase(s[1..], WhitespaceOrHyphen)
    ensures Erase(JoinBrokenWords(s), WhitespaceOrHyphen) == Erase(s, WhitespaceOrHyphen)
  {
    assert JoinBrokenWords(s) == [s[0]] + JoinBrokenWords(s[1..]);
    EraseAppend([s[0]], JoinBrokenWords(s[1..]), WhitespaceOrHyphen);
  }

  /** The break repair deletes only whitespace and hyphens: every other character stays, in order. */
  lemma {:induction false} JoinBrokenWordsKeepsContent(s: string)
    ensures Erase(JoinBrokenWords(s), WhitespaceOrHyphen) == Erase(s, WhitespaceOrHyphen)
    decreases |s|
  {
    if |s| > 0 {
      match BreakMatch(s)
      case Some(k) =>
        JoinBrokenWordsKeepsContent(s[k + 1..]);
        KeepsContentAfterBreak(s, k);
      case None =>
        JoinBrokenWordsKeepsContent(s[1..]);
        KeepsContentAfterCopy(s);
    }
  }

  /** Erasing a soft hyphen between two characters. */
  lemma SoftHyphenErase(s: string)
    requires |s| >= 3 && s[1] == SoftHyphen
    ensures Erase(s, WhitespaceOrHyphen) == Erase([s[0], s[2]], WhitespaceOrHyphen) + Erase(s[3..], WhitespaceOrHyphen)
  {
    EraseGap(s, 2, WhitespaceOrHyphen);
  }

  /** The soft-hyphen pass deletes only soft hyphens. */
  lemma {:induction false} DropSoftHyphensKeepsContent(s: string)
    ensures Erase(DropSoftHyphens(s), WhitespaceOrHyphen) == Erase(s, WhitespaceOrHyphen)
    decreases |s|
  {
    if |s| > 0 {
      if |s| >= 3 && IsWord(s[0]) && s[1] == SoftHyphen && IsWord(s[2]) {
        DropSoftHyphensKeepsContent(s[3..]);
        SoftHyphenErase(s);
        EraseAppend([s[0], s[2]], DropSoftHyphens(s[3..]), WhitespaceOrHyphen);
      } else {
        DropSoftHyphensKeepsContent(s[1..]);
        EraseAppend([s[0]], DropSoftHyphens(s[1..]), WhitespaceOrHyphen);
      }
    }
  }

  /** Preparing lines keeps every character but whitespace and hyphens, in order. */
  lemma PrepareLinesKeepsContent(lines: seq<string>)
    ensures Erase(Concat(PrepareLines(lines)), WhitespaceOrHyphen) == Erase(Concat(lines), WhitespaceOrHyphen)
  {
    var joined := Join(lines, "\n");
    var blob := DropSoftHyphens(JoinBrokenWords(joined));
    JoinSplit(blob, "\n");
    EraseJoin(SplitOn(blob, "\n"), "\n", WhitespaceOrHyphen);
    DropSoftHyphensKeepsContent(JoinBrokenWords(joined));
    JoinBrokenWordsKeepsContent(joined);
    EraseJoin(lines, "\n", WhitespaceOrHyphen);
  }

  /** Without hyphen characters the break pass copies its input. */
  lemma {:induction false} JoinBrokenWordsNoHyphen(s: string)
    requires '-' !in s && SoftHyphen !in s
    ensures JoinBrokenWords(s) == s
    decreases |s|
  {
    if |s| > 0 {
      JoinBrokenWordsNoHyphen(s[1..]);
      assert s == [s[0]] + s[1..];
    }
  }

  /** Without soft hyphens the soft-hyphen pass copies its input. */
  lemma {:induction false} DropSoftHyphensNoSoftHyphen(s: string)
    requires SoftHyphen !in s
    ensures DropSoftHyphens(s) == s
    decreases |s|
  {
    if |s| > 0 {
      DropSoftHyphensNoSoftHyphen(s[1..]);
      assert s == [s[0]] + s[1..];
    }
  }

  lemma {:induction false} JoinFree(parts: seq<string>, sep: string, c: char)
    requires c !in sep
    requires forall i :: 0 <= i < |parts| ==> c !in parts[i]
    ensures c !in Join(parts, sep)
    decreases |parts|
  {
    if |parts| > 1 {
      JoinFree(parts[1..], sep, c);
    }
  }

  /** Lines without hyphens or line breaks come back unchanged. */
  lemma PrepareLinesNoop(lines: seq<string>)
    requires |lines| >= 1
    requires forall i :: 0 <= i < |lines| ==> '\n' !in lines[i] && '-' !in lines[i] && SoftHyphen !in lines[i]
    ensures PrepareLines(lines) == lines
  {
    var joined := Join(lines, "\n");
    JoinFree(lines, "\n", '-');
    JoinFree(lines, "\n", SoftHyphen);
    JoinBrokenWordsNoHyphen(joined);
    DropSoftHyphensNoSoftHyphen(joined);
    SplitJoin(lines, '\n');
  }

  /** `_prepare_lines([])` is `[""]`: an empty page still yields one (blank) line. */
  lemma PrepareNoLines()
    ensures PrepareLines([]) == [""]
  {}

  /** A word broken by a hyphen at a line end is rejoined and the two lines become one. */
  lemma HyphenatedWordRejoined()
    ensures JoinBrokenWords("ex-\nam") == "exam"
  {
    var s := "ex-\nam";
    assert s[1..] == "x-\nam";
    assert s[2..] == "-\nam";
    assert "x-\nam"[2..] == "\nam";
    assert "\nam"[1..] == "am";
    assert SpaceRun("am") == 0;
    assert SpaceRun("\nam") == 1;
    assert BreakMatch(s) == None;
    assert BreakMatch("x-\nam") == Some(3);
    assert "x-\nam"[4..] == "m";
    assert JoinBrokenWords("m") == "m";
  }

  /** One pass only: a word hyphenated over three lines keeps its second break. */
  lemma BreaksRepairedOnce()
    ensures JoinBrokenWords("a-\nb-\nc") == "ab-\nc"
  {
    var s := "a-\nb-\nc";
    assert s[2..] == "\nb-\nc";
    assert "\nb-\nc"[1..] == "b-\nc";
    assert SpaceRun("b-\nc") == 0;
    assert SpaceRun("\nb-\nc") == 1;
    assert s[2..3] == "\n";
    assert BreakMatch(s) == Some(3);
    JoinBrokenWordsAtBreak(s, 3);
    assert s[4..] == "-\nc";
    assert BreakMatch("-\nc") == None;
    assert "-\nc"[1..] == "\nc";
    assert BreakMatch("\nc") == None;
    assert "\nc"[1..] == "c";
    assert JoinBrokenWords("c") == "c";
  }
}
