/**
  * `enhance_punctuation_and_capitalization` of the legacy cleaner: four
  * `re.sub` passes over the whole text, each a left-to-right scan that
  * replaces a match and resumes after it, or copies one character and moves on.
  *
  *   1. `([.!?]\s+)([a-z])`: upper-case a letter after a stop and whitespace;
  *   2. `(^|\n\n)([a-z])` with `re.MULTILINE`: upper-case a letter opening a line;
  *   3. `\s+([.!?,:;])` to `\1`: drop whitespace before punctuation;
  *   4. `([.!?])([A-Z])` to `\1 \2`: put a space between a stop and a capital.
  */
module LegacyPunctuation {
  import opened Text
  import opened LegacyLines

  /** `str.upper` on an ASCII lower-case letter; every other character is kept. */
  function UpperChar(c: char): (r: char)
    ensures IsLower(c) ==> IsUpper(r) && LowerChar(r) == c
    ensures !IsLower(c) ==> r == c
  {
    if IsLower(c) then (c as int - 32) as char else c
  }

  /** `r` is `s` with some lower-case letters, and nothing else, upper-cased. */
  predicate CaseRaised(s: string, r: string) {
    |r| == |s| && forall i :: 0 <= i < |s| ==> r[i] == s[i] || (IsLower(s[i]) && r[i] == UpperChar(s[i]))
  }

  // ---------------------------------------------------------------------------
  // Pass 1: a capital after a stop
  // ---------------------------------------------------------------------------

  /**
    * `re.sub(r'([.!?]\s+)([a-z])', ...)`. The whitespace run cannot give
    * characters back (a letter is no whitespace), so it is taken whole.
    */
  function CapitaliseSentences(s: string): (r: string)
    ensures CaseRaised(s, r)
    decreases |s|
  {
    if |s| == 0 then ""
    else
      var rest := CapitaliseSentences(s[SentenceMatch(s) + 1..]);
      StepRaises(s, rest);
      SentenceStep(s) + rest
  }

  /** At `i` stands a stop, then whitespace, then a lower-case letter. */
  predicate LowerAfterStop(s: string, i: nat)
    requires i < |s|
  {
    SentenceStop(s[i]) &&
    var n := SpaceRun(s[i + 1..]);
    n > 0 && i + 1 + n < |s| && IsLower(s[i + 1 + n])
  }

  /** What precedes position `i` ends in a stop followed by at least one whitespace character. */
  predicate FollowsStop(s: string, i: nat)
    requires i <= |s|
  {
    i > 0 && IsSpace(s[i - 1]) &&
    var t := RStrip(s[..i]);
    |t| > 0 && SentenceStop(t[|t| - 1])
  }

  /** Two strings with whitespace in the same places have leading whitespace runs of one length. */
  lemma {:induction false} SpaceRunShape(x: string, y: string)
    requires |x| == |y|
    requires forall k :: 0 <= k < |x| ==> (IsSpace(x[k]) <==> IsSpace(y[k]))
    ensures SpaceRun(x) == SpaceRun(y)
    decreases |x|
  {
    if |x| > 0 {
      SpaceRunShape(x[1..], y[1..]);
    }
  }

  lemma CaseRaisedShape(s: string, r: string, i: nat)
    requires CaseRaised(s, r) && i <= |s|
    ensures SpaceRun(r[i..]) == SpaceRun(s[i..])
  {
    SpaceRunShape(r[i..], s[i..]);
  }

  lemma LowerAfterStopShift(a: string, b: string, j: nat)
    requires j < |b|
    ensures LowerAfterStop(a + b, |a| + j) == LowerAfterStop(b, j)
  {
    assert (a + b)[|a| + j + 1..] == b[j + 1..];
  }

  /** Where the first pass matches at the start of `s`: the position of the letter it raises. */
  function SentenceMatch(s: string): (k: nat)
    ensures k == 0 || (2 <= k < |s| && IsLower(s[k]))
  {
    if |s| == 0 then 0
    else
      var n := SpaceRun(s[1..]);
      if SentenceStop(s[0]) && n > 0 && 1 + n < |s| && IsLower(s[1 + n]) then 1 + n else 0
  }

  /** What one step of the first pass emits: the match with its letter raised, or one character. */
  function SentenceStep(s: string): (r: string)
    requires |s| > 0
    ensures |r| == SentenceMatch(s) + 1
  {
    var m := SentenceMatch(s);
    if m > 0 then s[..m] + [UpperChar(s[m])] else [s[0]]
  }

  /** A step followed by a raised rest raises the whole text. */
  lemma StepRaises(s: string, rest: string)
    requires |s| > 0
    requires CaseRaised(s[SentenceMatch(s) + 1..], rest)
    ensures CaseRaised(s, SentenceStep(s) + rest)
  {
    var k := SentenceMatch(s) + 1;
    var a := SentenceStep(s);
    forall i | 0 <= i < |s| ensures (a + rest)[i] == s[i] || (IsLower(s[i]) && (a + rest)[i] == UpperChar(s[i])) {
      if i >= k {
        assert (a + rest)[i] == rest[i - k] && s[i] == s[k..][i - k];
      } else {
        assert (a + rest)[i] == a[i];
      }
    }
  }

  lemma CapitaliseSentencesUnfold(s: string)
    requires |s| > 0
    ensures CapitaliseSentences(s) == SentenceStep(s) + CapitaliseSentences(s[SentenceMatch(s) + 1..])
  {}

  /** One position of `step + rest`, where `step` is the first step of the first pass over `s`. */
  lemma CompleteAt(s: string, rest: string, i: nat)
    requires |s| > 0 && i < |s|
    requires CaseRaised(s, SentenceStep(s) + rest)
    requires forall j :: 0 <= j < |rest| ==> !LowerAfterStop(rest, j)
    ensures !LowerAfterStop(SentenceStep(s) + rest, i)
  {
    var a := SentenceStep(s);
    var r := a + rest;
    var m := SentenceMatch(s);
    if i > m {
      LowerAfterStopShift(a, rest, i - (m + 1));
    } else if i == 0 {
      CaseRaisedShape(s, r, 1);
      if m > 0 {
        assert r[m] == a[m];
      }
    } else {
      SpaceRunIsMaximal(s[1..]);
      assert r[i] == a[i];
      assert s[i] == s[1..][i - 1];
    }
  }

  /** After the first pass no lower-case letter follows a stop and whitespace. */
  lemma {:induction false} CapitaliseSentencesComplete(s: string)
    ensures forall i :: 0 <= i < |s| ==> !LowerAfterStop(CapitaliseSentences(s), i)
    decreases |s|
  {
    if |s| > 0 {
      var k := SentenceMatch(s) + 1;
      CapitaliseSentencesComplete(s[k..]);
      CapitaliseSentencesUnfold(s);
      forall i | 0 <= i < |s| ensures !LowerAfterStop(CapitaliseSentences(s), i) {
        CompleteAt(s, CapitaliseSentences(s[k..]), i);
      }
    }
  }

  /** Right-stripping ignores a prefix when something non-blank follows it. */
  lemma {:induction false} RStripAfterPrefix(a: string, c: string)
    requires RStrip(c) != ""
    ensures RStrip(a + c) == a + RStrip(c)
    decreases |c|
  {
    if IsSpace(c[|c| - 1]) {
      assert (a + c)[..|a + c| - 1] == a + c[..|c| - 1];
      RStripAfterPrefix(a, c[..|c| - 1]);
    }
  }

  lemma FollowsStopShift(a: string, b: string, j: nat)
    requires j <= |b| && FollowsStop(b, j)
    ensures FollowsStop(a + b, |a| + j)
  {
    assert (a + b)[..|a| + j] == a + b[..j];
    RStripAfterPrefix(a, b[..j]);
  }

  /** The letter the first pass raises at the start of `s` follows a stop and whitespace. */
  lemma MatchFollowsStop(s: string)
    requires SentenceMatch(s) > 0
    ensures FollowsStop(s, SentenceMatch(s))
  {
    var n := SpaceRun(s[1..]);
    SpaceRunIsMaximal(s[1..]);
    var w := s[1..1 + n];
    assert IsBlank(w) by {
      forall k | 0 <= k < |w| ensures IsSpace(w[k]) {
        assert w[k] == s[1..][k];
      }
    }
    assert s[..1 + n] == [s[0]] + w;
    RStripAppendBlank([s[0]], w);
    assert s[n] == s[1..][n - 1];
  }

  /** One position of `step + rest`, where `step` is the first step of the first pass over `s`. */
  lemma SoundAt(s: string, rest: string, i: nat)
    requires |s| > 0 && i < |s|
    requires |rest| == |s| - (SentenceMatch(s) + 1)
    requires forall j :: 0 <= j < |rest| && rest[j] != s[SentenceMatch(s) + 1..][j] ==> FollowsStop(s[SentenceMatch(s) + 1..], j)
    requires (SentenceStep(s) + rest)[i] != s[i]
    ensures FollowsStop(s, i)
  {
    var a := SentenceStep(s);
    var r := a + rest;
    var m := SentenceMatch(s);
    var k := m + 1;
    if i >= k {
      assert r[i] == rest[i - k];
      assert s[i] == s[k..][i - k];
      assert s == s[..k] + s[k..];
      FollowsStopShift(s[..k], s[k..], i - k);
    } else if m > 0 && i == m {
      MatchFollowsStop(s);
    }
  }

  /** The first pass changes only letters that follow a stop and whitespace. */
  lemma {:induction false} CapitaliseSentencesSound(s: string)
    ensures forall i :: 0 <= i < |s| && CapitaliseSentences(s)[i] != s[i] ==> FollowsStop(s, i)
    decreases |s|
  {
    if |s| > 0 {
      var k := SentenceMatch(s) + 1;
      CapitaliseSentencesSound(s[k..]);
      CapitaliseSentencesUnfold(s);
      forall i | 0 <= i < |s| && CapitaliseSentences(s)[i] != s[i] ensures FollowsStop(s, i) {
        SoundAt(s, CapitaliseSentences(s[k..]), i);
      }
    }
  }

  // ---------------------------------------------------------------------------
  // Pass 2: a capital opening a line
  // ---------------------------------------------------------------------------

  /** `^` under `re.MULTILINE`: the start of the text or just after a `\n`. */
  predicate LineStart(atStart: bool, s: string, i: nat)
    requires i < |s|
  {
    if i == 0 then atStart else s[i - 1] == '\n'
  }

  /**
    * `re.sub(r'(^|\n\n)([a-z])', ..., flags=re.MULTILINE)` on `s`, where
    * `atStart` says whether `^` holds at the start of `s`. Every lower-case
    * letter that opens a line is upper-cased; the `\n\n` alternative only
    * ever matches where `^` would have matched too.
    */
  function CapitaliseLines(atStart: bool, s: string): (r: string)
    ensures RaisedAtLineStarts(atStart, s, r)
    decreases |s|
  {
    if |s| == 0 then ""
    else if atStart && IsLower(s[0]) then
      var rest := CapitaliseLines(false, s[1..]);
      LinesStep(atStart, s, 1, [UpperChar(s[0])], rest);
      [UpperChar(s[0])] + rest
    else if |s| > 2 && s[0] == '\n' && s[1] == '\n' && IsLower(s[2]) then
      var rest := CapitaliseLines(false, s[3..]);
      LinesStep(atStart, s, 3, "\n\n" + [UpperChar(s[2])], rest);
      "\n\n" + [UpperChar(s[2])] + rest
    else
      var rest := CapitaliseLines(s[0] == '\n', s[1..]);
      LinesStep(atStart, s, 1, [s[0]], rest);
      [s[0]] + rest
  }

  /** What the second pass leaves at position `i` of `s`. */
  function LineCased(atStart: bool, s: string, i: nat): char
    requires i < |s|
  {
    if IsLower(s[i]) && LineStart(atStart, s, i) then UpperChar(s[i]) else s[i]
  }

  /** `r` is `s` with exactly the lower-case letters that open a line upper-cased. */
  predicate RaisedAtLineStarts(atStart: bool, s: string, r: string) {
    |r| == |s| && forall i :: 0 <= i < |s| ==> r[i] == LineCased(atStart, s, i)
  }

  /** A correct head of `k` characters followed by a correct rest is correct. */
  lemma LinesStep(atStart: bool, s: string, k: nat, head: string, rest: string)
    requires 0 < k <= |s| && |head| == k
    requires forall i :: 0 <= i < k ==> head[i] == LineCased(atStart, s, i)
    requires RaisedAtLineStarts(s[k - 1] == '\n', s[k..], rest)
    ensures RaisedAtLineStarts(atStart, s, head + rest)
  {
    forall i | k <= i < |s| ensures (head + rest)[i] == LineCased(atStart, s, i) {
      assert s[k..][i - k] == s[i];
      if i > k { assert s[k..][i - k - 1] == s[i - 1]; }
    }
  }

  lemma CapitaliseLinesRaises(atStart: bool, s: string)
    ensures CaseRaised(s, CapitaliseLines(atStart, s))
  {}

  // ---------------------------------------------------------------------------
  // Pass 3: no whitespace before punctuation
  // ---------------------------------------------------------------------------

  /** `[.!?,:;]`. */
  predicate Punctuation(c: char) {
    SentenceStop(c) || c == ',' || c == ':' || c == ';'
  }

  /** No whitespace character stands directly before a punctuation mark. */
  predicate TightPunctuation(s: string) {
    forall i :: 0 < i < |s| && Punctuation(s[i]) ==> !IsSpace(s[i - 1])
  }

  /** `re.sub(r'\s+([.!?,:;])', r'\1', s)`: the whitespace run is taken whole or not at all. */
  function TightenPunctuation(s: string): (r: string)
    ensures |r| <= |s|
    ensures |r| > 0 && Punctuation(r[0]) ==> SpaceRun(s) < |s| && Punctuation(s[SpaceRun(s)])
    decreases |s|
  {
    if |s| == 0 then ""
    else
      var n := SpaceRun(s);
      if n > 0 && n < |s| && Punctuation(s[n]) then [s[n]] + TightenPunctuation(s[n + 1..])
      else [s[0]] + TightenPunctuation(s[1..])
  }

  /** After the third pass no whitespace precedes punctuation. */
  lemma {:induction false} TightenPunctuationTight(s: string)
    ensures TightPunctuation(TightenPunctuation(s))
    decreases |s|
  {
    if |s| > 0 {
      var r := TightenPunctuation(s);
      var n := SpaceRun(s);
      if n > 0 && n < |s| && Punctuation(s[n]) {
        TightenPunctuationTight(s[n + 1..]);
        var rest := TightenPunctuation(s[n + 1..]);
        assert r == [s[n]] + rest;
        SpaceRunIsMaximal(s);
        forall i | 0 < i < |r| && Punctuation(r[i]) ensures !IsSpace(r[i - 1]) {
          assert r[i] == rest[i - 1];
          if i > 1 { assert r[i - 1] == rest[i - 2]; }
        }
      } else {
        TightenPunctuationTight(s[1..]);
        var rest := TightenPunctuation(s[1..]);
        assert r == [s[0]] + rest;
        forall i | 0 < i < |r| && Punctuation(r[i]) ensures !IsSpace(r[i - 1]) {
          assert r[i] == rest[i - 1];
          if i > 1 {
            assert r[i - 1] == rest[i - 2];
          }
        }
      }
    }
  }

  lemma TightenKeepsAtMatch(s: string)
    requires SpaceRun(s) > 0 && SpaceRun(s) < |s| && Punctuation(s[SpaceRun(s)])
    requires Erase(TightenPunctuation(s[SpaceRun(s) + 1..]), Whitespace) == Erase(s[SpaceRun(s) + 1..], Whitespace)
    ensures Erase(TightenPunctuation(s), Whitespace) == Erase(s, Whitespace)
  {
    var n := SpaceRun(s);
    var rest := TightenPunctuation(s[n + 1..]);
    assert TightenPunctuation(s) == [s[n]] + rest;
    SpaceRunIsMaximal(s);
    EraseSplice(s, 0, n, Whitespace);
    assert s[..0] == [];
    EraseAt(s, n, Whitespace);
    EraseAppend([s[n]], rest, Whitespace);
  }

  lemma TightenKeepsAtCopy(s: string)
    requires |s| > 0 && !(SpaceRun(s) > 0 && SpaceRun(s) < |s| && Punctuation(s[SpaceRun(s)]))
    requires Erase(TightenPunctuation(s[1..]), Whitespace) == Erase(s[1..], Whitespace)
    ensures Erase(TightenPunctuation(s), Whitespace) == Erase(s, Whitespace)
  {
    var rest := TightenPunctuation(s[1..]);
    assert TightenPunctuation(s) == [s[0]] + rest;
    EraseAppend([s[0]], rest, Whitespace);
    EraseAt(s, 0, Whitespace);
  }

  /** The third pass deletes only whitespace: every other character stays, in order. */
  lemma {:induction false} TightenPunctuationKeepsText(s: string)
    ensures Erase(TightenPunctuation(s), Whitespace) == Erase(s, Whitespace)
    decreases |s|
  {
    if |s| > 0 {
      var n := SpaceRun(s);
      if n > 0 && n < |s| && Punctuation(s[n]) {
        TightenPunctuationKeepsText(s[n + 1..]);
        TightenKeepsAtMatch(s);
      } else {
        TightenPunctuationKeepsText(s[1..]);
        TightenKeepsAtCopy(s);
      }
    }
  }

  /** Text that is already tight is left alone. */
  lemma {:induction false} TightenPunctuationNoop(s: string)
    requires TightPunctuation(s)
    ensures TightenPunctuation(s) == s
    decreases |s|
  {
    if |s| > 0 {
      var n := SpaceRun(s);
      SpaceRunIsMaximal(s);
      if n > 0 {
        assert IsSpace(s[n - 1]);
      }
      assert !(n > 0 && n < |s| && Punctuation(s[n]));
      assert TightPunctuation(s[1..]) by {
        forall i | 0 < i < |s[1..]| && Punctuation(s[1..][i]) ensures !IsSpace(s[1..][i - 1]) {
          assert s[1..][i] == s[i + 1];
        }
      }
      TightenPunctuationNoop(s[1..]);
      assert [s[0]] + s[1..] == s;
    }
  }

  // ---------------------------------------------------------------------------
  // Pass 4: a space between a stop and a capital
  // ---------------------------------------------------------------------------

  /** No stop is directly followed by a capital letter. */
  predicate SpacedStops(s: string) {
    forall i :: 0 <= i < |s| - 1 && SentenceStop(s[i]) ==> !IsUpper(s[i + 1])
  }

  /** `re.sub(r'([.!?])([A-Z])', r'\1 \2', s)`. */
  function SpaceAfterStops(s: string): (r: string)
    ensures |r| >= |s|
    ensures |s| > 0 ==> r[0] == s[0]
    decreases |s|
  {
    if |s| == 0 then ""
    else if |s| >= 2 && SentenceStop(s[0]) && IsUpper(s[1]) then [s[0], ' ', s[1]] + SpaceAfterStops(s[2..])
    else [s[0]] + SpaceAfterStops(s[1..])
  }

  /** After the fourth pass every stop before a capital is followed by a space. */
  lemma {:induction false} SpaceAfterStopsSpaced(s: string)
    ensures SpacedStops(SpaceAfterStops(s))
    decreases |s|
  {
    if |s| > 0 {
      var r := SpaceAfterStops(s);
      if |s| >= 2 && SentenceStop(s[0]) && IsUpper(s[1]) {
        SpaceAfterStopsSpaced(s[2..]);
        var rest := SpaceAfterStops(s[2..]);
        assert r == [s[0], ' ', s[1]] + rest;
        forall i | 0 <= i < |r| - 1 && SentenceStop(r[i]) ensures !IsUpper(r[i + 1]) {
          if i >= 3 { assert r[i] == rest[i - 3] && r[i + 1] == rest[i - 2]; }
        }
      } else {
        SpaceAfterStopsSpaced(s[1..]);
        var rest := SpaceAfterStops(s[1..]);
        assert r == [s[0]] + rest;
        forall i | 0 <= i < |r| - 1 && SentenceStop(r[i]) ensures !IsUpper(r[i + 1]) {
          if i >= 1 { assert r[i] == rest[i - 1] && r[i + 1] == rest[i]; }
        }
      }
    }
  }

  /** The fourth pass only inserts spaces. */
  lemma {:induction false} SpaceAfterStopsKeepsText(s: string)
    ensures Erase(SpaceAfterStops(s), Whitespace) == Erase(s, Whitespace)
    decreases |s|
  {
    if |s| > 0 {
      if |s| >= 2 && SentenceStop(s[0]) && IsUpper(s[1]) {
        SpaceAfterStopsKeepsText(s[2..]);
        var rest := SpaceAfterStops(s[2..]);
        assert [s[0], ' ', s[1]] + rest == [s[0]] + " " + ([s[1]] + rest);
        EraseAroundDropped([s[0]], " ", [s[1]] + rest, Whitespace);
        EraseAppend([s[1]], rest, Whitespace);
        assert s == [s[0]] + ([s[1]] + s[2..]);
        EraseAppend([s[0]], [s[1]] + s[2..], Whitespace);
        EraseAppend([s[1]], s[2..], Whitespace);
      } else {
        SpaceAfterStopsKeepsText(s[1..]);
        EraseAppend([s[0]], SpaceAfterStops(s[1..]), Whitespace);
        EraseAppend([s[0]], s[1..], Whitespace);
        assert [s[0]] + s[1..] == s;
      }
    }
  }

  /** Inserting a space before a capital never puts whitespace before punctuation. */
  lemma {:induction false} SpaceAfterStopsKeepsTight(s: string)
    requires TightPunctuation(s)
    ensures TightPunctuation(SpaceAfterStops(s))
    decreases |s|
  {
    if |s| > 0 {
      var r := SpaceAfterStops(s);
      assert TightPunctuation(s[1..]) by {
        forall i | 0 < i < |s[1..]| && Punctuation(s[1..][i]) ensures !IsSpace(s[1..][i - 1]) {
          assert s[1..][i] == s[i + 1];
        }
      }
      if |s| >= 2 && SentenceStop(s[0]) && IsUpper(s[1]) {
        assert TightPunctuation(s[2..]) by {
          forall i | 0 < i < |s[2..]| && Punctuation(s[2..][i]) ensures !IsSpace(s[2..][i - 1]) {
            assert s[2..][i] == s[i + 2];
          }
        }
        SpaceAfterStopsKeepsTight(s[2..]);
        var rest := SpaceAfterStops(s[2..]);
        assert r == [s[0], ' ', s[1]] + rest;
        forall i | 0 < i < |r| && Punctuation(r[i]) ensures !IsSpace(r[i - 1]) {
          if i > 3 {
            assert r[i] == rest[i - 3] && r[i - 1] == rest[i - 4];
          } else if i == 3 {
            assert r[i] == rest[0] == s[2];
          }
        }
      } else {
        SpaceAfterStopsKeepsTight(s[1..]);
        var rest := SpaceAfterStops(s[1..]);
        assert r == [s[0]] + rest;
        forall i | 0 < i < |r| && Punctuation(r[i]) ensures !IsSpace(r[i - 1]) {
          if i > 1 {
            assert r[i] == rest[i - 1] && r[i - 1] == rest[i - 2];
          } else {
            assert r[1] == rest[0] == s[1];
          }
        }
      }
    }
  }

  // ---------------------------------------------------------------------------
  // The four passes together
  // ---------------------------------------------------------------------------

  /** `enhance_punctuation_and_capitalization(text)`. */
  function EnhancePunctuation(text: string): string {
    SpaceAfterStops(TightenPunctuation(CapitaliseLines(true, CapitaliseSentences(text))))
  }

  /** Erasing whitespace and folding case commute. */
  lemma {:induction false} EraseLower(s: string)
    ensures Erase(Lower(s), Whitespace) == Lower(Erase(s, Whitespace))
    decreases |s|
  {
    if |s| > 0 {
      EraseLower(s[1..]);
      assert Lower(s)[1..] == Lower(s[1..]);
      var head := if IsSpace(s[0]) then "" else [s[0]];
      assert Lower(head + Erase(s[1..], Whitespace)) == Lower(head) + Lower(Erase(s[1..], Whitespace));
    }
  }

  /** Raising the case of letters changes nothing once case is folded. */
  lemma CaseRaisedFolds(s: string, r: string)
    requires CaseRaised(s, r)
    ensures Lower(Erase(r, Whitespace)) == Lower(Erase(s, Whitespace))
  {
    assert Lower(r) == Lower(s);
    EraseLower(r);
    EraseLower(s);
  }

  /** The punctuation passes keep every non-whitespace character, up to case. */
  lemma EnhanceKeepsLetters(text: string)
    ensures Lower(Erase(EnhancePunctuation(text), Whitespace)) == Lower(Erase(text, Whitespace))
  {
    var a := CapitaliseSentences(text);
    var b := CapitaliseLines(true, a);
    var c := TightenPunctuation(b);
    CaseRaisedFolds(text, a);
    CapitaliseLinesRaises(true, a);
    CaseRaisedFolds(a, b);
    TightenPunctuationKeepsText(b);
    SpaceAfterStopsKeepsText(c);
  }

  /** The enhanced text has no whitespace before punctuation and a space after every stop before a capital. */
  lemma EnhanceTidiesPunctuation(text: string)
    ensures TightPunctuation(EnhancePunctuation(text))
    ensures SpacedStops(EnhancePunctuation(text))
  {
    var c := TightenPunctuation(CapitaliseLines(true, CapitaliseSentences(text)));
    TightenPunctuationTight(CapitaliseLines(true, CapitaliseSentences(text)));
    SpaceAfterStopsKeepsTight(c);
    SpaceAfterStopsSpaced(c);
  }
}
