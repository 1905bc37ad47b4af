/**
  * `_shrink_whitespace`: no-break spaces become spaces, runs of spaces and
  * tabs become one space, three or more line breaks become two, and the
  * result is stripped.
  */
module Whitespace {
  import opened Text

  /** A character of the class `[ \t]`. */
  predicate IsHBlank(c: char) { c == ' ' || c == '\t' }

  /** Number of leading spaces and tabs. */
  function HBlankRun(s: string): (n: nat)
    ensures n <= |s|
    ensures |s| > 0 && IsHBlank(s[0]) ==> n >= 1
    decreases |s|
  {
    if |s| > 0 && IsHBlank(s[0]) then 1 + HBlankRun(s[1..]) else 0
  }

  lemma {:induction false} HBlankRunIsMaximal(s: string)
    ensures forall i :: 0 <= i < HBlankRun(s) ==> IsHBlank(s[i])
    ensures HBlankRun(s) == |s| || !IsHBlank(s[HBlankRun(s)])
    decreases |s|
  {
    if |s| > 0 && IsHBlank(s[0]) {
      HBlankRunIsMaximal(s[1..]);
      forall i | 1 <= i < HBlankRun(s) ensures IsHBlank(s[i]) {
        assert s[i] == s[1..][i - 1];
      }
    }
  }

  /** `re.sub(r"[ \t]+", " ", s)`. */
  function SqueezeBlanks(s: string): (r: string)
    ensures |r| <= |s|
    ensures |s| > 0 ==> |r| > 0 && r[0] == (if IsHBlank(s[0]) then ' ' else s[0])
    decreases |s|
  {
    if |s| == 0 then ""
    else if IsHBlank(s[0]) then " " + SqueezeBlanks(s[HBlankRun(s)..])
    else [s[0]] + SqueezeBlanks(s[1..])
  }

  /** Number of leading line feeds. */
  function NewlineRun(s: string): (n: nat)
    ensures n <= |s|
    decreases |s|
  {
    if |s| > 0 && s[0] == '\n' then 1 + NewlineRun(s[1..]) else 0
  }

  lemma {:induction false} NewlineRunIsMaximal(s: string)
    ensures forall i :: 0 <= i < NewlineRun(s) ==> s[i] == '\n'
    ensures NewlineRun(s) == |s| || s[NewlineRun(s)] != '\n'
    decreases |s|
  {
    if |s| > 0 && s[0] == '\n' {
      NewlineRunIsMaximal(s[1..]);
      forall i | 1 <= i < NewlineRun(s) ensures s[i] == '\n' {
        assert s[i] == s[1..][i - 1];
      }
    }
  }

  /** `re.sub(r"\n{3,}", "\n\n", s)`. */
  function CapNewlines(s: string): (r: string)
    ensures |r| <= |s|
    ensures |s| > 0 ==> |r| > 0 && r[0] == s[0]
    decreases |s|
  {
    if |s| == 0 then ""
    else if NewlineRun(s) >= 3 then "\n\n" + CapNewlines(s[NewlineRun(s)..])
    else [s[0]] + CapNewlines(s[1..])
  }

  /** `_shrink_whitespace`. */
  function ShrinkWhitespace(text: string): (r: string)
    ensures IsStripped(r)
  {
    Strip(CapNewlines(SqueezeBlanks(Replace(text, [Nbsp], " "))))
  }

  // ---------------------------------------------------------------------------
  // Shape of the result
  // ---------------------------------------------------------------------------

  /** No two spaces or tabs stand next to each other. */
  ghost predicate NoDoubleBlank(s: string) {
    forall i, j :: 0 <= i < j < |s| && j == i + 1 ==> !(IsHBlank(s[i]) && IsHBlank(s[j]))
  }

  /** No three line feeds stand next to each other. */
  ghost predicate NoTripleNewline(s: string) {
    forall i, j :: 0 <= i < j < |s| && j == i + 2 ==> !(s[i] == '\n' && s[i + 1] == '\n' && s[j] == '\n')
  }

  /** The text has the shape `_shrink_whitespace` leaves. */
  ghost predicate IsShrunk(s: string) {
    Nbsp !in s && '\t' !in s && NoDoubleBlank(s) && NoTripleNewline(s) && IsStripped(s)
  }

  /** Squeezing leaves single spaces and no tabs. */
  lemma {:induction false} SqueezeBlanksShape(s: string)
    ensures '\t' !in SqueezeBlanks(s) && NoDoubleBlank(SqueezeBlanks(s))
    decreases |s|
  {
    if |s| > 0 {
      var r := SqueezeBlanks(s);
      if IsHBlank(s[0]) {
        var t := s[HBlankRun(s)..];
        SqueezeBlanksShape(t);
        HBlankRunIsMaximal(s);
        assert r == " " + SqueezeBlanks(t);
        forall i | 1 <= i < |r| ensures r[i] == SqueezeBlanks(t)[i - 1] {}
        if |t| > 0 {
          assert t[0] == s[HBlankRun(s)];
        }
      } else {
        SqueezeBlanksShape(s[1..]);
        assert r == [s[0]] + SqueezeBlanks(s[1..]);
        forall i | 1 <= i < |r| ensures r[i] == SqueezeBlanks(s[1..])[i - 1] {}
      }
    }
  }

  /** Capping line feeds keeps the single spaces and adds no tab. */
  lemma {:induction false} CapNewlinesKeepsBlanks(s: string)
    requires '\t' !in s && NoDoubleBlank(s)
    ensures '\t' !in CapNewlines(s) && NoDoubleBlank(CapNewlines(s))
    decreases |s|
  {
    if |s| > 0 {
      var r := CapNewlines(s);
      if NewlineRun(s) >= 3 {
        var t := s[NewlineRun(s)..];
        assert NoDoubleBlank(t) by {
          forall i, j | 0 <= i < j < |t| && j == i + 1 ensures !(IsHBlank(t[i]) && IsHBlank(t[j])) {
            assert t[i] == s[NewlineRun(s) + i] && t[j] == s[NewlineRun(s) + j];
          }
        }
        CapNewlinesKeepsBlanks(t);
        assert r == "\n\n" + CapNewlines(t);
        forall i | 2 <= i < |r| ensures r[i] == CapNewlines(t)[i - 2] {}
      } else {
        var t := s[1..];
        assert NoDoubleBlank(t) by {
          forall i, j | 0 <= i < j < |t| && j == i + 1 ensures !(IsHBlank(t[i]) && IsHBlank(t[j])) {
            assert t[i] == s[i + 1] && t[j] == s[j + 1];
          }
        }
        CapNewlinesKeepsBlanks(t);
        assert r == [s[0]] + CapNewlines(t);
        forall i | 1 <= i < |r| ensures r[i] == CapNewlines(t)[i - 1] {}
      }
    }
  }

  /** A run shorter than three: the character after the first line feed is copied as is. */
  lemma CapNewlinesShortRun(s: string)
    requires |s| >= 2 && s[0] == '\n' && s[1] == '\n' && NewlineRun(s) < 3
    ensures |CapNewlines(s[1..])| >= 1
    ensures |s| == 2 || (|CapNewlines(s[1..])| >= 2 && CapNewlines(s[1..])[1] != '\n')
  {
    NewlineRunIsMaximal(s);
    var t := s[1..];
    assert NewlineRun(s) == 1 + NewlineRun(t);
    assert CapNewlines(t) == [t[0]] + CapNewlines(t[1..]);
    if |s| > 2 {
      assert t[1] == s[2];
    }
  }

  /** Capping leaves no three line feeds in a row. */
  lemma {:induction false} CapNewlinesShape(s: string)
    ensures NoTripleNewline(CapNewlines(s))
    decreases |s|
  {
    if |s| > 0 {
      var r := CapNewlines(s);
      if NewlineRun(s) >= 3 {
        var t := s[NewlineRun(s)..];
        CapNewlinesShape(t);
        NewlineRunIsMaximal(s);
        assert r == "\n\n" + CapNewlines(t);
        forall i | 2 <= i < |r| ensures r[i] == CapNewlines(t)[i - 2] {}
        if |t| > 0 {
          assert t[0] == s[NewlineRun(s)];
        }
      } else {
        var t := s[1..];
        CapNewlinesShape(t);
        assert r == [s[0]] + CapNewlines(t);
        forall i | 1 <= i < |r| ensures r[i] == CapNewlines(t)[i - 1] {}
        if |s| >= 2 && s[0] == '\n' && s[1] == '\n' {
          CapNewlinesShortRun(s);
        }
      }
    }
  }

  /** Every shape property survives cutting a slice. */
  lemma SliceKeepsShape(s: string, a: nat, b: nat)
    requires a <= b <= |s|
    requires Nbsp !in s && '\t' !in s && NoDoubleBlank(s) && NoTripleNewline(s)
    ensures Nbsp !in s[a..b] && '\t' !in s[a..b] && NoDoubleBlank(s[a..b]) && NoTripleNewline(s[a..b])
  {
    var r := s[a..b];
    assert NoDoubleBlank(r) by {
      forall i, j | 0 <= i < j < |r| && j == i + 1 ensures !(IsHBlank(r[i]) && IsHBlank(r[j])) {
        assert r[i] == s[a + i] && r[j] == s[a + j];
      }
    }
    assert NoTripleNewline(r) by {
      forall i, j | 0 <= i < j < |r| && j == i + 2 ensures !(r[i] == '\n' && r[i + 1] == '\n' && r[j] == '\n') {
        assert r[i] == s[a + i] && r[i + 1] == s[a + i + 1] && r[j] == s[a + j];
      }
    }
  }

  /** Stripping keeps a slice, so it keeps the shape. */
  lemma StripKeepsShape(s: string)
    requires Nbsp !in s && '\t' !in s && NoDoubleBlank(s) && NoTripleNewline(s)
    ensures IsShrunk(Strip(s))
  {
    var t, a := Strip(s), StripStart(s);
    StripSlice(s);
    SliceKeepsShape(s, a, a + |t|);
    assert t == s[a..a + |t|];
  }

  /** Every result of `_shrink_whitespace` has the shrunk shape. */
  lemma ShrinkWhitespaceShape(text: string)
    ensures IsShrunk(ShrinkWhitespace(text))
  {
    var t1 := Replace(text, [Nbsp], " ");
    var t2 := SqueezeBlanks(t1);
    ReplaceRemovesChar(text, Nbsp, " ");
    SqueezeBlanksNoNewChar(t1, Nbsp);
    SqueezeBlanksShape(t1);
    CapNewlinesKeepsBlanks(t2);
    CapNewlinesNoNewChar(t2, Nbsp);
    CapNewlinesShape(t2);
    StripKeepsShape(CapNewlines(t2));
  }

  /** Squeezing introduces no character but a space. */
  lemma {:induction false} SqueezeBlanksNoNewChar(s: string, c: char)
    requires c != ' ' && c !in s
    ensures c !in SqueezeBlanks(s)
    decreases |s|
  {
    if |s| > 0 {
      if IsHBlank(s[0]) {
        SqueezeBlanksNoNewChar(s[HBlankRun(s)..], c);
      } else {
        SqueezeBlanksNoNewChar(s[1..], c);
      }
    }
  }

  /** Capping introduces no character but a line feed. */
  lemma {:induction false} CapNewlinesNoNewChar(s: string, c: char)
    requires c != '\n' && c !in s
    ensures c !in CapNewlines(s)
    decreases |s|
  {
    if |s| > 0 {
      if NewlineRun(s) >= 3 {
        CapNewlinesNoNewChar(s[NewlineRun(s)..], c);
      } else {
        CapNewlinesNoNewChar(s[1..], c);
      }
    }
  }

  // ---------------------------------------------------------------------------
  // Idempotence
  // ---------------------------------------------------------------------------

  lemma {:induction false} SqueezeBlanksNoop(s: string)
    requires '\t' !in s && NoDoubleBlank(s)
    ensures SqueezeBlanks(s) == s
    decreases |s|
  {
    if |s| > 0 {
      var t := s[1..];
      assert NoDoubleBlank(t) by {
        forall i, j | 0 <= i < j < |t| && j == i + 1 ensures !(IsHBlank(t[i]) && IsHBlank(t[j])) {
          assert t[i] == s[i + 1] && t[j] == s[j + 1];
        }
      }
      SqueezeBlanksNoop(t);
      if IsHBlank(s[0]) {
        assert |s| == 1 || !IsHBlank(s[1]);
        assert HBlankRun(s) == 1;
      }
      assert [s[0]] + t == s;
    }
  }

  lemma {:induction false} CapNewlinesNoop(s: string)
    requires NoTripleNewline(s)
    ensures CapNewlines(s) == s
    decreases |s|
  {
    if |s| > 0 {
      var t := s[1..];
      assert NoTripleNewline(t) by {
        forall i, j | 0 <= i < j < |t| && j == i + 2 ensures !(t[i] == '\n' && t[i + 1] == '\n' && t[j] == '\n') {
          assert t[i] == s[i + 1] && t[i + 1] == s[i + 2] && t[j] == s[j + 1];
        }
      }
      CapNewlinesNoop(t);
      if NewlineRun(s) >= 3 {
        NewlineRunIsMaximal(s);
        assert false;
      }
      assert [s[0]] + t == s;
    }
  }

  /** A text already in the shrunk shape comes back unchanged. */
  lemma ShrinkWhitespaceNoop(s: string)
    requires IsShrunk(s)
    ensures ShrinkWhitespace(s) == s
  {
    ReplaceAbsent(s, Nbsp, " ");
    SqueezeBlanksNoop(s);
    CapNewlinesNoop(s);
    StripNoop(s);
  }

  /** `_shrink_whitespace` is idempotent. */
  lemma ShrinkWhitespaceIdempotent(text: string)
    ensures ShrinkWhitespace(ShrinkWhitespace(text)) == ShrinkWhitespace(text)
  {
    ShrinkWhitespaceShape(text);
    ShrinkWhitespaceNoop(ShrinkWhitespace(text));
  }

  // ---------------------------------------------------------------------------
  // Content
  // ---------------------------------------------------------------------------

  lemma {:induction false} EraseSqueezeBlanks(s: string, cls: CharClass)
    ensures Erase(SqueezeBlanks(s), cls) == Erase(s, cls)
    decreases |s|
  {
    if |s| > 0 {
      if IsHBlank(s[0]) {
        var n := HBlankRun(s);
        EraseSqueezeBlanks(s[n..], cls);
        HBlankRunIsMaximal(s);
        EraseSplice(s, 0, n, cls);
        assert s[..0] == "";
        EraseAppend(" ", SqueezeBlanks(s[n..]), cls);
      } else {
        EraseSqueezeBlanks(s[1..], cls);
        EraseAppend([s[0]], SqueezeBlanks(s[1..]), cls);
      }
    }
  }

  lemma {:induction false} EraseCapNewlines(s: string, cls: CharClass)
    ensures Erase(CapNewlines(s), cls) == Erase(s, cls)
    decreases |s|
  {
    if |s| > 0 {
      if NewlineRun(s) >= 3 {
        var n := NewlineRun(s);
        EraseCapNewlines(s[n..], cls);
        NewlineRunIsMaximal(s);
        EraseSplice(s, 0, n, cls);
        assert s[..0] == "";
        EraseAppend("\n\n", CapNewlines(s[n..]), cls);
        EraseAllDropped("\n\n", cls);
      } else {
        EraseCapNewlines(s[1..], cls);
        EraseAppend([s[0]], CapNewlines(s[1..]), cls);
      }
    }
  }

  /** Replacing a character of the class by a space keeps what erasing leaves. */
  lemma {:induction false} EraseReplaceSpace(s: string, c: char, cls: CharClass)
    requires InClass(c, cls)
    ensures Erase(Replace(s, [c], " "), cls) == Erase(s, cls)
    decreases |s|
  {
    if |s| > 0 {
      EraseReplaceSpace(s[1..], c, cls);
      if StartsWith(s, [c]) {
        EraseAppend(" ", Replace(s[1..], [c], " "), cls);
      } else {
        EraseAppend([s[0]], Replace(s[1..], [c], " "), cls);
      }
    }
  }

  /** Shrinking changes only whitespace: every other character stays, in order. */
  lemma ShrinkWhitespaceKeepsContent(text: string, cls: CharClass)
    ensures Erase(ShrinkWhitespace(text), cls) == Erase(text, cls)
  {
    var t1 := Replace(text, [Nbsp], " ");
    var t2 := SqueezeBlanks(t1);
    EraseReplaceSpace(text, Nbsp, cls);
    EraseSqueezeBlanks(t1, cls);
    EraseCapNewlines(t2, cls);
    EraseStrip(CapNewlines(t2), cls);
  }
}
