/**
  * Line normalisation used to compare header and footer lines across pages,
  * and the page-counter test (`_normalise_line`, `_is_page_counter`).
  */
module Normalise {
  import opened Text

  /** `re.sub(r"\s+", " ", s)`: every maximal whitespace run becomes one space. */
  function CollapseSpaces(s: string): (r: string)
    ensures |r| <= |s|
    ensures |s| > 0 ==> |r| > 0 && r[0] == (if IsSpace(s[0]) then ' ' else s[0])
    decreases |s|
  {
    if |s| == 0 then ""
    else if IsSpace(s[0]) then " " + CollapseSpaces(LStrip(s[1..]))
    else [s[0]] + CollapseSpaces(s[1..])
  }

  /** Whitespace occurs only as single plain spaces. */
  ghost predicate SpacesCollapsed(s: string) {
    && (forall i :: 0 <= i < |s| ==> IsSpace(s[i]) ==> s[i] == ' ')
    && (forall i, j :: 0 <= i < j < |s| && j == i + 1 ==> !(s[i] == ' ' && s[j] == ' '))
  }

  /** The result of collapsing holds no whitespace but single plain spaces. */
  lemma {:induction false} CollapseSpacesCollapsed(s: string)
    ensures SpacesCollapsed(CollapseSpaces(s))
    decreases |s|
  {
    if |s| > 0 {
      if IsSpace(s[0]) {
        var t := LStrip(s[1..]);
        CollapseSpacesCollapsed(t);
        var r := CollapseSpaces(s);
        assert r == " " + CollapseSpaces(t);
        assert forall i :: 1 <= i < |r| ==> r[i] == CollapseSpaces(t)[i - 1];
      } else {
        CollapseSpacesCollapsed(s[1..]);
        var r := CollapseSpaces(s);
        assert forall i :: 1 <= i < |r| ==> r[i] == CollapseSpaces(s[1..])[i - 1];
      }
    }
  }

  /** Collapsing a string whose whitespace is already collapsed changes nothing. */
  lemma {:induction false} CollapseSpacesNoop(s: string)
    requires SpacesCollapsed(s)
    ensures CollapseSpaces(s) == s
    decreases |s|
  {
    if |s| > 0 {
      assert SpacesCollapsed(s[1..]) by {
        forall i, j | 0 <= i < j < |s[1..]| && j == i + 1 ensures !(s[1..][i] == ' ' && s[1..][j] == ' ') {
          assert s[1..][i] == s[i + 1] && s[1..][j] == s[j + 1];
        }
      }
      CollapseSpacesNoop(s[1..]);
      if IsSpace(s[0]) {
        assert |s| == 1 || !IsSpace(s[1]);
        assert LStrip(s[1..]) == s[1..];
      }
      assert [s[0]] + s[1..] == s;
    }
  }

  /** Collapsing keeps every character that is not whitespace, in order. */
  lemma {:induction false} EraseCollapseSpaces(s: string)
    ensures Erase(CollapseSpaces(s), Whitespace) == Erase(s, Whitespace)
    decreases |s|
  {
    if |s| > 0 {
      if IsSpace(s[0]) {
        var t := LStrip(s[1..]);
        EraseCollapseSpaces(t);
        EraseLStrip(s[1..], Whitespace);
        EraseAppend(" ", CollapseSpaces(t), Whitespace);
      } else {
        EraseCollapseSpaces(s[1..]);
        EraseAppend([s[0]], CollapseSpaces(s[1..]), Whitespace);
      }
    }
  }

  /** `_normalise_line`: collapse whitespace runs, trim, lower-case. */
  function NormaliseLine(line: string): (r: string)
    ensures |r| <= |line|
  {
    Lower(Strip(CollapseSpaces(line)))
  }

  /** The shape of every normalised line. */
  ghost predicate IsNormalised(s: string) {
    && SpacesCollapsed(s)
    && IsStripped(s)
    && (forall i :: 0 <= i < |s| ==> !IsUpper(s[i]))
  }

  lemma StripKeepsCollapsed(s: string)
    requires SpacesCollapsed(s)
    ensures SpacesCollapsed(Strip(s))
  {
    StripSlice(s);
    var r := Strip(s);
    var a := StripStart(s);
    forall i | 0 <= i < |r| ensures IsSpace(r[i]) ==> r[i] == ' ' {
      assert r[i] == s[a + i];
    }
    forall i, j | 0 <= i < j < |r| && j == i + 1 ensures !(r[i] == ' ' && r[j] == ' ') {
      assert r[i] == s[a + i] && r[j] == s[a + j];
    }
  }

  lemma LowerKeepsCollapsed(s: string)
    requires SpacesCollapsed(s) && IsStripped(s)
    ensures SpacesCollapsed(Lower(s)) && IsStripped(Lower(s))
  {
    var r := Lower(s);
    forall i, j | 0 <= i < j < |r| && j == i + 1 ensures !(r[i] == ' ' && r[j] == ' ') {
      assert r[i] == ' ' ==> s[i] == ' ';
      assert r[j] == ' ' ==> s[j] == ' ';
    }
  }

  /** Every output of `_normalise_line` is normalised. */
  lemma NormaliseLineIsNormalised(line: string)
    ensures IsNormalised(NormaliseLine(line))
  {
    CollapseSpacesCollapsed(line);
    StripKeepsCollapsed(CollapseSpaces(line));
    LowerKeepsCollapsed(Strip(CollapseSpaces(line)));
  }

  /** A normalised line is its own normal form. */
  lemma NormaliseLineNoop(s: string)
    requires IsNormalised(s)
    ensures NormaliseLine(s) == s
  {
    CollapseSpacesNoop(s);
    StripNoop(s);
  }

  /** `_normalise_line` is idempotent. */
  lemma NormaliseLineIdempotent(line: string)
    ensures NormaliseLine(NormaliseLine(line)) == NormaliseLine(line)
  {
    NormaliseLineIsNormalised(line);
    NormaliseLineNoop(NormaliseLine(line));
  }

  lemma LowerAppend(a: string, b: string)
    ensures Lower(a + b) == Lower(a) + Lower(b)
  {}

  lemma {:induction false} EraseLower(s: string)
    ensures Erase(Lower(s), Whitespace) == Lower(Erase(s, Whitespace))
    decreases |s|
  {
    if |s| > 0 {
      EraseLower(s[1..]);
      var c := s[0];
      var e := if IsSpace(c) then "" else [c];
      assert s == [c] + s[1..];
      LowerAppend([c], s[1..]);
      EraseAppend(Lower([c]), Lower(s[1..]), Whitespace);
      assert Erase(s, Whitespace) == e + Erase(s[1..], Whitespace);
      LowerAppend(e, Erase(s[1..], Whitespace));
      assert Erase(Lower([c]), Whitespace) == Lower(e);
    }
  }

  /** Normalising keeps all the non-whitespace characters, in order, lower-cased. */
  lemma NormaliseLineKeepsContent(line: string)
    ensures Erase(NormaliseLine(line), Whitespace) == Lower(Erase(line, Whitespace))
  {
    EraseCollapseSpaces(line);
    EraseStrip(CollapseSpaces(line), Whitespace);
    EraseLower(Strip(CollapseSpaces(line)));
  }

  /** A line normalises to "" exactly when it is blank. */
  lemma NormaliseLineEmpty(line: string)
    ensures NormaliseLine(line) == "" <==> IsBlank(line)
  {
    NormaliseLineKeepsContent(line);
    NormaliseLineIsNormalised(line);
    EraseBlank(line);
    EraseBlank(NormaliseLine(line));
  }

  /** Erasing whitespace leaves "" exactly from a blank string. */
  lemma {:induction false} EraseBlank(s: string)
    ensures Erase(s, Whitespace) == "" <==> IsBlank(s)
    decreases |s|
  {
    if |s| > 0 {
      EraseBlank(s[1..]);
      assert IsBlank(s) <==> IsSpace(s[0]) && IsBlank(s[1..]);
    }
  }

  // ---------------------------------------------------------------------------
  // Page counters
  // ---------------------------------------------------------------------------

  predicate IsRomanLetter(c: char) {
    c in {'i', 'v', 'x', 'l', 'c', 'd', 'm'}
  }

  /** `_is_page_counter`: one to four digits, or roman-numeral letters in either case. */
  predicate IsPageCounter(line: string) {
    || (1 <= |line| <= 4 && AllDigits(line))
    || (|line| >= 1 && forall i :: 0 <= i < |line| ==> IsRomanLetter(LowerChar(line[i])))
  }

  /** A rendered page number is a counter exactly when it has at most four digits. */
  lemma PageNumberIsCounter(n: nat)
    ensures IsPageCounter(NatToString(n)) <==> n < 10000
  {
    NatToStringLength(n, 4);
    var s := NatToString(n);
    if |s| > 4 {
      assert !IsRomanLetter(LowerChar(s[0]));
    }
  }

  /** Ordinary words made only of roman-numeral letters count as page counters. */
  lemma RomanLookingWordsAreCounters()
    ensures IsPageCounter("mix") && IsPageCounter("Did") && IsPageCounter("XIV")
    ensures !IsPageCounter("12345") && !IsPageCounter("") && !IsPageCounter("page")
  {
    assert !IsRomanLetter(LowerChar("12345"[0]));
    assert !IsRomanLetter(LowerChar("page"[0]));
  }
}
