/**
  * Python string primitives used throughout the pipeline: character classes,
  * `strip`, `split`, `join`, `splitlines`, `lower`, `replace` and decimal
  * rendering of integers.
  *
  * Whitespace follows `str.isspace` (and the `\s` class of `re`) exactly.
  * Letters, digits and "word" characters (`\w`) are restricted to ASCII, and so
  * is case conversion.
  */
module Text {
  import Base

  // ---------------------------------------------------------------------------
  // Character classes
  // ---------------------------------------------------------------------------

  /** Python's `str.isspace`, which is also what `\s` matches in a `str` pattern. */
  predicate IsSpace(c: char) {
    || c == ' '
    || '\t' <= c <= '\r'
    || '\U{1C}' <= c <= '\U{1F}'
    || c == '\U{85}'
    || c == '\U{A0}'
    || c == '\U{1680}'
    || '\U{2000}' <= c <= '\U{200A}'
    || c == '\U{2028}'
    || c == '\U{2029}'
    || c == '\U{202F}'
    || c == '\U{205F}'
    || c == '\U{3000}'
  }

  /** The line boundaries `str.splitlines` recognises (`\r\n` counts as one). */
  predicate IsLineBreak(c: char) {
    || c == '\n'
    || c == '\r'
    || c == '\U{0B}'
    || c == '\U{0C}'
    || '\U{1C}' <= c <= '\U{1E}'
    || c == '\U{85}'
    || c == '\U{2028}'
    || c == '\U{2029}'
  }

  predicate IsDigit(c: char) { '0' <= c <= '9' }
  predicate IsUpper(c: char) { 'A' <= c <= 'Z' }
  predicate IsLower(c: char) { 'a' <= c <= 'z' }
  predicate IsLetter(c: char) { IsUpper(c) || IsLower(c) }

  /** `\w`, restricted to ASCII. */
  predicate IsWord(c: char) { IsLetter(c) || IsDigit(c) || c == '_' }

  predicate AllDigits(s: string) { forall i :: 0 <= i < |s| ==> IsDigit(s[i]) }

  /** A string consisting of whitespace only (the empty string included). */
  predicate IsBlank(s: string) { forall i :: 0 <= i < |s| ==> IsSpace(s[i]) }

  const SoftHyphen: char := '\U{00AD}'

  /** The form feed `\f`. */
  const FormFeed: char := '\U{0C}'
  const Nbsp: char := '\U{00A0}'

  /** Number of leading whitespace characters. */
  function SpaceRun(s: string): (n: nat)
    ensures n <= |s|
    decreases |s|
  {
    if |s| > 0 && IsSpace(s[0]) then 1 + SpaceRun(s[1..]) else 0
  }

  /** The run is whitespace and ends at the first other character. */
  lemma {:induction false} SpaceRunIsMaximal(s: string)
    ensures forall i :: 0 <= i < SpaceRun(s) ==> IsSpace(s[i])
    ensures SpaceRun(s) == |s| || !IsSpace(s[SpaceRun(s)])
    decreases |s|
  {
    if |s| > 0 && IsSpace(s[0]) {
      SpaceRunIsMaximal(s[1..]);
      forall i | 1 <= i < SpaceRun(s) ensures IsSpace(s[i]) {
        assert s[i] == s[1..][i - 1];
      }
    }
  }

  lemma LineBreakIsSpace(c: char)
    ensures IsLineBreak(c) ==> IsSpace(c)
  {}

  // ---------------------------------------------------------------------------
  // Case conversion
  // ---------------------------------------------------------------------------

  function LowerChar(c: char): (r: char)
    ensures !IsUpper(r)
    ensures IsSpace(r) <==> IsSpace(c)
    ensures IsWord(r) <==> IsWord(c)
    ensures IsUpper(c) || r == c
  {
    if IsUpper(c) then (c as int + 32) as char else c
  }

  /** `str.lower()` on ASCII letters; every other character is kept. */
  function Lower(s: string): (r: string)
    ensures |r| == |s|
    ensures forall i :: 0 <= i < |s| ==> r[i] == LowerChar(s[i])
  {
    seq(|s|, i requires 0 <= i < |s| => LowerChar(s[i]))
  }

  lemma LowerIdempotent(s: string)
    ensures Lower(Lower(s)) == Lower(s)
  {}

  // ---------------------------------------------------------------------------
  // Prefixes and suffixes
  // ---------------------------------------------------------------------------

  predicate StartsWith(s: string, prefix: string) {
    |prefix| <= |s| && s[..|prefix|] == prefix
  }

  predicate EndsWith(s: string, suffix: string) {
    |suffix| <= |s| && s[|s| - |suffix|..] == suffix
  }

  /** The last character equals `c`; `str.endswith` with a one-character suffix. */
  predicate EndsWithChar(s: string, c: char) {
    |s| > 0 && s[|s| - 1] == c
  }

  // ---------------------------------------------------------------------------
  // Stripping
  // ---------------------------------------------------------------------------

  /** `str.lstrip()`: drops leading whitespace. */
  function LStrip(s: string): (r: string)
    ensures |r| <= |s|
    ensures r == [] || !IsSpace(r[0])
    decreases |s|
  {
    if |s| > 0 && IsSpace(s[0]) then LStrip(s[1..]) else s
  }

  /** `lstrip` keeps a suffix and removes only whitespace. */
  lemma {:induction false} LStripDropsBlank(s: string)
    ensures LStrip(s) == s[|s| - |LStrip(s)|..]
    ensures IsBlank(s[..|s| - |LStrip(s)|])
    decreases |s|
  {
    if |s| > 0 && IsSpace(s[0]) {
      LStripDropsBlank(s[1..]);
      var n := |s| - |LStrip(s)|;
      forall i | 0 <= i < n ensures IsSpace(s[..n][i]) {
        if i > 0 { assert s[..n][i] == s[1..][..n - 1][i - 1]; }
      }
    }
  }

  /** A string ending in a non-space character keeps it after `lstrip`. */
  lemma {:induction false} LStripKeepsLast(s: string)
    requires s != [] && !IsSpace(s[|s| - 1])
    ensures LStrip(s) != [] && LStrip(s)[|LStrip(s)| - 1] == s[|s| - 1]
    decreases |s|
  {
    if IsSpace(s[0]) {
      LStripKeepsLast(s[1..]);
    }
  }

  /** `str.rstrip()`: drops trailing whitespace. */
  function RStrip(s: string): (r: string)
    ensures |r| <= |s|
    ensures r == [] || !IsSpace(r[|r| - 1])
    decreases |s|
  {
    if |s| > 0 && IsSpace(s[|s| - 1]) then RStrip(s[..|s| - 1]) else s
  }

  /** `rstrip` keeps a prefix and removes only whitespace. */
  lemma {:induction false} RStripDropsBlank(s: string)
    ensures RStrip(s) == s[..|RStrip(s)|]
    ensures IsBlank(s[|RStrip(s)|..])
    decreases |s|
  {
    if |s| > 0 && IsSpace(s[|s| - 1]) {
      var t := s[..|s| - 1];
      RStripDropsBlank(t);
      var n := |RStrip(s)|;
      forall i | 0 <= i < |s| - n ensures IsSpace(s[n..][i]) {
        if n + i < |s| - 1 { assert s[n..][i] == t[n..][i]; }
      }
    }
  }

  /** Neither starts nor ends with whitespace. */
  predicate IsStripped(s: string) {
    s == [] || (!IsSpace(s[0]) && !IsSpace(s[|s| - 1]))
  }

  /** `str.strip()`: drops leading and trailing whitespace. */
  function Strip(s: string): (r: string)
    ensures |r| <= |s|
    ensures IsStripped(r)
  {
    var m := RStrip(s);
    LStripDropsBlank(m);
    LStrip(m)
  }

  /** Where the slice `strip` keeps starts: the number of leading whitespace characters it drops. */
  function StripStart(s: string): nat
    requires |Strip(s)| <= |RStrip(s)|
  {
    |RStrip(s)| - |Strip(s)|
  }

  /** `strip` keeps a contiguous slice and removes only whitespace around it. */
  lemma StripSlice(s: string)
    ensures |Strip(s)| <= |RStrip(s)| <= |s|
    ensures StripStart(s) + |Strip(s)| <= |s| && Strip(s) == s[StripStart(s)..StripStart(s) + |Strip(s)|]
    ensures IsBlank(s[..StripStart(s)]) && IsBlank(s[StripStart(s) + |Strip(s)|..])
  {
    var m := RStrip(s);
    var r := LStrip(m);
    var a := |m| - |r|;
    RStripDropsBlank(s);
    LStripDropsBlank(m);
    assert s[..a] == m[..a];
    assert s[a + |r|..] == s[|m|..];
    assert r == s[a..a + |r|];
  }

  lemma {:induction false} LStripOfBlank(s: string)
    requires IsBlank(s)
    ensures LStrip(s) == []
    decreases |s|
  {
    if |s| > 0 {
      LStripOfBlank(s[1..]);
    }
  }

  lemma {:induction false} RStripOfBlank(s: string)
    requires IsBlank(s)
    ensures RStrip(s) == []
    decreases |s|
  {
    if |s| > 0 {
      RStripOfBlank(s[..|s| - 1]);
    }
  }

  lemma StripOfBlank(s: string)
    ensures Strip(s) == [] <==> IsBlank(s)
  {
    if IsBlank(s) {
      RStripOfBlank(s);
    }
    if Strip(s) == [] {
      assert RStrip(s) == [] by {
        if RStrip(s) != [] {
          LStripKeepsLast(RStrip(s));
        }
      }
      RStripDropsBlank(s);
      assert s[0..] == s;
    }
  }

  lemma LStripNoop(s: string)
    requires s == [] || !IsSpace(s[0])
    ensures LStrip(s) == s
  {}

  lemma RStripNoop(s: string)
    requires s == [] || !IsSpace(s[|s| - 1])
    ensures RStrip(s) == s
  {}

  lemma StripNoop(s: string)
    requires IsStripped(s)
    ensures Strip(s) == s
  {}

  lemma StripIdempotent(s: string)
    ensures Strip(Strip(s)) == Strip(s)
  {
    StripNoop(Strip(s));
  }

  /** Right-stripping after appending whitespace gives the same result. */
  lemma RStripAppendBlank(s: string, w: string)
    requires IsBlank(w)
    ensures RStrip(s + w) == RStrip(s)
    decreases |w|
  {
    if |w| > 0 {
      assert (s + w)[..|s + w| - 1] == s + w[..|w| - 1];
      RStripAppendBlank(s, w[..|w| - 1]);
    } else {
      assert s + w == s;
    }
  }

  lemma RStripIdempotent(s: string)
    ensures RStrip(RStrip(s)) == RStrip(s)
  {
    RStripNoop(RStrip(s));
  }

  /** `strip` ignores what `rstrip` already removed, and trailing whitespace. */
  lemma StripOfRStripPlusBlank(s: string, w: string)
    requires IsBlank(w)
    ensures Strip(RStrip(s) + w) == Strip(s)
  {
    RStripAppendBlank(RStrip(s), w);
    RStripIdempotent(s);
  }

  // ---------------------------------------------------------------------------
  // Splitting and joining
  // ---------------------------------------------------------------------------

  /** `s.split(sep)` for a non-empty separator: leftmost, non-overlapping. */
  function SplitOn(s: string, sep: string): (r: seq<string>)
    requires |sep| > 0
    ensures |r| >= 1
    decreases |s|
  {
    if |s| == 0 then [""]
    else if StartsWith(s, sep) then [""] + SplitOn(s[|sep|..], sep)
    else
      var t := SplitOn(s[1..], sep);
      [[s[0]] + t[0]] + t[1..]
  }

  /** `sep.join(parts)`. */
  function Join(parts: seq<string>, sep: string): string
    decreases |parts|
  {
    if |parts| == 0 then ""
    else if |parts| == 1 then parts[0]
    else parts[0] + sep + Join(parts[1..], sep)
  }

  /** Concatenation of all parts: `"".join(parts)`. */
  function Concat(parts: seq<string>): string
    decreases |parts|
  {
    if |parts| == 0 then "" else parts[0] + Concat(parts[1..])
  }

  /** Every character of every part is in the concatenation. */
  lemma {:induction false} ConcatHasParts(parts: seq<string>, k: nat, c: char)
    requires k < |parts| && c in parts[k]
    ensures c in Concat(parts)
    decreases |parts|
  {
    if k > 0 {
      ConcatHasParts(parts[1..], k - 1, c);
    }
  }

  lemma ConcatAppend(a: seq<string>, b: seq<string>)
    ensures Concat(a + b) == Concat(a) + Concat(b)
    decreases |a|
  {
    if |a| == 0 {
      assert a + b == b;
    } else {
      assert (a + b)[1..] == a[1..] + b;
      ConcatAppend(a[1..], b);
    }
  }

  lemma JoinConsHead(c: string, t: seq<string>, sep: string)
    requires |t| >= 1
    ensures Join([c + t[0]] + t[1..], sep) == c + Join(t, sep)
  {
    var u := [c + t[0]] + t[1..];
    if |t| > 1 {
      assert u[1..] == t[1..];
    }
  }

  lemma JoinAppendOne(parts: seq<string>, x: string, sep: string)
    requires |parts| >= 1
    ensures Join(parts + [x], sep) == Join(parts, sep) + sep + x
    decreases |parts|
  {
    if |parts| == 1 {
      assert parts + [x] == [parts[0], x];
    } else {
      assert (parts + [x])[1..] == parts[1..] + [x];
      JoinAppendOne(parts[1..], x, sep);
    }
  }

  lemma JoinEmptyHead(t: seq<string>, sep: string)
    requires |t| >= 1
    ensures Join([""] + t, sep) == sep + Join(t, sep)
  {
    assert ([""] + t)[1..] == t;
  }

  /** Joining the pieces of a split gives back the string. */
  lemma {:induction false} JoinSplit(s: string, sep: string)
    requires |sep| > 0
    ensures Join(SplitOn(s, sep), sep) == s
    decreases |s|
  {
    if |s| == 0 {
    } else if StartsWith(s, sep) {
      JoinSplit(s[|sep|..], sep);
      JoinEmptyHead(SplitOn(s[|sep|..], sep), sep);
      assert s == sep + s[|sep|..];
    } else {
      var t := SplitOn(s[1..], sep);
      JoinSplit(s[1..], sep);
      JoinConsHead([s[0]], t, sep);
      assert s == [s[0]] + s[1..];
    }
  }

  lemma SplitConsNonSep(c: char, rest: string, d: char)
    requires c != d
    ensures SplitOn([c] + rest, [d]) == [[c] + SplitOn(rest, [d])[0]] + SplitOn(rest, [d])[1..]
  {
    assert ([c] + rest)[1..] == rest;
  }

  /** Splitting `a + d + b` on `d`, where `a` holds no `d`. */
  lemma {:induction false} SplitAroundSep(a: string, b: string, d: char)
    requires d !in a
    ensures SplitOn(a + [d] + b, [d]) == [a] + SplitOn(b, [d])
    decreases |a|
  {
    if |a| == 0 {
      assert a + [d] + b == [d] + b;
      assert ([d] + b)[1..] == b;
    } else {
      var s := a + [d] + b;
      assert s[1..] == a[1..] + [d] + b;
      SplitAroundSep(a[1..], b, d);
      assert [a[0]] + a[1..] == a;
    }
  }

  /** Two pieces free of the separator, joined by it, split back into the two. */
  lemma SplitPair(a: string, b: string, d: char)
    requires d !in a && d !in b
    ensures SplitOn(a + [d] + b, [d]) == [a, b]
  {
    SplitAroundSep(a, b, d);
    SplitNoSep(b, d);
  }

  lemma {:induction false} SplitNoSep(a: string, d: char)
    requires d !in a
    ensures SplitOn(a, [d]) == [a]
    decreases |a|
  {
    if |a| > 0 {
      SplitNoSep(a[1..], d);
      assert [a[0]] + a[1..] == a;
    }
  }

  /** Splitting a join on a one-character separator the parts do not contain. */
  lemma {:induction false} SplitJoin(parts: seq<string>, d: char)
    requires |parts| >= 1
    requires forall i :: 0 <= i < |parts| ==> d !in parts[i]
    ensures SplitOn(Join(parts, [d]), [d]) == parts
    decreases |parts|
  {
    if |parts| == 1 {
      SplitNoSep(parts[0], d);
    } else {
      SplitJoin(parts[1..], d);
      SplitAroundSep(parts[0], Join(parts[1..], [d]), d);
      assert [parts[0]] + parts[1..] == parts;
    }
  }

  /** Every piece of a split on `d` is free of `d`. */
  lemma {:induction false} SplitPiecesFree(s: string, d: char)
    ensures forall i :: 0 <= i < |SplitOn(s, [d])| ==> d !in SplitOn(s, [d])[i]
    decreases |s|
  {
    if |s| > 0 {
      SplitPiecesFree(s[1..], d);
    }
  }

  /** `str.splitlines()`: no trailing empty piece, `\r\n` is one boundary. */
  function SplitLines(s: string): (r: seq<string>)
    ensures s == [] <==> r == []
    decreases |s|
  {
    if |s| == 0 then []
    else if IsLineBreak(s[0]) then
      var k := if s[0] == '\r' && |s| > 1 && s[1] == '\n' then 2 else 1;
      [""] + SplitLines(s[k..])
    else
      var t := SplitLines(s[1..]);
      if |t| == 0 then [[s[0]]] else [[s[0]] + t[0]] + t[1..]
  }

  /** No line produced by `splitlines` contains a line boundary. */
  lemma {:induction false} SplitLinesFree(s: string)
    ensures forall i, j :: 0 <= i < |SplitLines(s)| && 0 <= j < |SplitLines(s)[i]| ==>
              !IsLineBreak(SplitLines(s)[i][j])
    decreases |s|
  {
    if |s| > 0 {
      if IsLineBreak(s[0]) {
        var k := if s[0] == '\r' && |s| > 1 && s[1] == '\n' then 2 else 1;
        SplitLinesFree(s[k..]);
      } else {
        SplitLinesFree(s[1..]);
      }
    }
  }

  /** A text without line boundaries is a single line. */
  lemma {:induction false} SplitLinesOneLine(s: string)
    requires s != []
    requires forall i :: 0 <= i < |s| ==> !IsLineBreak(s[i])
    ensures SplitLines(s) == [s]
    decreases |s|
  {
    if |s| > 1 {
      SplitLinesOneLine(s[1..]);
      assert !IsLineBreak(s[0]);
      assert SplitLines(s) == [[s[0]] + s[1..]];
      assert [s[0]] + s[1..] == s;
    } else {
      assert !IsLineBreak(s[0]);
      assert SplitLines(s[1..]) == [];
      assert [s[0]] == s;
    }
  }

  /** A line without boundaries, a `\n`, then more text: the first line is split off. */
  lemma {:induction false} SplitLinesHead(a: string, b: string)
    requires forall i :: 0 <= i < |a| ==> !IsLineBreak(a[i])
    ensures SplitLines(a + "\n" + b) == [a] + SplitLines(b)
    decreases |a|
  {
    if |a| == 0 {
      assert a + "\n" + b == "\n" + b;
      assert ("\n" + b)[1..] == b;
    } else {
      var s := a + "\n" + b;
      assert s[1..] == a[1..] + "\n" + b;
      SplitLinesHead(a[1..], b);
      assert [a[0]] + a[1..] == a;
    }
  }

  // ---------------------------------------------------------------------------
  // Replacement and character removal
  // ---------------------------------------------------------------------------

  /** `s.replace(old, new)` for a non-empty `old`: leftmost, non-overlapping. */
  function Replace(s: string, target: string, replacement: string): string
    requires |target| > 0
    decreases |s|
  {
    if |s| == 0 then ""
    else if StartsWith(s, target) then replacement + Replace(s[|target|..], target, replacement)
    else [s[0]] + Replace(s[1..], target, replacement)
  }

  /** Replacing a one-character string by a string free of it removes it. */
  lemma {:induction false} ReplaceRemovesChar(s: string, c: char, replacement: string)
    requires c !in replacement
    ensures c !in Replace(s, [c], replacement)
    decreases |s|
  {
    if |s| > 0 {
      ReplaceRemovesChar(s[1..], c, replacement);
    }
  }

  /** Replacing one character keeps every other character out that was out. */
  lemma {:induction false} ReplaceCharKeepsAbsent(s: string, c: char, replacement: string, x: char)
    requires x !in s && x !in replacement
    ensures x !in Replace(s, [c], replacement)
    decreases |s|
  {
    if |s| > 0 {
      ReplaceCharKeepsAbsent(s[1..], c, replacement, x);
    }
  }

  /** Replacing a one-character target acts on each character on its own. */
  lemma {:induction false} ReplaceCharAppend(a: string, b: string, c: char, replacement: string)
    ensures Replace(a + b, [c], replacement) == Replace(a, [c], replacement) + Replace(b, [c], replacement)
    decreases |a|
  {
    if |a| == 0 {
      assert a + b == b;
    } else {
      var h := if a[0] == c then replacement else [a[0]];
      ReplaceCharCons(a, c, replacement);
      ReplaceCharCons(a + b, c, replacement);
      assert (a + b)[0] == a[0] && (a + b)[1..] == a[1..] + b;
      ReplaceCharAppend(a[1..], b, c, replacement);
      Base.AppendAssoc(h, Replace(a[1..], [c], replacement), Replace(b, [c], replacement));
    }
  }

  /** Replacing a one-character target: the first character is replaced or kept, then the rest. */
  lemma ReplaceCharCons(s: string, c: char, replacement: string)
    requires |s| > 0
    ensures Replace(s, [c], replacement) == (if s[0] == c then replacement else [s[0]]) + Replace(s[1..], [c], replacement)
  {
    assert StartsWith(s, [c]) <==> s[0] == c;
  }

  /** Replacing in a one-character string. */
  lemma ReplaceOneChar(x: char, c: char, replacement: string)
    ensures Replace([x], [c], replacement) == if x == c then replacement else [x]
  {
    assert [x][1..] == "";
    if x == c {
      assert replacement + "" == replacement;
    }
  }

  /** Replacing a character that does not occur changes nothing. */
  lemma {:induction false} ReplaceAbsent(s: string, c: char, replacement: string)
    requires c !in s
    ensures Replace(s, [c], replacement) == s
    decreases |s|
  {
    if |s| > 0 {
      ReplaceAbsent(s[1..], c, replacement);
      assert [s[0]] + s[1..] == s;
    }
  }

  // ---------------------------------------------------------------------------
  // Erasing a character class
  // ---------------------------------------------------------------------------

  /** The character classes the model erases to compare texts up to layout. */
  datatype CharClass = Whitespace | WhitespaceOrHyphen

  /** `c` is whitespace, or, for the second class, an ASCII or soft hyphen. */
  predicate InClass(c: char, cls: CharClass) {
    IsSpace(c) || (cls == WhitespaceOrHyphen && (c == '-' || c == SoftHyphen))
  }

  /** `s` with every character of class `cls` removed, order kept. */
  function Erase(s: string, cls: CharClass): (r: string)
    ensures |r| <= |s|
    decreases |s|
  {
    if |s| == 0 then "" else (if InClass(s[0], cls) then "" else [s[0]]) + Erase(s[1..], cls)
  }

  lemma {:induction false} EraseAppend(a: string, b: string, cls: CharClass)
    ensures Erase(a + b, cls) == Erase(a, cls) + Erase(b, cls)
    decreases |a|
  {
    if |a| == 0 {
      assert a + b == b;
    } else {
      assert (a + b)[1..] == a[1..] + b;
      EraseAppend(a[1..], b, cls);
    }
  }

  /** Putting a character in front of two texts with the same erasure keeps them alike. */
  lemma EraseCons(c: char, u: string, v: string, cls: CharClass)
    requires Erase(u, cls) == Erase(v, cls)
    ensures Erase([c] + u, cls) == Erase([c] + v, cls)
  {
    EraseAppend([c], u, cls);
    EraseAppend([c], v, cls);
  }

  /** A character outside the class survives the erasure exactly when it was there. */
  lemma {:induction false} EraseKeepsOthers(s: string, cls: CharClass, c: char)
    requires !InClass(c, cls)
    ensures c in Erase(s, cls) <==> c in s
    decreases |s|
  {
    if |s| > 0 {
      EraseKeepsOthers(s[1..], cls, c);
      assert s == [s[0]] + s[1..];
    }
  }

  lemma {:induction false} EraseAllDropped(s: string, cls: CharClass)
    requires forall i :: 0 <= i < |s| ==> InClass(s[i], cls)
    ensures Erase(s, cls) == ""
    decreases |s|
  {
    if |s| > 0 {
      EraseAllDropped(s[1..], cls);
    }
  }

  lemma {:induction false} EraseNoneDropped(s: string, cls: CharClass)
    requires forall i :: 0 <= i < |s| ==> !InClass(s[i], cls)
    ensures Erase(s, cls) == s
    decreases |s|
  {
    if |s| > 0 {
      EraseNoneDropped(s[1..], cls);
      assert [s[0]] + s[1..] == s;
    }
  }

  lemma SliceThree<T>(s: seq<T>, i: nat, j: nat)
    requires i <= j <= |s|
    ensures s == s[..i] + s[i..j] + s[j..]
  {}

  lemma SliceCons<T>(s: seq<T>, k: nat)
    requires k < |s|
    ensures s[k..] == [s[k]] + s[k + 1..]
    ensures s[..k + 1] == s[..k] + [s[k]]
  {}

  /** Erasing ignores a slice made only of dropped characters. */
  lemma EraseSplice(s: string, i: nat, j: nat, cls: CharClass)
    requires i <= j <= |s|
    requires forall k :: i <= k < j ==> InClass(s[k], cls)
    ensures Erase(s, cls) == Erase(s[..i], cls) + Erase(s[j..], cls)
  {
    var a, b, c := s[..i], s[i..j], s[j..];
    SliceThree(s, i, j);
    assert Erase(b, cls) == "" by {
      EraseAllDropped(b, cls);
    }
    assert Erase(a + b + c, cls) == Erase(a, cls) + Erase(c, cls) by {
      EraseAppend(a + b, c, cls);
      EraseAppend(a, b, cls);
    }
  }

  /** Erasing ignores a slice made only of dropped characters: cutting it out first changes nothing. */
  lemma EraseSkip(s: string, i: nat, j: nat, cls: CharClass)
    requires i <= j <= |s|
    requires forall k :: i <= k < j ==> InClass(s[k], cls)
    ensures Erase(s, cls) == Erase(s[..i] + s[j..], cls)
  {
    EraseSplice(s, i, j, cls);
    EraseAppend(s[..i], s[j..], cls);
  }

  /** Erasing a text whose characters strictly between the first and the `k`-th are all dropped. */
  lemma EraseGap(s: string, k: nat, cls: CharClass)
    requires 1 <= k < |s|
    requires forall i :: 1 <= i < k ==> InClass(s[i], cls)
    ensures Erase(s, cls) == Erase([s[0], s[k]], cls) + Erase(s[k + 1..], cls)
  {
    var t := [s[0], s[k]] + s[k + 1..];
    assert t == s[..1] + s[k..];
    EraseSkip(s, 1, k, cls);
    EraseAppend([s[0], s[k]], s[k + 1..], cls);
  }

  lemma EraseAt(s: string, k: nat, cls: CharClass)
    requires k < |s|
    ensures Erase(s[k..], cls) == Erase([s[k]], cls) + Erase(s[k + 1..], cls)
  {
    SliceCons(s, k);
    EraseAppend([s[k]], s[k + 1..], cls);
  }

  lemma ErasePair(x: char, y: char, cls: CharClass)
    ensures Erase([x, y], cls) == Erase([x], cls) + Erase([y], cls)
  {
    EraseAppend([x], [y], cls);
    assert [x] + [y] == [x, y];
  }

  /** Erasing whitespace ignores what `strip` removes. */
  lemma EraseStrip(s: string, cls: CharClass)
    ensures Erase(Strip(s), cls) == Erase(s, cls)
  {
    EraseRStrip(s, cls);
    EraseLStrip(RStrip(s), cls);
  }

  lemma EraseRStrip(s: string, cls: CharClass)
    ensures Erase(RStrip(s), cls) == Erase(s, cls)
  {
    var r := RStrip(s);
    RStripDropsBlank(s);
    assert s == r + s[|r|..];
    EraseAppend(r, s[|r|..], cls);
    EraseAllDropped(s[|r|..], cls);
  }

  /** Joining with a blank separator adds only whitespace to the concatenation. */
  lemma {:induction false} EraseJoinBlank(parts: seq<string>, sep: string)
    requires IsBlank(sep)
    ensures Erase(Join(parts, sep), Whitespace) == Erase(Concat(parts), Whitespace)
    decreases |parts|
  {
    if |parts| == 1 {
      assert Concat(parts) == parts[0] + Concat([]);
      assert parts[0] + "" == parts[0];
    } else if |parts| > 1 {
      EraseJoinBlank(parts[1..], sep);
      EraseAppend(parts[0] + sep, Join(parts[1..], sep), Whitespace);
      EraseAppend(parts[0], sep, Whitespace);
      EraseAllDropped(sep, Whitespace);
      EraseAppend(parts[0], Concat(parts[1..]), Whitespace);
    }
  }

  lemma EraseLStrip(s: string, cls: CharClass)
    ensures Erase(LStrip(s), cls) == Erase(s, cls)
  {
    var r := LStrip(s);
    LStripDropsBlank(s);
    assert s == s[..|s| - |r|] + r;
    EraseAppend(s[..|s| - |r|], r, cls);
    EraseAllDropped(s[..|s| - |r|], cls);
  }

  lemma EraseAroundDropped(x: string, sep: string, y: string, cls: CharClass)
    requires forall i :: 0 <= i < |sep| ==> InClass(sep[i], cls)
    ensures Erase(x + sep + y, cls) == Erase(x, cls) + Erase(y, cls)
  {
    assert Erase(x + sep, cls) == Erase(x, cls) by {
      EraseAppend(x, sep, cls);
      EraseAllDropped(sep, cls);
      assert Erase(x, cls) + "" == Erase(x, cls);
    }
    EraseAppend(x + sep, y, cls);
  }

  /** Erasing a separator class from a join leaves the concatenation, erased. */
  lemma {:induction false} EraseJoin(parts: seq<string>, sep: string, cls: CharClass)
    requires forall i :: 0 <= i < |sep| ==> InClass(sep[i], cls)
    ensures Erase(Join(parts, sep), cls) == Erase(Concat(parts), cls)
    decreases |parts|
  {
    if |parts| == 1 {
      assert Concat(parts) == parts[0] + "" == parts[0];
    } else if |parts| > 1 {
      EraseJoin(parts[1..], sep, cls);
      EraseAroundDropped(parts[0], sep, Join(parts[1..], sep), cls);
      EraseAppend(parts[0], Concat(parts[1..]), cls);
    }
  }

  // ---------------------------------------------------------------------------
  // Counting
  // ---------------------------------------------------------------------------

  /** Number of occurrences of `x` in `s`. */
  function Count<T(==)>(s: seq<T>, x: T): nat
    decreases |s|
  {
    if |s| == 0 then 0 else (if s[0] == x then 1 else 0) + Count(s[1..], x)
  }

  lemma {:induction false} CountPositive<T>(s: seq<T>, x: T)
    ensures Count(s, x) > 0 <==> x in s
    decreases |s|
  {
    if |s| > 0 {
      CountPositive(s[1..], x);
      assert x in s <==> s[0] == x || x in s[1..];
    }
  }

  lemma CountAppendOne<T>(s: seq<T>, x: T, y: T)
    ensures Count(s + [x], y) == Count(s, y) + (if x == y then 1 else 0)
    decreases |s|
  {
    if |s| == 0 {
      assert [x][1..] == [];
    } else {
      assert (s + [x])[1..] == s[1..] + [x];
      CountAppendOne(s[1..], x, y);
    }
  }

  /** In a sequence without repetitions every element occurs at most once. */
  lemma {:induction false} CountDistinct<T>(s: seq<T>, x: T)
    requires forall i, j :: 0 <= i < j < |s| ==> s[i] != s[j]
    ensures Count(s, x) <= 1
    decreases |s|
  {
    if |s| > 0 {
      CountDistinct(s[1..], x);
      if s[0] == x {
        forall j | 0 <= j < |s| - 1 ensures s[1..][j] != x {
          assert s[0] != s[j + 1];
        }
        CountPositive(s[1..], x);
      }
    }
  }

  // ---------------------------------------------------------------------------
  // Decimal rendering
  // ---------------------------------------------------------------------------

  function DigitChar(d: nat): (c: char)
    requires d < 10
    ensures IsDigit(c)
  {
    ('0' as int + d) as char
  }

  /** `str(n)` for a non-negative integer. */
  function NatToString(n: nat): (r: string)
    ensures |r| >= 1 && AllDigits(r)
    decreases n
  {
    if n < 10 then [DigitChar(n)] else NatToString(n / 10) + [DigitChar(n % 10)]
  }

  /** `int(s)` for a string of ASCII digits. */
  function DigitsValue(s: string): nat
    requires AllDigits(s)
    decreases |s|
  {
    if |s| == 0 then 0 else DigitsValue(s[..|s| - 1]) * 10 + (s[|s| - 1] as int - '0' as int)
  }

  /** Reading back the decimal rendering of `n` gives `n`. */
  lemma {:induction false} DigitsValueOfNat(n: nat)
    ensures DigitsValue(NatToString(n)) == n
    decreases n
  {
    if n >= 10 {
      DigitsValueOfNat(n / 10);
      var s := NatToString(n);
      assert s[..|s| - 1] == NatToString(n / 10);
    }
  }

  lemma NatToStringInjective(m: nat, n: nat)
    ensures NatToString(m) == NatToString(n) ==> m == n
  {
    DigitsValueOfNat(m);
    DigitsValueOfNat(n);
  }

  function Pow10(k: nat): (r: nat)
    ensures r >= 1
  {
    if k == 0 then 1 else 10 * Pow10(k - 1)
  }

  /** `str(n)` has at most `k` digits exactly when `n < 10^k`. */
  lemma {:induction false} NatToStringLength(n: nat, k: nat)
    requires k >= 1
    ensures |NatToString(n)| <= k <==> n < Pow10(k)
    decreases n
  {
    if n >= 10 && k > 1 {
      NatToStringLength(n / 10, k - 1);
    }
  }

  /** f"{i}" for any integer. */
  function IntToString(i: int): (r: string)
    ensures i >= 0 ==> r == NatToString(i)
    ensures i < 0 ==> r == "-" + NatToString(-i)
  {
    if i < 0 then "-" + NatToString(-i) else NatToString(i)
  }

  /** Left-pads with zeros to `width` characters. */
  function ZeroPad(s: string, width: nat): (r: string)
    ensures |r| == if |s| < width then width else |s|
    ensures r[|r| - |s|..] == s
    ensures forall i :: 0 <= i < |r| - |s| ==> r[i] == '0'
  {
    seq(if |s| < width then width - |s| else 0, _ => '0') + s
  }
}
