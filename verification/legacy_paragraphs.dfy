/**
  * `split_oversized_paragraphs` of the legacy cleaner: the text is split on
  * `"\n\n"`, each paragraph is cut into "sentences" with
  * `re.split(r'[.!?]+\s+', paragraph)`, and a paragraph with more pieces than
  * the limit is re-emitted as chunks of at most that many pieces, each joined
  * with `". "` and given exactly one final `"."`.
  */
module LegacyParagraphs {
  import opened Base
  import opened Text
  import opened LegacyLines

  // ---------------------------------------------------------------------------
  // Sentences
  // ---------------------------------------------------------------------------

  /** Number of leading stops. */
  function StopRun(s: string): (n: nat)
    ensures n <= |s|
    decreases |s|
  {
    if |s| > 0 && SentenceStop(s[0]) then 1 + StopRun(s[1..]) else 0
  }

  lemma {:induction false} StopRunIsMaximal(s: string)
    ensures forall i :: 0 <= i < StopRun(s) ==> SentenceStop(s[i])
    ensures StopRun(s) == |s| || !SentenceStop(s[StopRun(s)])
    decreases |s|
  {
    if |s| > 0 && SentenceStop(s[0]) {
      StopRunIsMaximal(s[1..]);
      forall i | 1 <= i < StopRun(s) ensures SentenceStop(s[i]) {
        assert s[i] == s[1..][i - 1];
      }
    }
  }

  /**
    * Length of the match of `[.!?]+\s+` at the start of `s`, or 0. A shorter
    * run of stops would leave a stop where `\s` is needed, so both runs are
    * taken whole.
    */
  function SeparatorMatch(s: string): (k: nat)
    ensures k == 0 || 2 <= k <= |s|
  {
    var m := StopRun(s);
    var n := SpaceRun(s[m..]);
    if m > 0 && n > 0 then m + n else 0
  }

  /** `re.split(r'[.!?]+\s+', s)`. */
  function Sentences(s: string): (r: seq<string>)
    ensures |r| >= 1
    ensures |r[0]| > 0 ==> |s| > 0 && r[0][0] == s[0]
    decreases |s|
  {
    if |s| == 0 then [""]
    else
      var k := SeparatorMatch(s);
      if k > 0 then [""] + Sentences(s[k..])
      else
        var t := Sentences(s[1..]);
        [[s[0]] + t[0]] + t[1..]
  }

  /** No stop is directly followed by whitespace, so the sentence pattern matches nowhere. */
  predicate Unbroken(p: string) {
    forall j :: 0 <= j < |p| - 1 ==> !(SentenceStop(p[j]) && IsSpace(p[j + 1]))
  }

  lemma SeparatorMatchStart(s: string)
    requires SeparatorMatch(s) > 0
    ensures |s| >= 2 && !Unbroken(s)
  {
    var m := StopRun(s);
    StopRunIsMaximal(s);
    SpaceRunIsMaximal(s[m..]);
    assert SentenceStop(s[m - 1]) && IsSpace(s[m..][0]);
  }

  /** No separator is left inside any sentence. */
  lemma {:induction false} SentencesUnbroken(s: string)
    ensures forall i :: 0 <= i < |Sentences(s)| ==> Unbroken(Sentences(s)[i])
    decreases |s|
  {
    if |s| > 0 {
      var k := SeparatorMatch(s);
      if k > 0 {
        SentencesUnbroken(s[k..]);
        assert Sentences(s)[1..] == Sentences(s[k..]);
      } else {
        SentencesUnbroken(s[1..]);
        var t := Sentences(s[1..]);
        var head := [s[0]] + t[0];
        assert Unbroken(head) by {
          forall j | 1 <= j < |head| - 1 ensures !(SentenceStop(head[j]) && IsSpace(head[j + 1])) {
            assert head[j] == t[0][j - 1] && head[j + 1] == t[0][j];
          }
        }
        assert Sentences(s) == [head] + t[1..];
      }
    }
  }

  /** A paragraph without a stop followed by whitespace is one sentence. */
  lemma {:induction false} UnbrokenIsOneSentence(s: string)
    requires Unbroken(s)
    ensures Sentences(s) == [s]
    decreases |s|
  {
    if |s| > 0 {
      assert SeparatorMatch(s) == 0 by {
        if SeparatorMatch(s) > 0 {
          SeparatorMatchStart(s);
        }
      }
      assert Unbroken(s[1..]) by {
        forall j | 0 <= j < |s[1..]| - 1 ensures !(SentenceStop(s[1..][j]) && IsSpace(s[1..][j + 1])) {
          assert s[1..][j] == s[j + 1] && s[1..][j + 1] == s[j + 2];
        }
      }
      UnbrokenIsOneSentence(s[1..]);
      assert [s[0]] + s[1..] == s;
    }
  }

  /** `s` without its stops and whitespace: what the sentence split cannot remove. */
  function Bare(s: string): (r: string)
    ensures |r| <= |s|
    decreases |s|
  {
    if |s| == 0 then "" else (if SentenceStop(s[0]) || IsSpace(s[0]) then "" else [s[0]]) + Bare(s[1..])
  }

  lemma {:induction false} BareAppend(a: string, b: string)
    ensures Bare(a + b) == Bare(a) + Bare(b)
    decreases |a|
  {
    if |a| == 0 {
      assert a + b == b;
    } else {
      assert (a + b)[1..] == a[1..] + b;
      BareAppend(a[1..], b);
    }
  }

  lemma {:induction false} BareOfSeparator(s: string, k: nat)
    requires k <= StopRun(s) + SpaceRun(s[StopRun(s)..])
    ensures Bare(s[..k]) == ""
    decreases k
  {
    if k > 0 {
      var m := StopRun(s);
      StopRunIsMaximal(s);
      SpaceRunIsMaximal(s[m..]);
      BareOfSeparator(s, k - 1);
      assert s[..k] == s[..k - 1] + [s[k - 1]];
      BareAppend(s[..k - 1], [s[k - 1]]);
      if k - 1 >= m {
        assert s[k - 1] == s[m..][k - 1 - m];
      }
    }
  }

  lemma KeepTextAtSeparator(s: string, t: seq<string>)
    requires |s| > 0 && SeparatorMatch(s) > 0 && t == Sentences(s[SeparatorMatch(s)..])
    requires Bare(Concat(t)) == Bare(s[SeparatorMatch(s)..])
    ensures Bare(Concat(Sentences(s))) == Bare(s)
  {
    var k := SeparatorMatch(s);
    SentencesAtSeparator(s);
    BareOfSeparator(s, k);
    assert s == s[..k] + s[k..];
    BareAppend(s[..k], s[k..]);
  }

  /** Where a separator starts, the sentences hold the same text as those after it. */
  lemma SentencesAtSeparator(s: string)
    requires |s| > 0 && SeparatorMatch(s) > 0
    ensures Concat(Sentences(s)) == Concat(Sentences(s[SeparatorMatch(s)..]))
  {
    var t := Sentences(s[SeparatorMatch(s)..]);
    assert Sentences(s) == [""] + t;
    assert ([""] + t)[1..] == t;
  }

  lemma ConcatConsHead(c: char, t: seq<string>)
    requires |t| >= 1
    ensures Concat([[c] + t[0]] + t[1..]) == [c] + Concat(t)
  {
    var head := [c] + t[0];
    var parts := [head] + t[1..];
    assert parts[0] == head && parts[1..] == t[1..];
    assert Concat(parts) == head + Concat(t[1..]);
    assert Concat(t) == t[0] + Concat(t[1..]);
    AppendAssoc([c], t[0], Concat(t[1..]));
  }

  /** Where no separator starts, the first character joins the first sentence of the rest. */
  lemma SentencesAtCopy(s: string)
    requires |s| > 0 && SeparatorMatch(s) == 0
    ensures Concat(Sentences(s)) == [s[0]] + Concat(Sentences(s[1..]))
  {
    var t := Sentences(s[1..]);
    assert Sentences(s) == [[s[0]] + t[0]] + t[1..];
    ConcatConsHead(s[0], t);
  }

  /** Putting a character in front of two texts with the same bare text keeps them alike. */
  lemma BareCons(c: char, u: string, v: string)
    requires Bare(u) == Bare(v)
    ensures Bare([c] + u) == Bare([c] + v)
  {
    BareAppend([c], u);
    BareAppend([c], v);
  }

  lemma KeepTextAtCopy(s: string, t: seq<string>)
    requires |s| > 0 && SeparatorMatch(s) == 0 && t == Sentences(s[1..])
    requires Bare(Concat(t)) == Bare(s[1..])
    ensures Bare(Concat(Sentences(s))) == Bare(s)
  {
    SentencesAtCopy(s);
    BareCons(s[0], Concat(t), s[1..]);
    assert [s[0]] + s[1..] == s;
  }

  /** The sentence split removes only stops and whitespace. */
  lemma {:induction false} SentencesKeepText(s: string)
    ensures Bare(Concat(Sentences(s))) == Bare(s)
    decreases |s|
  {
    if |s| > 0 {
      var k := SeparatorMatch(s);
      if k > 0 {
        SentencesKeepText(s[k..]);
        KeepTextAtSeparator(s, Sentences(s[k..]));
      } else {
        SentencesKeepText(s[1..]);
        KeepTextAtCopy(s, Sentences(s[1..]));
      }
    }
  }

  // ---------------------------------------------------------------------------
  // Chunks
  // ---------------------------------------------------------------------------

  /**
    * `[xs[i:i + size] for i in range(0, len(xs), size)]`. The number of
    * chunks `n` is the ceiling of `|xs| / size`: `(n - 1) * size < |xs| <= n * size`.
    */
  function Chunks<T>(xs: seq<T>, size: nat): (r: seq<seq<T>>)
    requires size > 0
    ensures |xs| == 0 ==> r == []
    ensures |xs| > 0 ==> (|r| - 1) * size < |xs| <= |r| * size
    ensures forall i :: 0 <= i < |r| ==> 0 < |r[i]| <= size
    decreases |xs|
  {
    if |xs| == 0 then []
    else if |xs| <= size then [xs]
    else
      var rest := Chunks(xs[size..], size);
      assert (|rest| + 1) * size == |rest| * size + size;
      [xs[..size]] + rest
  }

  /** Concatenation of a sequence of sequences. */
  function Flatten<T>(xss: seq<seq<T>>): seq<T>
    decreases |xss|
  {
    if |xss| == 0 then [] else xss[0] + Flatten(xss[1..])
  }

  /** The chunks are the pieces, in order, cut into consecutive runs. */
  lemma {:induction false} ChunksFlatten<T>(xs: seq<T>, size: nat)
    requires size > 0
    ensures Flatten(Chunks(xs, size)) == xs
    decreases |xs|
  {
    if |xs| > size {
      ChunksFlatten(xs[size..], size);
      assert Chunks(xs, size)[1..] == Chunks(xs[size..], size);
      assert xs == xs[..size] + xs[size..];
    } else if |xs| > 0 {
      assert Flatten([xs]) == xs + Flatten([xs][1..]);
      assert xs + [] == xs;
    }
  }

  /** `s.rstrip('.')`. */
  function RStripDots(s: string): (r: string)
    ensures |r| <= |s| && r == s[..|r|]
    ensures r == [] || r[|r| - 1] != '.'
    ensures forall i :: |r| <= i < |s| ==> s[i] == '.'
    decreases |s|
  {
    if |s| > 0 && s[|s| - 1] == '.' then RStripDots(s[..|s| - 1]) else s
  }

  /** `'. '.join(chunk).rstrip('.') + '.'`: ends in exactly one stop. */
  function ChunkText(chunk: seq<string>): (r: string)
    ensures |r| > 0 && r[|r| - 1] == '.'
    ensures |r| == 1 || r[|r| - 2] != '.'
  {
    RStripDots(Join(chunk, ". ")) + "."
  }

  // ---------------------------------------------------------------------------
  // Paragraphs
  // ---------------------------------------------------------------------------

  /**
    * What the loop appends for one paragraph. A blank paragraph becomes `""`;
    * one with at most `limit` pieces is kept; otherwise the pieces are
    * chunked. `range` rejects a zero step, and a negative step yields no
    * chunk at all.
    */
  function SplitParagraph(p: string, limit: int): (r: Result<seq<string>>)
    ensures r.Err? <==> limit == 0 && Strip(p) != ""
    ensures r.Err? ==> r.error.ValueError?
  {
    if Strip(p) == "" then Ok([""])
    else
      var pieces := Sentences(p);
      if |pieces| <= limit then Ok([p])
      else if limit == 0 then Err(ValueError("range() arg 3 must not be zero"))
      else if limit < 0 then Ok([])
      else
        var chunks := Chunks(pieces, limit);
        Ok(seq(|chunks|, i requires 0 <= i < |chunks| => ChunkText(chunks[i])))
  }

  /** The loop over all paragraphs; the first error ends it. */
  function SplitAll(paragraphs: seq<string>, limit: int): (r: Result<seq<string>>)
    ensures r.Err? <==> limit == 0 && exists i :: 0 <= i < |paragraphs| && Strip(paragraphs[i]) != ""
    decreases |paragraphs|
  {
    if |paragraphs| == 0 then Ok([])
    else
      var head := SplitParagraph(paragraphs[0], limit);
      var tail := SplitAll(paragraphs[1..], limit);
      assert forall i :: 1 <= i < |paragraphs| ==> paragraphs[i] == paragraphs[1..][i - 1];
      if head.Err? then Err(head.error)
      else if tail.Err? then Err(tail.error)
      else Ok(head.value + tail.value)
  }

  /** `split_oversized_paragraphs(text, max_sentences)`. */
  function SplitOversizedParagraphs(text: string, limit: int): (r: Result<string>)
    ensures limit > 0 ==> r.Ok?
  {
    var out := SplitAll(SplitOn(text, "\n\n"), limit);
    if out.Err? then Err(out.error) else Ok(Join(out.value, "\n\n"))
  }

  /**
    * An oversized paragraph becomes ceil(pieces / limit) chunks, at least two: chunk
    * `i` is the text of the `i`-th run of `limit` pieces, ending in exactly one stop.
    */
  lemma OversizedParagraphChunked(p: string, limit: nat)
    requires limit > 0 && Strip(p) != "" && |Sentences(p)| > limit
    ensures SplitParagraph(p, limit).Ok?
    ensures |SplitParagraph(p, limit).value| == |Chunks(Sentences(p), limit)| >= 2
    ensures (|SplitParagraph(p, limit).value| - 1) * limit < |Sentences(p)| <= |SplitParagraph(p, limit).value| * limit
    ensures forall i :: 0 <= i < |Chunks(Sentences(p), limit)| ==>
              SplitParagraph(p, limit).value[i] == ChunkText(Chunks(Sentences(p), limit)[i])
  {
    var pieces := Sentences(p);
    var chunks := Chunks(pieces, limit);
    assert |chunks| != 1;
    var cs := seq(|chunks|, i requires 0 <= i < |chunks| => ChunkText(chunks[i]));
    assert SplitParagraph(p, limit) == Ok(cs);
  }

  /** A non-blank paragraph within the limit is kept as it is. */
  lemma ShortParagraphKept(p: string, limit: int)
    requires Strip(p) != "" && |Sentences(p)| <= limit
    ensures SplitParagraph(p, limit) == Ok([p])
  {}

  /** With a negative limit every paragraph with text disappears; blank ones become empty. */
  lemma {:induction false} NegativeLimitDropsText(paragraphs: seq<string>, limit: int)
    requires limit < 0
    ensures SplitAll(paragraphs, limit).Ok?
    ensures forall i :: 0 <= i < |SplitAll(paragraphs, limit).value| ==> SplitAll(paragraphs, limit).value[i] == ""
    decreases |paragraphs|
  {
    if |paragraphs| > 0 {
      NegativeLimitDropsText(paragraphs[1..], limit);
      var head := SplitParagraph(paragraphs[0], limit);
      assert head.value == [] || head.value == [""];
    }
  }

  /** Text whose paragraphs all have text and fit the limit comes back unchanged. */
  lemma SplitOversizedNoop(text: string, limit: int)
    requires forall i :: 0 <= i < |SplitOn(text, "\n\n")| ==>
               Strip(SplitOn(text, "\n\n")[i]) != "" && |Sentences(SplitOn(text, "\n\n")[i])| <= limit
    ensures SplitOversizedParagraphs(text, limit) == Ok(text)
  {
    var ps := SplitOn(text, "\n\n");
    SplitAllKeeps(ps, limit);
    JoinSplit(text, "\n\n");
  }

  lemma {:induction false} SplitAllKeeps(ps: seq<string>, limit: int)
    requires forall i :: 0 <= i < |ps| ==> Strip(ps[i]) != "" && |Sentences(ps[i])| <= limit
    ensures SplitAll(ps, limit) == Ok(ps)
    decreases |ps|
  {
    if |ps| > 0 {
      SplitAllKeeps(ps[1..], limit);
      assert [ps[0]] + ps[1..] == ps;
    }
  }
}
