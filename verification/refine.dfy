/**
  * The bookkeeping of the AI refinement stage (`pipeline/refine.py`): the word-based
  * token estimate, the price table, the cost gate, the blank-page short cut, the
  * slot each result is written to and the usage totals.
  *
  * The OpenAI chat completion inside `_refine_page` is a function parameter
  * `reply` from the text sent to the text returned plus the usage reported. The thread
  * pool is a sequential fold over `order`, the positions of the submitted pages
  * in the order their results complete.
  */
module Refine {
  import opened Base
  import opened Text
  import opened Pages

  // ---------------------------------------------------------------------------
  // Token estimate
  // ---------------------------------------------------------------------------

  /** The length of the leading run of non-whitespace characters. */
  function WordRun(s: string): (n: nat)
    ensures n <= |s|
    ensures |s| > 0 && !IsSpace(s[0]) ==> n >= 1
    ensures forall i :: 0 <= i < n ==> !IsSpace(s[i])
    ensures n < |s| ==> IsSpace(s[n])
    decreases |s|
  {
    if |s| == 0 || IsSpace(s[0]) then 0 else 1 + WordRun(s[1..])
  }

  /** A non-empty string without whitespace. */
  predicate IsWordToken(w: string) {
    w != "" && forall i :: 0 <= i < |w| ==> !IsSpace(w[i])
  }

  /** `s.split()`: the maximal runs of non-whitespace characters, in order. */
  function Words(s: string): (r: seq<string>)
    ensures forall i :: 0 <= i < |r| ==> IsWordToken(r[i])
    decreases |s|
  {
    var t := LStrip(s);
    if t == "" then []
    else
      var n := WordRun(t);
      [t[..n]] + Words(t[n..])
  }

  /** `_token_count` without `tiktoken`: `int(words / 0.7)`, that is floor(10 * words / 7). */
  function TokenCount(text: string): (t: nat)
    ensures 7 * t <= 10 * |Words(text)| < 7 * (t + 1)
  {
    (10 * |Words(text)|) / 7
  }

  lemma {:induction false} WordRunOfToken(w: string, rest: string)
    requires IsWordToken(w) && (rest == [] || IsSpace(rest[0]))
    ensures WordRun(w + rest) == |w|
    decreases |w|
  {
    var s := w + rest;
    assert s[0] == w[0] && !IsSpace(s[0]);
    if |w| > 1 {
      var tail := w[1..];
      assert s[1..] == tail + rest;
      assert IsWordToken(tail) by {
        assert forall i :: 0 <= i < |tail| ==> tail[i] == w[i + 1];
      }
      WordRunOfToken(tail, rest);
    } else {
      assert s[1..] == rest;
    }
  }

  /** Splitting words joined by single spaces gives the words back. */
  lemma {:induction false} WordsOfJoin(ws: seq<string>)
    requires forall i :: 0 <= i < |ws| ==> IsWordToken(ws[i])
    ensures Words(Join(ws, " ")) == ws
    decreases |ws|
  {
    if |ws| == 1 {
      var w := ws[0];
      LStripNoop(w);
      WordRunOfToken(w, "");
      assert w + "" == w;
      assert w[|w|..] == "";
    } else if |ws| > 1 {
      var w := ws[0];
      var rest := Join(ws[1..], " ");
      var s := w + " " + rest;
      assert s == w + (" " + rest);
      LStripNoop(s);
      WordRunOfToken(w, " " + rest);
      assert s[..|w|] == w;
      assert s[|w|..] == " " + rest;
      WordsOfJoin(ws[1..]);
      assert rest[0] == ws[1][0] by {
        if |ws| > 2 {
          assert rest == ws[1] + " " + Join(ws[2..], " ");
        }
      }
      LStripNoop(rest);
      assert LStrip(" " + rest) == LStrip(rest) by {
        assert (" " + rest)[1..] == rest;
      }
    }
  }

  // ---------------------------------------------------------------------------
  // Prices
  // ---------------------------------------------------------------------------

  /** US dollars per token, for prompt and for completion tokens. */
  datatype Price = Price(input: real, output: real)

  /** `PRICING[model]`, with models missing from the table priced as `gpt-4`. */
  function PriceOf(model: string): (p: Price)
    ensures p.input > 0.0 && p.output > 0.0
  {
    if model == "gpt-4.1" then Price(0.002 / 1000.0, 0.008 / 1000.0)
    else if model == "gpt-4o" then Price(0.005 / 1000.0, 0.015 / 1000.0)
    else Price(0.03 / 1000.0, 0.06 / 1000.0)
  }

  predicate Listed(model: string) {
    model == "gpt-4.1" || model == "gpt-4o" || model == "gpt-4"
  }

  /** `_estimate_cost`. */
  function EstimateCost(tokensIn: int, tokensOut: int, model: string): real {
    var p := PriceOf(model);
    tokensIn as real * p.input + tokensOut as real * p.output
  }

  /** A model missing from the table costs what `gpt-4` costs. */
  lemma UnlistedPricedAsGpt4(tokensIn: int, tokensOut: int, model: string)
    requires !Listed(model)
    ensures EstimateCost(tokensIn, tokensOut, model) == EstimateCost(tokensIn, tokensOut, "gpt-4")
  {}

  /** The estimate grows with either token count. */
  lemma EstimateCostMonotone(in1: int, out1: int, in2: int, out2: int, model: string)
    requires in1 <= in2 && out1 <= out2
    ensures EstimateCost(in1, out1, model) <= EstimateCost(in2, out2, model)
  {
    var p := PriceOf(model);
    assert in1 as real * p.input <= in2 as real * p.input;
    assert out1 as real * p.output <= out2 as real * p.output;
  }

  /** The estimate is additive, so estimating parts and adding equals estimating the sum. */
  lemma EstimateCostAdditive(in1: int, out1: int, in2: int, out2: int, model: string)
    ensures EstimateCost(in1 + in2, out1 + out2, model) == EstimateCost(in1, out1, model) + EstimateCost(in2, out2, model)
  {
    var p := PriceOf(model);
    assert (in1 + in2) as real * p.input == in1 as real * p.input + in2 as real * p.input;
    assert (out1 + out2) as real * p.output == out1 as real * p.output + out2 as real * p.output;
  }

  // ---------------------------------------------------------------------------
  // Usage statistics
  // ---------------------------------------------------------------------------

  /** `RefinementStats`. */
  datatype Stats = Stats(inputTokens: int, outputTokens: int, cost: real)

  const NoUsage := Stats(0, 0, 0.0)

  function Add(a: Stats, b: Stats): (r: Stats)
    ensures r.inputTokens == a.inputTokens + b.inputTokens
    ensures r.outputTokens == a.outputTokens + b.outputTokens
    ensures r.cost == a.cost + b.cost
  {
    Stats(a.inputTokens + b.inputTokens, a.outputTokens + b.outputTokens, a.cost + b.cost)
  }

  lemma AddAssoc(a: Stats, b: Stats, c: Stats)
    ensures Add(a, Add(b, c)) == Add(Add(a, b), c)
  {}

  lemma AddSwap(a: Stats, b: Stats, c: Stats)
    ensures Add(a, Add(b, c)) == Add(b, Add(a, c))
  {}

  /** A chat completion: the model's answer and the token usage it reports. */
  datatype Completion = Completion(text: string, promptTokens: nat, completionTokens: nat)

  /** The chat model in use and the service answering it; the text sent is the user message. */
  datatype Api = Api(model: string, reply: string -> Completion)

  /** Whether a statistics record's cost is the price of its own token counts. */
  predicate Priced(s: Stats, model: string) {
    s.cost == EstimateCost(s.inputTokens, s.outputTokens, model)
  }

  /** What `_refine_page` returns for one page. */
  datatype Refined = Refined(text: string, usage: Stats)

  /** `_refine_page`: sends `cleaned or raw`, strips the answer, prices the reported usage. */
  function RefinePage(api: Api, p: Page): (r: Refined)
    ensures IsStripped(r.text)
    ensures r.usage.inputTokens >= 0 && r.usage.outputTokens >= 0
    ensures Priced(r.usage, api.model)
  {
    var c := api.reply(CleanedOrRaw(p));
    Refined(Strip(c.text), Stats(c.promptTokens, c.completionTokens, EstimateCost(c.promptTokens, c.completionTokens, api.model)))
  }

  /** Adding two priced records gives a priced record: the running cost is the price of the running token totals. */
  lemma AddPriced(a: Stats, b: Stats, model: string)
    requires Priced(a, model) && Priced(b, model)
    ensures Priced(Add(a, b), model)
  {
    EstimateCostAdditive(a.inputTokens, a.outputTokens, b.inputTokens, b.outputTokens, model);
  }

  /** `AIRefiner(cfg)`: refuses a missing or empty API key; statistics start at zero. */
  function NewRefiner(apiKey: Option<string>): (r: Result<Stats>)
    ensures r.Ok? <==> apiKey.Some? && apiKey.value != ""
    ensures r.Ok? ==> r.value == NoUsage
  {
    if apiKey.None? || apiKey.value == "" then Err(RuntimeError("OPENAI_API_KEY missing; AI refinement cannot run."))
    else Ok(NoUsage)
  }

  // ---------------------------------------------------------------------------
  // Which pages are sent
  // ---------------------------------------------------------------------------

  /** A page is submitted when its screened text has a character that is not whitespace. */
  predicate Submitted(p: Page) {
    !IsBlank(PageText(p))
  }

  /** Submission is the source's test: the screened text is non-empty after `strip`. */
  lemma SubmittedWhenStrippedNonEmpty(p: Page)
    ensures Submitted(p) <==> Strip(PageText(p)) != ""
  {
    StripOfBlank(PageText(p));
  }

  /** The positions of the submitted pages, from `k` on, in page order. */
  function PendingFrom(pages: seq<Page>, k: nat): (r: seq<nat>)
    ensures forall i :: 0 <= i < |r| ==> k <= r[i] < |pages| && Submitted(pages[r[i]])
    decreases |pages| - k
  {
    if k >= |pages| then []
    else (if Submitted(pages[k]) then [k] else []) + PendingFrom(pages, k + 1)
  }

  function Pending(pages: seq<Page>): seq<nat> {
    PendingFrom(pages, 0)
  }

  lemma {:induction false} PendingFromHolds(pages: seq<Page>, k: nat, j: nat)
    requires k <= j < |pages| && Submitted(pages[j])
    ensures j in PendingFrom(pages, k)
    decreases j - k
  {
    if k < j {
      PendingFromHolds(pages, k + 1, j);
    }
  }

  /** The pending positions are exactly the positions of the submitted pages. */
  lemma PendingIsSubmitted(pages: seq<Page>, j: nat)
    ensures j in Pending(pages) <==> j < |pages| && Submitted(pages[j])
  {
    if j < |pages| && Submitted(pages[j]) {
      PendingFromHolds(pages, 0, j);
    }
  }

  /** What is sent for a submitted page is the text that was screened, so only non-blank text is sent. */
  lemma SentTextIsScreened(p: Page)
    requires Submitted(p)
    ensures CleanedOrRaw(p) == PageText(p)
  {
    if p.cleaned.Some? {
      assert p.cleaned.value != "";
    }
  }

  // ---------------------------------------------------------------------------
  // Slots
  // ---------------------------------------------------------------------------

  /** Python's `xs[i]` position in a list of length `n`: negative indices count from the end. */
  function ListPosition(i: int, n: nat): (r: Option<nat>)
    ensures r.Some? ==> r.value < n
  {
    if 0 <= i < n then Some(i as nat) else if -(n as int) <= i < 0 then Some((n + i) as nat) else None
  }

  /**
    * How a page finds its output slot: `ByIndex` is the source's `refined_pages[index - 1]`,
    * `ByPosition` writes the page's own position.
    */
  datatype Slotting = ByIndex | ByPosition

  function SlotFor(mode: Slotting, pages: seq<Page>, k: nat): (r: Result<nat>)
    requires k < |pages|
    ensures r.Ok? ==> r.value < |pages|
    ensures mode == ByPosition ==> r == Ok(k)
  {
    match mode
    case ByPosition => Ok(k)
    case ByIndex =>
      match ListPosition(pages[k].index - 1, |pages|)
      case Some(j) => Ok(j)
      case None => Err(IndexError)
  }

  /** The output pages before any result arrives: index and raw text, no cleaned text. */
  function Unrefined(pages: seq<Page>): (r: seq<Page>)
    ensures |r| == |pages|
    ensures forall i :: 0 <= i < |pages| ==> r[i] == Page(pages[i].index, pages[i].raw, None)
  {
    seq(|pages|, i requires 0 <= i < |pages| => Page(pages[i].index, pages[i].raw, None))
  }

  function SetCleaned(slots: seq<Page>, j: nat, text: string): (r: seq<Page>)
    requires j < |slots|
    ensures |r| == |slots|
  {
    slots[j := slots[j].(cleaned := Some(text))]
  }

  /** The first loop: every page that is not submitted gets `cleaned = ""` in its slot. */
  function MarkBlank(mode: Slotting, pages: seq<Page>, k: nat, slots: seq<Page>): (r: Result<seq<Page>>)
    requires k <= |pages| && |slots| == |pages|
    ensures r.Ok? ==> |r.value| == |pages|
    decreases |pages| - k
  {
    if k == |pages| then Ok(slots)
    else if Submitted(pages[k]) then MarkBlank(mode, pages, k + 1, slots)
    else match SlotFor(mode, pages, k)
      case Err(e) => Err(e)
      case Ok(j) => MarkBlank(mode, pages, k + 1, SetCleaned(slots, j, ""))
  }

  /** The state of the result loop: the slots, the refiner's statistics, and an exception once raised. */
  datatype Progress = Progress(slots: seq<Page>, stats: Stats, error: Option<Error>)

  /** The result loop over the completion order: write the text, then add the usage. */
  function Complete(mode: Slotting, pages: seq<Page>, api: Api, order: seq<nat>, st: Progress): (r: Progress)
    requires |st.slots| == |pages|
    requires forall i :: 0 <= i < |order| ==> order[i] < |pages|
    ensures |r.slots| == |pages|
    decreases |order|
  {
    if |order| == 0 || st.error.Some? then st
    else
      var k := order[0];
      match SlotFor(mode, pages, k)
      case Err(e) => Progress(st.slots, st.stats, Some(e))
      case Ok(j) =>
        Complete(mode, pages, api, order[1..],
                 Progress(SetCleaned(st.slots, j, RefinePage(api, pages[k]).text),
                          Add(st.stats, RefinePage(api, pages[k]).usage), None))
  }

  // ---------------------------------------------------------------------------
  // refine_document
  // ---------------------------------------------------------------------------

  /** The settings `refine_document` reads. */
  datatype RefineConfig = RefineConfig(model: string, maxCostLimit: real, confirmCost: bool)

  /** The estimated input tokens: every page's `cleaned or raw`. */
  function TokensIn(pages: seq<Page>): nat
    decreases |pages|
  {
    if |pages| == 0 then 0 else TokenCount(CleanedOrRaw(pages[0])) + TokensIn(pages[1..])
  }

  function EstimatedCost(doc: Document, cfg: RefineConfig): real {
    var t := TokensIn(doc.pages);
    EstimateCost(t, t / 2, cfg.model)
  }

  /** Whether the cost gate stops the run. */
  predicate Blocked(doc: Document, cfg: RefineConfig) {
    EstimatedCost(doc, cfg) > cfg.maxCostLimit && !cfg.confirmCost
  }

  /** What a call leaves behind: the document or the exception, the refiner's statistics, and the texts sent. */
  datatype Outcome = Outcome(result: Result<Document>, stats: Stats, sent: seq<string>)

  function SentTexts(pages: seq<Page>, ks: seq<nat>): (r: seq<string>)
    requires forall i :: 0 <= i < |ks| ==> ks[i] < |pages|
    ensures |r| == |ks|
    ensures forall i :: 0 <= i < |ks| ==> r[i] == CleanedOrRaw(pages[ks[i]])
  {
    seq(|ks|, i requires 0 <= i < |ks| => CleanedOrRaw(pages[ks[i]]))
  }

  /** `refine_document` on a refiner holding `stats`, with results completing in `order`. */
  function RefineDocument(mode: Slotting, stats: Stats, doc: Document, cfg: RefineConfig,
                          reply: string -> Completion, order: seq<nat>): (r: Outcome)
    requires forall i :: 0 <= i < |order| ==> order[i] < |doc.pages|
    ensures Blocked(doc, cfg) ==> r.result.Err? && r.sent == [] && r.stats == stats
    ensures r.result.Ok? ==> r.result.value.source == doc.source && |r.result.value.pages| == |doc.pages|
  {
    if Blocked(doc, cfg) then
      Outcome(Err(RuntimeError("Estimated cost exceeds limit. Rerun with --confirm-cost to proceed.")), stats, [])
    else
      match MarkBlank(mode, doc.pages, 0, Unrefined(doc.pages))
      case Err(e) => Outcome(Err(e), stats, [])
      case Ok(slots) =>
        var pending := Pending(doc.pages);
        var fin := Complete(mode, doc.pages, Api(cfg.model, reply), order, Progress(slots, stats, None));
        if fin.error.Some? then Outcome(Err(fin.error.value), fin.stats, SentTexts(doc.pages, pending))
        else Outcome(Ok(Document(doc.source, fin.slots)), fin.stats, SentTexts(doc.pages, pending))
  }

  // ---------------------------------------------------------------------------
  // Properties
  // ---------------------------------------------------------------------------

  /** The usage reported for the pages at `ks`, summed. */
  function UsageSum(pages: seq<Page>, api: Api, ks: seq<nat>): Stats
    requires forall i :: 0 <= i < |ks| ==> ks[i] < |pages|
    decreases |ks|
  {
    if |ks| == 0 then NoUsage else Add(RefinePage(api, pages[ks[0]]).usage, UsageSum(pages, api, ks[1..]))
  }

  lemma {:induction false} UsageSumAppend(pages: seq<Page>, api: Api, a: seq<nat>, b: seq<nat>)
    requires forall i :: 0 <= i < |a| ==> a[i] < |pages|
    requires forall i :: 0 <= i < |b| ==> b[i] < |pages|
    ensures UsageSum(pages, api, a + b) == Add(UsageSum(pages, api, a), UsageSum(pages, api, b))
    decreases |a|
  {
    if |a| == 0 {
      assert a + b == b;
    } else {
      var head := RefinePage(api, pages[a[0]]).usage;
      assert (a + b)[0] == a[0];
      assert (a + b)[1..] == a[1..] + b;
      UsageSumAppend(pages, api, a[1..], b);
      calc {
        UsageSum(pages, api, a + b);
        Add(head, UsageSum(pages, api, a[1..] + b));
        Add(head, Add(UsageSum(pages, api, a[1..]), UsageSum(pages, api, b)));
        { AddAssoc(head, UsageSum(pages, api, a[1..]), UsageSum(pages, api, b)); }
        Add(Add(head, UsageSum(pages, api, a[1..])), UsageSum(pages, api, b));
      }
    }
  }

  /** Taking one page out of a sum leaves its usage to be added separately. */
  lemma UsageSumRemove(pages: seq<Page>, api: Api, b: seq<nat>, i: nat)
    requires forall j :: 0 <= j < |b| ==> b[j] < |pages|
    requires i < |b|
    ensures UsageSum(pages, api, b)
            == Add(RefinePage(api, pages[b[i]]).usage, UsageSum(pages, api, b[..i] + b[i + 1..]))
  {
    var g := RefinePage(api, pages[b[i]]).usage;
    var before := UsageSum(pages, api, b[..i]);
    var after := UsageSum(pages, api, b[i + 1..]);
    assert b == b[..i] + ([b[i]] + b[i + 1..]);
    UsageSumAppend(pages, api, b[..i], [b[i]] + b[i + 1..]);
    assert ([b[i]] + b[i + 1..])[1..] == b[i + 1..];
    assert UsageSum(pages, api, [b[i]] + b[i + 1..]) == Add(g, after);
    UsageSumAppend(pages, api, b[..i], b[i + 1..]);
    AddSwap(before, g, after);
  }

  /** A page number listed in `b` has a position in it. */
  lemma PositionOf(b: seq<nat>, x: nat) returns (i: nat)
    requires x in multiset(b)
    ensures i < |b| && b[i] == x
  {
    i :| 0 <= i < |b| && b[i] == x;
  }

  /**
    * Taking the head off `a` and its match at `i` out of `b` leaves two
    * permutations of each other, with the same bound on their entries.
    */
  lemma PermutationTails(a: seq<nat>, b: seq<nat>, i: nat, n: nat)
    requires forall j :: 0 <= j < |a| ==> a[j] < n
    requires forall j :: 0 <= j < |b| ==> b[j] < n
    requires multiset(a) == multiset(b)
    requires 0 < |a| && i < |b| && b[i] == a[0]
    ensures var rest := b[..i] + b[i + 1..];
            && multiset(a[1..]) == multiset(rest)
            && (forall j :: 0 <= j < |a[1..]| ==> a[1..][j] < n)
            && (forall j :: 0 <= j < |rest| ==> rest[j] < n)
  {
    var rest := b[..i] + b[i + 1..];
    assert multiset(rest) == multiset(b) - multiset{b[i]} by {
      assert b == b[..i] + [b[i]] + b[i + 1..];
    }
    assert multiset(a[1..]) == multiset(a) - multiset{a[0]} by {
      assert a == [a[0]] + a[1..];
    }
    forall j | 0 <= j < |rest| ensures rest[j] < n {
      if j < i { assert rest[j] == b[j]; } else { assert rest[j] == b[j + 1]; }
    }
  }

  /** A sum whose head is found at `i` of another sum agrees with it once the rests agree. */
  lemma UsageSumSwapHead(pages: seq<Page>, api: Api, a: seq<nat>, b: seq<nat>, i: nat)
    requires forall j :: 0 <= j < |a| ==> a[j] < |pages|
    requires forall j :: 0 <= j < |b| ==> b[j] < |pages|
    requires 0 < |a| && i < |b| && b[i] == a[0]
    requires UsageSum(pages, api, a[1..]) == UsageSum(pages, api, b[..i] + b[i + 1..])
    ensures UsageSum(pages, api, a) == UsageSum(pages, api, b)
  {
    UsageSumRemove(pages, api, b, i);
  }

  /** Summing usage does not depend on the order of the pages. */
  lemma {:induction false} UsageSumPermutation(pages: seq<Page>, api: Api, a: seq<nat>, b: seq<nat>)
    requires forall i :: 0 <= i < |a| ==> a[i] < |pages|
    requires forall i :: 0 <= i < |b| ==> b[i] < |pages|
    requires multiset(a) == multiset(b)
    ensures UsageSum(pages, api, a) == UsageSum(pages, api, b)
    decreases |a|
  {
    if |a| == 0 {
      assert |b| == |multiset(b)| == 0;
    } else {
      var i := PositionOf(b, a[0]);
      var rest := b[..i] + b[i + 1..];
      PermutationTails(a, b, i, |pages|);
      UsageSumPermutation(pages, api, a[1..], rest);
      UsageSumSwapHead(pages, api, a, b, i);
    }
  }

  /** With position slots the result loop writes each completed page's text and adds its usage. */
  lemma {:induction false} CompleteByPosition(pages: seq<Page>, api: Api, order: seq<nat>, st: Progress)
    requires |st.slots| == |pages| && st.error.None?
    requires forall i :: 0 <= i < |order| ==> order[i] < |pages|
    ensures var r := Complete(ByPosition, pages, api, order, st);
            && r.error.None?
            && r.stats == Add(st.stats, UsageSum(pages, api, order))
            && forall j :: 0 <= j < |pages| ==>
                 r.slots[j] == if j in order then st.slots[j].(cleaned := Some(RefinePage(api, pages[j]).text)) else st.slots[j]
    decreases |order|
  {
    if |order| > 0 {
      var k := order[0];
      var next := Progress(SetCleaned(st.slots, k, RefinePage(api, pages[k]).text),
                           Add(st.stats, RefinePage(api, pages[k]).usage), None);
      CompleteStep(pages, api, order, st);
      CompleteByPosition(pages, api, order[1..], next);
      AddAssoc(st.stats, RefinePage(api, pages[k]).usage, UsageSum(pages, api, order[1..]));
      var r := Complete(ByPosition, pages, api, order[1..], next);
      forall j | 0 <= j < |pages|
        ensures r.slots[j] == if j in order then st.slots[j].(cleaned := Some(RefinePage(api, pages[j]).text)) else st.slots[j]
      {
        assert j in order <==> j == k || j in order[1..] by {
          assert order == [k] + order[1..];
        }
      }
    }
  }

  /** With position slots one step of the result loop writes the first completed page's slot. */
  lemma CompleteStep(pages: seq<Page>, api: Api, order: seq<nat>, st: Progress)
    requires |st.slots| == |pages| && st.error.None? && |order| > 0
    requires forall i :: 0 <= i < |order| ==> order[i] < |pages|
    ensures Complete(ByPosition, pages, api, order, st)
            == Complete(ByPosition, pages, api, order[1..],
                        Progress(SetCleaned(st.slots, order[0], RefinePage(api, pages[order[0]]).text),
                                 Add(st.stats, RefinePage(api, pages[order[0]]).usage), None))
  {
  }

  /** With position slots the first loop cannot fail. */
  lemma {:induction false} MarkBlankByPositionOk(pages: seq<Page>, k: nat, slots: seq<Page>)
    requires k <= |pages| && |slots| == |pages|
    ensures MarkBlank(ByPosition, pages, k, slots).Ok?
    decreases |pages| - k
  {
    if k < |pages| {
      if Submitted(pages[k]) {
        MarkBlankByPositionOk(pages, k + 1, slots);
      } else {
        MarkBlankByPositionOk(pages, k + 1, SetCleaned(slots, k, ""));
      }
    }
  }

  /** With position slots the first loop marks slot `j` exactly when page `j` (from `k` on) is not submitted. */
  lemma {:induction false} MarkBlankByPosition(pages: seq<Page>, k: nat, slots: seq<Page>, j: nat)
    requires k <= |pages| && |slots| == |pages| && j < |pages|
    ensures MarkBlank(ByPosition, pages, k, slots).Ok?
    ensures MarkBlank(ByPosition, pages, k, slots).value[j]
            == if k <= j && !Submitted(pages[j]) then slots[j].(cleaned := Some("")) else slots[j]
    decreases |pages| - k
  {
    MarkBlankByPositionOk(pages, k, slots);
    if k < |pages| {
      var marked := if Submitted(pages[k]) then slots else SetCleaned(slots, k, "");
      MarkBlankStep(pages, k, slots);
      MarkBlankByPosition(pages, k + 1, marked, j);
      MarkBlankStepAt(pages, k, slots, marked, j, MarkBlank(ByPosition, pages, k, slots).value,
                      MarkBlank(ByPosition, pages, k + 1, marked).value);
    }
  }

  /** With position slots one step of the first loop marks slot `k` unless page `k` is submitted. */
  lemma MarkBlankStep(pages: seq<Page>, k: nat, slots: seq<Page>)
    requires k < |pages| && |slots| == |pages|
    ensures MarkBlank(ByPosition, pages, k, slots).Ok?
    ensures MarkBlank(ByPosition, pages, k, slots).value
            == MarkBlank(ByPosition, pages, k + 1, if Submitted(pages[k]) then slots else SetCleaned(slots, k, "")).value
  {
    MarkBlankByPositionOk(pages, k, slots);
  }

  /** One step of the first loop, seen at slot `j`, given what the rest of the loop does there. */
  lemma MarkBlankStepAt(pages: seq<Page>, k: nat, slots: seq<Page>, marked: seq<Page>, j: nat, r0: seq<Page>, r: seq<Page>)
    requires k < |pages| && |slots| == |pages| && j < |pages| && |r| == |pages| && r0 == r
    requires marked == (if Submitted(pages[k]) then slots else SetCleaned(slots, k, ""))
    requires r[j] == (if k + 1 <= j && !Submitted(pages[j]) then marked[j].(cleaned := Some("")) else marked[j])
    ensures r0[j] == (if k <= j && !Submitted(pages[j]) then slots[j].(cleaned := Some("")) else slots[j])
  {
    if j != k {
      assert marked[j] == slots[j];
    }
  }

  /**
    * With position slots and any completion order of the submitted pages, refinement
    * keeps the source, the order, every index and raw text; a page that is not
    * submitted gets `cleaned = ""`, every other page the stripped answer for the text
    * sent; the statistics grow by the usage of the submitted pages. With costs
    * added exactly, nothing here depends on the completion order.
    */
  lemma RefinedPages(stats: Stats, doc: Document, cfg: RefineConfig, reply: string -> Completion, order: seq<nat>)
    requires !Blocked(doc, cfg)
    requires forall i :: 0 <= i < |order| ==> order[i] < |doc.pages|
    requires multiset(order) == multiset(Pending(doc.pages))
    ensures var r := RefineDocument(ByPosition, stats, doc, cfg, reply, order);
            && r.result.Ok?
            && r.stats == Add(stats, UsageSum(doc.pages, Api(cfg.model, reply), Pending(doc.pages)))
            && r.sent == SentTexts(doc.pages, Pending(doc.pages))
            && forall j :: 0 <= j < |doc.pages| ==>
                 var p := doc.pages[j];
                 r.result.value.pages[j] == Page(p.index, p.raw, Some(if Submitted(p) then RefinePage(Api(cfg.model, reply), p).text else ""))
  {
    var pages := doc.pages;
    var base := Unrefined(pages);
    MarkBlankByPositionOk(pages, 0, base);
    var slots := MarkBlank(ByPosition, pages, 0, base).value;
    forall j | 0 <= j < |pages|
      ensures slots[j] == if !Submitted(pages[j]) then base[j].(cleaned := Some("")) else base[j]
    {
      MarkBlankByPosition(pages, 0, base, j);
    }
    var api := Api(cfg.model, reply);
    CompleteByPosition(pages, api, order, Progress(slots, stats, None));
    UsageSumPermutation(pages, api, order, Pending(pages));
    forall j | 0 <= j < |pages| ensures j in order <==> Submitted(pages[j]) {
      PendingIsSubmitted(pages, j);
      assert j in order <==> j in multiset(order);
    }
  }

  /** Two completion orders give the same outcome (the cost total in exact arithmetic). */
  lemma CompletionOrderIrrelevant(stats: Stats, doc: Document, cfg: RefineConfig, reply: string -> Completion,
                                  order1: seq<nat>, order2: seq<nat>)
    requires !Blocked(doc, cfg)
    requires forall i :: 0 <= i < |order1| ==> order1[i] < |doc.pages|
    requires forall i :: 0 <= i < |order2| ==> order2[i] < |doc.pages|
    requires multiset(order1) == multiset(Pending(doc.pages)) && multiset(order2) == multiset(Pending(doc.pages))
    ensures RefineDocument(ByPosition, stats, doc, cfg, reply, order1) == RefineDocument(ByPosition, stats, doc, cfg, reply, order2)
  {
    RefinedPages(stats, doc, cfg, reply, order1);
    RefinedPages(stats, doc, cfg, reply, order2);
    var r1 := RefineDocument(ByPosition, stats, doc, cfg, reply, order1);
    var r2 := RefineDocument(ByPosition, stats, doc, cfg, reply, order2);
    assert r1.result.value.pages == r2.result.value.pages;
  }

  /** Statistics are not reset: a second document's usage is added to the first's. */
  lemma StatsAccumulate(doc1: Document, doc2: Document, cfg: RefineConfig, reply: string -> Completion,
                        order1: seq<nat>, order2: seq<nat>)
    requires !Blocked(doc1, cfg) && !Blocked(doc2, cfg)
    requires forall i :: 0 <= i < |order1| ==> order1[i] < |doc1.pages|
    requires forall i :: 0 <= i < |order2| ==> order2[i] < |doc2.pages|
    requires multiset(order1) == multiset(Pending(doc1.pages)) && multiset(order2) == multiset(Pending(doc2.pages))
    ensures var first := RefineDocument(ByPosition, NoUsage, doc1, cfg, reply, order1);
            var second := RefineDocument(ByPosition, first.stats, doc2, cfg, reply, order2);
            second.stats == Add(UsageSum(doc1.pages, Api(cfg.model, reply), Pending(doc1.pages)), UsageSum(doc2.pages, Api(cfg.model, reply), Pending(doc2.pages)))
  {
    var first := RefineDocument(ByPosition, NoUsage, doc1, cfg, reply, order1);
    RefinedStats(NoUsage, doc1, cfg, reply, order1);
    AddNoUsage(UsageSum(doc1.pages, Api(cfg.model, reply), Pending(doc1.pages)));
    RefinedStats(first.stats, doc2, cfg, reply, order2);
  }

  lemma AddNoUsage(a: Stats)
    ensures Add(NoUsage, a) == a
  {}

  /** The usage part of `RefinedPages`. */
  lemma RefinedStats(stats: Stats, doc: Document, cfg: RefineConfig, reply: string -> Completion, order: seq<nat>)
    requires !Blocked(doc, cfg)
    requires forall i :: 0 <= i < |order| ==> order[i] < |doc.pages|
    requires multiset(order) == multiset(Pending(doc.pages))
    ensures RefineDocument(ByPosition, stats, doc, cfg, reply, order).stats
            == Add(stats, UsageSum(doc.pages, Api(cfg.model, reply), Pending(doc.pages)))
  {
    RefinedPages(stats, doc, cfg, reply, order);
  }

  lemma {:induction false} UsageSumPriced(pages: seq<Page>, api: Api, ks: seq<nat>)
    requires forall i :: 0 <= i < |ks| ==> ks[i] < |pages|
    ensures Priced(UsageSum(pages, api, ks), api.model)
    decreases |ks|
  {
    if |ks| > 0 {
      UsageSumPriced(pages, api, ks[1..]);
      AddPriced(RefinePage(api, pages[ks[0]]).usage, UsageSum(pages, api, ks[1..]), api.model);
    }
  }

  /** Starting from zero or any priced record, the refiner's cost stays the price of its token totals. */
  lemma RunningCostIsPriced(stats: Stats, doc: Document, cfg: RefineConfig, reply: string -> Completion, order: seq<nat>)
    requires Priced(stats, cfg.model) && !Blocked(doc, cfg)
    requires forall i :: 0 <= i < |order| ==> order[i] < |doc.pages|
    requires multiset(order) == multiset(Pending(doc.pages))
    ensures Priced(RefineDocument(ByPosition, stats, doc, cfg, reply, order).stats, cfg.model)
  {
    RefinedPages(stats, doc, cfg, reply, order);
    UsageSumPriced(doc.pages, Api(cfg.model, reply), Pending(doc.pages));
    AddPriced(stats, UsageSum(doc.pages, Api(cfg.model, reply), Pending(doc.pages)), cfg.model);
  }

  /** Every text sent is non-blank, and it is the text that was screened. */
  lemma OnlyNonBlankSent(stats: Stats, doc: Document, cfg: RefineConfig, reply: string -> Completion, order: seq<nat>)
    requires forall i :: 0 <= i < |order| ==> order[i] < |doc.pages|
    ensures var r := RefineDocument(ByIndex, stats, doc, cfg, reply, order);
            forall i :: 0 <= i < |r.sent| ==> Strip(r.sent[i]) != ""
  {
    var r := RefineDocument(ByIndex, stats, doc, cfg, reply, order);
    var pending := Pending(doc.pages);
    forall i | 0 <= i < |r.sent| ensures Strip(r.sent[i]) != "" {
      SentTextIsScreened(doc.pages[pending[i]]);
      SubmittedWhenStrippedNonEmpty(doc.pages[pending[i]]);
    }
  }

  /** A page whose `cleaned` is `""` but whose raw text has words counts in the estimate, yet is never sent. */
  lemma EmptyCleanedEstimatedNotSent(p: Page)
    requires p.cleaned == Some("") && |Words(p.raw)| >= 1
    ensures TokensIn([p]) >= 1 && !Submitted(p)
  {
    assert CleanedOrRaw(p) == p.raw;
    assert [p][1..] == [];
    assert TokensIn([p]) == TokenCount(p.raw);
    assert Strip("") == "";
  }

  /** When indices are exactly 1..n the source's slot rule is the position rule. */
  lemma ByIndexIsByPosition(pages: seq<Page>, k: nat)
    requires k < |pages| && forall i :: 0 <= i < |pages| ==> pages[i].index == i + 1
    ensures SlotFor(ByIndex, pages, k) == SlotFor(ByPosition, pages, k)
  {}

  lemma {:induction false} MarkBlankSameSlots(pages: seq<Page>, k: nat, slots: seq<Page>)
    requires k <= |pages| && |slots| == |pages|
    requires forall i :: 0 <= i < |pages| ==> pages[i].index == i + 1
    ensures MarkBlank(ByIndex, pages, k, slots) == MarkBlank(ByPosition, pages, k, slots)
    decreases |pages| - k
  {
    if k < |pages| {
      MarkBlankSameSlots(pages, k + 1, slots);
      if !Submitted(pages[k]) {
        MarkBlankSameSlots(pages, k + 1, SetCleaned(slots, k, ""));
      }
    }
  }

  lemma {:induction false} CompleteSameSlots(pages: seq<Page>, api: Api, order: seq<nat>, st: Progress)
    requires |st.slots| == |pages|
    requires forall i :: 0 <= i < |order| ==> order[i] < |pages|
    requires forall i :: 0 <= i < |pages| ==> pages[i].index == i + 1
    ensures Complete(ByIndex, pages, api, order, st) == Complete(ByPosition, pages, api, order, st)
    decreases |order|
  {
    if |order| > 0 && st.error.None? {
      var k := order[0];
      CompleteSameSlots(pages, api, order[1..],
        Progress(SetCleaned(st.slots, k, RefinePage(api, pages[k]).text), Add(st.stats, RefinePage(api, pages[k]).usage), None));
    }
  }

  /** For a document numbered 1..n, as every full-document run numbers it, the source's slots are harmless. */
  lemma ByIndexAgreesWhenNumberedFromOne(stats: Stats, doc: Document, cfg: RefineConfig, reply: string -> Completion, order: seq<nat>)
    requires forall i :: 0 <= i < |order| ==> order[i] < |doc.pages|
    requires forall i :: 0 <= i < |doc.pages| ==> doc.pages[i].index == i + 1
    ensures RefineDocument(ByIndex, stats, doc, cfg, reply, order) == RefineDocument(ByPosition, stats, doc, cfg, reply, order)
  {
    var base := Unrefined(doc.pages);
    MarkBlankSameSlots(doc.pages, 0, base);
    MarkBlankByPositionOk(doc.pages, 0, base);
    var slots := MarkBlank(ByPosition, doc.pages, 0, base).value;
    CompleteSameSlots(doc.pages, Api(cfg.model, reply), order, Progress(slots, stats, None));
  }

  /**
    * The source's slot rule fails a page range that does not start at page 1: the single
    * page 2 of a one-page selection is written to `refined_pages[1]`, which raises `IndexError`.
    */
  lemma ByIndexFailsFromPageTwo(stats: Stats, cfg: RefineConfig, reply: string -> Completion)
    requires cfg.confirmCost
    ensures RefineDocument(ByIndex, stats, Document("", [Page(2, "text", None)]), cfg, reply, [0]).result == Err(IndexError)
  {
    var p := Page(2, "text", None);
    assert Strip("text") == "text" by {
      StripNoop("text");
    }
    assert Submitted(p);
  }
}
