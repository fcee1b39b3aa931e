/** `NotebookTranslationEngine` (ipynb_translator/translation_engine.py): per-cell and
    batched translation of markdown texts, translation of code cells, and the integer
    statistics. The model service is a `Provider`: a reply for each request, or `None`
    when the call raises. Every operation also returns the requests it issued, in order.
    The engine consults its text processor through a `Processor` record; `Standard` is
    the one the source constructs. */
module Engine {
  import opened Basics
  import opened Strings
  import opened TextUtils
  import opened Comments
  import opened TextUtilsProps

  /** Which system prompt accompanies a request. */
  datatype PromptKind = MarkdownPrompt | BatchPrompt | CodeCommentPrompt

  /** One call to the model: the prompt kind and the user text. */
  datatype Request = Request(kind: PromptKind, body: string)

  /** The model service, fixed for one target language and one translation style. */
  type Provider = Request -> Option<string>

  /** A computed value together with the requests issued to compute it. */
  datatype Run<+T> = Run(value: T, calls: seq<Request>)

  /** The `TextProcessor` operations the engine calls. */
  datatype Processor = Processor(
    shouldSkip: string -> bool,
    clean: string -> string,
    parseBatch: string -> seq<string>,
    hasComments: string -> bool)

  /** The processor the engine constructs: the classifier, sanitiser, batch parser and
      comment detector of `TextProcessor`. */
  const Standard: Processor :=
    Processor(ShouldSkip, CleanResponse, ParseBatchResponse, HasTranslatableComments)

  // ---------------------------------------------------------------------------
  // One markdown cell
  // ---------------------------------------------------------------------------

  /** Whether a text opens and closes with the same quote character. */
  predicate QuoteWrapped(t: string) {
    t != [] && ((t[0] == '"' && t[|t| - 1] == '"') || (t[0] == '\'' && t[|t| - 1] == '\''))
  }

  /** `t[1:-1].strip()` for a quote-wrapped text; any other text is kept. A lone quote
      character unwraps to the empty text. */
  function Unquote(t: string): (r: string)
    ensures !QuoteWrapped(t) ==> r == t
    ensures QuoteWrapped(t) ==> IsStripped(r) && |r| < |t|
    ensures QuoteWrapped(t) && |t| >= 2 ==> r == Strip(t[1..|t| - 1])
  {
    if QuoteWrapped(t) then
      if |t| >= 2 then Strip(t[1..|t| - 1]) else []
    else t
  }

  /** The text a successful reply turns into: stripped, cleaned, unquoted. */
  function MarkdownReply(tp: Processor, reply: string): string {
    Unquote(tp.clean(Strip(reply)))
  }

  /** `translate_markdown_cell`: a skipped text is returned with no call; otherwise one
      call is made, a failed call leaves the text as it was, and a reply is cleaned and
      unquoted. */
  function TranslateMarkdownCell(tp: Processor, p: Provider, text: string): (r: Run<string>)
    ensures tp.shouldSkip(text) ==> r == Run(text, [])
    ensures !tp.shouldSkip(text) ==> r.calls == [Request(MarkdownPrompt, text)]
    ensures !tp.shouldSkip(text) && p(Request(MarkdownPrompt, text)).None? ==> r.value == text
    ensures !tp.shouldSkip(text) && p(Request(MarkdownPrompt, text)).Some? ==>
      var c := tp.clean(Strip(p(Request(MarkdownPrompt, text)).value));
      (!QuoteWrapped(c) ==> r.value == c) &&
      (QuoteWrapped(c) ==> r.value == Unquote(c) && IsStripped(r.value) && |r.value| < |c|)
  {
    if tp.shouldSkip(text) then Run(text, [])
    else
      var req := Request(MarkdownPrompt, text);
      match p(req)
      case None => Run(text, [req])
      case Some(reply) => Run(MarkdownReply(tp, reply), [req])
  }

  /** With the standard processor a translated cell is always stripped, and never
      longer than the reply it came from. */
  lemma {:induction false} StandardReplyIsStripped(reply: string)
    ensures IsStripped(MarkdownReply(Standard, reply))
    ensures |MarkdownReply(Standard, reply)| <= |reply|
  {
    var c := CleanResponse(Strip(reply));
    assert Standard.clean(Strip(reply)) == c;
    assert IsStripped(c) && |c| <= |Strip(reply)| <= |reply|;
    UnquoteKeepsStripped(c);
  }

  lemma UnquoteKeepsStripped(c: string)
    requires IsStripped(c)
    ensures IsStripped(Unquote(c)) && |Unquote(c)| <= |c|
  {
  }

  /** A reply that is a stripped text in double quotes yields that text: no known
      phrase begins or ends with a quote, so only the quotes are removed. */
  lemma {:induction false} QuotedReplyUnwrapped(x: string)
    requires IsStripped(x)
    ensures MarkdownReply(Standard, "\"" + x + "\"") == x
  {
    var q := "\"" + x + "\"";
    assert q[0] == '"' && q[|q| - 1] == '"';
    QuotedIsClean(q);
    assert Standard.clean(Strip(q)) == q;
    assert q[1..|q| - 1] == x;
    StripOfStripped(x);
  }

  /** A text between double quotes needs no cleaning. */
  lemma {:induction false} QuotedIsClean(q: string)
    requires |q| >= 2 && q[0] == '"' && q[|q| - 1] == '"'
    ensures Strip(q) == q && CleanResponse(q) == q
  {
    assert IsStripped(q);
    StripOfStripped(q);
    NoPrefixBeforeQuote(q);
    NoSuffixAfterQuote(q);
    CleanKeepsPlainText(q);
  }

  /** No known preamble starts with a double quote. */
  lemma {:induction false} NoPrefixBeforeQuote(s: string)
    requires s != [] && s[0] == '"'
    ensures FirstPrefix(s, UnwantedPrefixes).None?
  {
    forall j | 0 <= j < |UnwantedPrefixes| ensures !StartsWithIgnoringCase(s, UnwantedPrefixes[j]) {
      assert Lower(UnwantedPrefixes[j])[0] != '"';
      assert Lower(s)[0] == '"';
    }
    FirstPrefixNone(s);
  }

  /** No known closing phrase ends with a double quote. */
  lemma {:induction false} NoSuffixAfterQuote(s: string)
    requires s != [] && s[|s| - 1] == '"'
    ensures FirstSuffix(s, UnwantedSuffixes).None?
  {
    forall j | 0 <= j < |UnwantedSuffixes| ensures !EndsWithIgnoringCase(s, UnwantedSuffixes[j]) {
      var lq := Lower(UnwantedSuffixes[j]);
      assert lq[|lq| - 1] != '"';
      assert Lower(s)[|s| - 1] == '"';
    }
    FirstSuffixNone(s);
  }

  lemma FirstPrefixNone(s: string)
    requires forall j :: 0 <= j < |UnwantedPrefixes| ==> !StartsWithIgnoringCase(s, UnwantedPrefixes[j])
    ensures FirstPrefix(s, UnwantedPrefixes).None?
  {
  }

  lemma FirstSuffixNone(s: string)
    requires forall j :: 0 <= j < |UnwantedSuffixes| ==> !EndsWithIgnoringCase(s, UnwantedSuffixes[j])
    ensures FirstSuffix(s, UnwantedSuffixes).None?
  {
  }

  // ---------------------------------------------------------------------------
  // A batch of markdown cells
  // ---------------------------------------------------------------------------

  /** Which texts the classifier skips. */
  function SkipFlags(tp: Processor, texts: seq<string>): (skip: seq<bool>)
    ensures |skip| == |texts|
    ensures forall i :: 0 <= i < |texts| ==> skip[i] == tp.shouldSkip(texts[i])
  {
    seq(|texts|, i requires 0 <= i < |texts| => tp.shouldSkip(texts[i]))
  }

  /** The number of positions not marked skipped. */
  function Pending(skip: seq<bool>): (n: nat)
    ensures n <= |skip|
    ensures n == 0 <==> forall i :: 0 <= i < |skip| ==> skip[i]
  {
    if skip == [] then 0 else (if skip[0] then 0 else 1) + Pending(skip[1..])
  }

  /** The texts not marked skipped, in their original order. */
  function Kept(texts: seq<string>, skip: seq<bool>): (kept: seq<string>)
    requires |skip| == |texts|
    ensures |kept| == Pending(skip)
  {
    if texts == [] then []
    else (if skip[0] then [] else [texts[0]]) + Kept(texts[1..], skip[1..])
  }

  /** The reconstruction loop: skipped positions keep their text; the others take the
      parsed parts in order while parts remain, and keep their text after that. */
  function Reassemble(texts: seq<string>, skip: seq<bool>, parts: seq<string>): (out: seq<string>)
    requires |skip| == |texts|
    ensures |out| == |texts|
    ensures forall i :: 0 <= i < |texts| && skip[i] ==> out[i] == texts[i]
  {
    if texts == [] then []
    else
      var rest := texts[1..];
      assert forall i :: 1 <= i < |texts| ==> skip[1..][i - 1] == skip[i] && rest[i - 1] == texts[i];
      if skip[0] || parts == [] then [texts[0]] + Reassemble(rest, skip[1..], parts)
      else [parts[0]] + Reassemble(rest, skip[1..], parts[1..])
  }

  /** Position `i` of the reconstruction: a non-skipped position takes the part whose
      number is the count of non-skipped positions before it, if that part exists;
      surplus parts are never used. */
  lemma {:induction false} ReassembleAt(texts: seq<string>, skip: seq<bool>, parts: seq<string>, i: nat)
    requires |skip| == |texts| && i < |texts|
    ensures var n := Pending(skip[..i]);
      Reassemble(texts, skip, parts)[i] ==
        if !skip[i] && n < |parts| then parts[n] else texts[i]
    decreases i
  {
    if i > 0 {
      assert skip[1..][..i - 1] == skip[..i][1..];
      if skip[0] || parts == [] {
        ReassembleAt(texts[1..], skip[1..], parts, i - 1);
      } else {
        ReassembleAt(texts[1..], skip[1..], parts[1..], i - 1);
      }
    }
  }

  /** The kept texts are numbered the same way: a non-skipped position holds the kept
      text whose number is the count of non-skipped positions before it. */
  lemma {:induction false} KeptAt(texts: seq<string>, skip: seq<bool>, i: nat)
    requires |skip| == |texts| && i < |texts| && !skip[i]
    ensures Pending(skip[..i]) < |Kept(texts, skip)|
    ensures Kept(texts, skip)[Pending(skip[..i])] == texts[i]
    decreases i
  {
    if i > 0 {
      assert skip[1..][..i - 1] == skip[..i][1..];
      KeptAt(texts[1..], skip[1..], i - 1);
    }
  }

  /** Reassembling the kept texts themselves gives the batch back. */
  lemma {:induction false} ReassembleKept(texts: seq<string>, skip: seq<bool>)
    requires |skip| == |texts|
    ensures Reassemble(texts, skip, Kept(texts, skip)) == texts
    decreases |texts|
  {
    if texts != [] {
      ReassembleKept(texts[1..], skip[1..]);
      if !skip[0] {
        assert Kept(texts, skip)[1..] == Kept(texts[1..], skip[1..]);
      } else {
        assert Kept(texts, skip) == Kept(texts[1..], skip[1..]);
      }
      assert texts == [texts[0]] + texts[1..];
    }
  }

  /** With no parts at all every position keeps its text. */
  lemma {:induction false} ReassembleNothing(texts: seq<string>, skip: seq<bool>)
    requires |skip| == |texts|
    ensures Reassemble(texts, skip, []) == texts
    decreases |texts|
  {
    if texts != [] {
      ReassembleNothing(texts[1..], skip[1..]);
    }
  }

  /** `_fallback_individual_translation`: every text through `translate_markdown_cell`,
      in order, one call per text the classifier does not skip. */
  function Fallback(tp: Processor, p: Provider, texts: seq<string>): (r: Run<seq<string>>)
    ensures |r.value| == |texts|
    ensures forall i :: 0 <= i < |texts| ==> r.value[i] == TranslateMarkdownCell(tp, p, texts[i]).value
    ensures |r.calls| == Pending(SkipFlags(tp, texts))
    ensures forall k :: 0 <= k < |r.calls| ==> r.calls[k].kind == MarkdownPrompt && r.calls[k].body in texts
  {
    if texts == [] then Run([], [])
    else
      var h := TranslateMarkdownCell(tp, p, texts[0]);
      var t := Fallback(tp, p, texts[1..]);
      FallbackStep(tp, p, texts, h, t);
      Run([h.value] + t.value, h.calls + t.calls)
  }

  /** One more text in front of a fallback run. */
  lemma FallbackStep(tp: Processor, p: Provider, texts: seq<string>, h: Run<string>, t: Run<seq<string>>)
    requires texts != [] && h == TranslateMarkdownCell(tp, p, texts[0])
    requires |t.value| == |texts| - 1
    requires forall i :: 0 <= i < |texts| - 1 ==> t.value[i] == TranslateMarkdownCell(tp, p, texts[1..][i]).value
    requires |t.calls| == Pending(SkipFlags(tp, texts[1..]))
    requires forall k :: 0 <= k < |t.calls| ==> t.calls[k].kind == MarkdownPrompt && t.calls[k].body in texts[1..]
    ensures var r := Run([h.value] + t.value, h.calls + t.calls);
      && |r.value| == |texts|
      && (forall i :: 0 <= i < |texts| ==> r.value[i] == TranslateMarkdownCell(tp, p, texts[i]).value)
      && |r.calls| == Pending(SkipFlags(tp, texts))
  {
    assert SkipFlags(tp, texts)[1..] == SkipFlags(tp, texts[1..]);
    var v := [h.value] + t.value;
    forall i | 0 <= i < |texts| ensures v[i] == TranslateMarkdownCell(tp, p, texts[i]).value {
      if i > 0 {
        assert v[i] == t.value[i - 1] && texts[i] == texts[1..][i - 1];
      }
    }
    MarkdownCallsFrom(texts, h.calls, t.calls);
  }

  lemma MarkdownCallsFrom(texts: seq<string>, head: seq<Request>, tail: seq<Request>)
    requires texts != []
    requires head == [] || head == [Request(MarkdownPrompt, texts[0])]
    requires forall k :: 0 <= k < |tail| ==> tail[k].kind == MarkdownPrompt && tail[k].body in texts[1..]
    ensures forall k :: 0 <= k < |head + tail| ==>
      (head + tail)[k].kind == MarkdownPrompt && (head + tail)[k].body in texts
  {
    forall k | 0 <= k < |head + tail| ensures (head + tail)[k].kind == MarkdownPrompt && (head + tail)[k].body in texts {
      if k >= |head| {
        assert (head + tail)[k] == tail[k - |head|];
        var b := tail[k - |head|].body;
        assert b in texts[1..];
      }
    }
  }

  /** A provider whose every call raises. */
  ghost predicate AlwaysFails(p: Provider) {
    forall req :: p(req).None?
  }

  /** With a failing provider the fallback changes nothing. */
  lemma {:induction false} FallbackFailingKeeps(tp: Processor, p: Provider, texts: seq<string>)
    requires AlwaysFails(p)
    ensures Fallback(tp, p, texts).value == texts
  {
    var r := Fallback(tp, p, texts);
    forall i | 0 <= i < |texts| ensures r.value[i] == texts[i] {
      var c := TranslateMarkdownCell(tp, p, texts[i]);
      assert p(Request(MarkdownPrompt, texts[i])).None?;
    }
  }

  /** The batch request: the texts the classifier keeps, joined by the separator. */
  function BatchRequest(tp: Processor, texts: seq<string>): Request {
    Request(BatchPrompt, Join(Kept(texts, SkipFlags(tp, texts)), CellSeparator))
  }

  /** `translate_markdown_cells_batch`. An empty batch, or one whose every text is
      skipped, is returned with no call. Otherwise one batch request carries the kept
      texts; its reply is parsed and spread over the kept positions, and a failed batch
      call falls back to one call per text. Skipped texts are never changed. */
  function TranslateBatch(tp: Processor, p: Provider, texts: seq<string>): (r: Run<seq<string>>)
    ensures |r.value| == |texts|
    ensures (forall i :: 0 <= i < |texts| ==> tp.shouldSkip(texts[i])) <==> r.calls == []
    ensures r.calls == [] ==> r.value == texts
    ensures forall i :: 0 <= i < |texts| && tp.shouldSkip(texts[i]) ==> r.value[i] == texts[i]
    ensures r.calls != [] ==> r.calls[0] == BatchRequest(tp, texts)
    ensures r.calls != [] && p(BatchRequest(tp, texts)).Some? ==> |r.calls| == 1
    ensures r.calls != [] && p(BatchRequest(tp, texts)).None? ==>
      r.value == Fallback(tp, p, texts).value && r.calls == [BatchRequest(tp, texts)] + Fallback(tp, p, texts).calls
  {
    if texts == [] then Run([], [])
    else
      var skip := SkipFlags(tp, texts);
      var kept := Kept(texts, skip);
      if kept == [] then Run(texts, [])
      else
        var req := Request(BatchPrompt, Join(kept, CellSeparator));
        match p(req)
        case Some(reply) => Run(Reassemble(texts, skip, tp.parseBatch(Strip(reply))), [req])
        case None =>
          var fb := Fallback(tp, p, texts);
          assert forall i :: 0 <= i < |texts| && skip[i] ==> fb.value[i] == texts[i];
          Run(fb.value, [req] + fb.calls)
  }

  /** After a successful batch call, position `i` holds the parsed part numbered by the
      count of kept texts before it, or its own text when the parts ran out. */
  lemma {:induction false} BatchResultAt(tp: Processor, p: Provider, texts: seq<string>, i: nat)
    requires i < |texts| && !tp.shouldSkip(texts[i])
    requires p(BatchRequest(tp, texts)).Some?
    ensures var parts := tp.parseBatch(Strip(p(BatchRequest(tp, texts)).value));
      var n := Pending(SkipFlags(tp, texts)[..i]);
      TranslateBatch(tp, p, texts).value[i] == if n < |parts| then parts[n] else texts[i]
  {
    var skip := SkipFlags(tp, texts);
    KeptAt(texts, skip, i);
    ReassembleAt(texts, skip, tp.parseBatch(Strip(p(BatchRequest(tp, texts)).value)), i);
  }

  /** With a provider that always fails the batch comes back unchanged. */
  lemma {:induction false} BatchFailingKeeps(tp: Processor, p: Provider, texts: seq<string>)
    requires AlwaysFails(p)
    ensures TranslateBatch(tp, p, texts).value == texts
  {
    FallbackFailingKeeps(tp, p, texts);
    if TranslateBatch(tp, p, texts).calls != [] {
      assert p(BatchRequest(tp, texts)).None?;
    }
  }

  /** A provider that answers every request with its own text. */
  ghost predicate Echoes(p: Provider) {
    forall req :: p(req) == Some(req.body)
  }

  /** The batch wire format round-trips through the engine: when the service echoes
      the request and the kept texts are stripped, are kept apart by the join, and
      their join opens and closes with no known phrase, every text comes back
      unchanged. */
  lemma {:induction false} BatchEchoRoundTrip(p: Provider, texts: seq<string>)
    requires Echoes(p)
    requires var kept := Kept(texts, SkipFlags(Standard, texts));
      && (forall i :: 0 <= i < |kept| ==> IsStripped(kept[i]))
      && ApartAtSeparators(kept)
      && FirstPrefix(Join(kept, CellSeparator), UnwantedPrefixes).None?
      && FirstSuffix(Join(kept, CellSeparator), UnwantedSuffixes).None?
    ensures TranslateBatch(Standard, p, texts).value == texts
  {
    var kept := Kept(texts, SkipFlags(Standard, texts));
    if kept != [] {
      var body := Join(kept, CellSeparator);
      assert p(Request(BatchPrompt, body)) == Some(body);
      EchoedBodyParses(kept);
      BatchOfKeptParts(Standard, p, texts);
    }
  }

  /** The standard parser reads the kept texts back from their own join. */
  lemma {:induction false} EchoedBodyParses(kept: seq<string>)
    requires |kept| >= 1
    requires forall i :: 0 <= i < |kept| ==> IsStripped(kept[i])
    requires ApartAtSeparators(kept)
    requires FirstPrefix(Join(kept, CellSeparator), UnwantedPrefixes).None?
    requires FirstSuffix(Join(kept, CellSeparator), UnwantedSuffixes).None?
    ensures Standard.parseBatch(Strip(Join(kept, CellSeparator))) == kept
  {
    var body := Join(kept, CellSeparator);
    EchoedBodyIsStripped(kept);
    BatchWireRoundTrip(kept);
    assert Standard.parseBatch(body) == ParseBatchResponse(body);
  }

  lemma {:induction false} EchoedBodyIsStripped(kept: seq<string>)
    requires forall i :: 0 <= i < |kept| ==> IsStripped(kept[i])
    requires FirstPrefix(Join(kept, CellSeparator), UnwantedPrefixes).None?
    requires FirstSuffix(Join(kept, CellSeparator), UnwantedSuffixes).None?
    ensures Strip(Join(kept, CellSeparator)) == Join(kept, CellSeparator)
  {
    JoinedBodyIsClean(kept);
    StripOfStripped(Join(kept, CellSeparator));
  }

  /** A batch reply that parses to exactly the kept texts leaves the batch unchanged. */
  lemma {:induction false} BatchOfKeptParts(tp: Processor, p: Provider, texts: seq<string>)
    requires p(BatchRequest(tp, texts)).Some?
    requires tp.parseBatch(Strip(p(BatchRequest(tp, texts)).value)) == Kept(texts, SkipFlags(tp, texts))
    ensures TranslateBatch(tp, p, texts).value == texts
  {
    ReassembleKept(texts, SkipFlags(tp, texts));
  }

  // ---------------------------------------------------------------------------
  // Code cells
  // ---------------------------------------------------------------------------

  /** The fence unwrapping of `translate_code_comments`. A text that both starts and
      ends with a fence loses a first line that starts with a fence and a last line
      that is a fence once stripped. A fenced text of one line has no last line left
      to inspect: the source raises there, shown as `None`. */
  function Unfence(t: string): (r: Option<string>)
    ensures !(StartsWith(t, Fence) && EndsWith(t, Fence)) ==> r == Some(t)
  {
    if StartsWith(t, Fence) && EndsWith(t, Fence) then
      var lines := Split(t, "\n");
      var afterOpen := if StartsWith(lines[0], Fence) then lines[1..] else lines;
      if afterOpen == [] then None
      else
        var last := afterOpen[|afterOpen| - 1];
        var body := if Strip(last) == Fence then afterOpen[..|afterOpen| - 1] else afterOpen;
        Some(Join(body, "\n"))
    else Some(t)
  }

  /** A fenced block of lines loses exactly its opening and closing fence lines. */
  lemma {:induction false} UnfenceBlock(first: string, body: seq<string>)
    requires StartsWith(first, Fence) && '\n' !in first
    requires forall i :: 0 <= i < |body| ==> '\n' !in body[i]
    ensures StartsWith(Join([first] + body + [Fence], "\n"), Fence)
    ensures EndsWith(Join([first] + body + [Fence], "\n"), Fence)
    ensures Unfence(Join([first] + body + [Fence], "\n")) == Some(Join(body, "\n"))
  {
    var lines := [first] + body + [Fence];
    FencedLinesHaveNoBreak(first, body);
    SplitJoin(lines, "\n");
    FencedJoinEnds(first, body);
    UnfenceOfLines(Join(lines, "\n"), first, body);
  }

  lemma FencedLinesHaveNoBreak(first: string, body: seq<string>)
    requires '\n' !in first
    requires forall i :: 0 <= i < |body| ==> '\n' !in body[i]
    ensures var lines := [first] + body + [Fence];
      forall i :: 0 <= i < |lines| ==> '\n' !in lines[i]
  {
    var lines := [first] + body + [Fence];
    forall i | 0 <= i < |lines| ensures '\n' !in lines[i] {
      if 0 < i < |lines| - 1 {
        assert lines[i] == body[i - 1];
      }
    }
  }

  lemma FencedJoinEnds(first: string, body: seq<string>)
    requires StartsWith(first, Fence)
    ensures StartsWith(Join([first] + body + [Fence], "\n"), Fence)
    ensures EndsWith(Join([first] + body + [Fence], "\n"), Fence)
  {
    var lines := [first] + body + [Fence];
    var t := Join(lines, "\n");
    JoinSnoc([first] + body, Fence, "\n");
    assert t == Join([first] + body, "\n") + "\n" + Fence;
    assert lines == [first] + (body + [Fence]);
    JoinCons(first, body + [Fence], "\n");
    assert t[..3] == first[..3];
  }

  lemma UnfenceOfLines(t: string, first: string, body: seq<string>)
    requires StartsWith(first, Fence)
    requires StartsWith(t, Fence) && EndsWith(t, Fence)
    requires Split(t, "\n") == [first] + body + [Fence]
    ensures Unfence(t) == Some(Join(body, "\n"))
  {
    var lines := Split(t, "\n");
    assert lines[0] == first && lines[|lines| - 1] == Fence;
    assert lines[1..][..|lines| - 2] == body;
    FenceIsStripped();
    UnfenceOfFencedLines(t, lines);
  }

  /** A fenced reply whose first line opens a fence and whose last line is a fence
      once stripped keeps the lines in between. */
  lemma UnfenceOfFencedLines(t: string, lines: seq<string>)
    requires StartsWith(t, Fence) && EndsWith(t, Fence) && lines == Split(t, "\n")
    requires |lines| >= 2 && StartsWith(lines[0], Fence) && Strip(lines[|lines| - 1]) == Fence
    ensures Unfence(t) == Some(Join(lines[1..][..|lines| - 2], "\n"))
  {
  }

  lemma FenceIsStripped()
    ensures Strip(Fence) == Fence
  {
    assert IsStripped(Fence);
    StripOfStripped(Fence);
  }

  /** A fenced reply on a single line cannot be unwrapped. */
  lemma {:induction false} UnfenceOneLine(t: string)
    requires StartsWith(t, Fence) && EndsWith(t, Fence) && '\n' !in t
    ensures Unfence(t) == None
  {
    SplitJoin([t], "\n");
    assert Split(t, "\n") == [t];
  }

  /** `translate_code_comments`: code without a translatable comment is returned with
      no call. Otherwise the whole code is sent; a failed call, or a reply the fence
      handling raises on, leaves the code as it was. */
  function TranslateCodeComments(tp: Processor, p: Provider, code: string): (r: Run<string>)
    ensures !tp.hasComments(code) ==> r == Run(code, [])
    ensures tp.hasComments(code) ==> r.calls == [Request(CodeCommentPrompt, code)]
    ensures tp.hasComments(code) && p(Request(CodeCommentPrompt, code)).None? ==> r.value == code
    ensures tp.hasComments(code) && p(Request(CodeCommentPrompt, code)).Some? ==>
      var c := tp.clean(Strip(p(Request(CodeCommentPrompt, code)).value));
      && (!(StartsWith(c, Fence) && EndsWith(c, Fence)) ==> r.value == c)
      && (Unfence(c).None? ==> r.value == code)
  {
    if !tp.hasComments(code) then Run(code, [])
    else
      var req := Request(CodeCommentPrompt, code);
      match p(req)
      case None => Run(code, [req])
      case Some(reply) => Run(Unfence(tp.clean(Strip(reply))).GetOr(code), [req])
  }

  /** No known preamble starts with a backtick. */
  lemma {:induction false} NoPrefixBeforeFence(s: string)
    requires StartsWith(s, Fence)
    ensures FirstPrefix(s, UnwantedPrefixes).None?
  {
    assert s[0] == '`';
    forall j | 0 <= j < |UnwantedPrefixes| ensures !StartsWithIgnoringCase(s, UnwantedPrefixes[j]) {
      assert Lower(UnwantedPrefixes[j])[0] != '`';
      assert Lower(s)[0] == '`';
    }
    FirstPrefixNone(s);
  }

  /** No known closing phrase ends with a backtick. */
  lemma {:induction false} NoSuffixAfterFence(s: string)
    requires EndsWith(s, Fence)
    ensures FirstSuffix(s, UnwantedSuffixes).None?
  {
    assert s[|s| - 1] == '`';
    forall j | 0 <= j < |UnwantedSuffixes| ensures !EndsWithIgnoringCase(s, UnwantedSuffixes[j]) {
      var lq := Lower(UnwantedSuffixes[j]);
      assert lq[|lq| - 1] != '`';
      assert Lower(s)[|s| - 1] == '`';
    }
    FirstSuffixNone(s);
  }

  /** A reply that starts and ends with a fence needs no cleaning. */
  lemma {:induction false} FencedIsClean(t: string)
    requires StartsWith(t, Fence) && EndsWith(t, Fence)
    ensures Strip(t) == t && CleanResponse(t) == t
  {
    assert t[0] == '`' && t[|t| - 1] == '`';
    assert IsStripped(t);
    StripOfStripped(t);
    NoPrefixBeforeFence(t);
    NoSuffixAfterFence(t);
    CleanKeepsPlainText(t);
  }

  /** A processor whose sanitiser leaves a text that starts and ends with a fence as
      it is. */
  ghost predicate KeepsFenced(tp: Processor) {
    forall t :: StartsWith(t, Fence) && EndsWith(t, Fence) ==> tp.clean(Strip(t)) == t
  }

  /** The standard sanitiser keeps fenced text: no known phrase starts or ends with a
      backtick. */
  lemma {:induction false} StandardKeepsFenced()
    ensures KeepsFenced(Standard)
  {
    forall t | StartsWith(t, Fence) && EndsWith(t, Fence) ensures Standard.clean(Strip(t)) == t {
      FencedIsClean(t);
    }
  }

  /** A reply that is a fenced block of lines yields the lines inside the fences. */
  lemma {:induction false} FencedReplyUnwrapped(tp: Processor, p: Provider, code: string, first: string, body: seq<string>)
    requires KeepsFenced(tp) && tp.hasComments(code)
    requires StartsWith(first, Fence) && '\n' !in first
    requires forall i :: 0 <= i < |body| ==> '\n' !in body[i]
    requires p(Request(CodeCommentPrompt, code)) == Some(Join([first] + body + [Fence], "\n"))
    ensures TranslateCodeComments(tp, p, code).value == Join(body, "\n")
  {
    var t := Join([first] + body + [Fence], "\n");
    UnfenceBlock(first, body);
    assert tp.clean(Strip(t)) == t;
  }

  /** `translate_code_cells_batch`: every code text through `translate_code_comments`,
      in order. */
  function TranslateCodeCells(tp: Processor, p: Provider, codes: seq<string>): (r: Run<seq<string>>)
    ensures |r.value| == |codes|
    ensures forall i :: 0 <= i < |codes| ==> r.value[i] == TranslateCodeComments(tp, p, codes[i]).value
    ensures forall k :: 0 <= k < |r.calls| ==> r.calls[k].kind == CodeCommentPrompt && r.calls[k].body in codes
  {
    if codes == [] then Run([], [])
    else
      var h := TranslateCodeComments(tp, p, codes[0]);
      var t := TranslateCodeCells(tp, p, codes[1..]);
      var r := Run([h.value] + t.value, h.calls + t.calls);
      assert forall i :: 1 <= i < |codes| ==> r.value[i] == t.value[i - 1] && codes[i] == codes[1..][i - 1];
      r
  }

  /** With a provider that always fails every code cell comes back unchanged. */
  lemma {:induction false} CodeCellsFailingKeep(tp: Processor, p: Provider, codes: seq<string>)
    requires AlwaysFails(p)
    ensures TranslateCodeCells(tp, p, codes).value == codes
  {
    var r := TranslateCodeCells(tp, p, codes);
    forall i | 0 <= i < |codes| ensures r.value[i] == codes[i] {
      assert p(Request(CodeCommentPrompt, codes[i])).None?;
    }
  }

  // ---------------------------------------------------------------------------
  // Statistics
  // ---------------------------------------------------------------------------

  /** The integer fields of `get_translation_stats`. */
  datatype Stats = Stats(
    totalCells: nat,
    translatedCells: nat,
    skippedCells: nat,
    originalChars: nat,
    translatedChars: nat)

  /** The summed length of some texts. */
  function TotalLength(texts: seq<string>): nat {
    if texts == [] then 0 else |texts[0]| + TotalLength(texts[1..])
  }

  lemma {:induction false} TotalLengthSnoc(texts: seq<string>, t: string)
    ensures TotalLength(texts + [t]) == TotalLength(texts) + |t|
  {
    if texts != [] {
      assert (texts + [t])[1..] == texts[1..] + [t];
      TotalLengthSnoc(texts[1..], t);
    }
  }

  function Min(a: nat, b: nat): nat {
    if a <= b then a else b
  }

  /** Extending the paired prefix by one pair adds that pair to exactly one of the
      two index sets. */
  lemma CountsStep(orig: seq<string>, trans: seq<string>, m: nat)
    requires 1 <= m <= |orig| && m <= |trans|
    ensures var o, t := orig[..m - 1], trans[..m - 1];
      var before := |set k | 0 <= k < m - 1 && o[k] != t[k]|;
      var same := |set k | 0 <= k < m - 1 && o[k] == t[k]|;
      && |set k | 0 <= k < m && orig[k] != trans[k]| == before + (if orig[m - 1] != trans[m - 1] then 1 else 0)
      && |set k | 0 <= k < m && orig[k] == trans[k]| == same + (if orig[m - 1] != trans[m - 1] then 0 else 1)
  {
    var o, t := orig[..m - 1], trans[..m - 1];
    var before := set k | 0 <= k < m - 1 && o[k] != t[k];
    var same := set k | 0 <= k < m - 1 && o[k] == t[k];
    assert before == set k | 0 <= k < m - 1 && orig[k] != trans[k];
    assert same == set k | 0 <= k < m - 1 && orig[k] == trans[k];
    if orig[m - 1] != trans[m - 1] {
      assert (set k | 0 <= k < m && orig[k] != trans[k]) == before + {m - 1};
      assert (set k | 0 <= k < m && orig[k] == trans[k]) == same;
    } else {
      assert (set k | 0 <= k < m && orig[k] != trans[k]) == before;
      assert (set k | 0 <= k < m && orig[k] == trans[k]) == same + {m - 1};
    }
  }

  /** Extending the paired prefix by one pair adds its lengths to the totals. */
  lemma TotalsStep(orig: seq<string>, trans: seq<string>, m: nat)
    requires 1 <= m <= |orig| && m <= |trans|
    ensures TotalLength(orig[..m]) == TotalLength(orig[..m - 1]) + |orig[m - 1]|
    ensures TotalLength(trans[..m]) == TotalLength(trans[..m - 1]) + |trans[m - 1]|
    ensures orig[..m] == trans[..m] <==> orig[..m - 1] == trans[..m - 1] && orig[m - 1] == trans[m - 1]
  {
    assert orig[..m] == orig[..m - 1] + [orig[m - 1]];
    assert trans[..m] == trans[..m - 1] + [trans[m - 1]];
    TotalLengthSnoc(orig[..m - 1], orig[m - 1]);
    TotalLengthSnoc(trans[..m - 1], trans[m - 1]);
  }

  /** The counts over the pairs `zip` forms: a pair is translated when its texts
      differ, skipped when they are equal. */
  function Tally(orig: seq<string>, trans: seq<string>): (s: Stats)
    ensures s.totalCells == 0
    ensures s.translatedCells == |set k | 0 <= k < Min(|orig|, |trans|) && orig[k] != trans[k]|
    ensures s.skippedCells == |set k | 0 <= k < Min(|orig|, |trans|) && orig[k] == trans[k]|
    ensures s.translatedCells + s.skippedCells == Min(|orig|, |trans|)
    ensures s.translatedCells == 0 <==> orig[..Min(|orig|, |trans|)] == trans[..Min(|orig|, |trans|)]
    ensures s.originalChars == TotalLength(orig[..Min(|orig|, |trans|)])
    ensures s.translatedChars == TotalLength(trans[..Min(|orig|, |trans|)])
    decreases |orig|
  {
    var m := Min(|orig|, |trans|);
    if m == 0 then
      Stats(0, 0, 0, 0, 0)
    else
      var o, t := orig[..m - 1], trans[..m - 1];
      var rest := Tally(o, t);
      assert o[..m - 1] == o && t[..m - 1] == t;
      CountsStep(orig, trans, m);
      TotalsStep(orig, trans, m);
      var changed := if orig[m - 1] != trans[m - 1] then 1 else 0;
      Stats(0, rest.translatedCells + changed, rest.skippedCells + 1 - changed,
            rest.originalChars + |orig[m - 1]|, rest.translatedChars + |trans[m - 1]|)
  }

  /** `get_translation_stats` without the averages: the total is the length of the
      original list and the rest is counted over the zipped pairs. */
  function TranslationStats(orig: seq<string>, trans: seq<string>): (s: Stats)
    ensures s.totalCells == |orig|
    ensures s.translatedCells == |set k | 0 <= k < Min(|orig|, |trans|) && orig[k] != trans[k]|
    ensures s.skippedCells == |set k | 0 <= k < Min(|orig|, |trans|) && orig[k] == trans[k]|
    ensures s.translatedCells + s.skippedCells == Min(|orig|, |trans|)
    ensures s.translatedCells == 0 <==> orig[..Min(|orig|, |trans|)] == trans[..Min(|orig|, |trans|)]
    ensures s.originalChars == TotalLength(orig[..Min(|orig|, |trans|)])
    ensures s.translatedChars == TotalLength(trans[..Min(|orig|, |trans|)])
  {
    Tally(orig, trans).(totalCells := |orig|)
  }

  /** An unchanged list counts every cell as skipped and the same characters twice. */
  lemma {:induction false} StatsOfUnchanged(texts: seq<string>)
    ensures TranslationStats(texts, texts) ==
      Stats(|texts|, 0, |texts|, TotalLength(texts), TotalLength(texts))
  {
    assert texts[..|texts|] == texts;
  }
}
