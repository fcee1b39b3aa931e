/** The parts of the command-line driver that decide what is sent to the engine and in
    which order the translations are written back: the markdown texts are cut into
    batches of a fixed size, and the markdown update runs before the code update. */
module Driver {
  import opened Basics
  import opened Engine
  import opened NotebookHandler
  import opened TextUtils
  import opened Comments

  datatype DriverError =
    | ZeroBatchSize
    | Invalid(verdict: Verdict)
    | NothingToTranslate
    | Handler(error: HandlerError)

  // ---------------------------------------------------------------------------
  // Batching
  // ---------------------------------------------------------------------------

  /** All the pieces, one after another. */
  function Flatten<T>(xss: seq<seq<T>>): seq<T> {
    if xss == [] then [] else xss[0] + Flatten(xss[1..])
  }

  /** The slices `texts[i:i+b]` for `i` in `range(0, len(texts), b)`: in order they
      make up the texts, and every slice but the last holds exactly `b` of them. */
  function Chunks<T>(texts: seq<T>, b: nat): (cs: seq<seq<T>>)
    requires b > 0
    ensures Flatten(cs) == texts
    ensures forall k :: 0 <= k < |cs| ==> 1 <= |cs[k]| <= b
    ensures forall k :: 0 <= k < |cs| - 1 ==> |cs[k]| == b
    ensures texts == [] ==> cs == []
    ensures |texts| <= b ==> |cs| <= 1
    decreases |texts|
  {
    if texts == [] then []
    else if |texts| <= b then [texts]
    else
      var rest := Chunks(texts[b..], b);
      FlattenCons(texts[..b], rest);
      [texts[..b]] + rest
  }

  lemma FlattenCons<T>(x: seq<T>, xss: seq<seq<T>>)
    ensures Flatten([x] + xss) == x + Flatten(xss)
  {
    assert ([x] + xss)[1..] == xss;
  }

  /** The progress total the `translate` command prints, `(n - 1) // b + 1`, is the
      number of chunks. */
  lemma {:induction false} ChunkCount<T>(texts: seq<T>, b: nat)
    requires b > 0 && texts != []
    ensures |Chunks(texts, b)| == (|texts| - 1) / b + 1
    decreases |texts|
  {
    if |texts| <= b {
      DivSmall(|texts| - 1, b);
    } else {
      ChunkCount(texts[b..], b);
      DivShift(|texts| - 1 - b, b);
    }
  }

  lemma DivSmall(y: int, b: int)
    requires b > 0 && 0 <= y < b
    ensures y / b == 0
  {
  }

  /** Adding the divisor adds one to the quotient. */
  lemma {:induction false} DivShift(x: int, b: int)
    requires b > 0 && x >= 0
    ensures (x + b) / b == x / b + 1
  {
    var q := x / b;
    var r := x % b;
    assert x == q * b + r;
    assert x + b == (q + 1) * b + r;
    DivUnique(x + b, b, q + 1, r);
  }

  /** Euclidean division has one quotient. */
  lemma {:induction false} DivUnique(y: int, b: int, q: int, r: int)
    requires b > 0 && 0 <= r < b && y == q * b + r
    ensures y / b == q
  {
    var q0 := y / b;
    var r0 := y % b;
    assert y == q0 * b + r0;
    assert (q - q0) * b == r0 - r;
    if q > q0 {
      MulAtLeast(q - q0, b);
    } else if q < q0 {
      MulAtLeast(q0 - q, b);
    }
  }

  lemma {:induction false} MulAtLeast(k: int, b: int)
    requires k >= 1 && b > 0
    ensures k * b >= b
  {
    if k > 1 {
      MulAtLeast(k - 1, b);
      assert k * b == (k - 1) * b + b;
    }
  }

  /** One batch call per chunk, the translations concatenated in order. */
  function TranslateChunks(tp: Processor, p: Provider, cs: seq<seq<string>>): (r: Run<seq<string>>)
    ensures |r.value| == |Flatten(cs)|
    ensures r.calls == [] ==> r.value == Flatten(cs)
    ensures cs != [] ==> r.value == TranslateBatch(tp, p, cs[0]).value + TranslateChunks(tp, p, cs[1..]).value
  {
    if cs == [] then Run([], [])
    else
      var head := TranslateBatch(tp, p, cs[0]);
      var tail := TranslateChunks(tp, p, cs[1..]);
      Run(head.value + tail.value, head.calls + tail.calls)
  }

  /** How the driver translates the markdown texts with batch size `b`: nothing to do
      for no texts, one batch when they fit, otherwise one batch per chunk. A zero batch
      size makes the chunking loop raise; a negative one makes it run no iteration. */
  function TranslateInBatches(tp: Processor, p: Provider, texts: seq<string>, b: int): (r: Result<Run<seq<string>>, DriverError>)
    ensures texts == [] ==> r == Ok(Run([], []))
    ensures r.Err? <==> b == 0 && texts != []
    ensures r.Err? ==> r.error == ZeroBatchSize
    ensures b > 0 ==> |r.value.value| == |texts|
    ensures b < 0 && texts != [] ==> r == Ok(Run([], []))
    ensures texts != [] && |texts| <= b ==> r == Ok(TranslateBatch(tp, p, texts))
    ensures r.Ok? && r.value.calls == [] && b > 0 ==> r.value.value == texts
    ensures b > 0 && texts != [] ==> r == Ok(TranslateChunks(tp, p, Chunks(texts, b)))
  {
    if texts == [] then Ok(Run([], []))
    else if |texts| <= b then
      OneChunk(tp, p, texts, b);
      Ok(TranslateBatch(tp, p, texts))
    else if b == 0 then Err(ZeroBatchSize)
    else if b < 0 then Ok(Run([], []))
    else
      Ok(TranslateChunks(tp, p, Chunks(texts, b)))
  }

  /** The one-batch shortcut for texts that fit gives the same texts and makes the
      same calls as the chunking loop would. */
  lemma ShortcutIsOneChunk(tp: Processor, p: Provider, texts: seq<string>, b: int)
    requires texts != [] && |texts| <= b
    ensures TranslateInBatches(tp, p, texts, b) == Ok(TranslateChunks(tp, p, Chunks(texts, b)))
  {
    OneChunk(tp, p, texts, b);
  }

  /** Texts that fit in one batch are one chunk, translated by one batch call. */
  lemma OneChunk(tp: Processor, p: Provider, texts: seq<string>, b: int)
    requires texts != [] && |texts| <= b
    ensures TranslateChunks(tp, p, Chunks(texts, b)) == TranslateBatch(tp, p, texts)
  {
    var head := TranslateBatch(tp, p, texts);
    assert Chunks(texts, b) == [texts];
    assert [texts][1..] == [];
    assert head.value + [] == head.value && head.calls + [] == head.calls;
    assert TranslateChunks(tp, p, [texts]) == Run(head.value + [], head.calls + []);
  }

  /** The chunk holding position `i` of the flattened chunks, and where it starts. */
  function Locate(cs: seq<seq<string>>, i: nat): (r: (nat, nat))
    requires i < |Flatten(cs)|
    ensures r.0 < |cs| && r.1 <= i < r.1 + |cs[r.0]| <= |Flatten(cs)|
    ensures Flatten(cs)[r.1..r.1 + |cs[r.0]|] == cs[r.0]
  {
    assert Flatten(cs) == cs[0] + Flatten(cs[1..]);
    if i < |cs[0]| then (0, 0)
    else
      var (k, start) := Locate(cs[1..], i - |cs[0]|);
      SliceAfter(cs[0], Flatten(cs[1..]), start, |cs[k + 1]|);
      (k + 1, start + |cs[0]|)
  }

  /** Every translated text comes from the batch call on the chunk holding it, at its
      place within that chunk. */
  lemma {:induction false} TranslateChunksAt(tp: Processor, p: Provider, cs: seq<seq<string>>, i: nat)
    requires i < |Flatten(cs)|
    ensures TranslateChunks(tp, p, cs).value[i] == TranslateBatch(tp, p, cs[Locate(cs, i).0]).value[i - Locate(cs, i).1]
  {
    assert Flatten(cs) == cs[0] + Flatten(cs[1..]);
    if i >= |cs[0]| {
      TranslateChunksAt(tp, p, cs[1..], i - |cs[0]|);
    }
  }

  lemma SliceAfter<T>(x: seq<T>, y: seq<T>, s: nat, l: nat)
    requires s + l <= |y|
    ensures (x + y)[|x| + s..|x| + s + l] == y[s..s + l]
  {
  }

  /** With a provider that always fails, batching hands back every text unchanged. */
  lemma {:induction false} ChunksFailingKeep(tp: Processor, p: Provider, cs: seq<seq<string>>)
    requires AlwaysFails(p)
    ensures TranslateChunks(tp, p, cs).value == Flatten(cs)
  {
    if cs != [] {
      BatchFailingKeeps(tp, p, cs[0]);
      ChunksFailingKeep(tp, p, cs[1..]);
      FlattenCons(cs[0], cs[1..]);
      assert [cs[0]] + cs[1..] == cs;
    }
  }

  lemma InBatchesFailingKeep(tp: Processor, p: Provider, texts: seq<string>, b: int)
    requires AlwaysFails(p) && b > 0
    ensures TranslateInBatches(tp, p, texts, b) == Ok(Run(texts, TranslateInBatches(tp, p, texts, b).value.calls))
  {
    if texts != [] && |texts| <= b {
      BatchFailingKeeps(tp, p, texts);
    } else if texts != [] {
      ChunksFailingKeep(tp, p, Chunks(texts, b));
    }
  }

  // ---------------------------------------------------------------------------
  // Writing back
  // ---------------------------------------------------------------------------

  /** The driver's update step: the markdown translations are written first when there
      are markdown records, then the code translations when there are code records. */
  function ApplyTranslations(nb: Notebook, md: seq<CellRecord>, mdT: seq<string>, code: seq<CellRecord>, codeT: seq<string>): (r: Result<Notebook, HandlerError>)
    ensures md == [] && code == [] ==> r == Ok(nb)
    ensures md != [] && |md| != |mdT| ==> r == Err(Mismatch(|md|, |mdT|))
    ensures md == [] && code != [] && |code| != |codeT| ==> r == Err(Mismatch(|code|, |codeT|))
    ensures code != [] && |code| != |codeT| ==> r.Err?
    ensures r.Ok? ==> |r.value.cells| == |nb.cells| && r.value.metadata == nb.metadata
  {
    var afterMarkdown := if md != [] then UpdateMarkdownCells(nb, md, mdT) else Ok(nb);
    match afterMarkdown
    case Err(e) => Err(e)
    case Ok(nb1) => if code != [] then UpdateCodeCells(nb1, code, codeT) else Ok(nb1)
  }

  /** Record indices that strictly increase name every position at most once. */
  lemma IncreasingIsLast(records: seq<CellRecord>, k: nat)
    requires k < |records|
    requires forall i, j :: 0 <= i < j < |records| ==> records[i].index < records[j].index
    ensures LastFor(records, k)
  {
  }

  /** No record of cells of type `tag` names a cell of another type. */
  lemma OtherTypeUntouched(nb: Notebook, tag: string, keep: string -> bool, j: nat)
    requires ExtractCells(nb, tag, keep).Some?
    requires j < |nb.cells| && nb.cells[j].cellType != Some(tag)
    ensures Untouched(ExtractCells(nb, tag, keep).value, j)
  {
    var recs := ExtractCells(nb, tag, keep).value;
    forall k | 0 <= k < |recs| ensures recs[k].index != j {
      assert Selected(nb.cells, tag, keep, recs[k]);
    }
  }

  /** A cell as the markdown update leaves it when it names no markdown record: code
      cells lose their outputs, but only when there was a markdown update at all. */
  function Cleared(c: Cell, markdownUpdated: bool): Cell {
    if markdownUpdated && c.cellType == Some("code") then c.(outputs := []) else c
  }

  /** What the driver's two updates do to a valid notebook, given as many translations
      as records: every markdown record's cell becomes a fresh markdown cell holding its
      translation; every code record's cell gets its translation as source and keeps
      its outputs only if no markdown update ran; every other cell is kept, except that
      the markdown update drops the outputs of code cells. */
  lemma {:induction false} UpdateOrder(nb: Notebook, md: seq<CellRecord>, mdT: seq<string>, code: seq<CellRecord>, codeT: seq<string>)
    requires ValidateNotebook(nb).Passed?
    requires ExtractMarkdownCells(nb) == Some(md)
    requires code == [] || ExtractCodeCells(nb) == Some(code)
    requires |mdT| == |md| && |codeT| == |code|
    ensures ApplyTranslations(nb, md, mdT, code, codeT).Ok?
    ensures forall k :: 0 <= k < |md| ==> (md[k].index < |nb.cells| &&
      ApplyTranslations(nb, md, mdT, code, codeT).value.cells[md[k].index] ==
        MarkdownCell(mdT[k], nb.cells[md[k].index].metadata))
    ensures forall k :: 0 <= k < |code| ==> (code[k].index < |nb.cells| &&
      ApplyTranslations(nb, md, mdT, code, codeT).value.cells[code[k].index] ==
        Cleared(nb.cells[code[k].index], md != []).(source := Some(codeT[k])))
    ensures forall j :: 0 <= j < |nb.cells| && Untouched(md, j) && Untouched(code, j) ==>
      ApplyTranslations(nb, md, mdT, code, codeT).value.cells[j] == Cleared(nb.cells[j], md != [])
  {
    ValidatedIsReadable(nb, md, mdT);
    var nb1 := if md != [] then UpdateMarkdownCells(nb, md, mdT).value else nb;
    MarkdownStep(nb, md, mdT);
    MarkdownKeepsValid(nb, md, nb1);
    ValidatedIsReadable(nb1, code, codeT);
    if code != [] {
      CodeStep(nb, nb1, md != [], code, codeT);
      CodeSparesMarkdown(nb, md, code, nb1, codeT);
    }
  }

  /** `out` is `nb` with the translations `mdT` of the markdown records `md` and `codeT`
      of the code records `code` written back: each markdown record's cell is a fresh
      markdown cell holding its translation under the old metadata, each code record's
      cell takes its translation as source and loses its outputs when markdown was
      updated, and every other cell is kept but for those cleared outputs. */
  predicate WrittenBack(nb: Notebook, md: seq<CellRecord>, mdT: seq<string>, code: seq<CellRecord>, codeT: seq<string>, out: Notebook) {
    && |out.cells| == |nb.cells| && |mdT| == |md| && |codeT| == |code|
    && (forall k :: 0 <= k < |md| ==> (md[k].index < |nb.cells| &&
      out.cells[md[k].index] == MarkdownCell(mdT[k], nb.cells[md[k].index].metadata)))
    && (forall k :: 0 <= k < |code| ==> (code[k].index < |nb.cells| &&
      out.cells[code[k].index] == Cleared(nb.cells[code[k].index], md != []).(source := Some(codeT[k]))))
    && (forall j :: 0 <= j < |nb.cells| && Untouched(md, j) && Untouched(code, j) ==>
      out.cells[j] == Cleared(nb.cells[j], md != []))
  }

  /** The two updates write every translation back into its own cell. */
  lemma UpdateWritesBack(nb: Notebook, md: seq<CellRecord>, mdT: seq<string>, code: seq<CellRecord>, codeT: seq<string>)
    requires ValidateNotebook(nb).Passed?
    requires ExtractMarkdownCells(nb) == Some(md)
    requires code == [] || ExtractCodeCells(nb) == Some(code)
    requires |mdT| == |md| && |codeT| == |code|
    ensures ApplyTranslations(nb, md, mdT, code, codeT).Ok?
    ensures WrittenBack(nb, md, mdT, code, codeT, ApplyTranslations(nb, md, mdT, code, codeT).value)
  {
    UpdateOrder(nb, md, mdT, code, codeT);
  }

  /** The code update leaves the cells of the markdown records alone. */
  lemma CodeSparesMarkdown(nb: Notebook, md: seq<CellRecord>, code: seq<CellRecord>, nb1: Notebook, codeT: seq<string>)
    requires ExtractMarkdownCells(nb) == Some(md) && ExtractCodeCells(nb) == Some(code)
    requires |nb1.cells| == |nb.cells| && UpdateCodeCells(nb1, code, codeT).Ok?
    ensures forall k :: 0 <= k < |md| ==> (md[k].index < |nb.cells| &&
      UpdateCodeCells(nb1, code, codeT).value.cells[md[k].index] == nb1.cells[md[k].index])
  {
    forall k | 0 <= k < |md|
      ensures md[k].index < |nb.cells| && UpdateCodeCells(nb1, code, codeT).value.cells[md[k].index] == nb1.cells[md[k].index]
    {
      assert Selected(nb.cells, "markdown", HasTranslatableContent, md[k]);
      OtherTypeUntouched(nb, "code", HasTranslatableComments, md[k].index);
    }
  }

  /** The markdown update alone, on a valid notebook. */
  lemma MarkdownStep(nb: Notebook, md: seq<CellRecord>, mdT: seq<string>)
    requires ValidateNotebook(nb).Passed?
    requires ExtractMarkdownCells(nb) == Some(md)
    requires |mdT| == |md|
    ensures var nb1 := if md != [] then UpdateMarkdownCells(nb, md, mdT).value else nb;
      && |nb1.cells| == |nb.cells| && nb1.metadata == nb.metadata
      && (forall k :: 0 <= k < |md| ==> (md[k].index < |nb.cells| &&
           nb1.cells[md[k].index] == MarkdownCell(mdT[k], nb.cells[md[k].index].metadata)))
      && (forall j :: 0 <= j < |nb.cells| && Untouched(md, j) ==> nb1.cells[j] == Cleared(nb.cells[j], md != []))
  {
    if md != [] {
      ValidatedIsReadable(nb, md, mdT);
      RecordsAreLast(nb, "markdown", HasTranslatableContent);
    }
  }

  /** Extracted records name cells in the notebook, each position at most once. */
  lemma RecordsAreLast(nb: Notebook, tag: string, keep: string -> bool)
    requires ExtractCells(nb, tag, keep).Some?
    ensures var records := ExtractCells(nb, tag, keep).value;
      forall k :: 0 <= k < |records| ==> records[k].index < |nb.cells| && LastFor(records, k)
  {
    var records := ExtractCells(nb, tag, keep).value;
    forall k | 0 <= k < |records| ensures records[k].index < |nb.cells| && LastFor(records, k) {
      assert Selected(nb.cells, tag, keep, records[k]);
      IncreasingIsLast(records, k);
    }
  }

  /** The markdown update keeps a valid notebook valid. */
  lemma MarkdownKeepsValid(nb: Notebook, md: seq<CellRecord>, nb1: Notebook)
    requires ValidateNotebook(nb).Passed?
    requires |nb1.cells| == |nb.cells|
    requires forall k :: 0 <= k < |md| ==> (md[k].index < |nb.cells| &&
      nb1.cells[md[k].index].cellType == Some("markdown") && nb1.cells[md[k].index].source.Some?)
    requires forall j :: 0 <= j < |nb.cells| && Untouched(md, j) ==> nb1.cells[j] == Cleared(nb.cells[j], md != [])
    ensures ValidateNotebook(nb1).Passed?
  {
    forall j | 0 <= j < |nb1.cells| ensures WellFormed(nb1.cells[j]) {
      assert WellFormed(nb.cells[j]);
      if !Untouched(md, j) {
        var k :| 0 <= k < |md| && md[k].index == j;
      }
    }
  }

  /** The code update after the markdown update: the code cells it names were left by
      the markdown update with at most their outputs cleared. */
  lemma CodeStep(nb: Notebook, nb1: Notebook, cleared: bool, code: seq<CellRecord>, codeT: seq<string>)
    requires ExtractCodeCells(nb) == Some(code)
    requires |codeT| == |code|
    requires |nb1.cells| == |nb.cells|
    requires forall j :: 0 <= j < |nb.cells| && nb.cells[j].cellType == Some("code") ==>
      nb1.cells[j] == Cleared(nb.cells[j], cleared)
    requires UpdateCodeCells(nb1, code, codeT).Ok?
    ensures forall k :: 0 <= k < |code| ==> (code[k].index < |nb.cells| &&
      UpdateCodeCells(nb1, code, codeT).value.cells[code[k].index] ==
        Cleared(nb.cells[code[k].index], cleared).(source := Some(codeT[k])))
  {
    RecordsAreLast(nb, "code", HasTranslatableComments);
  }

  // ---------------------------------------------------------------------------
  // One notebook
  // ---------------------------------------------------------------------------

  /** The translated notebook and every request issued, markdown batches first. */
  datatype Translated = Translated(notebook: Notebook, calls: seq<Request>)

  /** The texts of the records, in order. */
  function Sources(records: seq<CellRecord>): (texts: seq<string>)
    ensures |texts| == |records|
    ensures forall k :: 0 <= k < |records| ==> texts[k] == records[k].source
  {
    seq(|records|, k requires 0 <= k < |records| => records[k].source)
  }

  /** `translate_single_notebook` up to the point where the result is saved: validate,
      give up when nothing is translatable, translate the markdown texts in batches and
      the code texts when code translation is on, then write both back. Every exception
      the driver catches becomes an error. */
  function TranslateNotebook(p: Provider, nb: Notebook, batchSize: int, translateCode: bool): (r: Result<Translated, DriverError>)
    ensures !ValidateNotebook(nb).Passed? ==> r == Err(Invalid(ValidateNotebook(nb)))
    ensures r == Err(NothingToTranslate) <==>
      && ValidateNotebook(nb).Passed?
      && ExtractMarkdownCells(nb) == Some([])
      && (!translateCode || ExtractCodeCells(nb) == Some([]))
    ensures r == Err(ZeroBatchSize) <==>
      ValidateNotebook(nb).Passed? && batchSize == 0 && ExtractMarkdownCells(nb) != Some([])
    ensures r.Ok? <==>
      && ValidateNotebook(nb).Passed?
      && (ExtractMarkdownCells(nb) != Some([]) || (translateCode && ExtractCodeCells(nb) != Some([])))
      && (batchSize > 0 || ExtractMarkdownCells(nb) == Some([]))
    ensures batchSize < 0 && ValidateNotebook(nb).Passed? && ExtractMarkdownCells(nb) != Some([]) ==>
      r == Err(Handler(Mismatch(|ExtractMarkdownCells(nb).value|, 0)))
    ensures r.Ok? ==> |r.value.notebook.cells| == |nb.cells| && r.value.notebook.metadata == nb.metadata
    ensures r.Ok? ==>
      var md := ExtractMarkdownCells(nb).value;
      var code := if translateCode then ExtractCodeCells(nb).value else [];
      WrittenBack(nb, md, TranslateInBatches(Standard, p, Sources(md), batchSize).value.value,
        code, TranslateCodeCells(Standard, p, Sources(code)).value, r.value.notebook)
  {
    var verdict := ValidateNotebook(nb);
    if !verdict.Passed? then Err(Invalid(verdict))
    else
      InfoOfValid(nb);
      var info := NotebookInfo(nb).value;
      if info.translatableMarkdown == 0 && (!translateCode || info.translatableCode == 0) then
        Err(NothingToTranslate)
      else
        var md := ExtractMarkdownCells(nb).value;
        var code := if translateCode then ExtractCodeCells(nb).value else [];
        TranslateRecords(p, nb, md, code, batchSize)
  }

  /** A valid notebook has a summary, and its translatable counts are zero exactly when
      the extractions come back empty. */
  lemma InfoOfValid(nb: Notebook)
    requires ValidateNotebook(nb).Passed?
    ensures NotebookInfo(nb).Some? && ExtractMarkdownCells(nb).Some? && ExtractCodeCells(nb).Some?
    ensures NotebookInfo(nb).value.translatableMarkdown == 0 <==> ExtractMarkdownCells(nb) == Some([])
    ensures NotebookInfo(nb).value.translatableCode == 0 <==> ExtractCodeCells(nb) == Some([])
  {
    ValidatedIsReadable(nb, [], []);
  }

  /** The translation and write-back of the extracted records of a valid notebook: it
      fails only for a batch size the chunking loop cannot use while there is markdown
      to translate. */
  function TranslateRecords(p: Provider, nb: Notebook, md: seq<CellRecord>, code: seq<CellRecord>, batchSize: int): (r: Result<Translated, DriverError>)
    requires ValidateNotebook(nb).Passed?
    requires ExtractMarkdownCells(nb) == Some(md)
    requires code == [] || ExtractCodeCells(nb) == Some(code)
    ensures r == Err(ZeroBatchSize) <==> batchSize == 0 && md != []
    ensures r.Ok? <==> batchSize > 0 || md == []
    ensures batchSize < 0 && md != [] ==> r == Err(Handler(Mismatch(|md|, 0)))
    ensures r.Ok? ==> |r.value.notebook.cells| == |nb.cells| && r.value.notebook.metadata == nb.metadata
    ensures r.Ok? ==> WrittenBack(nb, md, TranslateInBatches(Standard, p, Sources(md), batchSize).value.value,
      code, TranslateCodeCells(Standard, p, Sources(code)).value, r.value.notebook)
  {
    match TranslateInBatches(Standard, p, Sources(md), batchSize)
    case Err(e) => Err(e)
    case Ok(mdRun) =>
      var codeRun := if code != [] then TranslateCodeCells(Standard, p, Sources(code)) else Run([], []);
      if |mdRun.value| == |md| then
        UpdateWritesBack(nb, md, mdRun.value, code, codeRun.value);
        WriteBack(nb, md, mdRun, code, codeRun)
      else
        WriteBack(nb, md, mdRun, code, codeRun)
  }

  /** The write-back step of the driver, with the requests of both translation runs. */
  function WriteBack(nb: Notebook, md: seq<CellRecord>, mdRun: Run<seq<string>>, code: seq<CellRecord>, codeRun: Run<seq<string>>): Result<Translated, DriverError> {
    match ApplyTranslations(nb, md, mdRun.value, code, codeRun.value)
    case Err(e) => Err(Handler(e))
    case Ok(out) => Ok(Translated(out, mdRun.calls + codeRun.calls))
  }

  /** Writing every record's own text back keeps each cell's type and text. */
  lemma IdentityWriteBack(nb: Notebook, md: seq<CellRecord>, code: seq<CellRecord>)
    requires ValidateNotebook(nb).Passed?
    requires ExtractMarkdownCells(nb) == Some(md)
    requires code == [] || ExtractCodeCells(nb) == Some(code)
    ensures ApplyTranslations(nb, md, Sources(md), code, Sources(code)).Ok?
    ensures forall j :: 0 <= j < |nb.cells| ==>
      && ApplyTranslations(nb, md, Sources(md), code, Sources(code)).value.cells[j].cellType == nb.cells[j].cellType
      && ApplyTranslations(nb, md, Sources(md), code, Sources(code)).value.cells[j].source == nb.cells[j].source
  {
    UpdateOrder(nb, md, Sources(md), code, Sources(code));
    KeepsText(nb, md, code, ApplyTranslations(nb, md, Sources(md), code, Sources(code)).value);
  }

  lemma KeepsText(nb: Notebook, md: seq<CellRecord>, code: seq<CellRecord>, out: Notebook)
    requires ExtractMarkdownCells(nb) == Some(md)
    requires code == [] || ExtractCodeCells(nb) == Some(code)
    requires |out.cells| == |nb.cells|
    requires forall k :: 0 <= k < |md| ==> (md[k].index < |nb.cells| &&
      out.cells[md[k].index] == MarkdownCell(Sources(md)[k], nb.cells[md[k].index].metadata))
    requires forall k :: 0 <= k < |code| ==> (code[k].index < |nb.cells| &&
      out.cells[code[k].index] == Cleared(nb.cells[code[k].index], md != []).(source := Some(Sources(code)[k])))
    requires forall j :: 0 <= j < |nb.cells| && Untouched(md, j) && Untouched(code, j) ==>
      out.cells[j] == Cleared(nb.cells[j], md != [])
    ensures forall j :: 0 <= j < |nb.cells| ==>
      out.cells[j].cellType == nb.cells[j].cellType && out.cells[j].source == nb.cells[j].source
  {
    forall j | 0 <= j < |nb.cells| ensures out.cells[j].cellType == nb.cells[j].cellType && out.cells[j].source == nb.cells[j].source {
      if !Untouched(md, j) {
        var k :| 0 <= k < |md| && md[k].index == j;
        assert Selected(nb.cells, "markdown", HasTranslatableContent, md[k]);
      } else if !Untouched(code, j) {
        var k :| 0 <= k < |code| && code[k].index == j;
        assert Selected(nb.cells, "code", HasTranslatableComments, code[k]);
      }
    }
  }

  /** When every model call fails, a translated notebook still comes out, with every
      cell's type and text as they were; only outputs and cell metadata may differ. */
  lemma FailingProviderKeepsText(p: Provider, nb: Notebook, batchSize: int, translateCode: bool)
    requires AlwaysFails(p)
    requires TranslateNotebook(p, nb, batchSize, translateCode).Ok?
    ensures forall j :: 0 <= j < |nb.cells| ==>
      && TranslateNotebook(p, nb, batchSize, translateCode).value.notebook.cells[j].cellType == nb.cells[j].cellType
      && TranslateNotebook(p, nb, batchSize, translateCode).value.notebook.cells[j].source == nb.cells[j].source
  {
    InfoOfValid(nb);
    var md := ExtractMarkdownCells(nb).value;
    var code := if translateCode then ExtractCodeCells(nb).value else [];
    assert TranslateNotebook(p, nb, batchSize, translateCode) == TranslateRecords(p, nb, md, code, batchSize);
    RecordsFailingKeepText(p, nb, md, code, batchSize);
  }

  lemma RecordsFailingKeepText(p: Provider, nb: Notebook, md: seq<CellRecord>, code: seq<CellRecord>, batchSize: int)
    requires AlwaysFails(p)
    requires ValidateNotebook(nb).Passed?
    requires ExtractMarkdownCells(nb) == Some(md)
    requires code == [] || ExtractCodeCells(nb) == Some(code)
    requires TranslateRecords(p, nb, md, code, batchSize).Ok?
    ensures forall j :: 0 <= j < |nb.cells| ==>
      && TranslateRecords(p, nb, md, code, batchSize).value.notebook.cells[j].cellType == nb.cells[j].cellType
      && TranslateRecords(p, nb, md, code, batchSize).value.notebook.cells[j].source == nb.cells[j].source
  {
    var mdRun := TranslateInBatches(Standard, p, Sources(md), batchSize).value;
    if md != [] {
      InBatchesFailingKeep(Standard, p, Sources(md), batchSize);
    }
    assert mdRun.value == Sources(md);
    var codeRun := if code != [] then TranslateCodeCells(Standard, p, Sources(code)) else Run([], []);
    CodeCellsFailingKeep(Standard, p, Sources(code));
    assert codeRun.value == Sources(code);
    assert TranslateRecords(p, nb, md, code, batchSize) == WriteBack(nb, md, mdRun, code, codeRun);
    IdentityWriteBack(nb, md, code);
  }
}
