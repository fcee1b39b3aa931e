/** The notebook handler: picking the cells worth translating, summarising a notebook,
    writing translations back into cells, naming the output file and checking a
    notebook's structure. A notebook is a value; the handler's in-place updates return
    the updated notebook. */
module NotebookHandler {
  import opened Basics
  import opened Strings
  import opened TextUtils
  import opened Comments
  import opened Paths

  type Metadata = map<string, string>

  /** One notebook cell. `cellType` and `source` are optional because a node read from
      disk may lack them; an absent `execution_count` is the same as `None` and an
      absent `outputs` list the same as an empty one. */
  datatype Cell = Cell(
    cellType: Option<string>,
    source: Option<string>,
    metadata: Metadata,
    executionCount: Option<int>,
    outputs: seq<string>)

  datatype Notebook = Notebook(cells: seq<Cell>, metadata: Metadata, nbformat: int, nbformatMinor: int)

  /** A cell chosen for translation: its position and its text. */
  datatype CellRecord = CellRecord(index: nat, source: string)

  /** Why a handler operation raises instead of returning. */
  datatype HandlerError =
    | Mismatch(records: nat, translations: nat)
    | MissingAttribute(index: nat)

  /** A fresh markdown cell as the notebook library builds it, with copied metadata. */
  function MarkdownCell(text: string, metadata: Metadata): Cell {
    Cell(Some("markdown"), Some(text), metadata, None, [])
  }

  // ---------------------------------------------------------------------------
  // Extraction
  // ---------------------------------------------------------------------------

  /** Reading this cell while looking for cells of type `tag` raises: every cell's type
      is read, and the source of every cell of that type. */
  predicate Unreadable(c: Cell, tag: string) {
    c.cellType.None? || (c.cellType == Some(tag) && c.source.None?)
  }

  /** `rec` names a cell of type `tag` whose non-empty source passes `keep`. */
  predicate Selected(cells: seq<Cell>, tag: string, keep: string -> bool, rec: CellRecord) {
    && rec.index < |cells|
    && cells[rec.index].cellType == Some(tag)
    && cells[rec.index].source == Some(rec.source)
    && rec.source != []
    && keep(rec.source)
  }

  /** The cells of type `tag` from position `i` on whose source is non-empty and passes
      `keep`, in notebook order; `None` when reading a cell raises. */
  function ExtractFrom(cells: seq<Cell>, tag: string, keep: string -> bool, i: nat): (r: Option<seq<CellRecord>>)
    requires i <= |cells|
    ensures r.None? <==> exists j :: i <= j < |cells| && Unreadable(cells[j], tag)
    ensures r.Some? ==> forall k :: 0 <= k < |r.value| ==>
      i <= r.value[k].index && Selected(cells, tag, keep, r.value[k])
    ensures r.Some? ==> forall k, l :: 0 <= k < l < |r.value| ==> r.value[k].index < r.value[l].index
    decreases |cells| - i
  {
    if i == |cells| then Some([])
    else if Unreadable(cells[i], tag) then None
    else
      match ExtractFrom(cells, tag, keep, i + 1)
      case None => None
      case Some(rest) =>
        if cells[i].cellType == Some(tag) && cells[i].source.value != [] && keep(cells[i].source.value) then
          var recs := [CellRecord(i, cells[i].source.value)] + rest;
          assert forall k :: 1 <= k < |recs| ==> recs[k] == rest[k - 1];
          Some(recs)
        else Some(rest)
  }

  /** Every cell that qualifies is extracted. */
  lemma {:induction false} ExtractFromComplete(cells: seq<Cell>, tag: string, keep: string -> bool, i: nat, j: nat)
    returns (k: nat)
    requires i <= j < |cells|
    requires ExtractFrom(cells, tag, keep, i).Some?
    requires cells[j].cellType == Some(tag) && cells[j].source.Some?
    requires cells[j].source.value != [] && keep(cells[j].source.value)
    ensures k < |ExtractFrom(cells, tag, keep, i).value|
    ensures ExtractFrom(cells, tag, keep, i).value[k] == CellRecord(j, cells[j].source.value)
    decreases j - i
  {
    var rest := ExtractFrom(cells, tag, keep, i + 1);
    assert !Unreadable(cells[i], tag);
    if i == j {
      k := 0;
    } else if cells[i].cellType == Some(tag) && cells[i].source.value != [] && keep(cells[i].source.value) {
      var k' := ExtractFromComplete(cells, tag, keep, i + 1, j);
      k := k' + 1;
    } else {
      k := ExtractFromComplete(cells, tag, keep, i + 1, j);
    }
  }

  /** `extract_markdown_cells` and `extract_code_cells`, with the text predicate as a
      parameter. */
  function ExtractCells(nb: Notebook, tag: string, keep: string -> bool): (r: Option<seq<CellRecord>>)
    ensures r.None? <==> exists j :: 0 <= j < |nb.cells| && Unreadable(nb.cells[j], tag)
    ensures r.Some? ==> forall k :: 0 <= k < |r.value| ==> Selected(nb.cells, tag, keep, r.value[k])
    ensures r.Some? ==> forall k, l :: 0 <= k < l < |r.value| ==> r.value[k].index < r.value[l].index
  {
    ExtractFrom(nb.cells, tag, keep, 0)
  }

  /** Extraction is complete: every qualifying cell has a record. */
  lemma {:induction false} ExtractCellsComplete(nb: Notebook, tag: string, keep: string -> bool, j: nat) returns (k: nat)
    requires ExtractCells(nb, tag, keep).Some?
    requires j < |nb.cells| && nb.cells[j].cellType == Some(tag) && nb.cells[j].source.Some?
    requires nb.cells[j].source.value != [] && keep(nb.cells[j].source.value)
    ensures k < |ExtractCells(nb, tag, keep).value|
    ensures ExtractCells(nb, tag, keep).value[k] == CellRecord(j, nb.cells[j].source.value)
  {
    k := ExtractFromComplete(nb.cells, tag, keep, 0, j);
  }

  function ExtractMarkdownCells(nb: Notebook): Option<seq<CellRecord>> {
    ExtractCells(nb, "markdown", HasTranslatableContent)
  }

  function ExtractCodeCells(nb: Notebook): Option<seq<CellRecord>> {
    ExtractCells(nb, "code", HasTranslatableComments)
  }

  // ---------------------------------------------------------------------------
  // Notebook summary
  // ---------------------------------------------------------------------------

  /** A tally of cell types in first-seen order, like a Python dict. */
  type Counts = seq<(string, nat)>

  predicate HasKey(cs: Counts, t: string) {
    exists k :: 0 <= k < |cs| && cs[k].0 == t
  }

  predicate DistinctKeys(cs: Counts) {
    forall k, l :: 0 <= k < l < |cs| ==> cs[k].0 != cs[l].0
  }

  /** `counts.get(t, 0)`. */
  function Get(cs: Counts, t: string): nat {
    if cs == [] then 0
    else if cs[0].0 == t then cs[0].1
    else Get(cs[1..], t)
  }

  function Total(cs: Counts): nat {
    if cs == [] then 0 else cs[0].1 + Total(cs[1..])
  }

  /** `counts[t] = counts.get(t, 0) + 1`: an existing key keeps its place, a new one
      goes last. */
  function Bump(cs: Counts, t: string): (r: Counts)
    ensures Get(r, t) == Get(cs, t) + 1
    ensures forall u :: u != t ==> Get(r, u) == Get(cs, u)
    ensures Total(r) == Total(cs) + 1
    ensures |r| == if HasKey(cs, t) then |cs| else |cs| + 1
    ensures forall k :: 0 <= k < |cs| ==> r[k].0 == cs[k].0
    ensures !HasKey(cs, t) ==> r[|cs|].0 == t
    ensures DistinctKeys(cs) ==> DistinctKeys(r)
    decreases |cs|
  {
    if cs == [] then [(t, 1)]
    else if cs[0].0 == t then [(t, cs[0].1 + 1)] + cs[1..]
    else
      var rest := Bump(cs[1..], t);
      HasKeyTail(cs, t);
      BumpCons(cs, t, rest);
      [cs[0]] + rest
  }

  lemma HasKeyTail(cs: Counts, t: string)
    requires cs != [] && cs[0].0 != t
    ensures HasKey(cs, t) <==> HasKey(cs[1..], t)
  {
    if HasKey(cs, t) {
      var k :| 0 <= k < |cs| && cs[k].0 == t;
      assert cs[1..][k - 1].0 == t;
    }
    if HasKey(cs[1..], t) {
      var k :| 0 <= k < |cs| - 1 && cs[1..][k].0 == t;
      assert cs[k + 1].0 == t;
    }
  }

  /** Keys and distinctness when the first entry stays in front of the bumped rest. */
  lemma BumpCons(cs: Counts, t: string, rest: Counts)
    requires cs != [] && cs[0].0 != t
    requires |rest| >= |cs| - 1
    requires forall k :: 0 <= k < |cs| - 1 ==> rest[k].0 == cs[1..][k].0
    requires !HasKey(cs[1..], t) ==> |rest| == |cs| && rest[|cs| - 1].0 == t
    requires HasKey(cs[1..], t) ==> |rest| == |cs| - 1
    requires DistinctKeys(cs[1..]) ==> DistinctKeys(rest)
    ensures forall k :: 0 <= k < |cs| ==> ([cs[0]] + rest)[k].0 == cs[k].0
    ensures DistinctKeys(cs) ==> DistinctKeys([cs[0]] + rest)
  {
    var r := [cs[0]] + rest;
    forall k | 0 <= k < |cs| ensures r[k].0 == cs[k].0 {
      if k > 0 {
        assert r[k] == rest[k - 1];
      }
    }
    if DistinctKeys(cs) {
      assert DistinctKeys(cs[1..]);
      forall k, l | 0 <= k < l < |r| ensures r[k].0 != r[l].0 {
        if k == 0 {
          assert r[l] == rest[l - 1];
          if l < |cs| {
            assert cs[l].0 != cs[0].0;
          }
        } else {
          assert r[k] == rest[k - 1] && r[l] == rest[l - 1];
        }
      }
    }
  }

  /** Number of cells whose type is `t`. */
  function CountType(cells: seq<Cell>, t: string): nat {
    if cells == [] then 0
    else CountType(cells[..|cells| - 1], t) + (if cells[|cells| - 1].cellType == Some(t) then 1 else 0)
  }

  /** The `cell_counts` loop of `get_notebook_info`; `None` when a cell has no type. */
  function TypeCounts(cells: seq<Cell>): (r: Option<Counts>)
    ensures r.None? <==> exists j :: 0 <= j < |cells| && cells[j].cellType.None?
    ensures r.Some? ==> forall t :: Get(r.value, t) == CountType(cells, t)
    ensures r.Some? ==> Total(r.value) == |cells|
    ensures r.Some? ==> DistinctKeys(r.value)
    decreases |cells|
  {
    if cells == [] then Some([])
    else
      var init := cells[..|cells| - 1];
      assert forall j :: 0 <= j < |init| ==> init[j] == cells[j];
      match TypeCounts(init)
      case None => None
      case Some(cs) =>
        match cells[|cells| - 1].cellType
        case None => None
        case Some(t) => Some(Bump(cs, t))
  }

  /** The integer and string part of `get_notebook_info`. */
  datatype Info = Info(
    totalCells: nat,
    cellCounts: Counts,
    translatableMarkdown: nat,
    translatableCode: nat,
    nbformat: int,
    nbformatMinor: int)

  /** `get_notebook_info`; `None` when reading a cell raises. */
  function NotebookInfo(nb: Notebook): (r: Option<Info>)
    ensures r.Some? <==> forall j :: 0 <= j < |nb.cells| ==>
      && nb.cells[j].cellType.Some?
      && (nb.cells[j].cellType.value in {"markdown", "code"} ==> nb.cells[j].source.Some?)
    ensures r.Some? ==> Total(r.value.cellCounts) == r.value.totalCells == |nb.cells|
    ensures r.Some? ==> forall t :: Get(r.value.cellCounts, t) == CountType(nb.cells, t)
    ensures r.Some? ==> r.value.translatableMarkdown == |ExtractMarkdownCells(nb).value|
    ensures r.Some? ==> r.value.translatableCode == |ExtractCodeCells(nb).value|
  {
    match TypeCounts(nb.cells)
    case None => None
    case Some(counts) =>
      match ExtractMarkdownCells(nb)
      case None => None
      case Some(md) =>
        match ExtractCodeCells(nb)
        case None => None
        case Some(code) =>
          Some(Info(|nb.cells|, counts, |md|, |code|, nb.nbformat, nb.nbformatMinor))
  }

  /** The extracted cells are among the cells of their type. */
  lemma {:induction false} ExtractedWithinCount(cells: seq<Cell>, tag: string, keep: string -> bool, i: nat)
    requires i <= |cells|
    requires ExtractFrom(cells, tag, keep, i).Some?
    ensures |ExtractFrom(cells, tag, keep, i).value| <= CountType(cells[i..], tag)
    decreases |cells| - i
  {
    if i < |cells| {
      ExtractedWithinCount(cells, tag, keep, i + 1);
      CountTypeCons(cells[i], cells[i + 1..], tag);
      assert cells[i..] == [cells[i]] + cells[i + 1..];
    }
  }

  /** Counting from the front. */
  lemma {:induction false} CountTypeCons(c: Cell, cells: seq<Cell>, t: string)
    ensures CountType([c] + cells, t) == CountType(cells, t) + (if c.cellType == Some(t) then 1 else 0)
    decreases |cells|
  {
    var all := [c] + cells;
    if cells != [] {
      var init := cells[..|cells| - 1];
      assert all[..|all| - 1] == [c] + init;
      assert all[|all| - 1] == cells[|cells| - 1];
      CountTypeCons(c, init, t);
    } else {
      assert all[..0] == [];
    }
  }

  /** In the summary, no more cells are translatable than there are cells of that type. */
  lemma InfoTranslatableBounded(nb: Notebook)
    requires NotebookInfo(nb).Some?
    ensures NotebookInfo(nb).value.translatableMarkdown <= Get(NotebookInfo(nb).value.cellCounts, "markdown")
    ensures NotebookInfo(nb).value.translatableCode <= Get(NotebookInfo(nb).value.cellCounts, "code")
  {
    assert nb.cells[0..] == nb.cells;
    ExtractedWithinCount(nb.cells, "markdown", HasTranslatableContent, 0);
    ExtractedWithinCount(nb.cells, "code", HasTranslatableComments, 0);
  }

  // ---------------------------------------------------------------------------
  // Writing translations back
  // ---------------------------------------------------------------------------

  /** The `translation_map` dict: positions to texts, a later record for the same
      position overriding an earlier one. */
  function TranslationMap(records: seq<CellRecord>, ts: seq<string>): map<nat, string>
    requires |records| == |ts|
    decreases |records|
  {
    if records == [] then map[]
    else
      var n := |records| - 1;
      TranslationMap(records[..n], ts[..n])[records[n].index := ts[n]]
  }

  /** The map holds exactly the recorded positions, each with the text of the last
      record naming it. */
  lemma TranslationMapSpec(records: seq<CellRecord>, ts: seq<string>)
    requires |records| == |ts|
    ensures forall i :: i in TranslationMap(records, ts) <==> !Untouched(records, i)
    ensures forall k :: 0 <= k < |records| && LastFor(records, k) ==>
      records[k].index in TranslationMap(records, ts) && TranslationMap(records, ts)[records[k].index] == ts[k]
  {
    TranslationMapDomain(records, ts);
    forall k | 0 <= k < |records| && LastFor(records, k)
      ensures TranslationMap(records, ts)[records[k].index] == ts[k]
    {
      TranslationMapLast(records, ts, k);
    }
  }

  lemma {:induction false} TranslationMapDomain(records: seq<CellRecord>, ts: seq<string>)
    requires |records| == |ts|
    ensures forall i :: i in TranslationMap(records, ts) <==> !Untouched(records, i)
    decreases |records|
  {
    if records != [] {
      var n := |records| - 1;
      var rs := records[..n];
      var m := TranslationMap(rs, ts[..n]);
      TranslationMapDomain(rs, ts[..n]);
      var m' := TranslationMap(records, ts);
      assert m' == m[records[n].index := ts[n]];
      forall i ensures i in m' <==> !Untouched(records, i) {
        if i in m {
          var k :| 0 <= k < n && rs[k].index == i;
          assert records[k].index == i;
        }
        if !Untouched(records, i) {
          var k :| 0 <= k < |records| && records[k].index == i;
          if k < n {
            assert rs[k].index == i;
          }
        }
      }
    }
  }

  lemma {:induction false} TranslationMapLast(records: seq<CellRecord>, ts: seq<string>, k: nat)
    requires |records| == |ts| && k < |records| && LastFor(records, k)
    ensures records[k].index in TranslationMap(records, ts)
    ensures TranslationMap(records, ts)[records[k].index] == ts[k]
    decreases |records|
  {
    var n := |records| - 1;
    var rs := records[..n];
    if k < n {
      assert LastFor(rs, k) by {
        forall l | k < l < n ensures rs[l].index != rs[k].index {
          assert rs[l] == records[l];
        }
      }
      TranslationMapLast(rs, ts[..n], k);
      assert rs[k] == records[k] && ts[..n][k] == ts[k];
    }
  }

  /** Applies `f` to every cell with its position; fails with the error of the first
      cell `f` rejects, as a loop that raises would. */
  function MapCells(cells: seq<Cell>, f: (nat, Cell) -> Result<Cell, HandlerError>): (r: Result<seq<Cell>, HandlerError>)
    ensures r.Ok? <==> forall j :: 0 <= j < |cells| ==> f(j, cells[j]).Ok?
    ensures r.Ok? ==> |r.value| == |cells| && forall j :: 0 <= j < |cells| ==> r.value[j] == f(j, cells[j]).value
    ensures r.Err? ==>
      exists j :: 0 <= j < |cells| && f(j, cells[j]) == Err(r.error) && (forall l :: 0 <= l < j ==> f(l, cells[l]).Ok?)
    decreases |cells|
  {
    if cells == [] then Ok([])
    else
      var n := |cells| - 1;
      var init := cells[..n];
      assert forall j :: 0 <= j < n ==> init[j] == cells[j];
      match MapCells(init, f)
      case Err(e) => Err(e)
      case Ok(done) =>
        match f(n, cells[n])
        case Err(e) => Err(e)
        case Ok(c) => Ok(done + [c])
  }

  /** One iteration of the loop in `update_markdown_cells`. */
  function RebuildCell(m: map<nat, string>, j: nat, c: Cell): Result<Cell, HandlerError> {
    if j in m then Ok(MarkdownCell(m[j], c.metadata))
    else if c.cellType.None? then Err(MissingAttribute(j))
    else if c.cellType == Some("code") then
      if c.source.None? then Err(MissingAttribute(j))
      else Ok(c.(outputs := []))
    else Ok(c)
  }

  /** No record names position `j`. */
  predicate Untouched(records: seq<CellRecord>, j: nat) {
    forall k :: 0 <= k < |records| ==> records[k].index != j
  }

  /** Record `k` is the last one naming its position. */
  predicate LastFor(records: seq<CellRecord>, k: nat)
    requires k < |records|
  {
    forall l :: k < l < |records| ==> records[l].index != records[k].index
  }

  /** `update_markdown_cells`: a notebook with the same metadata and one cell per
      original cell. A translated position becomes a markdown cell with the
      translation and the old cell's metadata; an untranslated code cell is rebuilt
      with its source, metadata and execution count but no outputs; any other cell is
      kept. The counts must agree, and reading an untranslated cell may raise. */
  function UpdateMarkdownCells(nb: Notebook, records: seq<CellRecord>, ts: seq<string>): (r: Result<Notebook, HandlerError>)
    ensures |records| != |ts| ==> r == Err(Mismatch(|records|, |ts|))
    ensures r.Ok? <==> |records| == |ts| && forall j :: 0 <= j < |nb.cells| && Untouched(records, j) ==>
      !Unreadable(nb.cells[j], "code")
    ensures r.Ok? ==> |r.value.cells| == |nb.cells| && r.value.metadata == nb.metadata
    ensures r.Ok? ==> forall k :: 0 <= k < |records| && records[k].index < |nb.cells| && LastFor(records, k) ==>
      r.value.cells[records[k].index] == MarkdownCell(ts[k], nb.cells[records[k].index].metadata)
    ensures r.Ok? ==> forall j :: 0 <= j < |nb.cells| && Untouched(records, j) ==>
      r.value.cells[j] == if nb.cells[j].cellType == Some("code") then nb.cells[j].(outputs := []) else nb.cells[j]
  {
    if |records| != |ts| then Err(Mismatch(|records|, |ts|))
    else
      var m := TranslationMap(records, ts);
      TranslationMapSpec(records, ts);
      match MapCells(nb.cells, (j: nat, c: Cell) => RebuildCell(m, j, c))
      case Err(e) => Err(e)
      case Ok(cells) => Ok(Notebook(cells, nb.metadata, nb.nbformat, nb.nbformatMinor))
  }

  /** One iteration of the loop in `update_code_cells`. */
  function ReplaceCodeSource(m: map<nat, string>, j: nat, c: Cell): Result<Cell, HandlerError> {
    if j !in m then Ok(c)
    else if c.cellType.None? then Err(MissingAttribute(j))
    else if c.cellType == Some("code") then Ok(c.(source := Some(m[j])))
    else Ok(c)
  }

  /** `update_code_cells`: only the source of a translated position holding a code cell
      changes; everything else, including outputs and execution counts, is kept. The
      counts must agree, and a translated position whose cell has no type raises. */
  function UpdateCodeCells(nb: Notebook, records: seq<CellRecord>, ts: seq<string>): (r: Result<Notebook, HandlerError>)
    ensures |records| != |ts| ==> r == Err(Mismatch(|records|, |ts|))
    ensures r.Ok? <==> |records| == |ts| && forall j :: 0 <= j < |nb.cells| && !Untouched(records, j) ==>
      nb.cells[j].cellType.Some?
    ensures r.Ok? ==> r.value.(cells := nb.cells) == nb && |r.value.cells| == |nb.cells|
    ensures r.Ok? ==> forall k :: 0 <= k < |records| && records[k].index < |nb.cells| && LastFor(records, k) ==>
      r.value.cells[records[k].index] ==
        if nb.cells[records[k].index].cellType == Some("code")
        then nb.cells[records[k].index].(source := Some(ts[k]))
        else nb.cells[records[k].index]
    ensures r.Ok? ==> forall j :: 0 <= j < |nb.cells| && Untouched(records, j) ==> r.value.cells[j] == nb.cells[j]
  {
    if |records| != |ts| then Err(Mismatch(|records|, |ts|))
    else
      var m := TranslationMap(records, ts);
      TranslationMapSpec(records, ts);
      match MapCells(nb.cells, (j: nat, c: Cell) => ReplaceCodeSource(m, j, c))
      case Err(e) => Err(e)
      case Ok(cells) => Ok(nb.(cells := cells))
  }

  // ---------------------------------------------------------------------------
  // Output file name
  // ---------------------------------------------------------------------------

  /** `generate_output_filename`. */
  function OutputFileName(inputPath: string, language: string): (r: string)
    ensures StartsWith(r, DirPrefix(inputPath))
    ensures EndsWith(r, "_translated_" + language + Suffix(BaseName(inputPath)))
    ensures var x := Suffix(BaseName(inputPath));
      |x| <= |inputPath| && r == inputPath[..|inputPath| - |x|] + "_translated_" + language + x
  {
    var name := BaseName(inputPath);
    var x := Suffix(name);
    var head := DirPrefix(inputPath) + Stem(name);
    var tail := "_translated_" + language + x;
    var r := head + tail;
    SplitBeforeSuffix(inputPath, DirPrefix(inputPath), name);
    OutputNameEnds(DirPrefix(inputPath), Stem(name), tail);
    InsertBeforeSuffix(head, language, x);
    r
  }

  /** A name built as directory, stem and tail starts with the directory and ends
      with the tail. */
  lemma OutputNameEnds(dir: string, stem: string, tail: string)
    ensures StartsWith(dir + stem + tail, dir)
    ensures EndsWith(dir + stem + tail, tail)
  {
    var r := dir + stem + tail;
    assert r[..|dir|] == dir;
    assert r[|r| - |tail|..] == tail;
  }

  /** The marker, the language and the suffix read the same grouped either way. */
  lemma InsertBeforeSuffix(head: string, language: string, x: string)
    ensures head + ("_translated_" + language + x) == head + "_translated_" + language + x
  {
  }

  /** A path is its directory, its name's stem and its name's suffix, in that order. */
  lemma SplitBeforeSuffix(path: string, dir: string, name: string)
    requires dir + name == path
    ensures |Suffix(name)| <= |path|
    ensures path[..|path| - |Suffix(name)|] == dir + Stem(name)
  {
    StemSuffix(name);
    assert path == (dir + Stem(name)) + Suffix(name);
  }

  /** A notebook `dir/nb.ipynb` becomes `dir/nb_translated_<language>.ipynb`. */
  lemma NotebookOutputName(dir: string, stem: string, language: string)
    requires dir == [] || dir[|dir| - 1] == '/'
    requires stem != [] && '/' !in stem && '.' !in stem
    ensures OutputFileName(dir + stem + ".ipynb", language) == dir + stem + "_translated_" + language + ".ipynb"
  {
    var name := stem + ".ipynb";
    var path := dir + stem + ".ipynb";
    assert path == dir + name;
    PathParts(dir, name);
    IpynbStemSuffix(stem);
    assert BaseName(path) == name && DirPrefix(path) == dir;
    var tail := "_translated_" + language + ".ipynb";
    assert OutputFileName(path, language) == dir + stem + tail;
    ConcatTail(dir + stem, "_translated_", language, ".ipynb");
  }

  lemma ConcatTail(a: string, b: string, c: string, d: string)
    ensures a + (b + c + d) == a + b + c + d
  {
  }

  // ---------------------------------------------------------------------------
  // Validation
  // ---------------------------------------------------------------------------

  /** The outcome of `validate_notebook`: passed, or the first failing cell and why. */
  datatype Verdict =
    | Passed
    | MissingType(index: nat)
    | InvalidType(index: nat, cellType: string)
    | MissingSource(index: nat)

  const CellTypes: set<string> := {"markdown", "code", "raw"}

  predicate WellFormed(c: Cell) {
    c.cellType.Some? && c.cellType.value in CellTypes && c.source.Some?
  }

  /** The first complaint about a single cell, in the order the checks run. */
  function CellVerdict(c: Cell, i: nat): (v: Verdict)
    ensures v.Passed? <==> WellFormed(c)
  {
    if c.cellType.None? then MissingType(i)
    else if c.cellType.value !in CellTypes then InvalidType(i, c.cellType.value)
    else if c.source.None? then MissingSource(i)
    else Passed
  }

  function ValidateFrom(cells: seq<Cell>, i: nat): (v: Verdict)
    requires i <= |cells|
    ensures v.Passed? <==> forall j :: i <= j < |cells| ==> WellFormed(cells[j])
    ensures !v.Passed? ==> i <= v.index < |cells| && v == CellVerdict(cells[v.index], v.index)
    ensures !v.Passed? ==> forall j :: i <= j < v.index ==> WellFormed(cells[j])
    decreases |cells| - i
  {
    if i == |cells| then Passed
    else if !WellFormed(cells[i]) then CellVerdict(cells[i], i)
    else ValidateFrom(cells, i + 1)
  }

  /** `validate_notebook`: passes exactly when every cell has a known type and a
      source; otherwise names the first cell that does not. */
  function ValidateNotebook(nb: Notebook): (v: Verdict)
    ensures v.Passed? <==> forall j :: 0 <= j < |nb.cells| ==> WellFormed(nb.cells[j])
    ensures !v.Passed? ==> v.index < |nb.cells| && v == CellVerdict(nb.cells[v.index], v.index)
    ensures !v.Passed? ==> forall j :: 0 <= j < v.index ==> WellFormed(nb.cells[j])
  {
    ValidateFrom(nb.cells, 0)
  }

  /** A notebook that passes validation can be read: its summary and both extractions
      succeed, and writing back as many translations as records never raises. */
  lemma ValidatedIsReadable(nb: Notebook, records: seq<CellRecord>, ts: seq<string>)
    requires ValidateNotebook(nb).Passed?
    requires |records| == |ts|
    ensures NotebookInfo(nb).Some?
    ensures ExtractMarkdownCells(nb).Some? && ExtractCodeCells(nb).Some?
    ensures UpdateMarkdownCells(nb, records, ts).Ok?
    ensures UpdateCodeCells(nb, records, ts).Ok?
  {
    assert forall j :: 0 <= j < |nb.cells| ==> WellFormed(nb.cells[j]);
  }
}
