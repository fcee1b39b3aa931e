/** The `#`-comment extractor and replacer of `TextProcessor`
    (ipynb_translator/text_utils.py). A line holds a comment when the text before its
    first `#` has an even number of both quote characters; the comment is the stripped
    text after that `#`, unless it is empty or starts with another `#`. */
module Comments {
  import opened Basics
  import opened Strings
  import opened TextUtils

  /** One located comment: its 0-based line, its stripped content, and the whole line. */
  datatype Comment = Comment(line: nat, content: string, originalLine: string)

  /** The lines of a code text, `code.split('\n')`. */
  function Lines(code: string): (lines: seq<string>)
    ensures |lines| >= 1
  {
    Split(code, "\n")
  }

  /** The heuristic guard against a `#` inside a string literal. */
  predicate QuotesBalanced(before: string) {
    CountChar(before, '"') % 2 == 0 && CountChar(before, '\'') % 2 == 0
  }

  /** The comment one line contributes, if any. */
  function LineComment(line: string): (c: Option<string>)
    ensures '#' !in line ==> c.None?
    ensures c.Some? ==> c.value != [] && c.value[0] != '#' && IsStripped(c.value)
  {
    match FindChar(line, '#')
    case None => None
    case Some(k) =>
      if QuotesBalanced(line[..k]) then
        var content := Strip(line[k + 1..]);
        if content != [] && content[0] != '#' then Some(content) else None
      else None
  }

  /** For a line whose first `#` is at `k`: the line carries the comment `t` exactly
      when the quotes before `k` balance and `t` is the stripped rest of the line, not
      empty and not starting with another `#`. */
  lemma {:induction false} LineCommentAt(line: string, k: nat, t: string)
    requires k < |line| && line[k] == '#' && '#' !in line[..k]
    ensures LineComment(line) == Some(t) <==>
      QuotesBalanced(line[..k]) && t == Strip(line[k + 1..]) && t != [] && t[0] != '#'
  {
    FindCharAt(line, '#', k);
  }

  /** The comment of each line, computed once. */
  function LineComments(lines: seq<string>): (found: seq<Option<string>>)
    ensures |found| == |lines|
    ensures forall j :: 0 <= j < |lines| ==> found[j] == LineComment(lines[j])
  {
    seq(|lines|, j requires 0 <= j < |lines| => LineComment(lines[j]))
  }

  /** The comments of `lines[i..]` given each line's comment in `found`, numbered by
      their position in `lines`, in order. */
  function Collect(lines: seq<string>, found: seq<Option<string>>, i: nat): (cs: seq<Comment>)
    requires |found| == |lines| && i <= |lines|
    ensures forall k :: 0 <= k < |cs| ==>
      && i <= cs[k].line < |lines|
      && cs[k].originalLine == lines[cs[k].line]
      && found[cs[k].line] == Some(cs[k].content)
    ensures forall k, m :: 0 <= k < m < |cs| ==> cs[k].line < cs[m].line
    decreases |lines| - i
  {
    if i == |lines| then []
    else
      var rest := Collect(lines, found, i + 1);
      match found[i]
      case Some(c) =>
        var cs := [Comment(i, c, lines[i])] + rest;
        assert forall k :: 1 <= k < |cs| ==> cs[k] == rest[k - 1];
        cs
      case None => rest
  }

  /** No line is missed: every line whose entry in `found` is a comment is listed. */
  lemma {:induction false} CollectComplete(lines: seq<string>, found: seq<Option<string>>, i: nat, j: nat)
    returns (k: nat)
    requires |found| == |lines| && i <= j < |lines| && found[j].Some?
    ensures k < |Collect(lines, found, i)| && Collect(lines, found, i)[k].line == j
    decreases j - i
  {
    var rest := Collect(lines, found, i + 1);
    var cs := Collect(lines, found, i);
    if j == i {
      k := 0;
      assert cs == [Comment(i, found[i].value, lines[i])] + rest;
    } else {
      var k' := CollectComplete(lines, found, i + 1, j);
      if found[i].Some? {
        assert cs == [Comment(i, found[i].value, lines[i])] + rest;
        k := k' + 1;
        assert cs[k] == rest[k'];
      } else {
        k := k';
      }
    }
  }

  /** `extract_code_comments`: the comment lines in ascending line order, each with its
      comment and the unmodified line. */
  function ExtractComments(code: string): (cs: seq<Comment>)
    ensures forall k :: 0 <= k < |cs| ==>
      && cs[k].line < |Lines(code)|
      && cs[k].originalLine == Lines(code)[cs[k].line]
      && LineComment(cs[k].originalLine) == Some(cs[k].content)
    ensures forall k, m :: 0 <= k < m < |cs| ==> cs[k].line < cs[m].line
  {
    var lines := Lines(code);
    Collect(lines, LineComments(lines), 0)
  }

  /** Every line that carries a comment appears among the extracted comments. */
  lemma {:induction false} ExtractCommentsComplete(code: string, j: nat) returns (k: nat)
    requires j < |Lines(code)| && LineComment(Lines(code)[j]).Some?
    ensures k < |ExtractComments(code)| && ExtractComments(code)[k].line == j
  {
    var lines := Lines(code);
    k := CollectComplete(lines, LineComments(lines), 0, j);
  }

  /** A comment worth sending: non-empty after stripping and not skipped. */
  predicate IsTranslatableComment(content: string) {
    var c := Strip(content);
    c != [] && !ShouldSkip(c)
  }

  /** `has_translatable_comments`: the code is not blank and some extracted comment is
      worth sending. */
  predicate HasTranslatableComments(code: string) {
    && !AllSpace(code)
    && exists k :: 0 <= k < |ExtractComments(code)| && IsTranslatableComment(ExtractComments(code)[k].content)
  }

  /** A code text has translatable comments exactly when it is not blank and one of
      its lines carries a comment that is not skipped. */
  lemma {:induction false} TranslatableCommentsByLine(code: string)
    ensures HasTranslatableComments(code) <==>
      && !AllSpace(code)
      && exists j :: 0 <= j < |Lines(code)| && LineComment(Lines(code)[j]).Some?
                     && IsTranslatableComment(LineComment(Lines(code)[j]).value)
  {
    CommentsByLine(code, c => IsTranslatableComment(c));
  }

  /** Some extracted comment passes a test exactly when some line's comment does. */
  lemma CommentsByLine(code: string, test: string -> bool)
    ensures (exists k :: 0 <= k < |ExtractComments(code)| && test(ExtractComments(code)[k].content)) <==>
      (exists j :: 0 <= j < |Lines(code)| && LineComment(Lines(code)[j]).Some?
                   && test(LineComment(Lines(code)[j]).value))
  {
    var cs := ExtractComments(code);
    if exists k :: 0 <= k < |cs| && test(cs[k].content) {
      var k :| 0 <= k < |cs| && test(cs[k].content);
      CommentFromLine(code, k);
    }
    if exists j :: 0 <= j < |Lines(code)| && LineComment(Lines(code)[j]).Some?
                   && test(LineComment(Lines(code)[j]).value) {
      var j :| 0 <= j < |Lines(code)| && LineComment(Lines(code)[j]).Some?
               && test(LineComment(Lines(code)[j]).value);
      var k := LineFromComment(code, j);
    }
  }

  lemma CommentFromLine(code: string, k: nat)
    requires k < |ExtractComments(code)|
    ensures var j := ExtractComments(code)[k].line;
      && j < |Lines(code)|
      && LineComment(Lines(code)[j]) == Some(ExtractComments(code)[k].content)
  {
  }

  lemma LineFromComment(code: string, j: nat) returns (k: nat)
    requires j < |Lines(code)| && LineComment(Lines(code)[j]).Some?
    ensures k < |ExtractComments(code)|
    ensures ExtractComments(code)[k].content == LineComment(Lines(code)[j]).value
  {
    k := ExtractCommentsComplete(code, j);
  }

  // ---------------------------------------------------------------------------
  // Replacement
  // ---------------------------------------------------------------------------

  /** `line[:idx+1] + ' ' + translation`, where `idx` is the line's first `#`. */
  function Rebuild(line: string, translation: string): string {
    match FindChar(line, '#')
    case Some(k) => line[..k + 1] + " " + translation
    case None => line
  }

  /** The line updates applied pair by pair, the pair with the largest line first, as
      the source sorts them in descending line order before assigning. */
  function ApplyReplacements(lines: seq<string>, cs: seq<Comment>, ts: seq<string>): (out: seq<string>)
    requires |cs| == |ts|
    requires forall k :: 0 <= k < |cs| ==> cs[k].line < |lines|
    ensures |out| == |lines|
    decreases |cs|
  {
    if cs == [] then lines
    else
      var n := |cs| - 1;
      ApplyReplacements(lines[cs[n].line := Rebuild(cs[n].originalLine, ts[n])], cs[..n], ts[..n])
  }

  /** With distinct lines, exactly the listed lines change, each to its rebuilt form. */
  lemma ApplyReplacementsSpec(lines: seq<string>, cs: seq<Comment>, ts: seq<string>)
    requires |cs| == |ts|
    requires forall k :: 0 <= k < |cs| ==> cs[k].line < |lines|
    requires forall k, m :: 0 <= k < m < |cs| ==> cs[k].line < cs[m].line
    ensures var out := ApplyReplacements(lines, cs, ts);
      && (forall k :: 0 <= k < |cs| ==> out[cs[k].line] == Rebuild(cs[k].originalLine, ts[k]))
      && (forall j :: 0 <= j < |lines| && (forall k :: 0 <= k < |cs| ==> cs[k].line != j) ==> out[j] == lines[j])
  {
    forall k | 0 <= k < |cs| ensures ApplyReplacements(lines, cs, ts)[cs[k].line] == Rebuild(cs[k].originalLine, ts[k]) {
      ReplacementLands(lines, cs, ts, k);
    }
    ReplacementsKeepOthers(lines, cs, ts);
  }

  /** Lines no pair names keep their text. */
  lemma {:induction false} ReplacementsKeepOthers(lines: seq<string>, cs: seq<Comment>, ts: seq<string>)
    requires |cs| == |ts|
    requires forall k :: 0 <= k < |cs| ==> cs[k].line < |lines|
    ensures forall j :: 0 <= j < |lines| && (forall k :: 0 <= k < |cs| ==> cs[k].line != j) ==>
      ApplyReplacements(lines, cs, ts)[j] == lines[j]
    decreases |cs|
  {
    if cs != [] {
      var n := |cs| - 1;
      var lines' := lines[cs[n].line := Rebuild(cs[n].originalLine, ts[n])];
      ReplacementsKeepOthers(lines', cs[..n], ts[..n]);
      forall j | 0 <= j < |lines| && (forall k :: 0 <= k < |cs| ==> cs[k].line != j)
        ensures ApplyReplacements(lines, cs, ts)[j] == lines[j]
      {
        assert forall k :: 0 <= k < n ==> cs[..n][k].line != j;
      }
    }
  }

  /** The pair `k` leaves its rebuilt line behind, since no later-applied pair names
      the same line. */
  lemma {:induction false} ReplacementLands(lines: seq<string>, cs: seq<Comment>, ts: seq<string>, k: nat)
    requires |cs| == |ts| && k < |cs|
    requires forall i :: 0 <= i < |cs| ==> cs[i].line < |lines|
    requires forall i, m :: 0 <= i < m < |cs| ==> cs[i].line < cs[m].line
    ensures ApplyReplacements(lines, cs, ts)[cs[k].line] == Rebuild(cs[k].originalLine, ts[k])
    decreases |cs|
  {
    var n := |cs| - 1;
    var lines' := lines[cs[n].line := Rebuild(cs[n].originalLine, ts[n])];
    if k < n {
      ReplacementLands(lines', cs[..n], ts[..n], k);
      assert cs[..n][k] == cs[k] && ts[..n][k] == ts[k];
    } else {
      ReplacementsKeepOthers(lines', cs[..n], ts[..n]);
      forall i | 0 <= i < n ensures cs[..n][i].line != cs[n].line {
        assert cs[i].line < cs[n].line;
      }
    }
  }

  /** The lines after `replace_code_comments` has assigned every translation. */
  function ReplacedLines(code: string, ts: seq<string>): (out: seq<string>)
    requires |ts| == |ExtractComments(code)|
    ensures |out| == |Lines(code)|
    ensures var cs := ExtractComments(code);
      forall k :: 0 <= k < |cs| ==> out[cs[k].line] == Rebuild(cs[k].originalLine, ts[k])
    ensures var cs := ExtractComments(code);
      forall j :: 0 <= j < |Lines(code)| && (forall k :: 0 <= k < |cs| ==> cs[k].line != j) ==>
        out[j] == Lines(code)[j]
  {
    var lines := Lines(code);
    var cs := ExtractComments(code);
    ApplyReplacementsSpec(lines, cs, ts);
    ApplyReplacements(lines, cs, ts)
  }

  /** `replace_code_comments`: unchanged on a count mismatch; otherwise every comment
      line is rebuilt around its translation and the lines are joined again. */
  function ReplaceComments(code: string, ts: seq<string>): (r: string)
    ensures |ts| != |ExtractComments(code)| ==> r == code
    ensures |ts| == |ExtractComments(code)| ==> r == Join(ReplacedLines(code, ts), "\n")
  {
    if |ExtractComments(code)| != |ts| then code
    else Join(ReplacedLines(code, ts), "\n")
  }

  /** The extracted contents, in order. */
  function Contents(cs: seq<Comment>): (ts: seq<string>)
    ensures |ts| == |cs|
    ensures forall k :: 0 <= k < |cs| ==> ts[k] == cs[k].content
  {
    seq(|cs|, k requires 0 <= k < |cs| => cs[k].content)
  }

  /** After the comment's `#` the line is one space followed by the content, with no
      other whitespace. */
  predicate SingleSpaced(c: Comment) {
    match FindChar(c.originalLine, '#')
    case Some(k) => c.originalLine[k + 1..] == " " + c.content
    case None => false
  }

  /** Rebuilding a comment line around its own content gives the line back exactly
      when the line is single-spaced. */
  lemma {:induction false} RebuildOwnContent(c: Comment)
    requires FindChar(c.originalLine, '#').Some?
    ensures Rebuild(c.originalLine, c.content) == c.originalLine <==> SingleSpaced(c)
  {
    var line := c.originalLine;
    var k := FindChar(line, '#').value;
    var head := line[..k + 1];
    assert line == head + line[k + 1..];
    assert Rebuild(line, c.content) == head + (" " + c.content);
    SameAfterPrefix(head, " " + c.content, line[k + 1..]);
  }

  /** Two texts with the same beginning are equal exactly when what follows it is. */
  lemma SameAfterPrefix(head: string, x: string, y: string)
    ensures head + x == head + y <==> x == y
  {
    if head + x == head + y {
      assert x == (head + x)[|head|..];
      assert y == (head + y)[|head|..];
    }
  }

  /** Re-inserting the extracted contents reproduces the code exactly when every comment
      line is single-spaced: one space after `#` and no trailing whitespace. */
  lemma {:induction false} ReinsertionRoundTrip(code: string)
    ensures ReplaceComments(code, Contents(ExtractComments(code))) == code <==>
      forall k :: 0 <= k < |ExtractComments(code)| ==> SingleSpaced(ExtractComments(code)[k])
  {
    if forall k :: 0 <= k < |ExtractComments(code)| ==> SingleSpaced(ExtractComments(code)[k]) {
      ReinsertSingleSpaced(code);
    }
    if ReplaceComments(code, Contents(ExtractComments(code))) == code {
      ReinsertUnchanged(code);
    }
  }

  lemma {:induction false} ReinsertSingleSpaced(code: string)
    requires forall k :: 0 <= k < |ExtractComments(code)| ==> SingleSpaced(ExtractComments(code)[k])
    ensures ReplaceComments(code, Contents(ExtractComments(code))) == code
  {
    SingleSpacedLinesKept(code);
    JoinSplit(code, "\n");
  }

  lemma {:induction false} SingleSpacedLinesKept(code: string)
    requires forall k :: 0 <= k < |ExtractComments(code)| ==> SingleSpaced(ExtractComments(code)[k])
    ensures ReplacedLines(code, Contents(ExtractComments(code))) == Lines(code)
  {
    var lines := Lines(code);
    var out := ReplacedLines(code, Contents(ExtractComments(code)));
    forall j | 0 <= j < |lines| ensures out[j] == lines[j] {
      SingleSpacedLineKept(code, j);
    }
  }

  lemma {:induction false} SingleSpacedLineKept(code: string, j: nat)
    requires forall k :: 0 <= k < |ExtractComments(code)| ==> SingleSpaced(ExtractComments(code)[k])
    requires j < |Lines(code)|
    ensures ReplacedLines(code, Contents(ExtractComments(code)))[j] == Lines(code)[j]
  {
    var cs := ExtractComments(code);
    if k :| 0 <= k < |cs| && cs[k].line == j {
      RebuildOwnContent(cs[k]);
    }
  }

  lemma {:induction false} ReinsertUnchanged(code: string)
    requires ReplaceComments(code, Contents(ExtractComments(code))) == code
    ensures forall k :: 0 <= k < |ExtractComments(code)| ==> SingleSpaced(ExtractComments(code)[k])
  {
    var cs := ExtractComments(code);
    ReinsertedLinesAreLines(code);
    forall k | 0 <= k < |cs| ensures SingleSpaced(cs[k]) {
      RebuildOwnContent(cs[k]);
    }
  }

  lemma {:induction false} ReinsertedLinesAreLines(code: string)
    requires ReplaceComments(code, Contents(ExtractComments(code))) == code
    ensures ReplacedLines(code, Contents(ExtractComments(code))) == Lines(code)
  {
    var out := ReplacedLines(code, Contents(ExtractComments(code)));
    ReplacedLinesHaveNoBreak(code, out);
    SplitJoin(out, "\n");
  }

  /** Reinserting the extracted comments puts no line break into any line. */
  lemma ReplacedLinesHaveNoBreak(code: string, out: seq<string>)
    requires out == ReplacedLines(code, Contents(ExtractComments(code)))
    ensures forall j :: 0 <= j < |out| ==> '\n' !in out[j]
  {
    SplitPiecesAvoidSeparator(code, '\n');
    forall j | 0 <= j < |out| ensures '\n' !in out[j] {
      ReplacedLineHasNoBreak(code, out, j);
    }
  }

  lemma ReplacedLineHasNoBreak(code: string, out: seq<string>, j: nat)
    requires out == ReplacedLines(code, Contents(ExtractComments(code)))
    requires j < |out|
    requires forall i :: 0 <= i < |Lines(code)| ==> '\n' !in Lines(code)[i]
    ensures '\n' !in out[j]
  {
    var cs := ExtractComments(code);
    if k :| 0 <= k < |cs| && cs[k].line == j {
      assert Contents(cs)[k] == cs[k].content;
      assert out[j] == Rebuild(cs[k].originalLine, cs[k].content);
      NoNewlineAfterRebuild(cs[k]);
    } else {
      assert out[j] == Lines(code)[j];
    }
  }

  /** A rebuilt comment line holds no line break when the original did not. */
  lemma {:induction false} NoNewlineAfterRebuild(c: Comment)
    requires '\n' !in c.originalLine
    requires LineComment(c.originalLine) == Some(c.content)
    ensures '\n' !in Rebuild(c.originalLine, c.content)
  {
    var line := c.originalLine;
    var k := FindChar(line, '#').value;
    LineCommentAt(line, k, c.content);
    NoNewlineInPieces(line, k, c.content);
  }

  lemma NoNewlineInPieces(line: string, k: nat, content: string)
    requires k < |line| && '\n' !in line
    requires content == Strip(line[k + 1..])
    ensures '\n' !in line[..k + 1] + " " + content
  {
    assert '\n' !in line[k + 1..];
    StripAddsNothing(line[k + 1..], '\n');
    assert '\n' !in line[..k + 1];
  }
}
