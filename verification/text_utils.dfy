/** The span classifier and the response sanitiser of `TextProcessor`
    (ipynb_translator/text_utils.py): which texts are sent for translation, and how a
    model reply is cleaned and split back into per-cell parts. */
module TextUtils {
  import opened Basics
  import opened Strings
  import opened CharClasses
  import opened Config

  const Fence: string := "```"

  /** The literal token that packs several cell texts into one request and reply. */
  const CellSeparator: string := "---CELL_SEPARATOR---"

  // ---------------------------------------------------------------------------
  // Removing code spans. Each function is one `re.sub` with an empty replacement,
  // scanning left to right the way the regex engine does.
  // ---------------------------------------------------------------------------

  /** `re.sub(r'```[\s\S]*?```', '', s)`: a fence opens a span that the nearest later
      fence closes; an opening fence with no closing one stays in the text. */
  function RemoveFencedCode(s: string): (r: string)
    ensures |r| <= |s|
    ensures !Contains(s, Fence) ==> r == s
    decreases |s|
  {
    if |s| < 3 then s
    else if s[..3] == Fence then
      match IndexOf(s[3..], Fence)
      case Some(j) => RemoveFencedCode(s[3 + j + 3..])
      case None => [s[0]] + RemoveFencedCode(s[1..])
    else
      NoFenceTail(s);
      [s[0]] + RemoveFencedCode(s[1..])
  }

  lemma NoFenceTail(s: string)
    requires |s| >= 1
    ensures !Contains(s, Fence) ==> !Contains(s[1..], Fence)
  {
    if !Contains(s, Fence) {
      NotContainsSuffix(s, Fence, 1);
    }
  }

  /** `re.sub(r'`[^`]+`', '', s)`: a backtick followed by at least one other character
      and then a backtick is removed with its content. */
  function RemoveInlineCode(s: string): (r: string)
    ensures |r| <= |s|
    ensures '`' !in s ==> r == s
    decreases |s|
  {
    if s == [] then s
    else if s[0] == '`' then
      match IndexOf(s[1..], "`")
      case Some(j) =>
        if j >= 1 then RemoveInlineCode(s[j + 2..])
        else [s[0]] + RemoveInlineCode(s[1..])
      case None => [s[0]] + RemoveInlineCode(s[1..])
    else
      assert '`' !in s ==> '`' !in s[1..];
      [s[0]] + RemoveInlineCode(s[1..])
  }

  /** Fenced blocks first, then inline spans, as both classifiers do. */
  function RemoveCode(s: string): string {
    RemoveInlineCode(RemoveFencedCode(s))
  }

  /** Every character of `chars` becomes a space (`re.sub('[...]', ' ', s)`). */
  function Blank(s: string, chars: set<char>): (r: string)
    ensures |r| == |s|
    ensures forall i :: 0 <= i < |s| ==> r[i] == (if s[i] in chars then ' ' else s[i])
  {
    seq(|s|, i requires 0 <= i < |s| => if s[i] in chars then ' ' else s[i])
  }

  /** The length of the run of digits `s` starts with. */
  function DigitRun(s: string): (n: nat)
    ensures n <= |s|
    ensures forall i :: 0 <= i < n ==> IsDigit(s[i])
    ensures n < |s| ==> !IsDigit(s[n])
  {
    if s != [] && IsDigit(s[0]) then 1 + DigitRun(s[1..]) else 0
  }

  /** `re.sub(r'\b\d+\b', ' ', s)`: a whole run of digits with a word boundary on both
      sides becomes one space. `afterWord` says whether the character just before `s`
      in the original text is a word character. */
  function BlankNumbers(s: string, afterWord: bool): (r: string)
    ensures |r| <= |s|
    ensures (forall i :: 0 <= i < |s| ==> !IsDigit(s[i])) ==> r == s
    decreases |s|
  {
    if s == [] then []
    else if IsDigit(s[0]) && !afterWord then
      var n := DigitRun(s);
      if n == |s| || !IsWordChar(s[n]) then [' '] + BlankNumbers(s[n..], true)
      else s[..n] + BlankNumbers(s[n..], true)
    else
      [s[0]] + BlankNumbers(s[1..], IsWordChar(s[0]))
  }

  /** `[{}()\[\];,.]` */
  const CodePunctuation: set<char> := {'{', '}', '(', ')', '[', ']', ';', ',', '.'}

  // The class `[=+\-*/<>!&|]`.
  const Operators: set<char> := {'=', '+', '-', '*', '/', '<', '>', '!', '&', '|'}

  /** `[#*_\[\]()!-]` */
  const MarkdownMarks: set<char> := {'#', '*', '_', '[', ']', '(', ')', '!', '-'}

  /** What `is_only_code` looks at: code removed, punctuation, numbers and operators
      blanked. */
  function ProseOf(text: string): string {
    Blank(BlankNumbers(Blank(RemoveCode(text), CodePunctuation), false), Operators)
  }

  /** Python `w.isupper()` restricted to ASCII: some ASCII upper-case letter, and no ASCII
      lower-case one. Letters of other scripts are neither. */
  predicate IsUpperWord(w: string) {
    (exists i :: 0 <= i < |w| && IsAsciiUpper(w[i])) && forall i :: 0 <= i < |w| ==> !IsAsciiLower(w[i])
  }

  /** A word `is_only_code` counts as natural language. */
  predicate IsProseWord(w: string) {
    |w| > 2 && !IsUpperWord(w)
  }

  /** A word `has_translatable_content` counts: longer than two characters, with a
      Latin or Hangul letter (`re.search(r'[a-zA-Z가-힣]', w)`). */
  predicate IsContentWord(w: string) {
    |w| > 2 && exists i :: 0 <= i < |w| && IsLetter(w[i])
  }

  /** How many of the words pass the test. */
  function CountWhere(ws: seq<string>, good: string -> bool): (n: nat)
    ensures n <= |ws|
  {
    if ws == [] then 0 else (if good(ws[0]) then 1 else 0) + CountWhere(ws[1..], good)
  }

  /** `is_only_code`: fewer than two natural-language words survive. */
  predicate IsOnlyCode(text: string) {
    CountWhere(Words(ProseOf(text)), IsProseWord) < 2
  }

  /** `str.isalpha()` of some character of the text. */
  predicate HasLetter(t: string) {
    exists i :: 0 <= i < |t| && IsLetter(t[i])
  }

  /** `should_skip_translation`: empty or blank text, a skip pattern at the start of
      the stripped text, at most two characters without a letter, or code only. */
  function ShouldSkip(text: string): (skip: bool)
    ensures AllSpace(text) ==> skip
    ensures MatchesSkipPattern(Strip(text)) ==> skip
    ensures |Strip(text)| <= 2 && !HasLetter(Strip(text)) ==> skip
    ensures !skip ==> CountWhere(Words(ProseOf(Strip(text))), IsProseWord) >= 2
  {
    if AllSpace(text) then true
    else
      var t := Strip(text);
      || MatchesSkipPattern(t)
      || (|t| <= 2 && !HasLetter(t))
      || IsOnlyCode(t)
  }

  /** `has_translatable_content`: at least two words with a letter and more than two
      characters once code and markdown marks are gone. */
  function HasTranslatableContent(markdown: string): (yes: bool)
    ensures AllSpace(markdown) ==> !yes
    ensures yes ==> CountWhere(Words(Blank(RemoveCode(markdown), MarkdownMarks)), IsContentWord) >= 2
  {
    if AllSpace(markdown) then false
    else CountWhere(Words(Blank(RemoveCode(markdown), MarkdownMarks)), IsContentWord) >= 2
  }

  // ---------------------------------------------------------------------------
  // Response sanitiser
  // ---------------------------------------------------------------------------

  const UnwantedPrefixes: seq<string> := [
    "Here are the translations:",
    "Here is the translation:",
    "Translated texts:",
    "Translated text:",
    "Translations:",
    "Translation:",
    "번역:",
    "번역 결과:",
    "다음은 번역입니다:",
    "翻译:",
    "翻訳:",
    "Traductions:",
    "Übersetzungen:",
    "Traducciones:",
    "The translations are:",
    "Translation results:"
  ]

  const UnwantedSuffixes: seq<string> := [
    "End of translations.",
    "Translation complete.",
    "번역 완료.",
    "翻译完成。",
    "翻訳完了。"
  ]

  /** The position in `ps`, from `i` on, of the first phrase `s` starts with,
      ignoring case. */
  function FirstPrefix(s: string, ps: seq<string>, i: nat := 0): (r: Option<nat>)
    requires i <= |ps|
    ensures r.Some? ==> i <= r.value < |ps| && StartsWithIgnoringCase(s, ps[r.value])
    ensures r.Some? ==> |ps[r.value]| <= |s|
    ensures r.Some? ==> forall j :: i <= j < r.value ==> !StartsWithIgnoringCase(s, ps[j])
    ensures r.None? ==> forall j :: i <= j < |ps| ==> !StartsWithIgnoringCase(s, ps[j])
    decreases |ps| - i
  {
    if i == |ps| then None
    else if StartsWithIgnoringCase(s, ps[i]) then Some(i)
    else FirstPrefix(s, ps, i + 1)
  }

  /** The position in `ps`, from `i` on, of the first phrase `s` ends with, ignoring
      case. */
  function FirstSuffix(s: string, ps: seq<string>, i: nat := 0): (r: Option<nat>)
    requires i <= |ps|
    ensures r.Some? ==> i <= r.value < |ps| && EndsWithIgnoringCase(s, ps[r.value])
    ensures r.Some? ==> |ps[r.value]| <= |s|
    ensures r.Some? ==> forall j :: i <= j < r.value ==> !EndsWithIgnoringCase(s, ps[j])
    ensures r.None? ==> forall j :: i <= j < |ps| ==> !EndsWithIgnoringCase(s, ps[j])
    decreases |ps| - i
  {
    if i == |ps| then None
    else if EndsWithIgnoringCase(s, ps[i]) then Some(i)
    else FirstSuffix(s, ps, i + 1)
  }

  /** Removes the first phrase of `ps` the text starts with, if any, and re-strips. */
  function DropPrefix(c: string, ps: seq<string>): (r: string)
    ensures FirstPrefix(c, ps).None? ==> r == c
    ensures FirstPrefix(c, ps).Some? ==>
      var k := FirstPrefix(c, ps).value;
      |ps[k]| <= |c| && r == Strip(c[|ps[k]|..])
    ensures IsSliceOf(r, c)
    ensures |r| <= |c|
  {
    match FirstPrefix(c, ps)
    case None =>
      assert c == c[0..|c|];
      c
    case Some(k) =>
      var rest := c[|ps[k]|..];
      StripIsSlice(rest);
      assert rest == c[|ps[k]|..|c|];
      SliceOfSlice(Strip(rest), rest, c);
      Strip(rest)
  }

  /** Removes the first phrase of `ps` the text ends with, if any, and re-strips. */
  function DropSuffix(c: string, ps: seq<string>): (r: string)
    ensures FirstSuffix(c, ps).None? ==> r == c
    ensures FirstSuffix(c, ps).Some? ==>
      var k := FirstSuffix(c, ps).value;
      |ps[k]| <= |c| && r == Strip(c[..|c| - |ps[k]|])
    ensures IsSliceOf(r, c)
    ensures IsStripped(c) ==> IsStripped(r)
    ensures |r| <= |c|
  {
    match FirstSuffix(c, ps)
    case None =>
      assert c == c[0..|c|];
      c
    case Some(k) =>
      var rest := c[..|c| - |ps[k]|];
      StripIsSlice(rest);
      assert rest == c[0..|c| - |ps[k]|];
      SliceOfSlice(Strip(rest), rest, c);
      Strip(rest)
  }

  /** `clean_translation_response`: strip, then at most one preamble and at most one
      closing phrase are removed, the first match in list order winning each time.
      What is left is always a piece of the stripped reply. */
  function CleanResponse(response: string): (r: string)
    ensures IsStripped(r)
    ensures |r| <= |response|
    ensures IsSliceOf(r, Strip(response))
    ensures (FirstPrefix(Strip(response), UnwantedPrefixes).None? &&
             FirstSuffix(Strip(response), UnwantedSuffixes).None?) ==> r == Strip(response)
  {
    var c := Strip(response);
    var afterPrefix := DropPrefix(c, UnwantedPrefixes);
    SliceOfSlice(DropSuffix(afterPrefix, UnwantedSuffixes), afterPrefix, c);
    DropSuffix(afterPrefix, UnwantedSuffixes)
  }

  /** Cleaning is the identity on stripped text that carries no known phrase. */
  lemma {:induction false} CleanKeepsPlainText(s: string)
    requires IsStripped(s)
    requires FirstPrefix(s, UnwantedPrefixes).None? && FirstSuffix(s, UnwantedSuffixes).None?
    ensures CleanResponse(s) == s
  {
    StripOfStripped(s);
  }

  /** `parts` are the stripped `pieces`, and the pieces are `c` cut at every `sep`,
      left to right: they join back to `c`, none holds `sep`, and no `sep` starts
      inside any piece but the last, so every cut is at the earliest separator. */
  ghost predicate CutBy(pieces: seq<string>, parts: seq<string>, c: string, sep: string)
    requires sep != []
  {
    && |pieces| == |parts| && pieces != []
    && Join(pieces, sep) == c
    && (forall i :: 0 <= i < |pieces| ==> !Contains(pieces[i], sep) && parts[i] == Strip(pieces[i]))
    && (forall i :: 0 <= i < |pieces| - 1 ==> NoneStartsIn(pieces[i], sep))
  }

  /** `parts` are the stripped pieces of `c` cut at every `sep`. */
  ghost predicate CutAtEverySeparator(parts: seq<string>, c: string, sep: string)
    requires sep != []
  {
    exists pieces: seq<string> :: CutBy(pieces, parts, c, sep)
  }

  /** Each piece of a split, stripped. */
  function StrippedPieces(c: string, sep: string): (parts: seq<string>)
    requires sep != []
    ensures |parts| == Count(c, sep) + 1
    ensures forall i :: 0 <= i < |parts| ==> IsStripped(parts[i])
    ensures CutAtEverySeparator(parts, c, sep)
  {
    var pieces := Split(c, sep);
    JoinSplit(c, sep);
    SplitPiecesAreClear(c, sep);
    var parts := seq(|pieces|, i requires 0 <= i < |pieces| => Strip(pieces[i]));
    assert CutBy(pieces, parts, c, sep);
    parts
  }

  /** `parse_batch_response`: the cleaned reply cut at every separator, scanning left
      to right, with each part stripped. The expected count is not consulted, so the
      number of parts is one more than the number of separators and never zero. */
  function ParseBatchResponse(response: string): (parts: seq<string>)
    ensures |parts| == Count(CleanResponse(response), CellSeparator) + 1
    ensures forall i :: 0 <= i < |parts| ==> IsStripped(parts[i])
    ensures CutAtEverySeparator(parts, CleanResponse(response), CellSeparator)
  {
    StrippedPieces(CleanResponse(response), CellSeparator)
  }
}
