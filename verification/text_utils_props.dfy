/** Properties of the span classifier and the response sanitiser that relate several
    calls or hold for whole families of inputs. */
module TextUtilsProps {
  import opened Basics
  import opened Strings
  import opened Config
  import opened TextUtils

  /** Stripping keeps a prefix that neither starts nor ends with whitespace. */
  lemma {:induction false} StripKeepsPrefix(s: string, p: string)
    requires p != [] && IsStripped(p) && StartsWith(s, p)
    ensures StartsWith(Strip(s), p)
  {
    assert s[0] == p[0];
    assert TrimLeft(s) == s;
    var r := TrimRight(s);
    assert s[|p| - 1] == p[|p| - 1];
    assert |r| >= |p|;
    assert r[..|p|] == s[..|p|];
  }

  /** The whitespace-free run a text starts with extends every whitespace-free prefix. */
  lemma {:induction false} TokenCoversPrefix(t: string, w: string)
    requires NoSpace(w) && StartsWith(t, w)
    ensures |Token(t)| >= |w|
    decreases |w|
  {
    if w != [] {
      assert t[0] == w[0];
      TokenCoversPrefix(t[1..], w[1..]);
    }
  }

  /** The classifier depends only on the stripped text. */
  lemma {:induction false} SkipIgnoresSurroundingSpace(text: string)
    ensures ShouldSkip(Strip(text)) == ShouldSkip(text)
  {
    var t := Strip(text);
    StripOfStripped(t);
    if t != [] {
      assert !IsSpace(t[0]);
    }
  }

  /** A count reaches one exactly when some word passes the test. */
  lemma {:induction false} AtLeastOneWhere(ws: seq<string>, good: string -> bool)
    ensures CountWhere(ws, good) >= 1 <==> exists i :: 0 <= i < |ws| && good(ws[i])
  {
    if ws != [] {
      AtLeastOneWhere(ws[1..], good);
      if exists i :: 0 <= i < |ws| && good(ws[i]) {
        var i :| 0 <= i < |ws| && good(ws[i]);
        if i > 0 {
          assert good(ws[1..][i - 1]);
        }
      }
      if CountWhere(ws[1..], good) >= 1 {
        var i :| 0 <= i < |ws[1..]| && good(ws[1..][i]);
        assert good(ws[i + 1]);
      }
    }
  }

  /** A count reaches two exactly when two different words pass the test. */
  lemma {:induction false} AtLeastTwoWhere(ws: seq<string>, good: string -> bool)
    ensures CountWhere(ws, good) >= 2 <==>
      exists i, j :: 0 <= i < j < |ws| && good(ws[i]) && good(ws[j])
  {
    if ws != [] {
      var tail := ws[1..];
      AtLeastTwoWhere(tail, good);
      AtLeastOneWhere(tail, good);
      if exists i, j :: 0 <= i < j < |ws| && good(ws[i]) && good(ws[j]) {
        var i, j :| 0 <= i < j < |ws| && good(ws[i]) && good(ws[j]);
        assert good(tail[j - 1]);
        if i > 0 {
          assert good(tail[i - 1]);
        }
      }
      if CountWhere(ws, good) >= 2 {
        if CountWhere(tail, good) >= 2 {
          var i, j :| 0 <= i < j < |tail| && good(tail[i]) && good(tail[j]);
          assert good(ws[i + 1]) && good(ws[j + 1]);
        } else {
          var j :| 0 <= j < |tail| && good(tail[j]);
          assert good(ws[0]) && good(ws[j + 1]);
        }
      }
    }
  }

  /** `is_only_code` holds exactly when no two words of the blanked text are longer than
      two characters and not all upper case. */
  lemma OnlyCodeByWords(text: string)
    ensures IsOnlyCode(text) <==>
      var ws := Words(ProseOf(text));
      !exists i, j :: 0 <= i < j < |ws| && IsProseWord(ws[i]) && IsProseWord(ws[j])
  {
    AtLeastTwoWhere(Words(ProseOf(text)), IsProseWord);
  }

  /** A text is sent for translation exactly when it is not blank, its stripped form
      matches no skip pattern, is longer than two characters or holds a letter, and
      has two words that are longer than two characters and not all upper case. */
  lemma SkipByWords(text: string)
    ensures !ShouldSkip(text) <==>
      && !AllSpace(text)
      && !MatchesSkipPattern(Strip(text))
      && (|Strip(text)| > 2 || HasLetter(Strip(text)))
      && var ws := Words(ProseOf(Strip(text)));
         exists i, j :: 0 <= i < j < |ws| && IsProseWord(ws[i]) && IsProseWord(ws[j])
  {
    OnlyCodeByWords(Strip(text));
  }

  /** `has_translatable_content` holds exactly when the text is not blank and two words
      of the text without code and markdown marks are longer than two characters and
      hold a letter. */
  lemma TranslatableContentByWords(markdown: string)
    ensures HasTranslatableContent(markdown) <==>
      && !AllSpace(markdown)
      && var ws := Words(Blank(RemoveCode(markdown), MarkdownMarks));
         exists i, j :: 0 <= i < j < |ws| && IsContentWord(ws[i]) && IsContentWord(ws[j])
  {
    AtLeastTwoWhere(Words(Blank(RemoveCode(markdown), MarkdownMarks)), IsContentWord);
  }

  /** The URL pattern anchors only the start: any text whose stripped form begins with
      `http://` or `https://` is skipped, whatever follows. */
  lemma {:induction false} UrlPrefixIsSkipped(text: string, rest: string)
    requires text == "http://" + rest || text == "https://" + rest
    ensures ShouldSkip(text)
  {
    if text == "http://" + rest {
      StripKeepsPrefix(text, "http://");
    } else {
      StripKeepsPrefix(text, "https://");
    }
  }

  /** The email pattern is matched from the start and cannot cross whitespace: a text
      that begins with a whitespace-free `x@y.z` is skipped even when prose follows. */
  lemma {:induction false} EmailPrefixIsSkipped(text: string, w: string, at: nat, dot: nat)
    requires NoSpace(w) && StartsWith(text, w)
    requires 1 <= at && at + 2 <= dot && dot + 1 < |w| && w[at] == '@' && w[dot] == '.'
    ensures ShouldSkip(text)
  {
    assert IsStripped(w);
    StripKeepsPrefix(text, w);
    var t := Strip(text);
    TokenCoversPrefix(t, w);
    var tok := Token(t);
    assert tok[at] == w[at] && tok[dot] == w[dot];
    assert IsEmail(t);
  }

  /** A reply that starts with `Translation:` has that phrase as its first known
      preamble: the five phrases listed before it differ from it. */
  lemma {:induction false} TranslationPrefixFound(s: string)
    requires StartsWith(s, "Translation:")
    ensures FirstPrefix(s, UnwantedPrefixes) == Some(5)
  {
    var ls := Lower(s);
    assert ls[0] == 't' && ls[8] == 'i' && ls[11] == ':';
    assert Lower(UnwantedPrefixes[0])[0] == 'h';
    assert Lower(UnwantedPrefixes[1])[0] == 'h';
    assert Lower(UnwantedPrefixes[2])[8] == 'e';
    assert Lower(UnwantedPrefixes[3])[8] == 'e';
    assert Lower(UnwantedPrefixes[4])[11] == 's';
    assert ls[..12] == Lower(UnwantedPrefixes[5]);
    assert FirstPrefix(s, UnwantedPrefixes, 5) == Some(5);
    assert FirstPrefix(s, UnwantedPrefixes, 4) == Some(5);
    assert FirstPrefix(s, UnwantedPrefixes, 3) == Some(5);
    assert FirstPrefix(s, UnwantedPrefixes, 2) == Some(5);
    assert FirstPrefix(s, UnwantedPrefixes, 1) == Some(5);
  }

  /** Every known closing phrase ends with a full stop, so a reply ending in an ASCII
      letter has none of them. */
  lemma {:induction false} NoSuffixAfterLetter(s: string)
    requires s != [] && 'a' <= s[|s| - 1] <= 'z'
    ensures FirstSuffix(s, UnwantedSuffixes).None?
  {
    var ls := Lower(s);
    assert ls[|s| - 1] == s[|s| - 1];
    forall j | 0 <= j < |UnwantedSuffixes| ensures !EndsWithIgnoringCase(s, UnwantedSuffixes[j]) {
      var q := UnwantedSuffixes[j];
      var lq := Lower(q);
      assert lq[|q| - 1] == '.' || lq[|q| - 1] == '。';
      if |q| <= |s| {
        assert ls[|s| - |q|..][|q| - 1] == ls[|s| - 1];
      }
    }
    assert FirstSuffix(s, UnwantedSuffixes, 5).None?;
    assert FirstSuffix(s, UnwantedSuffixes, 4).None?;
    assert FirstSuffix(s, UnwantedSuffixes, 3).None?;
    assert FirstSuffix(s, UnwantedSuffixes, 2).None?;
    assert FirstSuffix(s, UnwantedSuffixes, 1).None?;
  }

  /** A reply made of `Translation: ` and a stripped text ending in a lower-case
      letter cleans to that text. */
  lemma {:induction false} CleanDropsTranslationPrefix(x: string)
    requires x != [] && IsStripped(x) && 'a' <= x[|x| - 1] <= 'z'
    ensures CleanResponse("Translation: " + x) == x
  {
    var s := "Translation: " + x;
    PrefixedIsStripped(x);
    DropTranslationPrefix(x);
    NoSuffixAfterLetter(x);
  }

  lemma PrefixedIsStripped(x: string)
    requires x != [] && IsStripped(x)
    ensures Strip("Translation: " + x) == "Translation: " + x
  {
    var s := "Translation: " + x;
    assert s[|s| - 1] == x[|x| - 1];
    assert IsStripped(s);
    StripOfStripped(s);
  }

  lemma DropTranslationPrefix(x: string)
    requires x != [] && IsStripped(x)
    ensures DropPrefix("Translation: " + x, UnwantedPrefixes) == x
  {
    var s := "Translation: " + x;
    assert s[..12] == "Translation:";
    TranslationPrefixFound(s);
    assert |UnwantedPrefixes[5]| == 12;
    assert s[12..] == " " + x;
    StripLeadingSpace(x);
  }

  lemma StripLeadingSpace(x: string)
    requires IsStripped(x)
    ensures Strip(" " + x) == x
  {
    var s := " " + x;
    assert s[1..] == x;
    assert TrimLeft(s) == TrimLeft(x);
    StripOfStripped(x);
  }

  /** A reply made of a known preamble, a space and a stripped text cleans to that
      text, whichever preamble it is, as long as that preamble is the first of the
      list the reply starts with and the text ends with no known closing phrase. */
  lemma CleanDropsFirstPrefix(k: nat, x: string)
    requires k < |UnwantedPrefixes|
    requires x != [] && IsStripped(x)
    requires FirstPrefix(UnwantedPrefixes[k] + " " + x, UnwantedPrefixes) == Some(k)
    requires FirstSuffix(x, UnwantedSuffixes).None?
    ensures CleanResponse(UnwantedPrefixes[k] + " " + x) == x
  {
    var p := UnwantedPrefixes[k];
    PhrasesAreSolid(k, 0);
    SpacedAfter(p, x);
    var s := p + " " + x;
    assert DropPrefix(s, UnwantedPrefixes) == x;
    assert DropSuffix(x, UnwantedSuffixes) == x;
  }

  /** A reply made of a stripped text, a space and a known closing phrase cleans to
      that text, whichever phrase it is, as long as it is the first of the list the
      reply ends with and the reply opens with no known preamble. */
  lemma CleanDropsFirstSuffix(k: nat, x: string)
    requires k < |UnwantedSuffixes|
    requires x != [] && IsStripped(x)
    requires FirstPrefix(x + " " + UnwantedSuffixes[k], UnwantedPrefixes).None?
    requires FirstSuffix(x + " " + UnwantedSuffixes[k], UnwantedSuffixes) == Some(k)
    ensures CleanResponse(x + " " + UnwantedSuffixes[k]) == x
  {
    var q := UnwantedSuffixes[k];
    PhrasesAreSolid(0, k);
    SpacedBefore(x, q);
    CleanAtSuffix(x + " " + q, k, x);
  }

  lemma DropSuffixAt(c: string, ps: seq<string>, k: nat)
    requires k < |ps| && FirstSuffix(c, ps) == Some(k)
    ensures |ps[k]| <= |c| && DropSuffix(c, ps) == Strip(c[..|c| - |ps[k]|])
  {
  }

  lemma CleanAtSuffix(s: string, k: nat, x: string)
    requires k < |UnwantedSuffixes| && IsStripped(s)
    requires FirstPrefix(s, UnwantedPrefixes).None? && FirstSuffix(s, UnwantedSuffixes) == Some(k)
    requires Strip(s[..|s| - |UnwantedSuffixes[k]|]) == x
    ensures CleanResponse(s) == x
  {
    DropSuffixAt(s, UnwantedSuffixes, k);
    assert DropSuffix(s, UnwantedSuffixes) == x;
    StripOfStripped(s);
    assert DropPrefix(s, UnwantedPrefixes) == s;
  }

  /** A phrase, a space and a stripped text form a stripped text, from which cutting
      the phrase and stripping leaves the text. */
  lemma SpacedAfter(p: string, x: string)
    requires p != [] && !IsSpace(p[0])
    requires x != [] && IsStripped(x)
    ensures Strip(p + " " + x) == p + " " + x
    ensures |p| <= |p + " " + x| && Strip((p + " " + x)[|p|..]) == x
  {
    var s := p + " " + x;
    assert s[0] == p[0] && s[|s| - 1] == x[|x| - 1];
    StripOfStripped(s);
    assert s[|p|..] == " " + x;
    StripLeadingSpace(x);
  }

  /** The mirror image of `SpacedAfter`, for a closing phrase. */
  lemma SpacedBefore(x: string, q: string)
    requires q != [] && !IsSpace(q[|q| - 1])
    requires x != [] && IsStripped(x)
    ensures Strip(x + " " + q) == x + " " + q
    ensures |q| <= |x + " " + q| && Strip((x + " " + q)[..|x + " " + q| - |q|]) == x
  {
    var s := x + " " + q;
    assert s[0] == x[0] && s[|s| - 1] == q[|q| - 1];
    StripOfStripped(s);
    assert s[..|s| - |q|] == x + " ";
    StripTrailingSpace(x);
  }

  /** Every known preamble opens, and every known closing phrase ends, with a
      character that is not whitespace. */
  lemma PhrasesAreSolid(k: nat, m: nat)
    ensures k < |UnwantedPrefixes| ==> UnwantedPrefixes[k] != [] && !IsSpace(UnwantedPrefixes[k][0])
    ensures m < |UnwantedSuffixes| ==>
      UnwantedSuffixes[m] != [] && !IsSpace(UnwantedSuffixes[m][|UnwantedSuffixes[m]| - 1])
  {
  }

  lemma StripTrailingSpace(x: string)
    requires IsStripped(x)
    ensures Strip(x + " ") == x
  {
    if x != [] {
      assert TrimLeft(x + " ") == x + " ";
    }
    assert (x + " ")[..|x|] == x;
    assert TrimRight(x + " ") == TrimRight(x);
    StripOfStripped(x);
  }

  /** Cleaning removes one preamble only, so it is not idempotent: a doubled preamble
      loses one copy per call. */
  lemma {:induction false} CleanIsNotIdempotent(x: string)
    requires x != [] && IsStripped(x) && 'a' <= x[|x| - 1] <= 'z'
    ensures CleanResponse("Translation: " + ("Translation: " + x)) == "Translation: " + x
    ensures CleanResponse(CleanResponse("Translation: " + ("Translation: " + x))) == x
  {
    var once := "Translation: " + x;
    assert once[|once| - 1] == x[|x| - 1];
    assert once[0] == 'T';
    CleanDropsTranslationPrefix(once);
    CleanDropsTranslationPrefix(x);
  }

  /** A join of stripped texts with a separator that neither starts nor ends with
      whitespace is stripped. */
  lemma {:induction false} JoinIsStripped(parts: seq<string>, sep: string)
    requires sep != [] && IsStripped(sep)
    requires forall i :: 0 <= i < |parts| ==> IsStripped(parts[i])
    ensures IsStripped(Join(parts, sep))
    decreases |parts|
  {
    if |parts| >= 2 {
      var rest := Join(parts[1..], sep);
      JoinIsStripped(parts[1..], sep);
      var s := parts[0] + sep + rest;
      assert Join(parts, sep) == s;
      assert s[0] == (if parts[0] == [] then sep[0] else parts[0][0]);
      assert s[|s| - 1] == (if rest == [] then sep[|sep| - 1] else rest[|rest| - 1]);
    }
  }

  /** Parsing a reply yields the stripped separator-delimited pieces of its cleaned
      form; when those pieces are already stripped, the pieces themselves. */
  lemma {:induction false} ParsePlainReply(body: string, texts: seq<string>)
    requires Split(CleanResponse(body), CellSeparator) == texts
    requires forall i :: 0 <= i < |texts| ==> IsStripped(texts[i])
    ensures ParseBatchResponse(body) == texts
  {
    ParsedPieces(body, texts);
    StrippedPiecesKept(ParseBatchResponse(body), texts);
  }

  lemma StrippedPiecesKept(parts: seq<string>, texts: seq<string>)
    requires |parts| == |texts|
    requires forall i :: 0 <= i < |texts| ==> IsStripped(texts[i]) && parts[i] == Strip(texts[i])
    ensures parts == texts
  {
    forall i | 0 <= i < |texts| ensures parts[i] == texts[i] {
      StripOfStripped(texts[i]);
    }
  }

  lemma ParsedPieces(response: string, pieces: seq<string>)
    requires pieces == Split(CleanResponse(response), CellSeparator)
    ensures |ParseBatchResponse(response)| == |pieces|
    ensures forall i :: 0 <= i < |pieces| ==> ParseBatchResponse(response)[i] == Strip(pieces[i])
  {
    var c := CleanResponse(response);
    assert ParseBatchResponse(response) == StrippedPieces(c, CellSeparator);
    StrippedPiecesOfPieces(c, CellSeparator);
  }

  /** The stripped pieces are the split's pieces, each stripped. */
  lemma StrippedPiecesOfPieces(c: string, sep: string)
    requires sep != []
    ensures |StrippedPieces(c, sep)| == |Split(c, sep)|
    ensures forall i :: 0 <= i < |Split(c, sep)| ==> StrippedPieces(c, sep)[i] == Strip(Split(c, sep)[i])
  {
  }

  /** The first four characters of the cell separator. */
  const SeparatorHead: string := "---C"

  /** Texts that a join at the cell separator keeps apart: no separator starts inside
      any text but the last, counting one that runs on into the next separator, and
      the last text holds none. */
  predicate ApartAtSeparators(texts: seq<string>) {
    && (forall i :: 0 <= i < |texts| - 1 ==> NoneStartsIn(texts[i], CellSeparator))
    && (texts != [] ==> !Contains(texts[|texts| - 1], CellSeparator))
  }

  /** A text in which three dashes are never followed by `C` is a clean piece for the
      cell separator: no separator can start inside it, since the separator opens with
      three dashes and a `C`, and no dash stands in its fourth place. Markdown tables
      and horizontal rules are such texts. */
  lemma HeadFreeIsClear(t: string)
    requires !Contains(t, SeparatorHead)
    ensures NoneStartsIn(t, CellSeparator) && !Contains(t, CellSeparator)
  {
    var sep := CellSeparator;
    var u := t + sep[..|sep| - 1];
    assert sep[..4] == SeparatorHead && sep[1] == '-' && sep[2] == '-' && sep[3] == 'C';
    forall j | 0 <= j <= |u| ensures !OccursAt(u, sep, j) {
      if j + |sep| <= |u| {
        var w := u[j..j + |sep|];
        if j + 4 <= |t| {
          assert !OccursAt(t, SeparatorHead, j);
          assert w[..4] == u[j..j + 4] == t[j..j + 4];
          assert w[..4] != sep[..4];
        } else {
          assert w[3] == u[j + 3] == sep[j + 3 - |t|];
          assert w[3] != sep[3];
        }
      }
    }
    NoneStartsInAvoids(t, sep);
  }

  /** Only one list of parts is a cut of a text at every separator: the one the
      split gives. */
  lemma {:induction false} CutIsUnique(parts: seq<string>, c: string, sep: string)
    requires sep != [] && CutAtEverySeparator(parts, c, sep)
    ensures parts == StrippedPieces(c, sep)
  {
    var pieces: seq<string> :| CutBy(pieces, parts, c, sep);
    assert !Contains(pieces[|pieces| - 1], sep);
    SplitJoinClear(pieces, sep);
    StrippedPiecesOfSplit(parts, pieces, c, sep);
  }

  lemma {:induction false} StrippedPiecesOfSplit(parts: seq<string>, pieces: seq<string>, c: string, sep: string)
    requires sep != [] && Split(c, sep) == pieces && |parts| == |pieces|
    requires forall i :: 0 <= i < |pieces| ==> parts[i] == Strip(pieces[i])
    ensures parts == StrippedPieces(c, sep)
  {
  }

  /** The parse of a reply is the only cut of its cleaned form at every separator. */
  lemma {:induction false} ParseIsTheOnlyCut(response: string, parts: seq<string>)
    requires CutAtEverySeparator(parts, CleanResponse(response), CellSeparator)
    ensures parts == ParseBatchResponse(response)
  {
    CutIsUnique(parts, CleanResponse(response), CellSeparator);
  }

  /** A request body built from stripped texts needs no cleaning when it opens and
      closes with no known phrase. */
  lemma {:induction false} JoinedBodyIsClean(texts: seq<string>)
    requires forall i :: 0 <= i < |texts| ==> IsStripped(texts[i])
    requires FirstPrefix(Join(texts, CellSeparator), UnwantedPrefixes).None?
    requires FirstSuffix(Join(texts, CellSeparator), UnwantedSuffixes).None?
    ensures CleanResponse(Join(texts, CellSeparator)) == Join(texts, CellSeparator)
  {
    assert IsStripped(CellSeparator);
    JoinIsStripped(texts, CellSeparator);
    CleanKeepsPlainText(Join(texts, CellSeparator));
  }

  /** The batch wire protocol round-trips: parsing a reply that is exactly the request
      gives back the texts, provided each text is stripped, the join keeps them apart,
      and the joined body opens and closes with no known preamble or closing phrase. */
  lemma {:induction false} BatchWireRoundTrip(texts: seq<string>)
    requires |texts| >= 1
    requires forall i :: 0 <= i < |texts| ==> IsStripped(texts[i])
    requires ApartAtSeparators(texts)
    requires FirstPrefix(Join(texts, CellSeparator), UnwantedPrefixes).None?
    requires FirstSuffix(Join(texts, CellSeparator), UnwantedSuffixes).None?
    ensures ParseBatchResponse(Join(texts, CellSeparator)) == texts
  {
    JoinedBodyIsClean(texts);
    SplitJoinClear(texts, CellSeparator);
    ParsePlainReply(Join(texts, CellSeparator), texts);
  }

  /** Texts in which no three dashes precede a `C` are kept apart by the join. */
  lemma {:induction false} HeadFreeAreApart(texts: seq<string>)
    requires forall i :: 0 <= i < |texts| ==> !Contains(texts[i], SeparatorHead)
    ensures ApartAtSeparators(texts)
  {
    forall i | 0 <= i < |texts|
      ensures NoneStartsIn(texts[i], CellSeparator) && !Contains(texts[i], CellSeparator)
    {
      HeadFreeIsClear(texts[i]);
    }
  }

}
