/** Python string primitives the translator relies on, written out over `seq<char>`:
    whitespace stripping, `find`, `split`, `join`, `replace`, `count` and `lower`. */
module Strings {
  import opened Basics

  /** Exactly the characters for which Python's `str.isspace()` holds; this is also
      what `str.strip()`, `str.split()` and the regex classes `\s`/`\S` use. */
  predicate IsSpace(c: char) {
    var n := c as int;
    || (9 <= n <= 13) || (28 <= n <= 32) || n == 0x85 || n == 0xA0 || n == 0x1680
    || (0x2000 <= n <= 0x200A) || n == 0x2028 || n == 0x2029 || n == 0x202F
    || n == 0x205F || n == 0x3000
  }

  predicate AllSpace(s: string) {
    forall i :: 0 <= i < |s| ==> IsSpace(s[i])
  }

  predicate NoSpace(s: string) {
    forall i :: 0 <= i < |s| ==> !IsSpace(s[i])
  }

  /** Neither starts nor ends with whitespace: what `strip()` produces. */
  predicate IsStripped(s: string) {
    s == [] || (!IsSpace(s[0]) && !IsSpace(s[|s| - 1]))
  }

  /** Python `lstrip()`. */
  function TrimLeft(s: string): (r: string)
    ensures |r| <= |s| && r == s[|s| - |r|..]
    ensures r == [] || !IsSpace(r[0])
    ensures forall i :: 0 <= i < |s| - |r| ==> IsSpace(s[i])
  {
    if s != [] && IsSpace(s[0]) then TrimLeft(s[1..]) else s
  }

  /** Python `rstrip()`. */
  function TrimRight(s: string): (r: string)
    ensures |r| <= |s| && r == s[..|r|]
    ensures r == [] || !IsSpace(r[|r| - 1])
    ensures forall i :: |r| <= i < |s| ==> IsSpace(s[i])
  {
    if s != [] && IsSpace(s[|s| - 1]) then TrimRight(s[..|s| - 1]) else s
  }

  /** Python `strip()`: the text between the leading and the trailing whitespace. */
  function Strip(s: string): (r: string)
    ensures IsStripped(r)
    ensures |r| <= |s|
    ensures r == [] <==> AllSpace(s)
  {
    var t := TrimLeft(s);
    var r := TrimRight(t);
    StripEmptyIffSpace(s, t, r);
    TrimmedBothEnds(t, r);
    r
  }

  lemma TrimmedBothEnds(t: string, r: string)
    requires t == [] || !IsSpace(t[0])
    requires r == TrimRight(t)
    ensures IsStripped(r)
  {
    if r != [] {
      assert r[0] == t[0];
    }
  }

  lemma StripEmptyIffSpace(s: string, t: string, r: string)
    requires t == TrimLeft(s) && r == TrimRight(t)
    ensures r == [] <==> AllSpace(s)
  {
    if r == [] {
      assert t == [];
    } else {
      assert !IsSpace(s[|s| - |t|]);
    }
  }

  /** Stripping adds no character. */
  lemma {:induction false} StripAddsNothing(s: string, c: char)
    requires c !in s
    ensures c !in Strip(s)
  {
    var t := TrimLeft(s);
    var r := TrimRight(t);
    forall i | 0 <= i < |r| ensures r[i] != c {
      assert r[i] == t[i] == s[|s| - |t| + i];
    }
  }

  lemma {:induction false} StripOfStripped(s: string)
    requires IsStripped(s)
    ensures Strip(s) == s
  {
    assert TrimLeft(s) == s;
    assert TrimRight(s) == s;
  }

  /** `r` is a contiguous run of `s`. */
  predicate IsSliceOf(r: string, s: string) {
    exists i, j :: 0 <= i <= j <= |s| && r == s[i..j]
  }

  /** Stripping only cuts characters off the two ends. */
  lemma StripIsSlice(s: string)
    ensures IsSliceOf(Strip(s), s)
  {
    var t := TrimLeft(s);
    var r := TrimRight(t);
    var i := |s| - |t|;
    assert r == s[i..i + |r|];
  }

  lemma SliceOfSlice(a: string, b: string, c: string)
    requires IsSliceOf(a, b) && IsSliceOf(b, c)
    ensures IsSliceOf(a, c)
  {
    var i, j :| 0 <= i <= j <= |b| && a == b[i..j];
    var i', j' :| 0 <= i' <= j' <= |c| && b == c[i'..j'];
    forall k | 0 <= k < j - i ensures a[k] == c[i' + i + k] {
      assert a[k] == b[i + k];
    }
    assert a == c[i' + i..i' + j];
  }

  predicate StartsWith(s: string, p: string) {
    |p| <= |s| && s[..|p|] == p
  }

  predicate EndsWith(s: string, p: string) {
    |p| <= |s| && s[|s| - |p|..] == p
  }

  predicate OccursAt(s: string, p: string, k: nat) {
    k + |p| <= |s| && s[k..k + |p|] == p
  }

  /** Python `s.find(p, k)`: the first occurrence of `p` at or after `k`. */
  function IndexFrom(s: string, p: string, k: nat): (r: Option<nat>)
    requires k <= |s|
    ensures r.Some? ==> k <= r.value && OccursAt(s, p, r.value)
    ensures r.Some? ==> forall j :: k <= j < r.value ==> !OccursAt(s, p, j)
    ensures r.None? ==> forall j :: k <= j <= |s| ==> !OccursAt(s, p, j)
    decreases |s| - k
  {
    if OccursAt(s, p, k) then Some(k)
    else if k == |s| then None
    else IndexFrom(s, p, k + 1)
  }

  /** Python `s.find(p)`, with `None` for -1. */
  function IndexOf(s: string, p: string): (r: Option<nat>)
    ensures r.Some? ==> OccursAt(s, p, r.value)
    ensures r.Some? ==> forall j :: 0 <= j < r.value ==> !OccursAt(s, p, j)
    ensures r.None? ==> forall j :: 0 <= j <= |s| ==> !OccursAt(s, p, j)
  {
    IndexFrom(s, p, 0)
  }

  /** Python `s.find(c)` for a single character, with `None` for -1. */
  function FindChar(s: string, c: char): (r: Option<nat>)
    ensures r.Some? ==> r.value < |s| && s[r.value] == c && c !in s[..r.value]
    ensures r.None? <==> c !in s
  {
    if s == [] then None
    else if s[0] == c then Some(0)
    else
      match FindChar(s[1..], c)
      case None => None
      case Some(k) =>
        assert s[..k + 1] == [s[0]] + s[1..][..k];
        Some(k + 1)
  }

  /** The first occurrence is the only position holding `c` with no `c` before it. */
  lemma {:induction false} FindCharAt(s: string, c: char, k: nat)
    requires k < |s| && s[k] == c && c !in s[..k]
    ensures FindChar(s, c) == Some(k)
  {
    var r := FindChar(s, c);
    assert c in s;
    var j := r.value;
    forall i | 0 <= i < j ensures s[i] != c {
      assert s[i] == s[..j][i];
    }
    forall i | 0 <= i < k ensures s[i] != c {
      assert s[i] == s[..k][i];
    }
  }

  /** Python `s.rfind(c)` for a single character, with `None` for -1. */
  function RFindChar(s: string, c: char): (r: Option<nat>)
    ensures r.Some? ==> r.value < |s| && s[r.value] == c && c !in s[r.value + 1..]
    ensures r.None? <==> c !in s
  {
    if s == [] then None
    else if s[|s| - 1] == c then Some(|s| - 1)
    else
      var init := s[..|s| - 1];
      match RFindChar(init, c)
      case None =>
        assert s == init + [s[|s| - 1]];
        None
      case Some(k) =>
        assert s[k + 1..] == init[k + 1..] + [s[|s| - 1]];
        Some(k)
  }

  /** An occurrence in a suffix is an occurrence in the whole text. */
  lemma OccursInSuffix(s: string, p: string, k: nat, j: nat)
    requires k <= |s| && OccursAt(s[k..], p, j)
    ensures OccursAt(s, p, k + j)
  {
    assert s[k + j..k + j + |p|] == s[k..][j..j + |p|];
  }

  /** Text free of `p` has every suffix free of `p`. */
  lemma NotContainsSuffix(s: string, p: string, k: nat)
    requires k <= |s| && !Contains(s, p)
    ensures !Contains(s[k..], p)
  {
    if Contains(s[k..], p) {
      var j := IndexOf(s[k..], p).value;
      OccursInSuffix(s, p, k, j);
      assert false;
    }
  }

  /** Python `p in s`. */
  predicate Contains(s: string, p: string) {
    IndexOf(s, p).Some?
  }

  /** Number of non-overlapping occurrences of `sep`, scanning left to right
      (Python `s.count(sep)` for a non-empty `sep`). */
  function Count(s: string, sep: string): nat
    requires sep != []
    decreases |s|
  {
    match IndexOf(s, sep)
    case None => 0
    case Some(k) => 1 + Count(s[k + |sep|..], sep)
  }

  /** Python `s.split(sep)` for a non-empty separator. */
  function Split(s: string, sep: string): (parts: seq<string>)
    requires sep != []
    ensures |parts| == Count(s, sep) + 1
    decreases |s|
  {
    match IndexOf(s, sep)
    case None => [s]
    case Some(k) => [s[..k]] + Split(s[k + |sep|..], sep)
  }

  /** Python `sep.join(parts)`. */
  function Join(parts: seq<string>, sep: string): string
  {
    if |parts| == 0 then []
    else if |parts| == 1 then parts[0]
    else parts[0] + sep + Join(parts[1..], sep)
  }

  /** Joining one more piece appends the separator and that piece. */
  lemma {:induction false} JoinSnoc(parts: seq<string>, b: string, sep: string)
    requires |parts| >= 1
    ensures Join(parts + [b], sep) == Join(parts, sep) + sep + b
    decreases |parts|
  {
    var ps := parts + [b];
    assert ps[0] == parts[0] && ps[1..] == parts[1..] + [b];
    if |parts| > 1 {
      JoinSnoc(parts[1..], b, sep);
    }
  }

  /** Python `s.replace(p, q)` for a non-empty `p`. */
  function ReplaceAll(s: string, p: string, q: string): (r: string)
    requires p != []
    ensures !Contains(s, p) ==> r == s
    decreases |s|
  {
    match IndexOf(s, p)
    case None => s
    case Some(k) => s[..k] + q + ReplaceAll(s[k + |p|..], p, q)
  }

  /** Positions with no occurrence can be skipped by the search. */
  lemma {:induction false} IndexFromSkip(s: string, p: string, k: nat, m: nat)
    requires k <= m <= |s|
    requires forall j :: k <= j < m ==> !OccursAt(s, p, j)
    ensures IndexFrom(s, p, k) == IndexFrom(s, p, m)
    decreases m - k
  {
    if k < m {
      IndexFromSkip(s, p, k + 1, m);
    }
  }

  /** The first occurrence is the only occurrence with none before it. */
  lemma FirstOccurrence(s: string, p: string, m: nat)
    requires m <= |s| && OccursAt(s, p, m)
    requires forall j :: 0 <= j < m ==> !OccursAt(s, p, j)
    ensures IndexOf(s, p) == Some(m)
  {
    IndexFromSkip(s, p, 0, m);
  }

  /** No occurrence starts before `m` when the character at offset `i` of the pattern
      is absent from the text up to `m + i`. */
  lemma NoOccurrenceBefore(s: string, p: string, i: nat, m: nat)
    requires i < |p| && m + i <= |s| && p[i] !in s[..m + i]
    ensures forall j :: 0 <= j < m ==> !OccursAt(s, p, j)
  {
    forall j | 0 <= j < m ensures !OccursAt(s, p, j) {
      assert s[j + i] == s[..m + i][j + i];
      if j + |p| <= |s| {
        assert s[j..j + |p|][i] == s[j + i];
      }
    }
  }

  /** A text lacking one of the pattern's characters does not contain the pattern. */
  lemma AbsentByChar(s: string, p: string, i: nat)
    requires i < |p| && p[i] !in s
    ensures !Contains(s, p)
  {
    forall j | 0 <= j <= |s| ensures !OccursAt(s, p, j) {
      if j + |p| <= |s| {
        assert s[j..j + |p|][i] == s[j + i];
      }
    }
  }

  /** Replacing in `a + p + b` when `p` first occurs right after `a`. */
  lemma ReplaceFirstAt(a: string, p: string, b: string, q: string)
    requires p != []
    requires forall j :: 0 <= j < |a| ==> !OccursAt(a + p + b, p, j)
    ensures ReplaceAll(a + p + b, p, q) == a + q + ReplaceAll(b, p, q)
  {
    var s := a + p + b;
    assert s[|a|..|a| + |p|] == p;
    FirstOccurrence(s, p, |a|);
    assert s[..|a|] == a && s[|a| + |p|..] == b;
  }

  /** A text that starts with another character and lacks `p` still lacks `p` after
      that character is put in front. */
  lemma NotContainsCons(c: char, x: string, p: string)
    requires p != [] && p[0] != c && !Contains(x, p)
    ensures !Contains([c] + x, p)
  {
    var s := [c] + x;
    forall j | 0 <= j <= |s| ensures !OccursAt(s, p, j) {
      if j == 0 {
        if |p| <= |s| {
          assert s[..|p|][0] == c;
        }
      } else if j + |p| <= |s| {
        assert s[j..j + |p|] == x[j - 1..j - 1 + |p|];
        assert !OccursAt(x, p, j - 1);
      }
    }
  }

  /** A text contains every piece it is built around. */
  lemma ContainsMiddle(a: string, p: string, b: string)
    ensures Contains(a + p + b, p)
  {
    var s := a + p + b;
    assert s[|a|..|a| + |p|] == p;
    assert OccursAt(s, p, |a|);
  }

  /** Joining a piece in front of a non-empty list. */
  lemma JoinCons(x: string, xs: seq<string>, sep: string)
    requires |xs| >= 1
    ensures Join([x] + xs, sep) == x + sep + Join(xs, sep)
  {
    assert ([x] + xs)[1..] == xs;
  }

  /** Joining two non-empty lists of pieces. */
  lemma {:induction false} JoinAppend(xs: seq<string>, ys: seq<string>, sep: string)
    requires |xs| >= 1 && |ys| >= 1
    ensures Join(xs + ys, sep) == Join(xs, sep) + sep + Join(ys, sep)
    decreases |xs|
  {
    var zs := xs + ys;
    assert zs[0] == xs[0];
    if |xs| > 1 {
      assert zs[1..] == xs[1..] + ys;
      JoinAppend(xs[1..], ys, sep);
    } else {
      assert zs[1..] == ys;
    }
  }

  /** Splitting splits off a first piece free of the separator's first character. */
  lemma SplitAfterPiece(a: string, sep: string, b: string)
    requires sep != [] && sep[0] !in a
    ensures Split(a + sep + b, sep) == [a] + Split(b, sep)
  {
    var s := a + sep + b;
    assert s[..|a|] == a;
    NoOccurrenceBefore(s, sep, 0, |a|);
    assert s[|a|..|a| + |sep|] == sep;
    FirstOccurrence(s, sep, |a|);
    assert s[|a| + |sep|..] == b;
  }

  /** Splitting a join of pieces free of the separator's first character, followed by
      the separator and more text. */
  lemma {:induction false} SplitJoinThen(parts: seq<string>, sep: string, tail: string)
    requires sep != [] && |parts| >= 1
    requires forall i :: 0 <= i < |parts| ==> sep[0] !in parts[i]
    ensures Split(Join(parts, sep) + sep + tail, sep) == parts + Split(tail, sep)
    decreases |parts|
  {
    if |parts| == 1 {
      SplitAfterPiece(parts[0], sep, tail);
    } else {
      JoinCons(parts[0], parts[1..], sep);
      assert [parts[0]] + parts[1..] == parts;
      SplitJoinThen(parts[1..], sep, tail);
      SplitThenStep(parts[0], parts[1..], Join(parts[1..], sep), sep, tail);
    }
  }

  lemma SplitThenStep(p0: string, rest: seq<string>, j: string, sep: string, tail: string)
    requires sep != [] && sep[0] !in p0
    requires Split(j + sep + tail, sep) == rest + Split(tail, sep)
    ensures Split(p0 + sep + j + sep + tail, sep) == [p0] + rest + Split(tail, sep)
  {
    assert p0 + sep + j + sep + tail == p0 + sep + (j + sep + tail);
    SplitAfterPiece(p0, sep, j + sep + tail);
  }

  /** No occurrence of `sep` can start inside `a`, whatever text follows it: `a`
      followed by all but the last character of `sep` holds no `sep`. */
  predicate NoneStartsIn(a: string, sep: string)
    requires sep != []
  {
    !Contains(a + sep[..|sep| - 1], sep)
  }

  /** An occurrence inside a prefix is an occurrence in the whole text. */
  lemma OccursInPrefix(s: string, p: string, n: nat, j: nat)
    requires n <= |s| && OccursAt(s[..n], p, j)
    ensures OccursAt(s, p, j)
  {
    assert s[..n][j..j + |p|] == s[j..j + |p|];
  }

  /** Such a text holds no separator itself. */
  lemma NoneStartsInAvoids(a: string, sep: string)
    requires sep != [] && NoneStartsIn(a, sep)
    ensures !Contains(a, sep)
  {
    var t := a + sep[..|sep| - 1];
    if Contains(a, sep) {
      var j := IndexOf(a, sep).value;
      assert t[..|a|] == a;
      OccursInPrefix(t, sep, |a|, j);
      assert false;
    }
  }

  /** The first separator of `a + sep + b` is the one after `a` when none starts in
      `a`. */
  lemma SplitAfterClearPiece(a: string, sep: string, b: string)
    requires sep != [] && NoneStartsIn(a, sep)
    ensures Split(a + sep + b, sep) == [a] + Split(b, sep)
  {
    var s := a + sep + b;
    var t := a + sep[..|sep| - 1];
    assert s[..|t|] == t;
    forall j | 0 <= j < |a| ensures !OccursAt(s, sep, j) {
      if OccursAt(s, sep, j) {
        assert s[..|t|][j..j + |sep|] == s[j..j + |sep|];
        assert OccursAt(t, sep, j);
        assert false;
      }
    }
    assert s[|a|..|a| + |sep|] == sep;
    FirstOccurrence(s, sep, |a|);
    assert s[..|a|] == a;
    assert s[|a| + |sep|..] == b;
  }

  /** Splitting a join gives the pieces back exactly when the pieces are what a split
      produces: no separator starts inside any piece but the last, and the last holds
      none. */
  lemma {:induction false} SplitJoinClear(parts: seq<string>, sep: string)
    requires sep != [] && |parts| >= 1
    requires forall i :: 0 <= i < |parts| - 1 ==> NoneStartsIn(parts[i], sep)
    requires !Contains(parts[|parts| - 1], sep)
    ensures Split(Join(parts, sep), sep) == parts
    decreases |parts|
  {
    if |parts| == 1 {
    } else {
      var rest := parts[1..];
      assert Join(parts, sep) == parts[0] + sep + Join(rest, sep);
      SplitAfterClearPiece(parts[0], sep, Join(rest, sep));
      assert rest[|rest| - 1] == parts[|parts| - 1];
      assert forall i :: 0 <= i < |rest| - 1 ==> rest[i] == parts[i + 1];
      SplitJoinClear(rest, sep);
      assert parts == [parts[0]] + rest;
    }
  }

  /** The pieces of a split: no separator starts inside any piece but the last, and
      no piece holds one. */
  lemma {:induction false} SplitPiecesAreClear(s: string, sep: string)
    requires sep != []
    ensures forall i :: 0 <= i < |Split(s, sep)| ==> !Contains(Split(s, sep)[i], sep)
    ensures forall i :: 0 <= i < |Split(s, sep)| - 1 ==> NoneStartsIn(Split(s, sep)[i], sep)
    decreases |s|
  {
    match IndexOf(s, sep)
    case None =>
    case Some(k) =>
      var rest := s[k + |sep|..];
      SplitPiecesAreClear(rest, sep);
      PieceBeforeFirstIsClear(s, sep, k);
      NoneStartsInAvoids(s[..k], sep);
      var ps := Split(s, sep);
      assert ps == [s[..k]] + Split(rest, sep);
      forall i | 1 <= i < |ps| ensures !Contains(ps[i], sep) && (i < |ps| - 1 ==> NoneStartsIn(ps[i], sep)) {
        assert ps[i] == Split(rest, sep)[i - 1];
      }
  }

  /** The text before the first occurrence of `sep` has none starting in it. */
  lemma PieceBeforeFirstIsClear(s: string, sep: string, k: nat)
    requires sep != [] && IndexOf(s, sep) == Some(k)
    ensures NoneStartsIn(s[..k], sep)
  {
    var t := s[..k] + sep[..|sep| - 1];
    assert t == s[..k + |sep| - 1];
    if Contains(t, sep) {
      var j := IndexOf(t, sep).value;
      OccursInPrefix(s, sep, k + |sep| - 1, j);
      assert false;
    }
  }

  /** Joining the pieces of a split with the same separator gives the text back. */
  lemma {:induction false} JoinSplit(s: string, sep: string)
    requires sep != []
    ensures Join(Split(s, sep), sep) == s
    decreases |s|
  {
    match IndexOf(s, sep)
    case None =>
    case Some(k) =>
      var rest := s[k + |sep|..];
      JoinSplit(rest, sep);
      assert s == s[..k] + sep + rest;
  }

  /** Splitting a join gives the pieces back when no piece contains the separator's
      first character: no occurrence can then start inside a piece. */
  lemma {:induction false} SplitJoin(parts: seq<string>, sep: string)
    requires sep != [] && |parts| >= 1
    requires forall i :: 0 <= i < |parts| ==> sep[0] !in parts[i]
    ensures Split(Join(parts, sep), sep) == parts
    decreases |parts|
  {
    if |parts| == 1 {
      AbsentByChar(parts[0], sep, 0);
    } else {
      var rest := parts[1..];
      assert Join(parts, sep) == parts[0] + sep + Join(rest, sep);
      SplitAfterPiece(parts[0], sep, Join(rest, sep));
      SplitJoin(rest, sep);
      assert parts == [parts[0]] + rest;
    }
  }

  /** Splitting on a one-character separator leaves no separator in any piece. */
  lemma {:induction false} SplitPiecesAvoidSeparator(s: string, c: char)
    ensures forall i :: 0 <= i < |Split(s, [c])| ==> c !in Split(s, [c])[i]
    decreases |s|
  {
    match IndexOf(s, [c])
    case None =>
      forall j | 0 <= j < |s| ensures s[j] != c {
        assert !OccursAt(s, [c], j);
        assert s[j..j + 1] == [s[j]];
      }
    case Some(k) =>
      forall j | 0 <= j < k ensures s[j] != c {
        assert !OccursAt(s, [c], j);
        assert s[j..j + 1] == [s[j]];
      }
      assert c !in s[..k];
      SplitPiecesAvoidSeparator(s[k + 1..], c);
  }

  /** `replace` is the join, with the new text, of the split on the old text. */
  lemma {:induction false} ReplaceIsJoinSplit(s: string, p: string, q: string)
    requires p != []
    ensures ReplaceAll(s, p, q) == Join(Split(s, p), q)
    decreases |s|
  {
    if IndexOf(s, p).Some? {
      var k := IndexOf(s, p).value;
      var rest := s[k + |p|..];
      ReplaceIsJoinSplit(rest, p, q);
      ReplaceSplitStep(s, p, q);
      JoinCons(s[..k], Split(rest, p), q);
    }
  }

  lemma ReplaceSplitStep(s: string, p: string, q: string)
    requires p != [] && IndexOf(s, p).Some?
    ensures var k := IndexOf(s, p).value;
      ReplaceAll(s, p, q) == s[..k] + q + ReplaceAll(s[k + |p|..], p, q)
    ensures var k := IndexOf(s, p).value;
      Split(s, p) == [s[..k]] + Split(s[k + |p|..], p)
  {
  }

  /** Python `s.count(c)` for a single character. */
  function CountChar(s: string, c: char): (n: nat)
    ensures n <= |s|
    ensures n == 0 <==> c !in s
  {
    if s == [] then 0
    else (if s[0] == c then 1 else 0) + CountChar(s[1..], c)
  }

  /** Python `lower()` on ASCII and Latin-1 capitals; every other character is kept,
      so the result has the length of the input. */
  function LowerChar(c: char): char {
    var n := c as int;
    if ('A' as int <= n <= 'Z' as int) || (0xC0 <= n <= 0xDE && n != 0xD7)
    then (n + 32) as char
    else c
  }

  function Lower(s: string): (r: string)
    ensures |r| == |s|
    ensures forall i :: 0 <= i < |s| ==> r[i] == LowerChar(s[i])
  {
    seq(|s|, i requires 0 <= i < |s| => LowerChar(s[i]))
  }

  /** `s.lower().startswith(p.lower())`. */
  predicate StartsWithIgnoringCase(s: string, p: string) {
    StartsWith(Lower(s), Lower(p))
  }

  /** `s.lower().endswith(p.lower())`. */
  predicate EndsWithIgnoringCase(s: string, p: string) {
    EndsWith(Lower(s), Lower(p))
  }

  /** The longest prefix of `s` that holds no whitespace. */
  function Token(s: string): (w: string)
    ensures |w| <= |s| && w == s[..|w|] && NoSpace(w)
    ensures |w| < |s| ==> IsSpace(s[|w|])
  {
    if s == [] || IsSpace(s[0]) then []
    else [s[0]] + Token(s[1..])
  }

  /** Python `s.split()`: the maximal whitespace-free runs, in order. */
  function Words(s: string): (ws: seq<string>)
    ensures forall i :: 0 <= i < |ws| ==> ws[i] != [] && NoSpace(ws[i])
    ensures ws == [] <==> AllSpace(s)
    decreases |s|
  {
    var t := TrimLeft(s);
    if t == [] then
      []
    else
      var w := Token(t);
      assert !IsSpace(s[|s| - |t|]);
      assert |w| >= 1;
      var rest := Words(t[|w|..]);
      WordsCons(w, rest);
      [w] + rest
  }

  lemma WordsCons(w: string, rest: seq<string>)
    requires w != [] && NoSpace(w)
    requires forall i :: 0 <= i < |rest| ==> rest[i] != [] && NoSpace(rest[i])
    ensures forall i :: 0 <= i < |[w] + rest| ==> ([w] + rest)[i] != [] && NoSpace(([w] + rest)[i])
  {
    forall i | 0 <= i < |[w] + rest| ensures ([w] + rest)[i] != [] && NoSpace(([w] + rest)[i]) {
      if i > 0 {
        assert ([w] + rest)[i] == rest[i - 1];
      }
    }
  }
}
