/** File-path pieces as `pathlib` names them, for paths written without repeated or
    trailing slashes. */
module Paths {
  import opened Basics
  import opened Strings

  /** The directory part of a path, up to and including its last `/`. */
  function DirPrefix(path: string): (d: string)
    ensures StartsWith(path, d) && (d == [] || d[|d| - 1] == '/')
  {
    match RFindChar(path, '/')
    case None => []
    case Some(k) => path[..k + 1]
  }

  /** `Path(path).name`: what follows the last `/`. */
  function BaseName(path: string): (n: string)
    ensures '/' !in n
    ensures DirPrefix(path) + n == path
  {
    match RFindChar(path, '/')
    case None => path
    case Some(k) => path[k + 1..]
  }

  /** Where a file name's suffix starts: at its last dot, unless that dot opens or
      closes the name. */
  function SuffixStart(name: string): (i: nat)
    ensures i <= |name|
    ensures i < |name| ==> 0 < i < |name| - 1 && name[i] == '.' && '.' !in name[i + 1..]
    ensures i == |name| ==> forall k :: 0 < k < |name| - 1 && name[k] == '.' ==> '.' in name[k + 1..]
  {
    match RFindChar(name, '.')
    case Some(i) => if 0 < i < |name| - 1 then i else |name|
    case None => |name|
  }

  /** `Path.stem` and `Path.suffix`. */
  function Stem(name: string): string {
    name[..SuffixStart(name)]
  }

  function Suffix(name: string): (x: string)
    ensures x == [] || (x[0] == '.' && |x| >= 2 && '.' !in x[1..])
  {
    name[SuffixStart(name)..]
  }

  /** A name splits into its stem and its suffix. */
  lemma StemSuffix(name: string)
    ensures Stem(name) + Suffix(name) == name
  {
    var i := SuffixStart(name);
    assert name == name[..i] + name[i..];
  }

  /** A path made of a directory prefix and a slash-free name splits back into them. */
  lemma PathParts(dir: string, name: string)
    requires dir == [] || dir[|dir| - 1] == '/'
    requires '/' !in name
    ensures DirPrefix(dir + name) == dir && BaseName(dir + name) == name
  {
    if dir == [] {
      assert dir + name == name;
    } else {
      RFindAfter(dir, name, '/');
      assert (dir + name)[..|dir|] == dir;
    }
  }

  /** `nb.ipynb` has stem `nb` and suffix `.ipynb`. */
  lemma IpynbStemSuffix(stem: string)
    requires stem != [] && '.' !in stem
    ensures Stem(stem + ".ipynb") == stem && Suffix(stem + ".ipynb") == ".ipynb"
  {
    var name := stem + ".ipynb";
    assert name[|stem|] == '.' && name[|stem| + 1..] == "ipynb";
    RFindAt(name, '.', |stem|);
    assert name[..|stem|] == stem;
  }

  /** The last `c` of `a + b` is the last of `a` when `b` has none. */
  lemma RFindAfter(a: string, b: string, c: char)
    requires a != [] && a[|a| - 1] == c && c !in b
    ensures RFindChar(a + b, c) == Some(|a| - 1)
  {
    var s := a + b;
    assert s[|a|..] == b;
    RFindAt(s, c, |a| - 1);
  }

  /** The last occurrence is the only position holding `c` with none after it. */
  lemma RFindAt(s: string, c: char, k: nat)
    requires k < |s| && s[k] == c && c !in s[k + 1..]
    ensures RFindChar(s, c) == Some(k)
  {
    var j := RFindChar(s, c).value;
    forall i | j < i < |s| ensures s[i] != c {
      assert s[i] == s[j + 1..][i - j - 1];
    }
    forall i | k < i < |s| ensures s[i] != c {
      assert s[i] == s[k + 1..][i - k - 1];
    }
  }
}
