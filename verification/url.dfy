/** The URL helpers of the notebook downloader: turning a GitHub page URL into the URL
    of the raw file, and naming the downloaded file. */
module UrlDownloader {
  import opened Basics
  import opened Strings
  import opened CharClasses
  import opened Paths

  const GithubHost := "github.com"
  const RawHost := "raw.githubusercontent.com"
  const BlobMarker := "/blob/"

  /** A URL the converter rewrites: it mentions the GitHub host and a blob path. */
  predicate IsBlobUrl(url: string) {
    Contains(url, GithubHost) && Contains(url, BlobMarker)
  }

  // ---------------------------------------------------------------------------
  // GitHub URL conversion
  // ---------------------------------------------------------------------------

  /** `convert_github_url` as written: every `github.com` and every `/blob/` in the URL
      is replaced, wherever it appears. */
  function ConvertGithubUrl(url: string): (r: string)
    ensures !IsBlobUrl(url) ==> r == url
  {
    if IsBlobUrl(url) then
      ReplaceAll(ReplaceAll(url, GithubHost, RawHost), BlobMarker, "/")
    else url
  }

  /** The raw URL a GitHub blob URL stands for: the host is replaced and the `blob`
      segment right after the owner and the repository is dropped; the rest of the
      path is kept as it is. Any other URL is returned unchanged. */
  function RawUrl(url: string): (r: string)
    ensures r != url ==> IsBlobUrl(url)
  {
    var segs := Split(url, "/");
    if |segs| >= 7 && segs[1] == [] && segs[2] == GithubHost && segs[5] == "blob" then
      BlobUrlIsBlob(url, segs);
      Join(segs[..2] + [RawHost] + segs[3..5] + segs[6..], "/")
    else url
  }

  /** A URL whose third and sixth `/`-pieces are the GitHub host and `blob`, with more
      pieces after, mentions both. */
  lemma BlobUrlIsBlob(url: string, segs: seq<string>)
    requires segs == Split(url, "/")
    requires |segs| >= 7 && segs[2] == GithubHost && segs[5] == "blob"
    ensures IsBlobUrl(url)
  {
    JoinSplit(url, "/");
    JoinedBlobParts(segs);
  }

  lemma JoinedBlobParts(segs: seq<string>)
    requires |segs| >= 7 && segs[2] == GithubHost && segs[5] == "blob"
    ensures IsBlobUrl(Join(segs, "/"))
  {
    var a := Join(segs[..2], "/");
    var m := Join(segs[3..5], "/");
    var b := Join(segs[6..], "/");
    var j3 := Join(segs[3..], "/");
    JoinedFromThird(segs);
    assert segs[2..] == [GithubHost] + segs[3..];
    JoinCons(GithubHost, segs[3..], "/");
    assert segs == segs[..2] + segs[2..];
    JoinAppend(segs[..2], segs[2..], "/");
    assert Join(segs, "/") == a + "/" + (GithubHost + "/" + j3);
    BlobShape(a, m, b);
  }

  /** From the fourth segment on, a blob URL's pieces join to `m/blob/b`. */
  lemma JoinedFromThird(segs: seq<string>)
    requires |segs| >= 7 && segs[5] == "blob"
    ensures Join(segs[3..], "/") == Join(segs[3..5], "/") + "/" + ("blob" + "/" + Join(segs[6..], "/"))
  {
    assert segs[5..] == ["blob"] + segs[6..];
    JoinCons("blob", segs[6..], "/");
    assert segs[3..] == segs[3..5] + segs[5..];
    JoinAppend(segs[3..5], segs[5..], "/");
  }

  /** The shape `a/github.com/m/blob/b` mentions both patterns. */
  lemma BlobShape(a: string, m: string, b: string)
    ensures IsBlobUrl(a + "/" + (GithubHost + "/" + (m + "/" + ("blob" + "/" + b))))
  {
    var url := a + "/" + (GithubHost + "/" + (m + "/" + ("blob" + "/" + b)));
    var rest := "/" + (m + "/" + ("blob" + "/" + b));
    assert url == (a + "/") + GithubHost + rest;
    ContainsMiddle(a + "/", GithubHost, rest);
    var pre := a + "/" + GithubHost + "/" + m;
    assert url == pre + BlobMarker + b;
    ContainsMiddle(pre, BlobMarker, b);
  }

  lemma Assoc(x: string, y: string, z: string)
    ensures x + y + z == x + (y + z)
  {
  }

  /** The URL of a file on GitHub, as shown in the browser. */
  function BlobUrl(owner: string, repo: string, tail: string): string {
    "https://" + GithubHost + "/" + owner + "/" + repo + BlobMarker + tail
  }

  /** The URL of the same file on the raw-content host. */
  function RawFileUrl(owner: string, repo: string, tail: string): string {
    "https://" + RawHost + "/" + owner + "/" + repo + "/" + tail
  }

  /** Joining five pieces. */
  lemma JoinFive(a: string, b: string, c: string, d: string, e: string, sep: string)
    ensures Join([a, b, c, d, e], sep) == a + sep + b + sep + c + sep + d + sep + e
  {
    JoinCons(d, [e], sep);
    assert [d, e] == [d] + [e];
    JoinCons(c, [d, e], sep);
    assert [c, d, e] == [c] + [d, e];
    JoinCons(b, [c, d, e], sep);
    assert [b, c, d, e] == [b] + [c, d, e];
    JoinCons(a, [b, c, d, e], sep);
    assert [a, b, c, d, e] == [a] + [b, c, d, e];
  }

  /** The pieces of a blob URL. */
  lemma BlobUrlPieces(owner: string, repo: string, tail: string)
    requires '/' !in owner && '/' !in repo
    ensures Split(BlobUrl(owner, repo, tail), "/") ==
      ["https:", "", GithubHost, owner, repo, "blob"] + Split(tail, "/")
  {
    var head := ["https:", "", GithubHost, owner, repo, "blob"];
    BlobHead(owner, repo, tail);
    SplitJoinThen(head, "/", tail);
  }

  /** A blob URL is its six leading pieces joined, then its file path. */
  lemma BlobHead(owner: string, repo: string, tail: string)
    ensures Join(["https:", "", GithubHost, owner, repo, "blob"], "/") + "/" + tail == BlobUrl(owner, repo, tail)
  {
    var five := ["https:", "", GithubHost, owner, repo];
    JoinFive("https:", "", GithubHost, owner, repo, "/");
    assert ["https:", "", GithubHost, owner, repo, "blob"] == five + ["blob"];
    JoinAppend(five, ["blob"], "/");
  }

  /** The intended conversion maps a blob URL to the raw URL of the same file, whatever
      the file path is. */
  lemma {:induction false} RawUrlOfBlobUrl(owner: string, repo: string, tail: string)
    requires '/' !in owner && '/' !in repo
    ensures RawUrl(BlobUrl(owner, repo, tail)) == RawFileUrl(owner, repo, tail)
  {
    var url := BlobUrl(owner, repo, tail);
    BlobUrlPieces(owner, repo, tail);
    var segs := Split(url, "/");
    var rest := Split(tail, "/");
    var rawHead := ["https:", "", RawHost, owner, repo];
    assert segs[..2] + [RawHost] + segs[3..5] + segs[6..] == rawHead + rest;
    assert RawUrl(url) == Join(rawHead + rest, "/");
    JoinAppend(rawHead, rest, "/");
    JoinSplit(tail, "/");
    JoinFive("https:", "", RawHost, owner, repo, "/");
    RawShape(owner, repo, tail);
  }

  lemma RawShape(owner: string, repo: string, tail: string)
    ensures "https:" + "/" + "" + "/" + RawHost + "/" + owner + "/" + repo + "/" + tail == RawFileUrl(owner, repo, tail)
  {
    assert "https:" + "/" + "" + "/" == "https://";
  }

  /** Replacing the host in a blob URL whose other parts do not mention it. */
  lemma HostReplaced(rest: string)
    requires rest != [] && rest[0] == '/' && !Contains(rest, GithubHost)
    ensures ReplaceAll("https://" + GithubHost + rest, GithubHost, RawHost) == "https://" + RawHost + rest
  {
    var url := "https://" + GithubHost + rest;
    assert url[..8] == "https://";
    NoOccurrenceBefore(url, GithubHost, 0, 8);
    ReplaceFirstAt("https://", GithubHost, rest, RawHost);
  }

  /** Replacing a marker whose first occurrence follows `a`, where `a` has no `l`. */
  lemma MarkerReplaced(a: string, b: string)
    requires 'l' !in a
    ensures ReplaceAll(a + BlobMarker + b, BlobMarker, "/") == a + "/" + ReplaceAll(b, BlobMarker, "/")
  {
    var s := a + BlobMarker + b;
    assert s[..|a| + 2] == a + "/b";
    NoOccurrenceBefore(s, BlobMarker, 2, |a|);
    ReplaceFirstAt(a, BlobMarker, b, "/");
  }

  /** The converter as written drops every `blob` directory of the file path, not only
      the marker after the repository name, so the raw URL it builds names another
      file than the intended conversion does. */
  lemma ConvertDropsBlobDirectory(owner: string, repo: string, branch: string, file: string)
    requires '/' !in owner && '/' !in repo && '/' !in file
    requires 'l' !in owner && 'l' !in repo && 'l' !in branch
    requires 'g' !in owner && 'g' !in repo && 'g' !in branch && 'g' !in file
    ensures ConvertGithubUrl(BlobUrl(owner, repo, branch + BlobMarker + file))
         == RawFileUrl(owner, repo, branch + "/" + file)
    ensures RawUrl(BlobUrl(owner, repo, branch + BlobMarker + file))
         == RawFileUrl(owner, repo, branch + BlobMarker + file)
    ensures ConvertGithubUrl(BlobUrl(owner, repo, branch + BlobMarker + file))
         != RawUrl(BlobUrl(owner, repo, branch + BlobMarker + file))
  {
    var tail := branch + BlobMarker + file;
    HostStep(owner, repo, tail);
    MarkerSteps(owner, repo, branch, file);
    RawUrlOfBlobUrl(owner, repo, tail);
  }

  /** The first replacement of the converter on a blob URL that mentions the host once. */
  lemma HostStep(owner: string, repo: string, tail: string)
    requires 'g' !in owner && 'g' !in repo && 'g' !in tail
    ensures IsBlobUrl(BlobUrl(owner, repo, tail))
    ensures ReplaceAll(BlobUrl(owner, repo, tail), GithubHost, RawHost)
         == "https://" + RawHost + ("/" + owner + "/" + repo + BlobMarker + tail)
  {
    var rest := "/" + owner + "/" + repo + BlobMarker + tail;
    BlobUrlSplitsAtHost(owner, repo, tail);
    assert 'g' !in rest;
    AbsentByChar(rest, GithubHost, 0);
    HostReplaced(rest);
    BlobUrlMentionsBoth(owner, repo, tail);
  }

  lemma Regroup(h: string, owner: string, repo: string, tail: string)
    ensures h + ("/" + owner + "/" + repo + BlobMarker + tail) == h + "/" + owner + "/" + repo + BlobMarker + tail
  {
  }

  lemma BlobUrlSplitsAtHost(owner: string, repo: string, tail: string)
    ensures BlobUrl(owner, repo, tail) == "https://" + GithubHost + ("/" + owner + "/" + repo + BlobMarker + tail)
  {
  }

  lemma BlobUrlMentionsBoth(owner: string, repo: string, tail: string)
    ensures IsBlobUrl(BlobUrl(owner, repo, tail))
  {
    BlobUrlSplitsAtHost(owner, repo, tail);
    ContainsMiddle("https://", GithubHost, "/" + owner + "/" + repo + BlobMarker + tail);
    ContainsMiddle("https://" + GithubHost + "/" + owner + "/" + repo, BlobMarker, tail);
  }

  /** The second replacement of the converter removes both markers. */
  lemma MarkerSteps(owner: string, repo: string, branch: string, file: string)
    requires '/' !in file
    requires 'l' !in owner && 'l' !in repo && 'l' !in branch
    ensures ReplaceAll("https://" + RawHost + ("/" + owner + "/" + repo + BlobMarker + (branch + BlobMarker + file)), BlobMarker, "/")
         == RawFileUrl(owner, repo, branch + "/" + file)
  {
    var a1 := "https://" + RawHost + "/" + owner + "/" + repo;
    Regroup("https://" + RawHost, owner, repo, branch + BlobMarker + file);
    RawHostHasNoL();
    assert 'l' !in a1;
    MarkerReplaced(a1, branch + BlobMarker + file);
    MarkerReplaced(branch, file);
    AbsentByChar(file, BlobMarker, 0);
  }

  lemma RawHostHasNoL()
    ensures 'l' !in "https://" + RawHost
  {
  }

  /** For instance `https://github.com/u/r/blob/main/blob/nb.ipynb` is fetched from
      `https://raw.githubusercontent.com/u/r/main/nb.ipynb`. */
  lemma ConvertDropsBlobDirectoryExample()
    ensures ConvertGithubUrl(BlobUrl("u", "r", "main" + BlobMarker + "nb.ipynb"))
         == RawFileUrl("u", "r", "main/nb.ipynb")
  {
    ConvertDropsBlobDirectory("u", "r", "main", "nb.ipynb");
    ExamplePath();
  }

  lemma ExamplePath()
    ensures "main" + "/" + "nb.ipynb" == "main/nb.ipynb"
  {
  }

  // ---------------------------------------------------------------------------
  // File name from a URL
  // ---------------------------------------------------------------------------

  predicate IsSchemeChar(c: char) {
    IsAsciiLetter(c) || IsDigit(c) || c == '+' || c == '-' || c == '.'
  }

  /** The schemes whose last path segment may carry `;parameters`. */
  const ParamSchemes: set<string> := {
    "", "ftp", "hdl", "prospero", "http", "imap", "https", "shttp", "rtsp",
    "rtsps", "rtspu", "sip", "sips", "mms", "sftp", "tel"
  }

  /** The scheme of a URL and what follows its colon, as `urlsplit` finds them. */
  function SplitScheme(url: string): (r: (string, string))
    ensures r.0 + (if r.0 == [] then [] else ":") + r.1 == url
  {
    match FindChar(url, ':')
    case Some(i) =>
      if i > 0 && IsAsciiLetter(url[0]) && (forall k :: 0 <= k < i ==> IsSchemeChar(url[k])) then
        assert url == url[..i] + ":" + url[i + 1..];
        (url[..i], url[i + 1..])
      else ([], url)
    case None => ([], url)
  }

  /** Where the authority after `//` ends: at the first `/`, `?` or `#`. */
  function AuthorityEnd(s: string, k: nat): (e: nat)
    requires 2 <= k <= |s|
    ensures k <= e <= |s|
    ensures forall j :: k <= j < e ==> s[j] != '/' && s[j] != '?' && s[j] != '#'
    ensures e < |s| ==> s[e] == '/' || s[e] == '?' || s[e] == '#'
    decreases |s| - k
  {
    if k == |s| || s[k] == '/' || s[k] == '?' || s[k] == '#' then k
    else AuthorityEnd(s, k + 1)
  }

  /** Text before the first `c`, all of it when there is none. */
  function Before(s: string, c: char): (r: string)
    ensures c !in r && StartsWith(s, r)
    ensures c !in s ==> r == s
  {
    match FindChar(s, c)
    case None => s
    case Some(i) => s[..i]
  }

  /** Drops the `;parameters` of the last path segment. */
  function DropParams(path: string): (r: string)
    ensures StartsWith(path, r)
    ensures ';' !in path ==> r == path
  {
    if ';' !in path then path
    else
      match RFindChar(path, '/')
      case None => Before(path, ';')
      case Some(k) =>
        match FindChar(path[k..], ';')
        case None => path
        case Some(i) =>
          assert path[..k + i] == path[..k] + path[k..][..i];
          path[..k + i]
  }

  /** The path component `urlparse` reports. */
  function UrlPath(url: string): (path: string)
    ensures '#' !in path && '?' !in path
  {
    var (scheme, rest) := SplitScheme(url);
    var afterAuthority := if StartsWith(rest, "//") then rest[AuthorityEnd(rest, 2)..] else rest;
    var path := Before(Before(afterAuthority, '#'), '?');
    if Lower(scheme) in ParamSchemes then
      assert '#' !in path && '?' !in path;
      ParamsKeepExclusions(path);
      DropParams(path)
    else path
  }

  lemma ParamsKeepExclusions(path: string)
    requires '#' !in path && '?' !in path
    ensures '#' !in DropParams(path) && '?' !in DropParams(path)
  {
    var r := DropParams(path);
    assert r == path[..|r|];
    forall j | 0 <= j < |r| ensures r[j] != '#' && r[j] != '?' {
      assert r[j] == path[j];
    }
  }

  /** `Path(path).name`: the last component that is neither empty nor `.`. */
  function PathName(path: string): (name: string)
    ensures '/' !in name && name != "."
    decreases |path|
  {
    match RFindChar(path, '/')
    case None => if path == "." then [] else path
    case Some(k) =>
      var last := path[k + 1..];
      if last == [] || last == "." then PathName(path[..k]) else last
  }

  /** The suffix every downloaded notebook's name ends with. */
  const NotebookExtension := ".ipynb"

  /** Appends `.ipynb` unless the name already ends with it. */
  function WithNotebookExtension(name: string): (r: string)
    ensures EndsWith(r, NotebookExtension)
    ensures EndsWith(name, NotebookExtension) ==> r == name
    ensures !EndsWith(name, NotebookExtension) ==> r == name + NotebookExtension
  {
    if EndsWith(name, NotebookExtension) then name
    else
      var r := name + NotebookExtension;
      assert r[|r| - |NotebookExtension|..] == NotebookExtension;
      r
  }

  /** `extract_filename_from_url`: the last path component, always ending in `.ipynb`. */
  function ExtractFilename(url: string): (name: string)
    ensures EndsWith(name, NotebookExtension)
    ensures StartsWith(name, PathName(UrlPath(url)))
    ensures var n := PathName(UrlPath(url));
      name == if EndsWith(n, NotebookExtension) then n else n + NotebookExtension
  {
    WithNotebookExtension(PathName(UrlPath(url)))
  }

  /** Naming is idempotent: a name it produced is kept. */
  lemma ExtensionIdempotent(name: string)
    ensures WithNotebookExtension(WithNotebookExtension(name)) == WithNotebookExtension(name)
  {
  }

  /** The last component of `dir/name` is `name`. */
  lemma PathNameOfFile(dir: string, name: string)
    requires '/' !in name && name != [] && name != "."
    ensures PathName(dir + "/" + name) == name
  {
    var path := dir + "/" + name;
    RFindAfter(dir + "/", name, '/');
    assert path[|dir| + 1..] == name;
  }

  /** The path `urlparse` reports for an `https` URL is what follows the host. */
  lemma HttpsUrlPath(host: string, path: string)
    requires '/' !in host && '?' !in host && '#' !in host
    requires path != [] && path[0] == '/' && '?' !in path && '#' !in path && ';' !in path
    ensures UrlPath("https://" + host + path) == path
  {
    var rest := "//" + host + path;
    assert "https://" + host + path == "https:" + rest;
    HttpsScheme(rest);
    AuthorityOfHost(host, path);
    assert rest[2 + |host|..] == path;
    UrlPathAfterAuthority("https:" + rest, 2 + |host|);
  }

  /** With a scheme and an authority ending at `e`, the path is what follows, when it
      holds no query, fragment or parameters. */
  lemma UrlPathAfterAuthority(url: string, e: nat)
    requires var rest := SplitScheme(url).1;
      && StartsWith(rest, "//") && 2 <= |rest| && AuthorityEnd(rest, 2) == e
    requires var after := SplitScheme(url).1[e..];
      '#' !in after && '?' !in after && ';' !in after
    ensures UrlPath(url) == SplitScheme(url).1[e..]
  {
  }

  lemma HttpsScheme(rest: string)
    ensures SplitScheme("https:" + rest) == ("https", rest)
  {
    var url := "https:" + rest;
    assert url[..5] == "https" && url[5] == ':';
    FindCharAt(url, ':', 5);
    assert forall k :: 0 <= k < 5 ==> IsSchemeChar(url[k]);
    assert url[6..] == rest;
  }

  lemma AuthorityOfHost(host: string, path: string)
    requires '/' !in host && '?' !in host && '#' !in host
    requires path != [] && path[0] == '/'
    ensures AuthorityEnd("//" + host + path, 2) == 2 + |host|
  {
    var rest := "//" + host + path;
    var e := AuthorityEnd(rest, 2);
    assert rest[2 + |host|] == path[0];
    assert forall j :: 2 <= j < 2 + |host| ==> rest[j] == host[j - 2];
    assert e <= 2 + |host|;
  }

  /** A plain `https` URL of a notebook is named after its file. */
  lemma NotebookUrlName(host: string, dir: string, name: string)
    requires '/' !in host && '?' !in host && '#' !in host
    requires (dir == [] || dir[0] == '/') && '?' !in dir && '#' !in dir && ';' !in dir
    requires '/' !in name && '?' !in name && '#' !in name && ';' !in name
    requires name != [] && name != "." && EndsWith(name, NotebookExtension)
    ensures ExtractFilename("https://" + host + dir + "/" + name) == name
  {
    var path := dir + "/" + name;
    FilePathChars(dir, name);
    HttpsUrlPath(host, path);
    Assoc("https://" + host, dir + "/", name);
    Assoc("https://" + host, dir, "/");
    PathNameOfFile(dir, name);
  }

  lemma FilePathChars(dir: string, name: string)
    requires (dir == [] || dir[0] == '/') && '?' !in dir && '#' !in dir && ';' !in dir
    requires '?' !in name && '#' !in name && ';' !in name
    ensures var path := dir + "/" + name;
      path != [] && path[0] == '/' && '?' !in path && '#' !in path && ';' !in path
  {
  }
}
