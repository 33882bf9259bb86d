/**
 * The path and URL helpers of Python's standard library that the tasks
 * call: `os.path.basename`, `os.path.dirname` (POSIX flavour) and the
 * `path` component of `urllib.parse.urlparse`.
 */
module Paths {
  import opened Strings

  /** The position just after the last `/` of `p`, or 0 when there is none. */
  function LastSegmentStart(p: string): (i: nat)
    ensures i <= |p|
    ensures 0 < i ==> p[i - 1] == '/'
    ensures forall j :: i <= j < |p| ==> p[j] != '/'
  {
    if p == "" || p[|p| - 1] == '/' then |p| else LastSegmentStart(p[..|p| - 1])
  }

  /** The three facts above pin the position down. */
  lemma LastSegmentStartIs(p: string, k: nat)
    requires k <= |p|
    requires 0 < k ==> p[k - 1] == '/'
    requires forall j :: k <= j < |p| ==> p[j] != '/'
    ensures LastSegmentStart(p) == k
  {
  }

  /** `os.path.basename(p)`: the text after the last `/`. */
  function Basename(p: string): (name: string)
    ensures '/' !in name
    ensures EndsWith(p, name)
  {
    var i := LastSegmentStart(p);
    assert forall k :: 0 <= k < |p[i..]| ==> p[i..][k] == p[i + k];
    p[i..]
  }

  /** The basename is determined by the text after the last `/`. */
  lemma BasenameAfterSlash(dir: string, name: string)
    requires '/' !in name
    ensures LastSegmentStart(dir + "/" + name) == |dir| + 1
    ensures Basename(dir + "/" + name) == name
  {
    var p := dir + "/" + name;
    forall j | |dir| + 1 <= j < |p|
      ensures p[j] != '/'
    {
      assert p[j] == name[j - |dir| - 1];
    }
    LastSegmentStartIs(p, |dir| + 1);
    assert p[|dir| + 1..] == name;
  }

  /** A path without `/` is its own basename. */
  lemma BasenameOfSegment(p: string)
    requires '/' !in p
    ensures Basename(p) == p
  {
    LastSegmentStartIs(p, 0);
  }

  predicate AllSlashes(s: string) {
    forall i :: 0 <= i < |s| ==> s[i] == '/'
  }

  /** `s.rstrip('/')` */
  function TrimTrailingSlashes(s: string): (r: string)
    ensures StartsWith(s, r)
    ensures r == "" || r[|r| - 1] != '/'
  {
    if s != "" && s[|s| - 1] == '/' then
      var r := TrimTrailingSlashes(s[..|s| - 1]);
      assert s[..|r|] == s[..|s| - 1][..|r|];
      r
    else s
  }

  /**
   * `os.path.dirname(p)`: everything up to the last `/`, with the trailing
   * slashes taken off unless nothing but slashes is left.
   */
  function Dirname(p: string): (d: string)
    ensures StartsWith(p, d)
    ensures !AllSlashes(d) ==> d[|d| - 1] != '/'
    ensures forall j :: |d| <= j < LastSegmentStart(p) ==> p[j] == '/'
  {
    var head := p[..LastSegmentStart(p)];
    if AllSlashes(head) then head
    else
      var d := TrimTrailingSlashes(head);
      TrimmedAreSlashes(head);
      assert p[..|d|] == head[..|d|];
      d
  }

  /** What `rstrip('/')` takes off is slashes only. */
  lemma {:induction false} TrimmedAreSlashes(s: string)
    ensures forall j :: |TrimTrailingSlashes(s)| <= j < |s| ==> s[j] == '/'
    decreases |s|
  {
    if s != "" && s[|s| - 1] == '/' {
      TrimmedAreSlashes(s[..|s| - 1]);
    }
  }

  /**
   * The dirname ends before the last segment, and is the whole text up to
   * it when that text is slashes only; with the contract of `Dirname` this
   * fixes its value for every path.
   */
  lemma DirnameBeforeLastSegment(p: string)
    ensures |Dirname(p)| <= LastSegmentStart(p)
    ensures AllSlashes(p[..LastSegmentStart(p)]) ==> Dirname(p) == p[..LastSegmentStart(p)]
  {
    var head := p[..LastSegmentStart(p)];
    if !AllSlashes(head) {
      TrimmedAreSlashes(head);
    }
  }

  /** The directory of `dir/name` is `dir`, for a `dir` that does not end in `/`. */
  lemma {:induction false} DirnameOfChild(dir: string, name: string)
    requires '/' !in name
    requires dir != "" && dir[|dir| - 1] != '/'
    ensures Dirname(dir + "/" + name) == dir
  {
    var p := dir + "/" + name;
    BasenameAfterSlash(dir, name);
    var head := p[..|dir| + 1];
    assert head == dir + "/";
    assert !AllSlashes(head) by {
      assert head[|dir| - 1] == dir[|dir| - 1];
    }
    assert head[..|head| - 1] == dir;
    assert TrimTrailingSlashes(head) == TrimTrailingSlashes(dir) == dir;
  }

  predicate IsAsciiLetter(c: char) {
    'a' <= c <= 'z' || 'A' <= c <= 'Z'
  }

  /** A character `urlsplit` accepts in a scheme name. */
  predicate IsSchemeChar(c: char) {
    IsAsciiLetter(c) || '0' <= c <= '9' || c == '+' || c == '-' || c == '.'
  }

  /** `s.lower()` on the ASCII letters, which is all a scheme holds. */
  function AsciiLower(s: string): (r: string)
    ensures |r| == |s|
    ensures forall i :: 0 <= i < |s| && !('A' <= s[i] <= 'Z') ==> r[i] == s[i]
  {
    seq(|s|, i requires 0 <= i < |s| => if 'A' <= s[i] <= 'Z' then (s[i] as int + 32) as char else s[i])
  }

  /**
   * `urlsplit` reads a scheme when the text before the first `:` is
   * non-empty, starts with a letter and is made of scheme characters.
   */
  predicate HasScheme(url: string) {
    var i := FindFirst(url, {':'});
    0 < i < |url| && IsAsciiLetter(url[0]) && forall j :: 0 <= j < i ==> IsSchemeChar(url[j])
  }

  /** The scheme `urlsplit` reads, lower-cased; `''` when there is none. */
  function Scheme(url: string): (scheme: string)
    ensures HasScheme(url) ==> |scheme| == FindFirst(url, {':'})
    ensures !HasScheme(url) ==> scheme == ""
  {
    if HasScheme(url) then AsciiLower(url[..FindFirst(url, {':'})]) else ""
  }

  /** What `urlsplit` leaves after taking off a leading `scheme:`. */
  function WithoutScheme(url: string): (rest: string)
    ensures EndsWith(url, rest)
  {
    if HasScheme(url) then url[FindFirst(url, {':'}) + 1..] else url
  }

  /** The schemes whose last path segment `urlparse` splits at `;` (`uses_params`). */
  const ParamSchemes: set<string> :=
    {"", "ftp", "hdl", "prospero", "http", "imap", "https", "shttp", "rtsp", "rtsps", "rtspu", "sip", "sips", "mms", "sftp", "tel"}

  /**
   * `_splitparams(path)[0]`: the path up to the first `;` of its last
   * segment (the text after the last `/`); without such a `;` the path is
   * unchanged.
   */
  function WithoutParams(path: string): (r: string)
    ensures LastSegmentStart(path) <= |r| <= |path| && r == path[..|r|]
    ensures ';' !in r[LastSegmentStart(path)..]
  {
    var k := LastSegmentStart(path);
    var cut := k + FindFirst(path[k..], {';'});
    assert forall i :: k <= i < cut ==> path[k..][i - k] == path[i];
    path[..cut]
  }

  /**
   * `urlparse(url).path`: after the scheme, a `//netloc` part runs up to the
   * first `/`, `?` or `#`; the path is what follows, up to the first `?`
   * (query) or `#` (fragment), and for a scheme of `ParamSchemes` without
   * the `;params` of its last segment.
   */
  function UrlPath(url: string): (path: string)
    ensures '?' !in path && '#' !in path
  {
    var path := UrlPathAfterScheme(WithoutScheme(url));
    if Scheme(url) in ParamSchemes then WithoutParams(path) else path
  }

  /** The path of what follows the scheme, before `;params` are split off. */
  function UrlPathAfterScheme(rest: string): (path: string)
    ensures '?' !in path && '#' !in path
  {
    var afterNetloc :=
      if StartsWith(rest, "//") then rest[2 + FindFirst(rest[2..], {'/', '?', '#'})..] else rest;
    afterNetloc[..FindFirst(afterNetloc, {'?', '#'})]
  }

  /** The first position holding a stop character is the one `FindFirst` returns. */
  lemma FindFirstIs(s: string, stops: set<char>, k: nat)
    requires k <= |s|
    requires k < |s| ==> s[k] in stops
    requires forall i :: 0 <= i < k ==> s[i] !in stops
    ensures FindFirst(s, stops) == k
  {
  }

  /** A scheme that `urlsplit` accepts, with its `:`, is taken off and read lower-cased. */
  lemma {:induction false} WithoutSchemeOf(scheme: string, rest: string)
    requires scheme != "" && IsAsciiLetter(scheme[0])
    requires forall i :: 0 <= i < |scheme| ==> IsSchemeChar(scheme[i])
    ensures WithoutScheme(scheme + ":" + rest) == rest
    ensures Scheme(scheme + ":" + rest) == AsciiLower(scheme)
  {
    var url := scheme + ":" + rest;
    assert forall i :: 0 <= i < |scheme| ==> url[i] == scheme[i];
    FindFirstIs(url, {':'}, |scheme|);
    assert url[|scheme| + 1..] == rest;
    assert url[..|scheme|] == scheme;
  }

  /** The URL path after an accepted scheme: the hierarchical path, with params split off for `ParamSchemes`. */
  lemma UrlPathOfScheme(scheme: string, rest: string)
    requires scheme != "" && IsAsciiLetter(scheme[0])
    requires forall i :: 0 <= i < |scheme| ==> IsSchemeChar(scheme[i])
    ensures UrlPath(scheme + ":" + rest) ==
      if AsciiLower(scheme) in ParamSchemes then WithoutParams(UrlPathAfterScheme(rest)) else UrlPathAfterScheme(rest)
  {
    WithoutSchemeOf(scheme, rest);
  }

  /** `UrlPathOfScheme` for `scheme://host/path`. */
  lemma UrlPathOfNetloc(scheme: string, host: string, path: string)
    requires scheme != "" && IsAsciiLetter(scheme[0])
    requires forall i :: 0 <= i < |scheme| ==> IsSchemeChar(scheme[i])
    ensures var rest := "//" + host + "/" + path;
      UrlPath(scheme + "://" + host + "/" + path) ==
      if AsciiLower(scheme) in ParamSchemes then WithoutParams(UrlPathAfterScheme(rest)) else UrlPathAfterScheme(rest)
  {
    assert scheme + "://" + host + "/" + path == scheme + ":" + ("//" + host + "/" + path);
    UrlPathOfScheme(scheme, "//" + host + "/" + path);
  }

  /** After `//host`, the path runs from the first `/` to the end when there is no query or fragment. */
  lemma {:induction false} PathAfterNetloc(host: string, path: string)
    requires '/' !in host && '?' !in host && '#' !in host
    requires '?' !in path && '#' !in path
    ensures UrlPathAfterScheme("//" + host + "/" + path) == "/" + path
  {
    var rest := "//" + host + "/" + path;
    var netlocAndPath := rest[2..];
    assert netlocAndPath == host + "/" + path;
    assert forall i :: 0 <= i < |host| ==> netlocAndPath[i] == host[i];
    FindFirstIs(netlocAndPath, {'/', '?', '#'}, |host|);
    var afterNetloc := rest[2 + |host|..];
    assert afterNetloc == "/" + path;
    assert forall i :: 1 <= i < |afterNetloc| ==> afterNetloc[i] == path[i - 1];
    FindFirstIs(afterNetloc, {'?', '#'}, |afterNetloc|);
  }

  /** A path without `;` has no params to split off. */
  lemma {:induction false} WithoutParamsKeeps(path: string)
    requires ';' !in path
    ensures WithoutParams(path) == path
  {
    var k := LastSegmentStart(path);
    assert forall i :: 0 <= i < |path[k..]| ==> path[k..][i] == path[k + i];
    FindFirstIs(path[k..], {';'}, |path| - k);
  }

  /**
   * The cut is at a `;` unless there is none to cut at: with the contract of
   * `WithoutParams` this puts it at the first `;` of the last segment.
   */
  lemma WithoutParamsAtFirstSemicolon(path: string)
    ensures var r := WithoutParams(path); |r| == |path| || path[|r|] == ';'
  {
    var k := LastSegmentStart(path);
    var n := FindFirst(path[k..], {';'});
    if k + n < |path| {
      assert path[k..][n] == path[k + n];
    }
  }

  /** A `;` before the last `/` belongs to an earlier segment and is kept. */
  lemma {:induction false} WithoutParamsKeepsEarlierSegments(path: string)
    requires ';' !in path[LastSegmentStart(path)..]
    ensures WithoutParams(path) == path
  {
    WithoutParamsAtFirstSemicolon(path);
  }

  /**
   * The params start at the first `;` after the last `/`: for a path
   * `lead seg;params` whose last segment starts at `seg`, the path is
   * `lead seg`.
   */
  lemma {:induction false} WithoutParamsCuts(lead: string, seg: string, params: string)
    requires lead != "" && lead[|lead| - 1] == '/'
    requires '/' !in seg && ';' !in seg && '/' !in params
    ensures WithoutParams(lead + seg + ";" + params) == lead + seg
  {
    var path := lead + seg + ";" + params;
    var k := |lead|;
    assert path[k - 1] == '/';
    forall j | k <= j < |path|
      ensures path[j] != '/'
    {
      if j < k + |seg| {
        assert path[j] == seg[j - k];
      } else if j > k + |seg| {
        assert path[j] == params[j - k - |seg| - 1];
      }
    }
    LastSegmentStartIs(path, k);
    var last := path[k..];
    assert last == seg + ";" + params;
    assert forall i :: 0 <= i < |seg| ==> last[i] == seg[i];
    FindFirstIs(last, {';'}, |seg|);
    assert path[..k + |seg|] == lead + seg;
  }

  /**
   * For `scheme://host/path` with a scheme `urlsplit` accepts, a host free
   * of `/`, `?` and `#` (it may carry a `:port`) and a path free of `;`, `?`
   * and `#`, the URL path is `/path`.
   */
  lemma {:induction false} UrlPathOfHierarchicalUrl(scheme: string, host: string, path: string)
    requires scheme != "" && IsAsciiLetter(scheme[0])
    requires forall i :: 0 <= i < |scheme| ==> IsSchemeChar(scheme[i])
    requires '/' !in host && '?' !in host && '#' !in host
    requires ';' !in path && '?' !in path && '#' !in path
    ensures UrlPath(scheme + "://" + host + "/" + path) == "/" + path
  {
    UrlPathOfNetloc(scheme, host, path);
    PathAfterNetloc(host, path);
    WithoutParamsKeeps("/" + path);
  }

  /** `WithoutParamsCuts` for the path that follows the netloc, which starts with `/`. */
  lemma {:induction false} WithoutParamsAfterNetloc(lead: string, seg: string, params: string)
    requires lead == "" || lead[|lead| - 1] == '/'
    requires '/' !in seg && ';' !in seg && '/' !in params
    ensures WithoutParams("/" + (lead + seg + ";" + params)) == "/" + lead + seg
  {
    assert "/" + (lead + seg + ";" + params) == ("/" + lead) + seg + ";" + params;
    assert ("/" + lead)[|lead|] == '/';
    WithoutParamsCuts("/" + lead, seg, params);
  }

  /**
   * For an `http` or `https` URL `scheme://host/lead seg;params`, the
   * params of the last segment are not part of the URL path.
   */
  lemma {:induction false} UrlPathDropsParams(scheme: string, host: string, lead: string, seg: string, params: string)
    requires AsciiLower(scheme) == "http" || AsciiLower(scheme) == "https"
    requires scheme != "" && IsAsciiLetter(scheme[0])
    requires forall i :: 0 <= i < |scheme| ==> IsSchemeChar(scheme[i])
    requires '/' !in host && '?' !in host && '#' !in host
    requires lead == "" || lead[|lead| - 1] == '/'
    requires '/' !in seg && ';' !in seg && '/' !in params
    requires '?' !in lead + seg + ";" + params && '#' !in lead + seg + ";" + params
    ensures UrlPath(scheme + "://" + host + "/" + (lead + seg + ";" + params)) == "/" + lead + seg
    ensures Drop(UrlPath(scheme + "://" + host + "/" + (lead + seg + ";" + params)), 1) == lead + seg
  {
    var path := lead + seg + ";" + params;
    HttpTakesParams(AsciiLower(scheme));
    UrlPathOfParamUrl(scheme, host, path);
    WithoutParamsAfterNetloc(lead, seg, params);
    DropLeadingSlash(lead + seg);
    assert "/" + lead + seg == "/" + (lead + seg);
  }

  /** `UrlPathOfNetloc` for a scheme whose last segment takes `;params`. */
  lemma UrlPathOfParamNetloc(scheme: string, host: string, path: string)
    requires scheme != "" && IsAsciiLetter(scheme[0])
    requires forall i :: 0 <= i < |scheme| ==> IsSchemeChar(scheme[i])
    requires AsciiLower(scheme) in ParamSchemes
    ensures UrlPath(scheme + "://" + host + "/" + path) == WithoutParams(UrlPathAfterScheme("//" + host + "/" + path))
  {
    UrlPathOfNetloc(scheme, host, path);
  }

  /** The path of `scheme://host/path`, for a scheme whose last segment takes `;params`. */
  lemma UrlPathOfParamUrl(scheme: string, host: string, path: string)
    requires scheme != "" && IsAsciiLetter(scheme[0])
    requires forall i :: 0 <= i < |scheme| ==> IsSchemeChar(scheme[i])
    requires AsciiLower(scheme) in ParamSchemes
    requires '/' !in host && '?' !in host && '#' !in host
    requires '?' !in path && '#' !in path
    ensures UrlPath(scheme + "://" + host + "/" + path) == WithoutParams("/" + path)
  {
    UrlPathOfParamNetloc(scheme, host, path);
    PathAfterNetloc(host, path);
  }

  /** `http` and `https` are among the schemes whose last segment takes `;params`. */
  lemma HttpTakesParams(scheme: string)
    requires scheme == "http" || scheme == "https"
    ensures scheme in ParamSchemes
  {
  }

  lemma DropLeadingSlash(s: string)
    ensures Drop("/" + s, 1) == s
  {
    assert ("/" + s)[1..] == s;
  }
}
