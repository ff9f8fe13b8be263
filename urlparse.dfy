/** `urllib.parse.urlparse` (with `urlsplit` inside it) as far as the
    downloader reads its result: the scheme, the authority (`netloc`) and
    the path, with the query, the fragment and `;params` cut off. */
module Url {
  import opened PyStr

  datatype UrlError = InvalidIPv6Url

  datatype Result<T> = Ok(value: T) | Err(error: UrlError)

  datatype ParseResult = ParseResult(
    scheme: string, netloc: string, path: string,
    params: string, query: string, fragment: string)

  /** Leading C0 controls and space, stripped before anything else. */
  predicate IsC0OrSpace(c: char)
  {
    c as int <= 0x20
  }

  function LStripC0(s: string): (r: string)
    ensures r == [] || !IsC0OrSpace(r[0])
    ensures exists k :: 0 <= k <= |s| && r == s[k..] && forall i :: 0 <= i < k ==> IsC0OrSpace(s[i])
  {
    if s != [] && IsC0OrSpace(s[0]) then
      var r := LStripC0(s[1..]);
      ghost var k :| 0 <= k <= |s[1..]| && r == s[1..][k..] && forall i :: 0 <= i < k ==> IsC0OrSpace(s[1..][i]);
      assert r == s[k + 1..];
      r
    else
      assert s == s[0..];
      s
  }

  /** Tab, carriage return and line feed, removed anywhere in the URL. */
  predicate IsUnsafe(c: char)
  {
    c == '\t' || c == '\r' || c == '\n'
  }

  function RemoveUnsafe(s: string): (r: string)
    ensures forall i :: 0 <= i < |r| ==> !IsUnsafe(r[i])
    ensures (forall i :: 0 <= i < |s| ==> !IsUnsafe(s[i])) ==> r == s
  {
    if s == [] then []
    else if IsUnsafe(s[0]) then RemoveUnsafe(s[1..])
    else [s[0]] + RemoveUnsafe(s[1..])
  }

  /** Removal works character by character: it keeps every other
      character, in order. */
  lemma {:induction false} RemoveUnsafeAppend(a: string, b: string)
    ensures RemoveUnsafe(a + b) == RemoveUnsafe(a) + RemoveUnsafe(b)
    decreases |a|
  {
    if a != [] {
      assert (a + b)[0] == a[0];
      assert (a + b)[1..] == a[1..] + b;
      RemoveUnsafeAppend(a[1..], b);
      if !IsUnsafe(a[0]) {
        ConcatAssoc([a[0]], RemoveUnsafe(a[1..]), RemoveUnsafe(b));
      }
    } else {
      assert a + b == b;
    }
  }

  lemma RemoveUnsafeChar(c: char)
    ensures RemoveUnsafe([c]) == if IsUnsafe(c) then [] else [c]
  {
    assert [c][1..] == [];
  }

  predicate IsAsciiLetter(c: char)
  {
    'a' <= c <= 'z' || 'A' <= c <= 'Z'
  }

  predicate IsSchemeChar(c: char)
  {
    IsAsciiLetter(c) || '0' <= c <= '9' || c == '+' || c == '-' || c == '.'
  }

  function AsciiLower(s: string): (r: string)
    ensures |r| == |s|
    ensures forall i :: 0 <= i < |s| ==> r[i] == if 'A' <= s[i] <= 'Z' then (s[i] as int + 32) as char else s[i]
  {
    if s == [] then []
    else [if 'A' <= s[0] <= 'Z' then (s[0] as int + 32) as char else s[0]] + AsciiLower(s[1..])
  }

  /** The scheme is the text before the first `:` when it is non-empty,
      starts with an ASCII letter and holds only scheme characters; it is
      lower-cased. Otherwise there is no scheme and nothing is consumed. */
  function SplitScheme(url: string): (r: (string, string))
    ensures r.0 == [] ==> r.1 == url
    ensures r.0 != [] ==> exists i :: 0 < i < |url| && url[i] == ':' && ':' !in url[..i]
                                      && r.0 == AsciiLower(url[..i]) && r.1 == url[i + 1..]
  {
    var i := Find(url, ':');
    if i > 0 && IsAsciiLetter(url[0]) && forall k :: 0 <= k < i ==> IsSchemeChar(url[k]) then
      (AsciiLower(url[..i]), url[i + 1..])
    else
      ("", url)
  }

  predicate IsNetlocDelimiter(c: char)
  {
    c == '/' || c == '?' || c == '#'
  }

  /** `_splitnetloc(url, 2)` for a `url` that starts with `//`: the
      authority runs up to the first `/`, `?` or `#`. */
  function SplitNetloc(url: string): (r: (string, string))
    requires |url| >= 2
    ensures url == url[..2] + r.0 + r.1
    ensures forall i :: 0 <= i < |r.0| ==> !IsNetlocDelimiter(r.0[i])
    ensures r.1 == [] || IsNetlocDelimiter(r.1[0])
  {
    var rest := url[2..];
    var d := FirstDelimiter(rest);
    assert url == url[..2] + rest[..d] + rest[d..];
    (rest[..d], rest[d..])
  }

  function FirstDelimiter(s: string): (d: nat)
    ensures d <= |s|
    ensures forall i :: 0 <= i < d ==> !IsNetlocDelimiter(s[i])
    ensures d < |s| ==> IsNetlocDelimiter(s[d])
  {
    if s == [] || IsNetlocDelimiter(s[0]) then 0 else 1 + FirstDelimiter(s[1..])
  }

  /** An authority with a `[` and no `]`, or the other way round. */
  predicate UnbalancedBrackets(netloc: string)
  {
    ('[' in netloc) != (']' in netloc)
  }

  datatype SplitResult = SplitResult(
    scheme: string, netloc: string, path: string, query: string, fragment: string)

  /** `urlsplit(url)`. */
  function UrlSplit(url: string): (r: Result<SplitResult>)
    ensures r.Ok? ==> '?' !in r.value.path && '#' !in r.value.path && '#' !in r.value.query
    ensures r.Ok? ==> forall i :: 0 <= i < |r.value.netloc| ==> !IsNetlocDelimiter(r.value.netloc[i])
    ensures r.Ok? ==> !UnbalancedBrackets(r.value.netloc)
  {
    var url1 := RemoveUnsafe(LStripC0(url));
    var (scheme, rest) := SplitScheme(url1);
    var (netloc, rest2) := if |rest| >= 2 && rest[..2] == "//" then SplitNetloc(rest) else ("", rest);
    if UnbalancedBrackets(netloc) then Err(InvalidIPv6Url)
    else
      var (rest3, fragment) := CutAt(rest2, '#');
      var (path, query) := CutAt(rest3, '?');
      Ok(SplitResult(scheme, netloc, path, query, fragment))
  }

  /** The schemes whose last path segment may carry `;params`. */
  const UsesParams: seq<string> := [
    "", "ftp", "hdl", "prospero", "http", "imap", "https", "shttp",
    "rtsp", "rtsps", "rtspu", "sip", "sips", "mms", "sftp", "tel"]

  /** `_splitparams(path)`: `;params` is cut from the last segment only,
      at its first `;`. */
  function SplitParams(path: string): (r: (string, string))
    ensures r.0 <= path
    ensures r.0 == path || path == r.0 + [';'] + r.1
    ensures r.0 == path ==> r.1 == []
    ensures forall k :: |r.0| <= k < |path| ==> path[k] != '/'
    ensures forall k :: RFind(r.0, '/') < k < |r.0| ==> r.0[k] != ';'
  {
    var j := RFind(path, '/');
    var i := if j >= 0 then FindFrom(path, ';', j) else Find(path, ';');
    if i < 0 then
      (path, [])
    else
      Around(path, i);
      RFindPrefix(path, '/', i);
      (path[..i], path[i + 1..])
  }

  /** Cutting a text after its last `c` keeps that last `c`. */
  lemma RFindPrefix(s: string, c: char, i: nat)
    requires RFind(s, c) < i <= |s|
    ensures RFind(s[..i], c) == RFind(s, c)
  {
  }

  /** `urlparse(url)`. */
  function UrlParse(url: string): (r: Result<ParseResult>)
    ensures r.Ok? <==> UrlSplit(url).Ok?
    ensures r.Ok? ==>
      var sr, pr := UrlSplit(url).value, r.value;
      && pr.scheme == sr.scheme && pr.netloc == sr.netloc
      && pr.query == sr.query && pr.fragment == sr.fragment
      && pr.path <= sr.path
      && (sr.scheme !in UsesParams ==> pr.path == sr.path && pr.params == [])
  {
    match UrlSplit(url)
    case Err(e) => Err(e)
    case Ok(sr) =>
      var (path, params) := if sr.scheme in UsesParams && ';' in sr.path then SplitParams(sr.path) else (sr.path, "");
      Ok(ParseResult(sr.scheme, sr.netloc, path, params, sr.query, sr.fragment))
  }

  /** The path stops before the query and the fragment. */
  lemma PathExcludesQueryAndFragment(url: string)
    requires UrlParse(url).Ok?
    ensures var path := UrlParse(url).value.path; '?' !in path && '#' !in path
  {
    var sr := UrlSplit(url).value;
    var parsed := UrlParse(url).value;
    PrefixExcludes(parsed.path, sr.path, '?');
    PrefixExcludes(parsed.path, sr.path, '#');
  }

  /** The authority holds no `/`, `?` or `#`, and its brackets pair up. */
  lemma NetlocWellFormed(url: string)
    requires UrlParse(url).Ok?
    ensures var netloc := UrlParse(url).value.netloc;
      '/' !in netloc && '?' !in netloc && '#' !in netloc && (('[' in netloc) <==> (']' in netloc))
  {
    var sr := UrlSplit(url).value;
    assert UrlParse(url).value.netloc == sr.netloc;
    NoDelimiterIn(sr.netloc);
  }

  lemma NoDelimiterIn(s: string)
    requires forall i :: 0 <= i < |s| ==> !IsNetlocDelimiter(s[i])
    ensures '/' !in s && '?' !in s && '#' !in s
  {
  }

  /** For a scheme that takes `;params`, the path keeps no `;` in its
      last segment. */
  lemma ParamsCut(url: string)
    requires UrlParse(url).Ok?
    requires UrlParse(url).value.scheme in UsesParams
    ensures var path := UrlParse(url).value.path;
      forall k :: RFind(path, '/') < k < |path| ==> path[k] != ';'
  {
  }

  // ---------------------------------------------------------------------
  // The partner of the splitter: the URL made of given parts.

  function QueryTail(query: string): string
  {
    if query == [] then [] else ['?'] + query
  }

  function FragmentTail(fragment: string): string
  {
    if fragment == [] then [] else ['#'] + fragment
  }

  /** Everything after the authority: path, `?query`, `#fragment`. */
  function PathTail(p: SplitResult): string
  {
    (p.path + QueryTail(p.query)) + FragmentTail(p.fragment)
  }

  /** `//netloc` and what follows it. */
  function Hierarchy(p: SplitResult): string
  {
    ['/', '/'] + (p.netloc + PathTail(p))
  }

  /** `scheme://netloc/path?query#fragment`, with the separator of an empty
      query or fragment left out. */
  function Unsplit(p: SplitResult): string
  {
    p.scheme + [':'] + Hierarchy(p)
  }

  predicate NoUnsafe(s: string)
  {
    forall i :: 0 <= i < |s| ==> !IsUnsafe(s[i])
  }

  /** Parts that a URL can be made of so that each is found where it was
      put: a lower-case scheme, an authority without `/?#`, a path that
      starts with `/` (or is empty) and holds no `?` or `#`, a query
      without `#`, and no tab, CR or LF anywhere. */
  predicate SeparableParts(p: SplitResult)
  {
    && p.scheme != [] && IsAsciiLetter(p.scheme[0])
    && (forall i :: 0 <= i < |p.scheme| ==> IsSchemeChar(p.scheme[i]) && !('A' <= p.scheme[i] <= 'Z'))
    && (forall i :: 0 <= i < |p.netloc| ==> !IsNetlocDelimiter(p.netloc[i]))
    && (p.path == [] || p.path[0] == '/')
    && '?' !in p.path && '#' !in p.path && '#' !in p.query
    && NoUnsafe(p.scheme) && NoUnsafe(p.netloc) && NoUnsafe(p.path)
    && NoUnsafe(p.query) && NoUnsafe(p.fragment)
  }

  /** Separable parts whose authority also passes the bracket check. */
  predicate WellFormedParts(p: SplitResult)
  {
    SeparableParts(p) && !UnbalancedBrackets(p.netloc)
  }

  lemma NoUnsafeConcat(a: string, b: string)
    requires NoUnsafe(a) && NoUnsafe(b)
    ensures NoUnsafe(a + b)
  {
  }

  lemma NoUnsafeUnsplit(p: SplitResult)
    requires SeparableParts(p)
    ensures NoUnsafe(Unsplit(p))
  {
    NoUnsafeConcat(p.path, QueryTail(p.query));
    NoUnsafeConcat(p.path + QueryTail(p.query), FragmentTail(p.fragment));
    NoUnsafeConcat(p.netloc, PathTail(p));
    NoUnsafeConcat(['/', '/'], p.netloc + PathTail(p));
    NoUnsafeConcat(p.scheme, [':']);
    NoUnsafeConcat(p.scheme + [':'], Hierarchy(p));
  }

  lemma AsciiLowerOfLower(s: string)
    requires forall i :: 0 <= i < |s| ==> !('A' <= s[i] <= 'Z')
    ensures AsciiLower(s) == s
  {
  }

  lemma SchemeOfUnsplit(p: SplitResult)
    requires SeparableParts(p)
    ensures SplitScheme(Unsplit(p)) == (p.scheme, Hierarchy(p))
  {
    var url := Unsplit(p);
    assert ':' !in p.scheme by {
      assert forall i :: 0 <= i < |p.scheme| ==> IsSchemeChar(p.scheme[i]);
    }
    FindAfter(p.scheme, ':', Hierarchy(p));
    assert url[..|p.scheme|] == p.scheme;
    assert url[|p.scheme| + 1..] == Hierarchy(p);
    AsciiLowerOfLower(p.scheme);
  }

  lemma {:induction false} FirstDelimiterAfter(a: string, t: string)
    requires forall i :: 0 <= i < |a| ==> !IsNetlocDelimiter(a[i])
    requires t == [] || IsNetlocDelimiter(t[0])
    ensures FirstDelimiter(a + t) == |a|
  {
    if a == [] {
      assert a + t == t;
    } else {
      assert (a + t)[0] == a[0];
      assert (a + t)[1..] == a[1..] + t;
      FirstDelimiterAfter(a[1..], t);
    }
  }

  lemma NetlocOfUnsplit(p: SplitResult)
    requires SeparableParts(p)
    ensures SplitNetloc(Hierarchy(p)) == (p.netloc, PathTail(p))
  {
    var h, t := Hierarchy(p), PathTail(p);
    assert t == [] || IsNetlocDelimiter(t[0]) by {
      if p.path != [] {
        assert t[0] == p.path[0];
      } else if p.query != [] {
        assert t[0] == '?';
      } else if p.fragment != [] {
        assert t[0] == '#';
      }
    }
    assert h[2..] == p.netloc + t;
    FirstDelimiterAfter(p.netloc, t);
    assert (p.netloc + t)[..|p.netloc|] == p.netloc;
    assert (p.netloc + t)[|p.netloc|..] == t;
  }

  lemma FragmentCut(pq: string, fragment: string)
    requires '#' !in pq
    ensures CutAt(pq + FragmentTail(fragment), '#') == (pq, fragment)
  {
    if fragment != [] {
      ConcatAssoc(pq, ['#'], fragment);
      CutAtAfter(pq, '#', fragment);
    } else {
      assert pq + FragmentTail(fragment) == pq;
    }
  }

  lemma QueryCut(path: string, query: string)
    requires '?' !in path
    ensures CutAt(path + QueryTail(query), '?') == (path, query)
  {
    if query != [] {
      ConcatAssoc(path, ['?'], query);
      CutAtAfter(path, '?', query);
    } else {
      assert path + QueryTail(query) == path;
    }
  }

  lemma NoHashBeforeFragment(path: string, query: string)
    requires '#' !in path && '#' !in query
    ensures '#' !in path + QueryTail(query)
  {
    if query != [] {
      assert path + QueryTail(query) == path + (['?'] + query);
    }
  }

  lemma PathTailCuts(p: SplitResult)
    requires SeparableParts(p)
    ensures CutAt(PathTail(p), '#') == (p.path + QueryTail(p.query), p.fragment)
    ensures CutAt(p.path + QueryTail(p.query), '?') == (p.path, p.query)
  {
    NoHashBeforeFragment(p.path, p.query);
    FragmentCut(p.path + QueryTail(p.query), p.fragment);
    QueryCut(p.path, p.query);
  }

  /** Round trip: `urlsplit` reads every part back from the URL they make. */
  lemma UrlSplitUnsplit(p: SplitResult)
    requires WellFormedParts(p)
    ensures UrlSplit(Unsplit(p)) == Ok(p)
  {
    var url := Unsplit(p);
    NoUnsafeUnsplit(p);
    assert url[0] == p.scheme[0];
    assert LStripC0(url) == url;
    assert RemoveUnsafe(url) == url;
    SchemeOfUnsplit(p);
    var h := Hierarchy(p);
    assert |h| >= 2 && h[..2] == "//";
    NetlocOfUnsplit(p);
    PathTailCuts(p);
  }

  /** The same parts with an unpaired bracket in the authority are
      refused: the bracket check is the only way `urlsplit` fails here. */
  lemma UrlSplitUnsplitBrackets(p: SplitResult)
    requires SeparableParts(p)
    ensures UrlSplit(Unsplit(p)).Err? <==> UnbalancedBrackets(p.netloc)
  {
    var url := Unsplit(p);
    NoUnsafeUnsplit(p);
    assert url[0] == p.scheme[0];
    assert LStripC0(url) == url;
    assert RemoveUnsafe(url) == url;
    SchemeOfUnsplit(p);
    var h := Hierarchy(p);
    assert |h| >= 2 && h[..2] == "//";
    NetlocOfUnsplit(p);
    if !UnbalancedBrackets(p.netloc) {
      UrlSplitUnsplit(p);
    }
  }

  /** With no `;` in the last segment, `_splitparams` cuts nothing. */
  lemma SplitParamsNone(path: string)
    requires forall k :: RFind(path, '/') < k < |path| ==> path[k] != ';'
    ensures SplitParams(path) == (path, [])
  {
    var j := RFind(path, '/');
    if j >= 0 {
      assert path[j] != ';';
    }
  }

  /** Round trip for `urlparse`: the parts come back, with no params, as
      long as a scheme that takes params finds no `;` in the last segment. */
  lemma UrlParseUnsplit(p: SplitResult)
    requires WellFormedParts(p)
    requires p.scheme in UsesParams ==> forall k :: RFind(p.path, '/') < k < |p.path| ==> p.path[k] != ';'
    ensures UrlParse(Unsplit(p)) == Ok(ParseResult(p.scheme, p.netloc, p.path, "", p.query, p.fragment))
  {
    UrlSplitUnsplit(p);
    if p.scheme in UsesParams && ';' in p.path {
      SplitParamsNone(p.path);
    }
  }

  /** For a scheme that takes params, the `;params` of the last segment
      are cut at its first `;` and kept apart from the path. */
  lemma UrlParseParams(url: string, path: string, params: string)
    requires UrlSplit(url).Ok?
    requires UrlSplit(url).value.scheme in UsesParams
    requires UrlSplit(url).value.path == path + [';'] + params
    requires forall k :: RFind(path, '/') < k < |path| ==> path[k] != ';'
    requires '/' !in params
    ensures UrlParse(url).Ok?
    ensures UrlParse(url).value.path == path && UrlParse(url).value.params == params
  {
    var sr := UrlSplit(url).value;
    assert sr.path[|path|] == ';';
    SplitParamsAt(path, params);
  }

  lemma PrefixAgrees(a: string, b: string)
    ensures forall k :: 0 <= k < |a| ==> (a + b)[k] == a[k]
  {
  }

  lemma SplitParamsAt(path: string, params: string)
    requires forall k :: RFind(path, '/') < k < |path| ==> path[k] != ';'
    requires '/' !in params
    ensures SplitParams(path + [';'] + params) == (path, params)
  {
    var full := path + [';'] + params;
    ConcatAssoc(path, [';'], params);
    RFindAppendAbsent(path, [';'] + params, '/');
    SemicolonAfterLastSlash(path, params);
    assert full[..|path|] == path;
    assert full[|path| + 1..] == params;
  }

  /** The `;` put after `path` is the first one after its last `/`. */
  lemma SemicolonAfterLastSlash(path: string, params: string)
    requires forall k :: RFind(path, '/') < k < |path| ==> path[k] != ';'
    ensures var full, j := path + [';'] + params, RFind(path, '/');
      (if j >= 0 then FindFrom(full, ';', j) else Find(full, ';')) == |path|
  {
    var j := RFind(path, '/');
    NoSemicolonFrom(path, j);
    SemicolonAt(path, params, if j >= 0 then j else 0);
  }

  lemma NoSemicolonFrom(path: string, j: int)
    requires j == RFind(path, '/')
    requires forall k :: j < k < |path| ==> path[k] != ';'
    ensures forall k :: 0 <= j <= k < |path| ==> path[k] != ';'
  {
    if j >= 0 {
      assert path[j] == '/';
    }
  }

  lemma SemicolonAt(path: string, params: string, start: nat)
    requires forall k :: start <= k < |path| ==> path[k] != ';'
    ensures start <= |path| ==> FindFrom(path + [';'] + params, ';', start) == |path|
    ensures start == 0 ==> Find(path + [';'] + params, ';') == |path|
  {
    var full := path + [';'] + params;
    assert full[|path|] == ';';
    assert forall k :: start <= k < |path| ==> full[k] != ';' by {
      PrefixAgrees(path, [';'] + params);
      ConcatAssoc(path, [';'], params);
    }
    if start <= |path| {
      FindFromAt(full, ';', start, |path|);
    }
    if start == 0 {
      FindAt(full, ';', |path|);
    }
  }
}
