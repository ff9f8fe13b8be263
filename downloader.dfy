/** Where the downloader saves a page: `convert_filename(url)` builds the
    file name, and `save_html` builds the directory from the URL's
    authority and the path segments before the last one. The location is
    kept as the list of components handed to `os.path.join`. */
module Downloader {
  import opened PyStr
  import opened Url
  import Percent
  import opened PosixPath

  /** `OUTPUT_DIR`. */
  const OutputDir: string := "output"

  const HtmlSuffix: string := ".html"

  /** `path.rstrip("/").split("/")`. */
  function Segments(path: string): (parts: seq<string>)
    ensures |parts| >= 1
    ensures forall i :: 0 <= i < |parts| ==> '/' !in parts[i]
    ensures Join(parts, '/') == RStrip(path, '/')
  {
    Split(RStrip(path, '/'), '/')
  }

  /** `path.rstrip("/").split("/")[-1]`: the raw text of the file name. */
  function Stem(path: string): (stem: string)
    ensures '/' !in stem
  {
    Last(Segments(path))
  }

  /** `path.rstrip("/").split("/")[:-1]`: the directory components. */
  function DirectoryParts(path: string): (dirs: seq<string>)
    ensures Segments(path) == dirs + [Stem(path)]
  {
    AllButLast(Segments(path))
  }

  /** The file name for a URL whose parsed path is `path`. */
  function FileName(path: string): string
  {
    Percent.Unquote(Stem(path) + HtmlSuffix)
  }

  /** `convert_filename(url)`; `urlparse` raising `ValueError` is `Err`. */
  function ConvertFilename(url: string): Result<string>
  {
    match UrlParse(url)
    case Err(e) => Err(e)
    case Ok(parsed) => Ok(FileName(parsed.path))
  }

  /** The arguments of the two `os.path.join` calls. */
  datatype OutputLocation = OutputLocation(directory: seq<string>, fileName: string)
  {
    function Components(): seq<string>
    {
      directory + [fileName]
    }

    /** `output_dir`, the directory `save_html` creates. */
    function DirectoryPath(): string
    {
      if directory == [] then [] else PathJoin(directory[0], directory[1..])
    }

    /** `file_path`, the file `save_html` writes. */
    function FilePath(): string
    {
      PathJoin(DirectoryPath(), [fileName])
    }
  }

  /** The directory `save_html` creates and the path it writes. */
  function SaveLocation(url: string): Result<OutputLocation>
  {
    match UrlParse(url)
    case Err(e) => Err(e)
    case Ok(parsed) =>
      var directory := [OutputDir, parsed.netloc] + DirectoryParts(parsed.path);
      match ConvertFilename(url)
      case Err(e) => Err(e)
      case Ok(name) => Ok(OutputLocation(directory, name))
  }

  // ---------------------------------------------------------------------
  // The file name.

  /** The name is the decoded stem followed by `.html`: the suffix is
      appended before decoding, holds no `%`, and cannot join an escape. */
  lemma FileNameEndsWithHtml(path: string)
    ensures FileName(path) == Percent.Unquote(Stem(path)) + HtmlSuffix
    ensures |FileName(path)| >= |HtmlSuffix|
    ensures FileName(path)[|FileName(path)| - |HtmlSuffix|..] == HtmlSuffix
  {
    assert Percent.TextNoEscape(HtmlSuffix);
    Percent.UnquoteAppendSuffix(Stem(path), HtmlSuffix);
    var d := Percent.Unquote(Stem(path));
    assert (d + HtmlSuffix)[|d|..] == HtmlSuffix;
  }

  lemma ConvertFilenameEndsWithHtml(url: string)
    ensures ConvertFilename(url).Ok? <==> UrlParse(url).Ok?
    ensures ConvertFilename(url).Ok? ==>
      var name := ConvertFilename(url).value;
      |name| >= 5 && name[|name| - 5..] == ".html"
  {
    if UrlParse(url).Ok? {
      FileNameEndsWithHtml(UrlParse(url).value.path);
    }
  }

  lemma {:induction false} RStripSlashes(path: string, k: nat)
    ensures RStrip(path + Repeat('/', k), '/') == RStrip(path, '/')
  {
    if k > 0 {
      var s := path + Repeat('/', k);
      assert s[..|s| - 1] == path + Repeat('/', k - 1);
      RStripSlashes(path, k - 1);
    } else {
      assert path + Repeat('/', k) == path;
    }
  }

  /** Any number of trailing `/` gives the same file name and directory. */
  lemma TrailingSlashesIgnored(path: string, k: nat)
    ensures FileName(path + Repeat('/', k)) == FileName(path)
    ensures DirectoryParts(path + Repeat('/', k)) == DirectoryParts(path)
  {
    RStripSlashes(path, k);
    SameStripped(path + Repeat('/', k), path);
  }

  /** Both the name and the directory depend on the path only through the
      path with its trailing slashes stripped. */
  lemma SameStripped(p: string, q: string)
    requires RStrip(p, '/') == RStrip(q, '/')
    ensures Segments(p) == Segments(q)
    ensures FileName(p) == FileName(q) && DirectoryParts(p) == DirectoryParts(q)
  {
    assert Segments(p) == Segments(q);
  }

  /** An empty or slash-only path gives exactly `.html`, in no subdirectory. */
  lemma SlashOnlyPath(k: nat)
    ensures FileName(Repeat('/', k)) == HtmlSuffix
    ensures DirectoryParts(Repeat('/', k)) == []
  {
    TrailingSlashesIgnored([], k);
    assert [] + Repeat('/', k) == Repeat('/', k);
    assert Segments([]) == [[]];
    FileNameEndsWithHtml([]);
    assert Percent.Unquote([]) == [];
  }

  /** The directory components, then the raw stem, rebuild the path with
      its trailing slashes stripped; so both are taken verbatim, and the
      path has a directory part exactly when it still contains a `/`. */
  lemma SegmentsRebuildPath(path: string)
    ensures DirectoryParts(path) == [] ==> Stem(path) == RStrip(path, '/')
    ensures DirectoryParts(path) != [] ==>
      Join(DirectoryParts(path), '/') + ['/'] + Stem(path) == RStrip(path, '/')
    ensures DirectoryParts(path) == [] <==> '/' !in RStrip(path, '/')
  {
    var parts := Segments(path);
    assert parts == DirectoryParts(path) + [Stem(path)];
    JoinSnoc(DirectoryParts(path), Stem(path), '/');
  }

  /** The stem is exactly the text after the last `/` of the stripped path:
      it holds no `/`, ends the stripped path, and is preceded there by a
      `/` or by nothing. */
  lemma StemIsLastSegment(path: string)
    ensures '/' !in Stem(path)
    ensures |Stem(path)| <= |RStrip(path, '/')|
    ensures var q, s := RStrip(path, '/'), Stem(path);
      q[|q| - |s|..] == s && (|s| == |q| || q[|q| - |s| - 1] == '/')
  {
    SegmentsRebuildPath(path);
    var q, s := RStrip(path, '/'), Stem(path);
    if DirectoryParts(path) != [] {
      var pre := Join(DirectoryParts(path), '/') + ['/'];
      assert q == pre + s;
      assert q[|q| - |s|..] == s;
      assert q[|q| - |s| - 1] == pre[|pre| - 1];
    }
  }

  /** A character absent from the path is absent from the stem. */
  lemma StemExcludes(path: string, c: char)
    requires c !in path
    ensures c !in Stem(path)
  {
    StemIsLastSegment(path);
    var q, s := RStrip(path, '/'), Stem(path);
    assert s == path[|q| - |s|..|q|];
    SliceExcludes(path, |q| - |s|, |q|, c);
  }

  /** Only the path reaches the stem: nothing of the query or the
      fragment can appear in the file name's raw text. */
  lemma StemExcludesQueryAndFragment(url: string)
    requires UrlParse(url).Ok?
    ensures var s := Stem(UrlParse(url).value.path); '?' !in s && '#' !in s && '/' !in s
  {
    var path := UrlParse(url).value.path;
    PathExcludesQueryAndFragment(url);
    StemExcludes(path, '?');
    StemExcludes(path, '#');
    StemIsLastSegment(path);
  }

  /** A stem is the one segment that comes after a `/`, whatever came
      before it. */
  lemma StemOfLastSegment(prefix: string, x: string)
    requires x != [] && '/' !in x
    ensures Stem(prefix + ['/'] + x) == x
  {
    var path := prefix + ['/'] + x;
    assert RStrip(path, '/') == path by {
      assert path[|path| - 1] == x[|x| - 1];
    }
    SplitLast(prefix, x, '/');
  }

  /** Whatever text is percent-encoded as the last segment comes out as the
      file name, `/` and `..` included: the name is decoded after the path
      was split, so a decoded `/` stays inside the name. */
  lemma FileNameOfQuotedSegment(prefix: string, name: string)
    requires name != []
    ensures FileName(prefix + ['/'] + Percent.Quote(name)) == name + HtmlSuffix
  {
    Percent.QuoteNonEmptyNoSlash(name);
    StemOfLastSegment(prefix, Percent.Quote(name));
    FileNameEndsWithHtml(prefix + ['/'] + Percent.Quote(name));
    Percent.UnquoteQuote(name);
  }

  /** Decoding is applied once: a segment that encodes `%41` twice over
      names the file `%41.html`, not `A.html`. */
  lemma FileNameDecodesOnce(prefix: string, name: string)
    requires name != []
    ensures FileName(prefix + ['/'] + Percent.Quote(Percent.Quote(name))) == Percent.Quote(name) + HtmlSuffix
  {
    Percent.QuoteNonEmptyNoSlash(name);
    FileNameOfQuotedSegment(prefix, Percent.Quote(name));
  }

  /** A stem without a valid escape is used as it is. */
  lemma FileNameWithoutEscape(path: string)
    requires Percent.TextNoEscape(Stem(path))
    ensures FileName(path) == Stem(path) + HtmlSuffix
  {
    FileNameEndsWithHtml(path);
    Percent.UnquoteNoEscape(Stem(path));
  }

  // ---------------------------------------------------------------------
  // The whole location.

  /** `save_html` writes `OUTPUT_DIR`, then the authority, then the raw
      directory segments, then the decoded file name; it fails exactly
      when `urlparse` does, and the name is what `convert_filename` gives. */
  lemma SaveLocationShape(url: string)
    ensures SaveLocation(url).Ok? <==> UrlParse(url).Ok?
    ensures SaveLocation(url).Ok? ==>
      var loc, parsed := SaveLocation(url).value, UrlParse(url).value;
      && ConvertFilename(url) == Ok(loc.fileName)
      && |loc.directory| >= 2
      && loc.directory[0] == OutputDir
      && loc.directory[1] == parsed.netloc
      && loc.directory[2..] == DirectoryParts(parsed.path)
      && loc.fileName == Percent.Unquote(Stem(parsed.path)) + HtmlSuffix
      && |loc.Components()| == |Segments(parsed.path)| + 2
  {
    if UrlParse(url).Ok? {
      var loc, parsed := SaveLocation(url).value, UrlParse(url).value;
      FileNameEndsWithHtml(parsed.path);
      assert loc.directory[2..] == DirectoryParts(parsed.path);
    }
  }

  /** For a URL made of well-formed parts the location is read straight
      off the parts: nothing outside the authority and the path matters. */
  lemma SaveLocationOfUnsplit(p: SplitResult)
    requires WellFormedParts(p)
    requires p.scheme in UsesParams ==> forall k :: RFind(p.path, '/') < k < |p.path| ==> p.path[k] != ';'
    ensures SaveLocation(Unsplit(p)) == Ok(OutputLocation([OutputDir, p.netloc] + DirectoryParts(p.path), FileName(p.path)))
  {
    UrlParseUnsplit(p);
  }

  /** The same, for a URL known to be spelled as those parts. */
  lemma UnsplitLocation(p: SplitResult, url: string)
    requires WellFormedParts(p)
    requires p.scheme in UsesParams ==> forall k :: RFind(p.path, '/') < k < |p.path| ==> p.path[k] != ';'
    requires Unsplit(p) == url
    ensures SaveLocation(url) == Ok(OutputLocation([OutputDir, p.netloc] + DirectoryParts(p.path), FileName(p.path)))
  {
    SaveLocationOfUnsplit(p);
  }

  /** An `https` authority and a path made of unreserved characters, `%`
      and (in the path) `/` are well-formed parts, whose last segment holds
      no `;`. */
  lemma PlainHttpsParts(netloc: string, path: string)
    requires forall i :: 0 <= i < |netloc| ==> Percent.IsQuotedChar(netloc[i])
    requires path != [] && path[0] == '/'
    requires forall i :: 0 <= i < |path| ==> path[i] == '/' || Percent.IsQuotedChar(path[i])
    ensures WellFormedParts(SplitResult("https", netloc, path, "", ""))
    ensures forall k :: RFind(path, '/') < k < |path| ==> path[k] != ';'
  {
    var p := SplitResult("https", netloc, path, "", "");
    assert forall i :: 0 <= i < |p.scheme| ==> IsSchemeChar(p.scheme[i]) && !('A' <= p.scheme[i] <= 'Z') && !IsUnsafe(p.scheme[i]);
    assert forall i :: 0 <= i < |netloc| ==> !IsNetlocDelimiter(netloc[i]) && !IsUnsafe(netloc[i]);
    assert NoUnsafe(path);
    assert '[' !in netloc && ']' !in netloc;
    assert '?' !in path && '#' !in path;
    assert SeparableParts(p);
  }

  lemma HttpsUnsplit(netloc: string, path: string)
    ensures Unsplit(SplitResult("https", netloc, path, "", "")) == "https://" + netloc + path
  {
    var p := SplitResult("https", netloc, path, "", "");
    assert PathTail(p) == path;
    calc {
      Unsplit(p);
      "https" + [':'] + (['/', '/'] + (netloc + path));
      { ConcatAssoc("https" + [':'], ['/', '/'], netloc + path); }
      ("https" + [':'] + ['/', '/']) + (netloc + path);
      { assert "https" + [':'] + ['/', '/'] == "https://"; }
      "https://" + (netloc + path);
      { ConcatAssoc("https://", netloc, path); }
      "https://" + netloc + path;
    }
  }

  /** A path written as directory segments and a non-empty stem, joined
      with `/`, splits back into exactly those. */
  lemma SegmentsOfJoin(dirs: seq<string>, stem: string)
    requires stem != [] && '/' !in stem
    requires forall i :: 0 <= i < |dirs| ==> '/' !in dirs[i]
    ensures DirectoryParts(Join(dirs + [stem], '/')) == dirs
    ensures Stem(Join(dirs + [stem], '/')) == stem
  {
    JoinNoTrailingSlash(dirs, stem);
    SplitJoinSnoc(dirs, stem, '/');
    assert (dirs + [stem])[..|dirs|] == dirs;
  }

  lemma JoinNoTrailingSlash(dirs: seq<string>, stem: string)
    requires stem != [] && '/' !in stem
    ensures RStrip(Join(dirs + [stem], '/'), '/') == Join(dirs + [stem], '/')
  {
    var path := Join(dirs + [stem], '/');
    JoinSnoc(dirs, stem, '/');
    assert path[|path| - 1] == stem[|stem| - 1];
  }

  /** `https://host/a/` is saved as `output/host/a.html`: the trailing
      slash is stripped before the split, so the last segment is `a`. */
  lemma TrailingSlashScenario(a: string)
    requires a != [] && '/' !in a
    ensures DirectoryParts(['/'] + a + ['/']) == [[]]
    ensures FileName(['/'] + a + ['/']) == Percent.Unquote(a) + HtmlSuffix
  {
    assert Repeat('/', 1) == ['/'];
    TrailingSlashesIgnored(['/'] + a, 1);
    assert [] + ['/'] + a == ['/'] + a;
    assert Join([[]] + [a], '/') == ['/'] + a by {
      JoinCons([], [a], '/');
    }
    SegmentsOfJoin([[]], a);
    FileNameEndsWithHtml(['/'] + a);
  }

  // ---------------------------------------------------------------------
  // The joined paths.

  lemma DirectoryPartsRelative(path: string)
    ensures Relative(DirectoryParts(path))
  {
    var parts := Segments(path);
    var dirs := DirectoryParts(path);
    forall i | 0 <= i < |dirs| ensures '/' !in dirs[i] {
      assert dirs[i] == parts[i];
    }
  }

  /** What `os.path.join` is given: `output`, then components without a
      `/` (the authority and the directory segments), then a non-empty
      file name. */
  lemma LocationComponents(url: string)
    requires SaveLocation(url).Ok?
    ensures var loc := SaveLocation(url).value;
      |loc.directory| >= 2 && loc.directory[0] == OutputDir
      && Relative(loc.directory[1..])
  {
    var loc, parsed := SaveLocation(url).value, UrlParse(url).value;
    SaveLocationShape(url);
    NetlocWellFormed(url);
    ComponentsRelative(loc.directory, parsed.netloc, parsed.path);
  }

  lemma ComponentsRelative(directory: seq<string>, netloc: string, path: string)
    requires |directory| >= 2 && directory[1] == netloc && directory[2..] == DirectoryParts(path)
    requires '/' !in netloc
    ensures Relative(directory[1..])
  {
    var below := directory[1..];
    DirectoryPartsRelative(path);
    forall i | 0 <= i < |below| ensures '/' !in below[i] {
      if i > 0 { assert below[i] == directory[2..][i - 1]; }
    }
  }

  /** The directory is `output`, then a `/` and each non-empty component
      after it (the authority and the directory segments), with a `/` at
      the end when the last of them is empty. The file is written in it,
      after one `/`, unless the decoded name starts with `/`: then
      `os.path.join` drops the directory and the name is the whole path. */
  lemma SavedPaths(url: string)
    requires SaveLocation(url).Ok?
    ensures |SaveLocation(url).value.directory| >= 2
    ensures var loc := SaveLocation(url).value;
      var below := loc.directory[1..];
      && loc.DirectoryPath() == OutputDir + Spelled(below) + TrailingSlash(below)
      && (!IsAbsolute(loc.fileName) ==> loc.FilePath() == OutputDir + Spelled(below) + ['/'] + loc.fileName)
      && (IsAbsolute(loc.fileName) ==> loc.FilePath() == loc.fileName)
  {
    LocationComponents(url);
    JoinedPaths(SaveLocation(url).value);
  }

  lemma JoinedPaths(loc: OutputLocation)
    requires |loc.directory| >= 2 && loc.directory[0] == OutputDir
    requires Relative(loc.directory[1..])
    ensures var below, name := loc.directory[1..], loc.fileName;
      && loc.DirectoryPath() == OutputDir + Spelled(below) + TrailingSlash(below)
      && (!IsAbsolute(name) ==> loc.FilePath() == OutputDir + Spelled(below) + ['/'] + name)
      && (IsAbsolute(name) ==> loc.FilePath() == name)
  {
    var below, name := loc.directory[1..], loc.fileName;
    PathJoinRelative(OutputDir, below);
    SpelledEnd(OutputDir, below);
    var s := OutputDir + Spelled(below);
    var d := loc.DirectoryPath();
    assert d == s + TrailingSlash(below);
    PathJoinSnoc(d, [], name);
    assert [] + [name] == [name];
    assert loc.FilePath() == JoinStep(d, name);
    if !IsAbsolute(name) {
      StepAfterSpelled(s, d, name);
      ConcatAssoc(s, ['/'], name);
    }
  }

  /** For a name that does not start with `/`, the text of the file path
      starts with `output/`. That is a statement about text only: a `..`
      component in it can still lead outside `output/` once the operating
      system resolves the path (`DotDotDirectoryKept`, `QuotedNameBelowHost`). */
  lemma WrittenBelowOutput(url: string)
    requires SaveLocation(url).Ok?
    requires !IsAbsolute(SaveLocation(url).value.fileName)
    ensures var p := SaveLocation(url).value.FilePath();
      |p| > |OutputDir| && p[..|OutputDir| + 1] == OutputDir + ['/']
  {
    var loc := SaveLocation(url).value;
    SavedPaths(url);
    BelowOutput(loc.directory[1..], loc.fileName);
  }

  lemma BelowOutput(below: seq<string>, name: string)
    ensures var p := OutputDir + Spelled(below) + ['/'] + name;
      |p| > |OutputDir| && p[..|OutputDir| + 1] == OutputDir + ['/']
  {
    SpelledStart(below);
    var sp := Spelled(below);
    var p := OutputDir + sp + ['/'] + name;
    assert p[|OutputDir|] == '/' by {
      if sp == [] {
        assert p == OutputDir + (['/'] + name);
      } else {
        assert p == OutputDir + (sp + (['/'] + name));
      }
    }
    assert p[..|OutputDir|] == OutputDir;
  }

  /** A last segment that decodes to a text starting with `/` makes the
      file path that text plus `.html`, outside the output directory: the
      `%2F` is decoded after the path was split. */
  lemma AbsoluteNameEscapes(url: string, prefix: string, name: string)
    requires UrlParse(url).Ok?
    requires UrlParse(url).value.path == prefix + ['/'] + Percent.Quote(name)
    requires IsAbsolute(name)
    ensures SaveLocation(url).Ok?
    ensures SaveLocation(url).value.FilePath() == name + HtmlSuffix
  {
    FileNameOfQuotedSegment(prefix, name);
    SaveLocationShape(url);
    SavedPaths(url);
    assert SaveLocation(url).value.fileName == name + HtmlSuffix;
    assert IsAbsolute(name + HtmlSuffix) by {
      assert (name + HtmlSuffix)[0] == name[0];
    }
  }

  /** A last segment that decodes to a name not starting with `/` puts the
      file in the directory of the authority, whatever the name holds: the
      name `../../x` gives `output/host/../../x.html`, and the authority
      `..` gives `output/../x.html`. Both are text below `output/` that
      the operating system resolves to a place outside it. */
  lemma QuotedNameBelowHost(host: string, name: string)
    requires host != [] && forall i :: 0 <= i < |host| ==> Percent.IsQuotedChar(host[i])
    requires name != [] && !IsAbsolute(name)
    ensures SaveLocation("https://" + host + "/" + Percent.Quote(name))
      == Ok(OutputLocation([OutputDir, host, ""], name + HtmlSuffix))
    ensures OutputLocation([OutputDir, host, ""], name + HtmlSuffix).FilePath()
      == OutputDir + "/" + host + "/" + (name + HtmlSuffix)
  {
    var path := "/" + Percent.Quote(name);
    calc {
      SaveLocation("https://" + host + "/" + Percent.Quote(name));
      { QuotedSegmentUrl(host, name); }
      Ok(OutputLocation([OutputDir, host] + DirectoryParts(path), FileName(path)));
      { QuotedSegmentPath(name); assert [OutputDir, host] + [""] == [OutputDir, host, ""]; }
      Ok(OutputLocation([OutputDir, host, ""], name + HtmlSuffix));
    }
    NameInHostDirectory(host, name);
  }

  lemma NameInHostDirectory(host: string, name: string)
    requires host != [] && forall i :: 0 <= i < |host| ==> Percent.IsQuotedChar(host[i])
    requires name != [] && !IsAbsolute(name)
    ensures OutputLocation([OutputDir, host, ""], name + HtmlSuffix).FilePath()
      == OutputDir + "/" + host + "/" + (name + HtmlSuffix)
  {
    assert (name + HtmlSuffix)[0] == name[0];
    HostThenName(OutputLocation([OutputDir, host, ""], name + HtmlSuffix), host);
  }

  lemma QuotedSegmentUrl(host: string, name: string)
    requires forall i :: 0 <= i < |host| ==> Percent.IsQuotedChar(host[i])
    requires name != []
    ensures var path := "/" + Percent.Quote(name);
      SaveLocation("https://" + host + "/" + Percent.Quote(name))
        == Ok(OutputLocation([OutputDir, host] + DirectoryParts(path), FileName(path)))
  {
    var q := Percent.Quote(name);
    var path := "/" + q;
    assert forall i :: 0 <= i < |path| ==> path[i] == '/' || Percent.IsQuotedChar(path[i]) by {
      forall i | 0 <= i < |path| ensures path[i] == '/' || Percent.IsQuotedChar(path[i]) {
        if i > 0 { assert path[i] == q[i - 1]; }
      }
    }
    PlainHttpsParts(host, path);
    HttpsUnsplit(host, path);
    ConcatAssoc("https://" + host, "/", q);
    UnsplitLocation(SplitResult("https", host, path, "", ""), "https://" + host + "/" + q);
  }

  /** A path of one encoded segment: no directory segments but the empty
      one before it, and the decoded segment as the name. */
  lemma QuotedSegmentPath(name: string)
    requires name != []
    ensures DirectoryParts("/" + Percent.Quote(name)) == [""]
    ensures FileName("/" + Percent.Quote(name)) == name + HtmlSuffix
  {
    var q := Percent.Quote(name);
    Percent.QuoteNonEmptyNoSlash(name);
    assert Join([""] + [q], '/') == "/" + q;
    SegmentsOfJoin([""], q);
    assert [] + ['/'] + q == "/" + q;
    FileNameOfQuotedSegment([], name);
  }

  /** Raw `..` directory segments stay in the joined text:
      `https://host/../../x` is written to `output/host/../../x.html`. */
  lemma DotDotDirectoryKept(host: string, stem: string)
    requires host != [] && forall i :: 0 <= i < |host| ==> Percent.IsQuotedChar(host[i])
    requires stem != [] && forall i :: 0 <= i < |stem| ==> Percent.IsQuotedChar(stem[i])
    requires !IsAbsolute(Percent.Unquote(stem) + HtmlSuffix)
    ensures var name := Percent.Unquote(stem) + HtmlSuffix;
      && SaveLocation("https://" + host + "/../../" + stem)
        == Ok(OutputLocation([OutputDir, host, "", "..", ".."], name))
      && OutputLocation([OutputDir, host, "", "..", ".."], name).FilePath()
        == OutputDir + "/" + host + "/../../" + name
  {
    var name := Percent.Unquote(stem) + HtmlSuffix;
    var path := "/../../" + stem;
    calc {
      SaveLocation("https://" + host + "/../../" + stem);
      { DotDotDirectoryUrl(host, stem); }
      Ok(OutputLocation([OutputDir, host] + DirectoryParts(path), FileName(path)));
      { DotDotDirectoryParts(stem); assert [OutputDir, host] + ["", "..", ".."] == [OutputDir, host, "", "..", ".."]; }
      Ok(OutputLocation([OutputDir, host, "", "..", ".."], name));
    }
    ParentsThenName(OutputLocation([OutputDir, host, "", "..", ".."], name), host);
  }

  lemma DotDotDirectoryUrl(host: string, stem: string)
    requires forall i :: 0 <= i < |host| ==> Percent.IsQuotedChar(host[i])
    requires forall i :: 0 <= i < |stem| ==> Percent.IsQuotedChar(stem[i])
    ensures var path := "/../../" + stem;
      SaveLocation("https://" + host + "/../../" + stem)
        == Ok(OutputLocation([OutputDir, host] + DirectoryParts(path), FileName(path)))
  {
    var path := "/../../" + stem;
    assert forall i :: 0 <= i < |path| ==> path[i] == '/' || Percent.IsQuotedChar(path[i]) by {
      forall i | 0 <= i < |path| ensures path[i] == '/' || Percent.IsQuotedChar(path[i]) {
        if i >= 7 { assert path[i] == stem[i - 7]; }
      }
    }
    PlainHttpsParts(host, path);
    HttpsUnsplit(host, path);
    ConcatAssoc("https://" + host, "/../../", stem);
    UnsplitLocation(SplitResult("https", host, path, "", ""), "https://" + host + "/../../" + stem);
  }

  lemma DotDotDirectoryParts(stem: string)
    requires stem != [] && '/' !in stem
    ensures DirectoryParts("/../../" + stem) == ["", "..", ".."]
    ensures FileName("/../../" + stem) == Percent.Unquote(stem) + HtmlSuffix
  {
    var segs := ["", "..", ".."] + [stem];
    assert Join(segs[3..], '/') == stem;
    assert Join(segs[2..], '/') == "../" + stem;
    assert Join(segs[1..], '/') == "../../" + stem;
    assert Join(segs, '/') == "/../../" + stem;
    SegmentsOfJoin(["", "..", ".."], stem);
    FileNameEndsWithHtml("/../../" + stem);
  }

  /** A file two `..` components below the directory of one authority. */
  lemma ParentsThenName(loc: OutputLocation, host: string)
    requires loc.directory == [OutputDir, host, "", "..", ".."] && !IsAbsolute(loc.fileName)
    requires host != [] && '/' !in host
    ensures loc.FilePath() == OutputDir + "/" + host + "/../../" + loc.fileName
  {
    var below := loc.directory[1..];
    assert below == [host, "", "..", ".."];
    assert Relative(below) by {
      forall i | 0 <= i < |below| ensures '/' !in below[i] {
      }
    }
    JoinedPaths(loc);
    SpelledParents(host);
    calc {
      loc.FilePath();
      OutputDir + Spelled(below) + ['/'] + loc.fileName;
      OutputDir + Spelled([host, "", "..", ".."]) + ['/'] + loc.fileName;
      OutputDir + ("/" + host + "/../..") + ['/'] + loc.fileName;
      { ConcatAssoc(OutputDir, "/" + host + "/../..", ['/']); }
      OutputDir + ("/" + host + "/../.." + ['/']) + loc.fileName;
      { assert "/" + host + "/../.." + ['/'] == "/" + host + "/../../"; }
      OutputDir + ("/" + host + "/../../") + loc.fileName;
      { ConcatAssoc(OutputDir, "/" + host, "/../../"); ConcatAssoc(OutputDir, "/", host); }
      OutputDir + "/" + host + "/../../" + loc.fileName;
    }
  }

  lemma SpelledParents(host: string)
    requires host != []
    ensures Spelled([host, "", "..", ".."]) == "/" + host + "/../.."
  {
    var below := [host, "", "..", ".."];
    assert below[..3] == [host, "", ".."];
    assert [host, "", ".."][..2] == [host, ""];
    assert [host, ""][..1] == [host];
    assert [host][..0] == [];
    assert Spelled([host]) == "/" + host;
    assert Spelled([host, ""]) == "/" + host;
    assert Spelled([host, "", ".."]) == "/" + host + "/..";
  }

  /** `https://host/a/` is written to `output/host/a.html`, not to
      `output/host/a/.html`. */
  lemma TrailingSlashFilePath(host: string, a: string)
    requires host != [] && '/' !in host
    requires a != [] && '/' !in a
    requires !IsAbsolute(Percent.Unquote(a) + HtmlSuffix)
    ensures var path := ['/'] + a + ['/'];
      OutputLocation([OutputDir, host] + DirectoryParts(path), FileName(path)).FilePath()
        == OutputDir + ['/'] + host + ['/'] + (Percent.Unquote(a) + HtmlSuffix)
  {
    var path := ['/'] + a + ['/'];
    TrailingSlashScenario(a);
    var loc := OutputLocation([OutputDir, host] + DirectoryParts(path), FileName(path));
    assert loc.directory == [OutputDir, host, []];
    HostThenName(loc, host);
  }

  /** A file in the directory of one authority, after an empty segment. */
  lemma HostThenName(loc: OutputLocation, host: string)
    requires loc.directory == [OutputDir, host, []]
    requires host != [] && '/' !in host
    requires !IsAbsolute(loc.fileName)
    ensures loc.FilePath() == OutputDir + ['/'] + host + ['/'] + loc.fileName
  {
    var below := loc.directory[1..];
    assert below == [host, []];
    JoinedPaths(loc);
    assert below[..1] == [host];
    assert [host][..0] == [];
    assert Spelled([host]) == Spelled([]) + (['/'] + host);
    assert Spelled(below) == ['/'] + host;
    ConcatAssoc(OutputDir, ['/'], host);
  }
}
