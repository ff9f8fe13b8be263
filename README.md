# Where website_downloader saves a page

website_downloader reads a sitemap, renders every listed page in a headless
browser and saves the HTML under `output/`. This project models the one part of
that program that computes something: how a page URL becomes the directory
that `save_html` creates and the file it writes. The same mapping is where a
URL can place a file outside `output/`.

- `convert_filename(url)` (main.py:24-27) takes the path that `urlparse` gives.
  It strips trailing `/`, keeps the text after the last remaining `/`, appends
  `.html` and percent-decodes the result once with `urllib.parse.unquote`.
- `save_html` (main.py:34-36, 47-48) takes the segments of the same stripped
  path except the last. The directory is `os.path.join(OUTPUT_DIR, netloc,
  *segments)`, and the file is `os.path.join(directory, file_name)`.

The library calls inside this mapping are modelled as well. All the code is
pure, so everything is written as functions and lemmas:

- `PyStr`: the `str` methods the code uses (`rstrip`, `split`, `find`,
  `rfind`, `join`, `[-1]`, `[:-1]`).
- `Url`: `urlsplit` and `urlparse` as current CPython releases implement
  them (the leading-C0 stripping and the rule that a scheme starts with a
  letter came with security fixes in patch releases; older releases are not
  modelled):
  - the leading C0 and space characters are stripped;
  - tab, CR and LF are removed;
  - then come the scheme, the `//` authority, the fragment and the query;
  - `;params` are cut from the last segment, for the schemes listed in
    `uses_params`;
  - an authority with a `[` but no `]`, or the other way round, raises
    `ValueError` (the `Err` result).
- `Percent` and `Utf8`: `unquote` with its defaults (UTF-8, `'replace'`).
  - Each run of ASCII characters is percent-decoded to bytes, as
    `unquote_to_bytes` does, and the bytes are read as UTF-8.
  - Each maximal subpart of an ill-formed sequence becomes one U+FFFD, so
    the bytes `80 80` give two.
  - Other characters pass through unchanged.
  - A reference encoder `Quote` is the partner of `Unquote`.
- `PosixPath`: `os.path.join` on POSIX. A component starting with `/`
  restarts the path. Any other component is added after a `/`, unless the
  path so far is empty or already ends with one (`join("", "a")` is `a`,
  `join("a//", "b")` is `a//b`).
- `Downloader`: `OUTPUT_DIR`, `convert_filename`, the location `save_html`
  computes, and the properties of that location.

Things the proofs show about the code:

- `https://host/a/` is saved as `output/host/a.html`. The trailing `/` is
  stripped before the split, so `a` is the file name and not a directory.
  The model follows the code here.
- The name is decoded after the path has been split, so it can itself hold
  a `/`. A last segment such as `%2Fetc%2Fpasswd` gives the name
  `/etc/passwd.html`. That name starts with `/`, and `os.path.join` then drops
  the directory, so the page is written to `/etc/passwd.html`
  (`Downloader.AbsoluteNameEscapes`).
- Every other name is placed after `output/`, but only as text
  (`Downloader.WrittenBelowOutput`). Nothing removes `..`, so the operating
  system can still resolve the path to a place outside `output/`:
  - The directory segments are not decoded, and a raw `..` segment is passed
    to `os.path.join` as written. `https://h/../../x` is written to
    `output/h/../../x.html` (`Downloader.DotDotDirectoryKept`).
  - A decoded name can hold `../`. The last segment `..%2F..%2Fx` is the
    encoding of `../../x` (`Percent.QuoteDotDotExample`), so
    `https://h/..%2F..%2Fx` is written to `output/h/../../x.html`
    (`Downloader.QuotedNameBelowHost`).
  - The authority is a path component as well. With the authority `..`,
    `https://../x` is written to `output/../x.html`
    (`Downloader.QuotedNameBelowHost`).

## Model

| member | source | states |
|---|---|---|
| PyStr.RStrip | main.py:25 | `rstrip("/")` returns a prefix that does not end with `/`. Everything it removed was `/`. |
| PyStr.Split | main.py:25 | `split("/")` returns at least one piece. No piece holds `/`, and joining the pieces with `/` gives back the text. |
| PyStr.SplitJoin | main.py:35 | Splitting undoes joining, for pieces without the separator. This is the other half of `split`'s contract. |
| PyStr.JoinSnoc | main.py:35 | Joining pieces with one more piece at the end adds the separator and that piece, or gives the piece alone when there was nothing before it. |
| PyStr.SplitLast | main.py:25 | After a `/`, a piece free of `/` becomes the last piece of the split, whatever precedes it. |
| Url.UrlSplit | main.py:25 | The path that `urlsplit` returns holds no `?` or `#`, and its query holds no `#`. The authority holds no `/`, `?` or `#`, and it holds a `[` exactly when it holds a `]`. |
| Url.RemoveUnsafeAppend | main.py:25 | Removing tab, CR and LF works piece by piece: the result for `a + b` is the result for `a` followed by the result for `b`. |
| Url.RemoveUnsafeChar | main.py:25 | A single tab, CR or LF is removed, and any other character is kept. Together with `RemoveUnsafeAppend`, every other character is kept in order. |
| Url.UrlParse | main.py:34 | `urlparse` fails exactly when `urlsplit` does. It keeps the scheme, the `netloc`, the query and the fragment that `urlsplit` found, and returns a prefix of its path; for a scheme without params the path is unchanged and the params are empty. `UrlParseUnsplit` and `UrlParseParams` fix the rest. |
| Url.SplitParams | main.py:25 | `_splitparams` either leaves the path alone with empty params, or splits it at a `;` into path and params. It cuts only inside the last segment, and no `;` remains in the last segment of the kept path. |
| Url.PathExcludesQueryAndFragment | main.py:25 | The path `urlparse` returns never holds `?` or `#`. |
| Url.NetlocWellFormed | main.py:34 | The `netloc` that `urlparse` returns holds no `/`, `?` or `#`, and it holds a `[` exactly when it holds a `]`. |
| Url.ParamsCut | main.py:25 | For a scheme that takes params, no `;` is left in the last segment of the parsed path. |
| Url.UrlSplitUnsplit | main.py:34 | Round trip: `urlsplit` reads back every part of a URL assembled from well-formed parts. |
| Url.UrlSplitUnsplitBrackets | main.py:34 | For parts that are well-formed apart from the brackets, `urlsplit` fails exactly when the authority has an unpaired bracket. |
| Url.UrlParseUnsplit | main.py:34 | Round trip for `urlparse`: the parts come back with empty params when the last segment holds no `;`. |
| Url.UrlParseParams | main.py:25 | With a params-taking scheme, a split path written as `path;params` (`params` has no `/`, and the last segment of `path` has no `;`) parses to exactly `path` and `params`. |
| Utf8.Decode | main.py:26 | `bytes.decode('utf-8', 'replace')` yields at most one character per byte; `DecodeEncode` is its partner: it inverts the encoder on every string. |
| Utf8.DecodeEncode | main.py:26 | Decoding undoes UTF-8 encoding for every string. |
| Utf8.DecodeAppend | main.py:26 | UTF-8 decoding splits at every boundary followed by an ASCII byte. |
| Percent.UnquoteToBytes | main.py:26 | `unquote_to_bytes` as written (split on `%`, decode two hex digits at the head of every later piece). Its contract is `UnquoteToBytesIsPercentDecode`. |
| Percent.Unquote | main.py:26 | `unquote` with its fast path for text without `%`. Its partner is `Quote`: `UnquoteQuote` shows it inverts the encoder, `UnquoteNoEscape` that text without an escape is unchanged. |
| Percent.UnquoteToBytesIsPercentDecode | main.py:26 | The split-on-`%` algorithm of `unquote_to_bytes` equals left-to-right `%HH` decoding. |
| Percent.PercentDecodeNoEscape | main.py:26 | Bytes with no `%HH` escape decode to themselves. |
| Percent.PercentDecodeAppend | main.py:26 | Percent-decoding splits at a boundary followed by a non-hex byte. |
| Percent.UnquoteNoEscape | main.py:26 | A text with no valid `%HH` escape is its own `unquote`. A stray `%` stays literal. |
| Percent.UnquoteAppendSuffix | main.py:25-26 | `unquote(s + suffix)` is `unquote(s) + suffix` when the suffix has no escape and starts with an ASCII character that is neither `%` nor a hex digit. |
| Percent.UnquoteQuote | main.py:26 | Round trip: `unquote` undoes the reference percent-encoder for every text. |
| Percent.UnquoteOnce | main.py:26 | Decoding happens once: a text quoted twice unquotes to the text quoted once. |
| Percent.DoubleEncodedExample | main.py:26 | `unquote("%2541")` is `"%41"`, not `"A"`. |
| Percent.StrayPercentExample | main.py:26 | `unquote("100%")` and `unquote("%zz")` return their input unchanged. |
| Percent.Utf8Example | main.py:26 | `unquote("%C3%A9")` is `"é"`. |
| Percent.TruncatedUtf8Example | main.py:26 | `unquote("%C3")` is U+FFFD. |
| Percent.QuoteDotDotExample | main.py:26 | The encoding of `../../x` is `..%2F..%2Fx`: `.` is unreserved and `/` is escaped. |
| Percent.QuoteNonEmptyNoSlash | main.py:26 | The reference encoder keeps a text non-empty and never outputs a `/`. |
| PosixPath.JoinStep | main.py:36 | An absolute component replaces the path built so far. Any other component is appended after a `/`, unless the path so far is empty or ends with `/`; `PathJoinRelative` fixes where the `/` goes for the downloader's components. |
| PosixPath.PathJoin | main.py:36 | `os.path.join(a, *parts)`, one `JoinStep` per component from left to right. Its contracts are `PathJoinSnoc`, `PathJoinRelative` and `PathJoinAbsoluteLast`. |
| PosixPath.PathJoinSnoc | main.py:36 | `os.path.join` consumes its components left to right. |
| PosixPath.PathJoinRelative | main.py:36 | Components without `/` after a base that does not end in `/` give the base, then `/` and each non-empty component, then a trailing `/` exactly when the last component is empty. |
| PosixPath.PathJoinAbsoluteLast | main.py:48 | A last component starting with `/` is the whole joined path. |
| Downloader.Segments | main.py:35 | `path.rstrip("/").split("/")` has at least one piece, no piece holds `/`, and joining them with `/` gives the stripped path. |
| Downloader.Stem | main.py:25 | The raw last segment holds no `/`. `StemIsLastSegment` places it at the end of the stripped path. |
| Downloader.DirectoryParts | main.py:35 | The directory segments followed by the stem are exactly the segments of the stripped path. |
| Downloader.FileName | main.py:25-26 | The decoded stem plus `.html`: pinned down by `FileNameEndsWithHtml`, `FileNameOfQuotedSegment` and `FileNameWithoutEscape`. |
| Downloader.ConvertFilename | main.py:24-27 | `convert_filename`: `ConvertFilenameEndsWithHtml` states when it fails and that its result ends with `.html`. |
| Downloader.SaveLocation | main.py:34-48 | The two argument lists of the `os.path.join` calls in `save_html`: their shape is `SaveLocationShape`. |
| Downloader.OutputLocation.DirectoryPath | main.py:36 | `output_dir`. Its closed form is in `SavedPaths`. |
| Downloader.OutputLocation.FilePath | main.py:48 | `file_path`. Its closed form is in `SavedPaths`; `WrittenBelowOutput` and `AbsoluteNameEscapes` give the two cases. |
| Downloader.FileNameEndsWithHtml | main.py:25-26 | The file name is the decoded stem followed by `.html`, so it always ends with `.html`. |
| Downloader.ConvertFilenameEndsWithHtml | main.py:24-27 | `convert_filename` fails exactly when `urlparse` raises. Otherwise its result ends with `.html`. |
| Downloader.TrailingSlashesIgnored | main.py:25 | Any number of trailing `/` gives the same file name and the same directory segments. |
| Downloader.SameStripped | main.py:35 | Two paths with the same slash-stripped form give the same segments, file name and directory. |
| Downloader.SlashOnlyPath | main.py:25 | An empty or slash-only path gives exactly `.html` and no directory segments. |
| Downloader.SegmentsRebuildPath | main.py:35 | The directory segments, a `/` and the raw stem rebuild the stripped path. There are directory segments exactly when the stripped path still holds a `/`. |
| Downloader.StemIsLastSegment | main.py:25 | The stem holds no `/`, ends the stripped path, and is preceded there by a `/` or by nothing. |
| Downloader.StemExcludes | main.py:25 | A character absent from the path is absent from the stem. |
| Downloader.StemExcludesQueryAndFragment | main.py:25 | The raw stem of a parsed URL holds no `?`, `#` or `/`. The query and the fragment never reach the file name. |
| Downloader.StemOfLastSegment | main.py:25 | A non-empty `/`-free text after a `/` is the stem, whatever earlier segments exist. |
| Downloader.FileNameOfQuotedSegment | main.py:25-26 | Any text, percent-encoded as the last segment, comes out as the file name plus `.html`, including `/` and `..`. |
| Downloader.FileNameDecodesOnce | main.py:26 | A doubly encoded last segment gives the singly encoded text plus `.html`. |
| Downloader.FileNameWithoutEscape | main.py:26 | A stem without a valid escape is used unchanged. |
| Downloader.SaveLocationShape | main.py:34-36 | Saving fails exactly when `urlparse` raises. The directory components are `OUTPUT_DIR` (`output`, main.py:13), then `netloc`, then the raw directory segments. The file name is what `convert_filename` returns. |
| Downloader.SaveLocationOfUnsplit | main.py:34-36 | For a URL made of well-formed parts, the location is read straight off the authority and the path, provided that, for a scheme that takes params, the last segment of the path holds no `;` (so `https://h/p;jsessionid=1` is not covered: there `urlparse` cuts `;jsessionid=1` off). |
| Downloader.SegmentsOfJoin | main.py:35 | A path joined from `/`-free directory segments and a non-empty stem splits back into exactly those directory segments and that stem. |
| Downloader.TrailingSlashScenario | main.py:25 | `/a/` has the single directory segment `""` and the file name `unquote(a) + ".html"`. |
| Downloader.TrailingSlashFilePath | main.py:48 | For a location built from a non-empty authority `host` without `/` and the path `/a/` (with `a` non-empty and `/`-free), the file path is `output/host/` + `unquote(a)` + `.html`, provided that decoded name does not start with `/` (otherwise `AbsoluteNameEscapes` applies). It is stated on the authority and the path, not on a URL string. |
| Downloader.LocationComponents | main.py:36 | `os.path.join` receives `output`, then at least one component (the `netloc`, then the directory segments), none of which holds a `/`. |
| Downloader.SavedPaths | main.py:36 | `output_dir` is `output`, then `/` and each non-empty component, then a `/` if the last component is empty. `file_path` is the text before that trailing `/` (`output`, then `/` and each non-empty component), followed by one `/` and the name, or just the name when it starts with `/`. |
| Downloader.JoinedPaths | main.py:48 | The same two joined paths for any location of that shape. |
| Downloader.WrittenBelowOutput | main.py:48 | For a file name that does not start with `/`, the text of the joined path starts with `output/`. A `..` in that text is not resolved (see `DotDotDirectoryKept` and `QuotedNameBelowHost`). |
| Downloader.QuotedNameBelowHost | main.py:34-48 | For an `https` URL whose authority is non-empty and made of unreserved characters and `%`, and whose path is `/` followed by an encoded name that does not start with `/`, the file is `output/`, the authority, `/`, then the decoded name plus `.html`, whatever `..` the name or the authority holds. |
| Downloader.DotDotDirectoryKept | main.py:34-48 | For a non-empty authority `host` made of unreserved characters and `%`, and a non-empty last segment of such characters, `https://host/../../` followed by that segment is saved with the directory components `output`, the authority, `""`, `..`, `..`. The file path is `output/host/../../` followed by the decoded segment plus `.html`, provided that name does not start with `/`. |
| Downloader.AbsoluteNameEscapes | main.py:48 | A last segment that is the reference encoding (`Percent.Quote`) of a name starting with `/` puts the file at exactly that name plus `.html`, outside `output/`. Other spellings of such a segment (a lower-case `%2f`, say) are covered by `SaveLocationShape` together with `SavedPaths`. |

## Left out

- `parse_sitemap` (main.py:62-79): an HTTP request through `requests` plus XML parsing by `ElementTree`, both library calls.
- The browser work in `save_html` (main.py:40-46, 50-58): the Playwright launch, navigation, waits, `content()` and `close()`, which are external and asynchronous.
- `asyncio.Semaphore(5)` and `tqdm.gather` (main.py:32, 94-101): only concurrency.
- `log_message`, `os.makedirs`, the file write, `argparse`, `print` and `asyncio.run`: I/O and command-line plumbing. The model computes the paths these would use and does not touch a file system.
- Paths are text. The model does not resolve `..` or symbolic links, the way the operating system would when the file is opened.
- Url.UrlSplit: the validation of bracketed IPv6 hosts (`_check_bracketed_netloc`) and the NFKC check of non-ASCII authorities (`_checknetloc`) can raise further `ValueError`s. They are not modelled, because they call `ipaddress` and `unicodedata`. The only error modelled is an unpaired bracket.
- Url.UrlSplit: the behaviour of CPython releases older than the security fixes that added the stripping of leading C0 characters and the rule that a scheme starts with a letter is not modelled.
- Utf8.Decode: characters are Unicode scalar values, so a Python `str` holding a lone surrogate cannot be expressed.
- Percent.Quote: a reference encoder that escapes every byte outside the unreserved set of RFC 3986. It is not `urllib.parse.quote` with its `safe` parameter, and the downloader never calls it.
- Downloader.ConvertFilename and Downloader.SaveLocation: text that Python cannot encode as UTF-8 is out of scope, because a `string` here holds only scalar values.
