/** Percent-decoding (section 2.1 of RFC 3986) as `urllib.parse` does it:
    `unquote_to_bytes` on bytes, and `unquote` on text, which decodes each
    run of ASCII characters to bytes, reads those bytes as UTF-8 with
    replacement, and passes every other character through. `Quote` is a
    reference encoder, the partner of `Unquote`. */
module Percent {
  import opened Utf8
  import opened PyStr

  const PercentSign: Byte := 0x25

  /** One of `0123456789ABCDEFabcdef`. */
  predicate IsHex(x: int)
  {
    0x30 <= x <= 0x39 || 0x41 <= x <= 0x46 || 0x61 <= x <= 0x66
  }

  function HexValue(x: int): (v: int)
    requires IsHex(x)
    ensures 0 <= v < 16
  {
    if x <= 0x39 then x - 0x30 else if x <= 0x46 then x - 0x41 + 10 else x - 0x61 + 10
  }

  /** The upper-case hex digit for `v`. */
  function HexDigit(v: int): (x: Byte)
    requires 0 <= v < 16
    ensures IsHex(x) && HexValue(x) == v
  {
    if v < 10 then 0x30 + v else 0x41 + v - 10
  }

  /** The byte that `%` followed by the hex digits `hi`, `lo` stands for. */
  function EscapeValue(hi: int, lo: int): Byte
    requires IsHex(hi) && IsHex(lo)
  {
    HexValue(hi) * 16 + HexValue(lo)
  }

  /** A valid escape starts at `i`: `%` and then two hex digits. */
  predicate EscapeAt(s: seq<int>, i: int)
  {
    0 <= i && i + 2 < |s| && s[i] == PercentSign as int && IsHex(s[i + 1]) && IsHex(s[i + 2])
  }

  predicate NoEscape(s: seq<int>)
  {
    forall i :: 0 <= i < |s| ==> !EscapeAt(s, i)
  }

  // ---------------------------------------------------------------------
  // unquote_to_bytes, as written: split on `%`, and decode the first two
  // characters of every piece after the first when they are hex digits.

  function DecodeItem(item: seq<Byte>): seq<Byte>
  {
    if |item| >= 2 && IsHex(item[0]) && IsHex(item[1]) then [EscapeValue(item[0], item[1])] + item[2..]
    else [PercentSign] + item
  }

  function DecodeItems(items: seq<seq<Byte>>): seq<Byte>
  {
    if items == [] then [] else DecodeItem(items[0]) + DecodeItems(items[1..])
  }

  function UnquoteToBytes(s: seq<Byte>): seq<Byte>
  {
    if s == [] then []
    else
      var bits := Split(s, PercentSign);
      if |bits| == 1 then s else bits[0] + DecodeItems(bits[1..])
  }

  // ---------------------------------------------------------------------
  // The reading of section 2.1 of RFC 3986: scan left to right and
  // replace every `%HH` by the byte it stands for.

  function PercentDecode(s: seq<Byte>): (r: seq<Byte>)
    ensures |r| <= |s|
  {
    if s == [] then []
    else if EscapeAt(s, 0) then [EscapeValue(s[1], s[2])] + PercentDecode(s[3..])
    else [s[0]] + PercentDecode(s[1..])
  }

  lemma {:induction false} PercentDecodeNoPercent(p: seq<Byte>, t: seq<Byte>)
    requires PercentSign !in p
    ensures PercentDecode(p + t) == p + PercentDecode(t)
  {
    if p != [] {
      assert (p + t)[1..] == p[1..] + t;
      PercentDecodeNoPercent(p[1..], t);
    } else {
      assert p + t == t;
    }
  }

  /** `%` + `item`, followed by nothing or by another `%`, decodes to
      `DecodeItem(item)` and then whatever the rest decodes to. */
  lemma PercentDecodeItem(item: seq<Byte>, t: seq<Byte>)
    requires PercentSign !in item
    requires t == [] || t[0] == PercentSign
    ensures PercentDecode([PercentSign] + item + t) == DecodeItem(item) + PercentDecode(t)
  {
    var s := [PercentSign] + item + t;
    if |item| >= 2 && IsHex(item[0]) && IsHex(item[1]) {
      assert EscapeAt(s, 0);
      assert s[3..] == item[2..] + t;
      PercentDecodeNoPercent(item[2..], t);
      ConcatAssoc([EscapeValue(item[0], item[1])], item[2..], PercentDecode(t));
    } else {
      assert !EscapeAt(s, 0);
      assert s[1..] == item + t;
      PercentDecodeNoPercent(item, t);
      ConcatAssoc([PercentSign], item, PercentDecode(t));
    }
  }

  lemma {:induction false} PercentDecodeItems(items: seq<seq<Byte>>, sep: Byte)
    requires sep == PercentSign
    requires |items| >= 1
    requires forall i :: 0 <= i < |items| ==> PercentSign !in items[i]
    ensures PercentDecode([sep] + Join(items, sep)) == DecodeItems(items)
  {
    if |items| == 1 {
      PercentDecodeItem(items[0], []);
      assert [sep] + Join(items, sep) == [sep] + items[0] + [];
      assert DecodeItems(items) == DecodeItem(items[0]) + DecodeItems([]);
    } else {
      var t := [sep] + Join(items[1..], sep);
      assert [sep] + Join(items, sep) == [sep] + items[0] + t;
      PercentDecodeItem(items[0], t);
      PercentDecodeItems(items[1..], sep);
    }
  }

  /** The split-based `unquote_to_bytes` is the left-to-right decoder of
      section 2.1 of RFC 3986. */
  lemma UnquoteToBytesIsPercentDecode(s: seq<Byte>)
    ensures UnquoteToBytes(s) == PercentDecode(s)
  {
    if s != [] {
      var bits := Split(s, PercentSign);
      if |bits| == 1 {
        assert PercentSign !in s;
        PercentDecodeNoPercent(s, []);
        assert s + [] == s;
      } else {
        JoinCons(bits[0], bits[1..], PercentSign);
        assert bits == [bits[0]] + bits[1..];
        assert s == bits[0] + ([PercentSign] + Join(bits[1..], PercentSign));
        PercentDecodeNoPercent(bits[0], [PercentSign] + Join(bits[1..], PercentSign));
        PercentDecodeItems(bits[1..], PercentSign);
      }
    }
  }

  /** Without a valid escape, percent-decoding changes nothing: in
      particular a `%` not followed by two hex digits stays literal. */
  lemma {:induction false} PercentDecodeNoEscape(s: seq<Byte>)
    requires NoEscape(s)
    ensures PercentDecode(s) == s
  {
    if s != [] {
      assert !EscapeAt(s, 0);
      forall i | 0 <= i < |s[1..]| ensures !EscapeAt(s[1..], i) {
        assert !EscapeAt(s, i + 1);
      }
      PercentDecodeNoEscape(s[1..]);
    }
  }

  /** Decoding splits at every boundary not followed by a hex digit, since
      no escape can straddle it. */
  lemma {:induction false} PercentDecodeAppend(a: seq<Byte>, b: seq<Byte>)
    requires b == [] || !IsHex(b[0])
    ensures PercentDecode(a + b) == PercentDecode(a) + PercentDecode(b)
    decreases |a|
  {
    if a == [] {
      assert a + b == b;
    } else if EscapeAt(a, 0) {
      assert EscapeAt(a + b, 0);
      assert (a + b)[3..] == a[3..] + b;
      PercentDecodeAppend(a[3..], b);
    } else {
      assert !EscapeAt(a + b, 0);
      assert (a + b)[1..] == a[1..] + b;
      PercentDecodeAppend(a[1..], b);
    }
  }

  // ---------------------------------------------------------------------
  // unquote on text.

  predicate IsAscii(c: char)
  {
    c as int < 0x80
  }

  predicate AllAscii(s: string)
  {
    forall i :: 0 <= i < |s| ==> IsAscii(s[i])
  }

  /** The codes of an ASCII string, as bytes (its UTF-8 encoding). */
  function AsciiBytes(s: string): (b: seq<Byte>)
    requires AllAscii(s)
    ensures |b| == |s|
    ensures forall i :: 0 <= i < |s| ==> b[i] == s[i] as int
  {
    if s == [] then [] else [s[0] as int] + AsciiBytes(s[1..])
  }

  /** A valid escape starts at position `i` of a text. */
  predicate TextEscapeAt(s: string, i: int)
  {
    0 <= i && i + 2 < |s| && s[i] == '%' && IsHex(s[i + 1] as int) && IsHex(s[i + 2] as int)
  }

  predicate TextNoEscape(s: string)
  {
    forall i :: 0 <= i < |s| ==> !TextEscapeAt(s, i)
  }

  /** The length of the run of ASCII characters at the front of `s`. */
  function AsciiRunLength(s: string): (n: nat)
    ensures n <= |s|
    ensures forall i :: 0 <= i < n ==> IsAscii(s[i])
    ensures n < |s| ==> !IsAscii(s[n])
  {
    if s == [] || !IsAscii(s[0]) then 0 else 1 + AsciiRunLength(s[1..])
  }

  /** One ASCII run: percent-decoded to bytes, then read as UTF-8. The
      bytes are `unquote_to_bytes(r)`, which `UnquoteToBytesIsPercentDecode`
      shows is `PercentDecode`. */
  function DecodeRun(r: string): string
    requires AllAscii(r)
  {
    Decode(PercentDecode(AsciiBytes(r)))
  }

  /** `unquote` past its fast path: ASCII runs decoded, the rest kept. */
  function UnquoteRuns(s: string): string
    decreases |s|
  {
    if s == [] then []
    else if !IsAscii(s[0]) then [s[0]] + UnquoteRuns(s[1..])
    else
      var n := AsciiRunLength(s);
      DecodeRun(s[..n]) + UnquoteRuns(s[n..])
  }

  /** `urllib.parse.unquote(s)` with its default UTF-8 and 'replace'. */
  function Unquote(s: string): string
  {
    if '%' !in s then s else UnquoteRuns(s)
  }

  lemma DecodeAsciiRun(r: string)
    requires AllAscii(r)
    ensures Decode(AsciiBytes(r)) == r
  {
    DecodeAscii(AsciiBytes(r));
    var d := Decode(AsciiBytes(r));
    assert forall i :: 0 <= i < |r| ==> d[i] as int == r[i] as int;
  }

  /** A valid escape in a suffix is a valid escape in the whole text. */
  lemma NoEscapeSuffix(s: string, n: nat)
    requires n <= |s|
    requires TextNoEscape(s)
    ensures TextNoEscape(s[n..])
  {
    forall i | 0 <= i < |s| - n ensures !TextEscapeAt(s[n..], i) {
      assert !TextEscapeAt(s, i + n);
    }
  }

  /** A valid escape in an ASCII prefix is a valid escape in the whole text. */
  lemma NoEscapePrefix(s: string, n: nat)
    requires n <= |s|
    requires AllAscii(s[..n])
    requires TextNoEscape(s)
    ensures NoEscape(AsciiBytes(s[..n]))
  {
    var b := AsciiBytes(s[..n]);
    forall i | 0 <= i < n ensures !EscapeAt(b, i) {
      assert !TextEscapeAt(s, i);
    }
  }

  lemma DecodeRunNoEscape(r: string)
    requires AllAscii(r)
    requires NoEscape(AsciiBytes(r))
    ensures DecodeRun(r) == r
  {
    PercentDecodeNoEscape(AsciiBytes(r));
    DecodeAsciiRun(r);
  }

  /** A text with no valid escape is its own `unquote`, whichever path the
      code takes: the fast path for a text without `%` is only a shortcut. */
  lemma {:induction false} UnquoteRunsNoEscape(s: string)
    requires TextNoEscape(s)
    ensures UnquoteRuns(s) == s
    decreases |s|
  {
    if s == [] {
    } else if IsAscii(s[0]) {
      var n := AsciiRunLength(s);
      var head, tail := s[..n], s[n..];
      assert UnquoteRuns(s) == DecodeRun(head) + UnquoteRuns(tail);
      assert UnquoteRuns(tail) == tail by {
        NoEscapeSuffix(s, n);
        UnquoteRunsNoEscape(tail);
      }
      assert DecodeRun(head) == head by {
        NoEscapePrefix(s, n);
        DecodeRunNoEscape(head);
      }
      TakeDrop(s, n);
    } else {
      assert UnquoteRuns(s) == [s[0]] + UnquoteRuns(s[1..]);
      assert UnquoteRuns(s[1..]) == s[1..] by {
        NoEscapeSuffix(s, 1);
        UnquoteRunsNoEscape(s[1..]);
      }
      assert s == [s[0]] + s[1..];
    }
  }

  lemma UnquoteNoEscape(s: string)
    requires TextNoEscape(s)
    ensures Unquote(s) == s
  {
    UnquoteRunsNoEscape(s);
  }

  lemma UnquoteIsRuns(s: string)
    ensures Unquote(s) == UnquoteRuns(s)
  {
    if '%' !in s {
      forall i | 0 <= i < |s| ensures !TextEscapeAt(s, i) {
        assert s[i] != '%';
      }
      UnquoteRunsNoEscape(s);
    }
  }

  /** Appending a text that starts with an ASCII character that is neither
      `%` nor a hex digit does not change how what comes before decodes. */
  lemma {:induction false} UnquoteRunsAppend(s: string, t: string)
    requires t != [] ==> IsAscii(t[0]) && t[0] != '%' && !IsHex(t[0] as int)
    ensures UnquoteRuns(s + t) == UnquoteRuns(s) + UnquoteRuns(t)
    decreases |s|
  {
    if s == [] {
      assert s + t == t;
    } else if !IsAscii(s[0]) {
      UnfoldNonAscii(s, t);
      UnquoteRunsAppend(s[1..], t);
      ConcatAssoc([s[0]], UnquoteRuns(s[1..]), UnquoteRuns(t));
    } else if AsciiRunLength(s) < |s| {
      var n := AsciiRunLength(s);
      UnfoldAscii(s, t);
      UnquoteRunsAppend(s[n..], t);
      ConcatAssoc(DecodeRun(s[..n]), UnquoteRuns(s[n..]), UnquoteRuns(t));
    } else if t == [] {
      assert s + t == s;
    } else {
      LastRunAscii(s, t);
    }
  }

  /** A leading non-ASCII character passes through, whatever follows. */
  lemma UnfoldNonAscii(s: string, t: string)
    requires s != [] && !IsAscii(s[0])
    ensures UnquoteRuns(s) == [s[0]] + UnquoteRuns(s[1..])
    ensures UnquoteRuns(s + t) == [s[0]] + UnquoteRuns(s[1..] + t)
  {
    assert (s + t)[1..] == s[1..] + t;
  }

  /** A leading ASCII run that ends inside `s` decodes the same whatever
      follows `s`. */
  lemma UnfoldAscii(s: string, t: string)
    requires s != [] && IsAscii(s[0]) && AsciiRunLength(s) < |s|
    ensures UnquoteRuns(s) == DecodeRun(s[..AsciiRunLength(s)]) + UnquoteRuns(s[AsciiRunLength(s)..])
    ensures UnquoteRuns(s + t) == DecodeRun(s[..AsciiRunLength(s)]) + UnquoteRuns(s[AsciiRunLength(s)..] + t)
  {
    var n := AsciiRunLength(s);
    assert (s + t)[0] == s[0];
    assert (s + t)[n..] == s[n..] + t;
    assert (s + t)[..n] == s[..n];
    AsciiRunInside(s, t);
  }

  /** An all-ASCII `s` merges with the leading run of `t`, which starts
      with neither `%` nor a hex digit. */
  lemma LastRunAscii(s: string, t: string)
    requires s != [] && t != [] && IsAscii(t[0]) && t[0] != '%' && !IsHex(t[0] as int)
    requires IsAscii(s[0]) && AsciiRunLength(s) == |s|
    ensures UnquoteRuns(s + t) == UnquoteRuns(s) + UnquoteRuns(t)
  {
    var m := AsciiRunLength(t);
    MergedRun(s, t);
    WholeRun(s);
    LeadingRun(t);
    DecodeRunAppend(s, t[..m]);
    ConcatAssoc(DecodeRun(s), DecodeRun(t[..m]), UnquoteRuns(t[m..]));
  }

  lemma MergedRun(s: string, t: string)
    requires s != [] && t != [] && IsAscii(t[0])
    requires IsAscii(s[0]) && AsciiRunLength(s) == |s|
    ensures UnquoteRuns(s + t) == DecodeRun(s + t[..AsciiRunLength(t)]) + UnquoteRuns(t[AsciiRunLength(t)..])
  {
    var m := AsciiRunLength(t);
    assert (s + t)[0] == s[0];
    AsciiRunThrough(s, t);
    assert (s + t)[..|s| + m] == s + t[..m];
    assert (s + t)[|s| + m..] == t[m..];
  }

  lemma WholeRun(s: string)
    requires s != [] && IsAscii(s[0]) && AsciiRunLength(s) == |s|
    ensures UnquoteRuns(s) == DecodeRun(s)
  {
    assert s[..|s|] == s;
  }

  lemma LeadingRun(t: string)
    requires t != [] && IsAscii(t[0])
    ensures UnquoteRuns(t) == DecodeRun(t[..AsciiRunLength(t)]) + UnquoteRuns(t[AsciiRunLength(t)..])
  {
  }

  /** Two ASCII runs decode separately when the second starts with an
      ASCII character that is neither `%` nor a hex digit. */
  lemma DecodeRunAppend(r: string, t: string)
    requires AllAscii(r) && AllAscii(t)
    requires t != [] ==> t[0] != '%' && !IsHex(t[0] as int)
    ensures DecodeRun(r + t) == DecodeRun(r) + DecodeRun(t)
  {
    var a := AsciiBytes(r);
    var b := AsciiBytes(t);
    assert AsciiBytes(r + t) == a + b;
    PercentDecodeAppend(a, b);
    if b != [] {
      assert !EscapeAt(b, 0);
      assert PercentDecode(b)[0] == b[0];
    }
    DecodeAppend(PercentDecode(a), PercentDecode(b));
  }

  /** A run that ends inside `s` ends at the same place in `s + t`. */
  lemma {:induction false} AsciiRunInside(s: string, t: string)
    requires AsciiRunLength(s) < |s|
    ensures AsciiRunLength(s + t) == AsciiRunLength(s)
  {
    assert (s + t)[0] == s[0];
    if IsAscii(s[0]) {
      assert (s + t)[1..] == s[1..] + t;
      AsciiRunInside(s[1..], t);
    }
  }

  /** A run that covers all of `s` goes on into `t`. */
  lemma {:induction false} AsciiRunThrough(s: string, t: string)
    requires AsciiRunLength(s) == |s|
    ensures AsciiRunLength(s + t) == |s| + AsciiRunLength(t)
  {
    if s == [] {
      assert s + t == t;
    } else {
      assert (s + t)[0] == s[0];
      assert (s + t)[1..] == s[1..] + t;
      AsciiRunThrough(s[1..], t);
    }
  }

  /** The suffix the downloader appends passes through `unquote` untouched,
      and leaves what comes before it decoding as it would alone. */
  lemma UnquoteAppendSuffix(s: string, suffix: string)
    requires suffix != [] && IsAscii(suffix[0]) && suffix[0] != '%' && !IsHex(suffix[0] as int)
    requires TextNoEscape(suffix)
    ensures Unquote(s + suffix) == Unquote(s) + suffix
  {
    UnquoteIsRuns(s + suffix);
    UnquoteIsRuns(s);
    UnquoteRunsAppend(s, suffix);
    UnquoteRunsNoEscape(suffix);
  }

  // ---------------------------------------------------------------------
  // Reference encoder: UTF-8, then every byte outside the unreserved set
  // of section 2.3 of RFC 3986 as `%HH`.

  predicate IsUnreserved(b: int)
  {
    0x41 <= b <= 0x5A || 0x61 <= b <= 0x7A || 0x30 <= b <= 0x39
    || b == 0x2D || b == 0x2E || b == 0x5F || b == 0x7E
  }

  /** What the encoder writes: `%` and unreserved characters only. */
  predicate IsQuotedChar(c: char)
  {
    c == '%' || IsUnreserved(c as int)
  }

  function QuoteBytes(b: seq<Byte>): (s: string)
    ensures AllAscii(s)
    ensures |s| >= |b|
    ensures '/' !in s
    ensures forall i :: 0 <= i < |s| ==> IsQuotedChar(s[i])
  {
    if b == [] then []
    else if IsUnreserved(b[0]) then [b[0] as char] + QuoteBytes(b[1..])
    else ['%', HexDigit(b[0] / 16) as char, HexDigit(b[0] % 16) as char] + QuoteBytes(b[1..])
  }

  function Quote(s: string): (q: string)
    ensures AllAscii(q)
    ensures forall i :: 0 <= i < |q| ==> IsQuotedChar(q[i])
  {
    QuoteBytes(Encode(s))
  }

  /** Quoting keeps a text non-empty and never leaves a `/` in it. */
  lemma QuoteNonEmptyNoSlash(s: string)
    requires s != []
    ensures Quote(s) != [] && '/' !in Quote(s)
  {
    assert |Encode(s)| >= |EncodeChar(s[0])|;
  }

  lemma {:induction false} PercentDecodeQuoteBytes(b: seq<Byte>)
    ensures PercentDecode(AsciiBytes(QuoteBytes(b))) == b
  {
    if b != [] {
      QuoteStep(b);
      PercentDecodeQuoteBytes(b[1..]);
      assert b == [b[0]] + b[1..];
    }
  }

  /** The first byte of a quoted sequence decodes back to itself. */
  lemma QuoteStep(b: seq<Byte>)
    requires b != []
    ensures PercentDecode(AsciiBytes(QuoteBytes(b))) == [b[0]] + PercentDecode(AsciiBytes(QuoteBytes(b[1..])))
  {
    if IsUnreserved(b[0]) {
      QuoteStepUnreserved(b);
    } else {
      QuoteStepEscaped(b);
    }
  }

  lemma QuoteStepUnreserved(b: seq<Byte>)
    requires b != [] && IsUnreserved(b[0])
    ensures PercentDecode(AsciiBytes(QuoteBytes(b))) == [b[0]] + PercentDecode(AsciiBytes(QuoteBytes(b[1..])))
  {
    var q := QuoteBytes(b[1..]);
    var head := [b[0] as char];
    assert QuoteBytes(b) == head + q;
    AsciiBytesAppend(head, q);
    var e := AsciiBytes(head + q);
    assert e == [b[0]] + AsciiBytes(q);
    assert !EscapeAt(e, 0);
    assert e[1..] == AsciiBytes(q);
  }

  lemma QuoteStepEscaped(b: seq<Byte>)
    requires b != [] && !IsUnreserved(b[0])
    ensures PercentDecode(AsciiBytes(QuoteBytes(b))) == [b[0]] + PercentDecode(AsciiBytes(QuoteBytes(b[1..])))
  {
    var q := QuoteBytes(b[1..]);
    var hi, lo := HexDigit(b[0] / 16), HexDigit(b[0] % 16);
    var head := ['%', hi as char, lo as char];
    assert QuoteBytes(b) == head + q;
    AsciiBytesAppend(head, q);
    var e := AsciiBytes(head + q);
    assert AsciiBytes(head) == [PercentSign, hi, lo];
    assert e == [PercentSign, hi, lo] + AsciiBytes(q);
    assert EscapeAt(e, 0);
    assert e[3..] == AsciiBytes(q);
    assert EscapeValue(hi, lo) == b[0];
  }

  lemma AsciiBytesAppend(x: string, y: string)
    requires AllAscii(x) && AllAscii(y)
    ensures AllAscii(x + y)
    ensures AsciiBytes(x + y) == AsciiBytes(x) + AsciiBytes(y)
  {
    assert forall i :: 0 <= i < |x| ==> (x + y)[i] == x[i];
    assert forall i :: |x| <= i < |x + y| ==> (x + y)[i] == y[i - |x|];
  }

  /** Round trip: `unquote` undoes percent-encoding of any text. */
  lemma UnquoteQuote(s: string)
    ensures Unquote(Quote(s)) == s
  {
    var q := Quote(s);
    UnquoteIsRuns(q);
    if q != [] {
      assert AsciiRunLength(q) == |q|;
      assert q[..|q|] == q;
      assert q[|q|..] == [];
    }
    PercentDecodeQuoteBytes(Encode(s));
    DecodeEncode(s);
  }

  /** Decoding once: a text quoted twice unquotes to the text quoted once,
      not to the original. */
  lemma UnquoteOnce(s: string)
    ensures Unquote(Quote(Quote(s))) == Quote(s)
  {
    UnquoteQuote(Quote(s));
  }

  // ---------------------------------------------------------------------
  // Examples.

  /** `%25` decodes to `%` and the result is not decoded again. */
  lemma DoubleEncodedExample()
    ensures Unquote("%2541") == "%41"
  {
    assert Quote("%41") == "%2541";
    UnquoteQuote("%41");
  }

  /** `/` is encoded and `.` is not: `../../x` becomes `..%2F..%2Fx`. */
  lemma QuoteDotDotExample()
    ensures Quote("../../x") == "..%2F..%2Fx"
  {
  }

  /** A `%` not followed by two hex digits stays as it is. */
  lemma StrayPercentExample()
    ensures Unquote("100%") == "100%"
    ensures Unquote("%zz") == "%zz"
  {
    assert TextNoEscape("100%");
    UnquoteNoEscape("100%");
    assert TextNoEscape("%zz");
    UnquoteNoEscape("%zz");
  }

  /** Escaped bytes are read as UTF-8. */
  lemma Utf8Example()
    ensures Unquote("%C3%A9") == "\U{E9}"
  {
    assert Quote("\U{E9}") == "%C3%A9";
    UnquoteQuote("\U{E9}");
  }

  /** A lone lead byte becomes U+FFFD. */
  lemma TruncatedUtf8Example()
    ensures Unquote("%C3") == [Replacement]
  {
    UnquoteIsRuns("%C3");
    assert AsciiRunLength("%C3") == 3;
    assert AsciiBytes("%C3") == [0x25, 0x43, 0x33];
    var e: seq<Byte> := [0x25, 0x43, 0x33];
    assert EscapeAt(e, 0) && EscapeValue(e[1], e[2]) == 0xC3;
    assert e[3..] == [];
    assert PercentDecode(e) == [0xC3];
    assert Decode([0xC3]) == [Replacement];
  }
}
