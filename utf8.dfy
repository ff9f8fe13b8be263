/** UTF-8 as Python's `bytes.decode('utf-8', 'replace')` reads it: every
    well-formed sequence (Unicode Standard, table 3-7) becomes its scalar
    value, and every maximal ill-formed subpart becomes one U+FFFD. The
    encoder is the partner of the decoder. */
module Utf8 {

  type Byte = b: int | 0 <= b < 256

  const Replacement: char := '\U{FFFD}'

  /** Byte `i` of `s` exists and lies in `lo..hi`. */
  predicate InRange(s: seq<Byte>, i: nat, lo: int, hi: int)
  {
    i < |s| && lo <= s[i] <= hi
  }

  /** The range allowed for the second byte after a three- or four-byte lead. */
  function SecondLo(lead: Byte): int
  {
    if lead == 0xE0 then 0xA0 else if lead == 0xF0 then 0x90 else 0x80
  }

  function SecondHi(lead: Byte): int
  {
    if lead == 0xED then 0x9F else if lead == 0xF4 then 0x8F else 0xBF
  }

  /** One decoding step at the front of `s`: the number of bytes consumed
      and the character produced. */
  function Step(s: seq<Byte>): (r: (nat, char))
    requires |s| > 0
    ensures 1 <= r.0 <= |s|
    ensures s[0] < 0x80 ==> r == (1, s[0] as char)
    ensures r.0 > 1 ==> forall i :: 1 <= i < r.0 ==> 0x80 <= s[i] <= 0xBF
  {
    var b0 := s[0];
    if b0 < 0x80 then
      (1, b0 as char)
    else if 0xC2 <= b0 <= 0xDF then
      if InRange(s, 1, 0x80, 0xBF) then (2, ((b0 as int - 0xC0) * 0x40 + (s[1] as int - 0x80)) as char)
      else (1, Replacement)
    else if 0xE0 <= b0 <= 0xEF then
      if !InRange(s, 1, SecondLo(b0), SecondHi(b0)) then (1, Replacement)
      else if !InRange(s, 2, 0x80, 0xBF) then (2, Replacement)
      else (3, ((b0 as int - 0xE0) * 0x1000 + (s[1] as int - 0x80) * 0x40 + (s[2] as int - 0x80)) as char)
    else if 0xF0 <= b0 <= 0xF4 then
      if !InRange(s, 1, SecondLo(b0), SecondHi(b0)) then (1, Replacement)
      else if !InRange(s, 2, 0x80, 0xBF) then (2, Replacement)
      else if !InRange(s, 3, 0x80, 0xBF) then (3, Replacement)
      else (4, ((b0 as int - 0xF0) * 0x40000 + (s[1] as int - 0x80) * 0x1000 + (s[2] as int - 0x80) * 0x40 + (s[3] as int - 0x80)) as char)
    else
      (1, Replacement)
  }

  /** `bytes.decode('utf-8', 'replace')`. */
  function Decode(s: seq<Byte>): (r: string)
    ensures |r| <= |s|
    decreases |s|
  {
    if s == [] then []
    else
      var (n, c) := Step(s);
      [c] + Decode(s[n..])
  }

  /** `c.encode('utf-8')`. */
  function EncodeChar(c: char): (b: seq<Byte>)
    ensures 1 <= |b| <= 4
    ensures (|b| == 1) == (c as int < 0x80)
  {
    var cp := c as int;
    var t := cp / 0x40;
    var u := t / 0x40;
    if cp < 0x80 then [cp]
    else if cp < 0x800 then [0xC0 + t, 0x80 + cp % 0x40]
    else if cp < 0x10000 then [0xE0 + u, 0x80 + t % 0x40, 0x80 + cp % 0x40]
    else [0xF0 + u / 0x40, 0x80 + u % 0x40, 0x80 + t % 0x40, 0x80 + cp % 0x40]
  }

  /** `s.encode('utf-8')`. */
  function Encode(s: string): seq<Byte>
  {
    if s == [] then [] else EncodeChar(s[0]) + Encode(s[1..])
  }

  /** The decoder reads the encoding of one character back as that character. */
  lemma StepEncodeChar(c: char, rest: seq<Byte>)
    ensures Step(EncodeChar(c) + rest) == (|EncodeChar(c)|, c)
  {
    var cp := c as int;
    if cp < 0x80 {
    } else if cp < 0x800 {
      StepEncodeTwo(c, rest);
    } else if cp < 0x10000 {
      StepEncodeThree(c, rest);
    } else {
      StepEncodeFour(c, rest);
    }
  }

  lemma StepEncodeTwo(c: char, rest: seq<Byte>)
    requires 0x80 <= c as int < 0x800
    ensures Step(EncodeChar(c) + rest) == (2, c)
  {
    var cp := c as int;
    var s := EncodeChar(c) + rest;
    assert cp == (cp / 0x40) * 0x40 + cp % 0x40;
    assert (s[0] as int - 0xC0) * 0x40 + (s[1] as int - 0x80) == cp;
  }

  lemma StepEncodeThree(c: char, rest: seq<Byte>)
    requires 0x800 <= c as int < 0x10000
    ensures Step(EncodeChar(c) + rest) == (3, c)
  {
    var cp := c as int;
    var t := cp / 0x40;
    var s := EncodeChar(c) + rest;
    assert cp == t * 0x40 + cp % 0x40;
    assert t == (t / 0x40) * 0x40 + t % 0x40;
    assert (s[0] as int - 0xE0) * 0x1000 + (s[1] as int - 0x80) * 0x40 + (s[2] as int - 0x80) == cp;
  }

  lemma StepEncodeFour(c: char, rest: seq<Byte>)
    requires 0x10000 <= c as int
    ensures Step(EncodeChar(c) + rest) == (4, c)
  {
    var cp := c as int;
    var t := cp / 0x40;
    var u := t / 0x40;
    var s := EncodeChar(c) + rest;
    assert cp == t * 0x40 + cp % 0x40;
    assert t == u * 0x40 + t % 0x40;
    assert u == (u / 0x40) * 0x40 + u % 0x40;
    assert (s[0] as int - 0xF0) * 0x40000 + (s[1] as int - 0x80) * 0x1000 + (s[2] as int - 0x80) * 0x40 + (s[3] as int - 0x80) == cp;
  }

  /** Round trip: decoding undoes encoding, for every string. */
  lemma {:induction false} DecodeEncode(s: string)
    ensures Decode(Encode(s)) == s
  {
    if s != [] {
      var e := EncodeChar(s[0]);
      StepEncodeChar(s[0], Encode(s[1..]));
      assert (e + Encode(s[1..]))[|e|..] == Encode(s[1..]);
      DecodeEncode(s[1..]);
      assert s == [s[0]] + s[1..];
    }
  }

  /** An ASCII byte is never a continuation byte, so an ill-formed tail
      before it is cut exactly where the end of input would cut it. */
  lemma StepBeforeAscii(a: seq<Byte>, b: seq<Byte>)
    requires |a| > 0
    requires b == [] || b[0] < 0x80
    ensures Step(a + b) == Step(a)
  {
    var s := a + b;
    forall i: nat, lo: int, hi: int | 1 <= i <= |a| && 0x80 <= lo
      ensures InRange(s, i, lo, hi) == InRange(a, i, lo, hi)
    {
      if i < |a| { assert s[i] == a[i]; }
    }
    assert s[0] == a[0];
    if 2 <= |a| { assert s[1] == a[1]; }
    if 3 <= |a| { assert s[2] == a[2]; }
    if 4 <= |a| { assert s[3] == a[3]; }
  }

  /** Decoding splits at every boundary followed by an ASCII byte. */
  lemma {:induction false} DecodeAppend(a: seq<Byte>, b: seq<Byte>)
    requires b == [] || b[0] < 0x80
    ensures Decode(a + b) == Decode(a) + Decode(b)
    decreases |a|
  {
    if a == [] {
      assert a + b == b;
    } else {
      StepBeforeAscii(a, b);
      var n := Step(a).0;
      assert (a + b)[n..] == a[n..] + b;
      DecodeAppend(a[n..], b);
    }
  }

  /** ASCII bytes decode to the characters with the same codes. */
  lemma {:induction false} DecodeAscii(b: seq<Byte>)
    requires forall i :: 0 <= i < |b| ==> b[i] < 0x80
    ensures |Decode(b)| == |b|
    ensures forall i :: 0 <= i < |b| ==> Decode(b)[i] as int == b[i]
  {
    if b != [] {
      DecodeAscii(b[1..]);
    }
  }
}
