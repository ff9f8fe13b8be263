/** The handful of Python `str` methods the downloader relies on, over
    sequences: `find`, `rfind`, `find(c, start)`, `rstrip(c)`,
    `split(sep)`, `split(sep, 1)` and `sep.join`. */
module PyStr {

  /** `s.find(c)`: the index of the first `c` in `s`, or -1. */
  function Find<T(==)>(s: seq<T>, c: T): (i: int)
    ensures -1 <= i < |s|
    ensures i == -1 <==> c !in s
    ensures 0 <= i ==> s[i] == c
    ensures forall k :: 0 <= k < i ==> s[k] != c
  {
    if s == [] then -1
    else if s[0] == c then 0
    else
      var j := Find(s[1..], c);
      if j == -1 then -1 else j + 1
  }

  /** `s.rfind(c)`: the index of the last `c` in `s`, or -1. */
  function RFind<T(==)>(s: seq<T>, c: T): (i: int)
    ensures -1 <= i < |s|
    ensures i == -1 <==> c !in s
    ensures 0 <= i ==> s[i] == c
    ensures forall k :: i < k < |s| ==> s[k] != c
  {
    if s == [] then -1
    else if s[|s| - 1] == c then |s| - 1
    else
      var j := RFind(s[..|s| - 1], c);
      assert s == s[..|s| - 1] + [s[|s| - 1]];
      j
  }

  /** `s.find(c, start)`: the index of the first `c` at or after `start`, or -1. */
  function FindFrom<T(==)>(s: seq<T>, c: T, start: nat): (i: int)
    requires start <= |s|
    ensures i == -1 || start <= i < |s|
    ensures i == -1 <==> forall k :: start <= k < |s| ==> s[k] != c
    ensures 0 <= i ==> s[i] == c
    ensures forall k :: start <= k < i ==> s[k] != c
  {
    var j := Find(s[start..], c);
    if j == -1 then
      assert forall k :: start <= k < |s| ==> s[k] == s[start..][k - start];
      -1
    else
      start + j
  }

  /** `s.rstrip(c)` for a single character `c`. */
  function RStrip<T(==)>(s: seq<T>, c: T): (r: seq<T>)
    ensures r <= s
    ensures r == [] || r[|r| - 1] != c
    ensures forall i :: |r| <= i < |s| ==> s[i] == c
  {
    if s != [] && s[|s| - 1] == c then RStrip(s[..|s| - 1], c) else s
  }

  /** `k` copies of `c`. */
  function Repeat<T>(c: T, k: nat): (r: seq<T>)
    ensures |r| == k
    ensures forall i :: 0 <= i < k ==> r[i] == c
  {
    if k == 0 then [] else Repeat(c, k - 1) + [c]
  }

  /** `sep.join(parts)`. */
  function Join<T>(parts: seq<seq<T>>, sep: T): seq<T>
  {
    if |parts| == 0 then []
    else if |parts| == 1 then parts[0]
    else parts[0] + [sep] + Join(parts[1..], sep)
  }

  /** `s.split(sep)`: the maximal pieces of `s` between occurrences of `sep`.
      There is always at least one piece, no piece holds `sep`, and joining
      the pieces with `sep` gives back `s`. */
  function Split<T(==)>(s: seq<T>, sep: T): (parts: seq<seq<T>>)
    ensures |parts| >= 1
    ensures forall i :: 0 <= i < |parts| ==> sep !in parts[i]
    ensures Join(parts, sep) == s
  {
    if s == [] then [[]]
    else
      var rest := Split(s[1..], sep);
      if s[0] == sep then
        [[]] + rest
      else
        assert Join([[s[0]] + rest[0]] + rest[1..], sep) == [s[0]] + Join(rest, sep);
        [[s[0]] + rest[0]] + rest[1..]
  }

  /** `s[-1]`. */
  function Last<T>(s: seq<T>): T
    requires |s| >= 1
  {
    s[|s| - 1]
  }

  /** `s[:-1]`. */
  function AllButLast<T>(s: seq<T>): seq<T>
    requires |s| >= 1
  {
    s[..|s| - 1]
  }

  lemma TakeDrop<T>(s: seq<T>, n: nat)
    requires n <= |s|
    ensures s[..n] + s[n..] == s
  {
  }

  lemma SliceExcludes<T>(s: seq<T>, i: nat, j: nat, c: T)
    requires i <= j <= |s|
    requires c !in s
    ensures c !in s[i..j]
  {
    assert forall k :: 0 <= k < j - i ==> s[i..j][k] == s[i + k];
  }

  lemma Around<T>(s: seq<T>, i: nat)
    requires i < |s|
    ensures s == s[..i] + [s[i]] + s[i + 1..]
  {
  }

  lemma PrefixExcludes<T>(r: seq<T>, s: seq<T>, c: T)
    requires r <= s && c !in s
    ensures c !in r
  {
    assert forall k :: 0 <= k < |r| ==> r[k] == s[k];
  }

  lemma ConcatAssoc<T>(a: seq<T>, b: seq<T>, c: seq<T>)
    ensures (a + b) + c == a + (b + c)
  {
  }

  lemma {:induction false} JoinCons<T>(x: seq<T>, parts: seq<seq<T>>, sep: T)
    requires |parts| >= 1
    ensures Join([x] + parts, sep) == x + [sep] + Join(parts, sep)
  {
    assert ([x] + parts)[1..] == parts;
  }

  /** Joining a list with one more piece at the end. */
  lemma JoinSnoc<T>(init: seq<seq<T>>, last: seq<T>, sep: T)
    ensures Join(init + [last], sep) == if init == [] then last else Join(init, sep) + [sep] + last
    decreases |init|
  {
    if |init| == 1 {
      assert init + [last] == [init[0]] + [last];
      JoinCons(init[0], [last], sep);
    } else if |init| > 1 {
      assert init + [last] == [init[0]] + (init[1..] + [last]);
      JoinCons(init[0], init[1..] + [last], sep);
      JoinSnoc(init[1..], last, sep);
      JoinCons(init[0], init[1..], sep);
    }
  }

  lemma {:induction false} SplitPrefix<T>(x: seq<T>, y: seq<T>, sep: T)
    requires sep !in x
    ensures Split(x + [sep] + y, sep) == [x] + Split(y, sep)
  {
    if x == [] {
      assert (x + [sep] + y)[1..] == y;
    } else {
      assert (x + [sep] + y)[1..] == x[1..] + [sep] + y;
      SplitPrefix(x[1..], y, sep);
      assert x == [x[0]] + x[1..];
    }
  }

  lemma {:induction false} SplitOfPieceFree<T>(x: seq<T>, sep: T)
    requires sep !in x
    ensures Split(x, sep) == [x]
  {
    if x != [] {
      SplitOfPieceFree(x[1..], sep);
      assert x == [x[0]] + x[1..];
    }
  }

  /** A piece free of `sep` after the last `sep` is the last piece. */
  lemma {:induction false} SplitLast<T>(a: seq<T>, x: seq<T>, sep: T)
    requires sep !in x
    ensures Split(a + [sep] + x, sep) == Split(a, sep) + [x]
  {
    if a == [] {
      assert a + [sep] + x == [sep] + x;
      assert ([sep] + x)[1..] == x;
      SplitOfPieceFree(x, sep);
    } else {
      assert (a + [sep] + x)[1..] == a[1..] + [sep] + x;
      assert (a + [sep] + x)[0] == a[0];
      SplitLast(a[1..], x, sep);
    }
  }

  /** `split` undoes `join`: the other half of the contract of `Split`. */
  lemma {:induction false} SplitJoin<T>(parts: seq<seq<T>>, sep: T)
    requires |parts| >= 1
    requires forall i :: 0 <= i < |parts| ==> sep !in parts[i]
    ensures Split(Join(parts, sep), sep) == parts
  {
    if |parts| == 1 {
      SplitOfPieceFree(parts[0], sep);
    } else {
      SplitJoin(parts[1..], sep);
      SplitPrefix(parts[0], Join(parts[1..], sep), sep);
      assert parts == [parts[0]] + parts[1..];
    }
  }

  /** The first `c` of `a + [c] + b` is the one after `a` when `a` has none. */
  lemma FindAfter<T>(a: seq<T>, c: T, b: seq<T>)
    requires c !in a
    ensures Find(a + [c] + b, c) == |a|
  {
    assert (a + [c] + b)[|a|] == c;
  }

  /** A tail without `c` leaves the last `c` where it was. */
  lemma RFindAppendAbsent<T>(a: seq<T>, b: seq<T>, c: T)
    requires c !in b
    ensures RFind(a + b, c) == RFind(a, c)
  {
    assert forall k :: 0 <= k < |a| ==> (a + b)[k] == a[k];
    assert forall k :: |a| <= k < |a + b| ==> (a + b)[k] == b[k - |a|];
  }

  /** `split` undoes `join` for pieces followed by a last one. */
  lemma SplitJoinSnoc<T>(init: seq<seq<T>>, last: seq<T>, sep: T)
    requires sep !in last
    requires forall i :: 0 <= i < |init| ==> sep !in init[i]
    ensures Split(Join(init + [last], sep), sep) == init + [last]
  {
    var parts := init + [last];
    forall i | 0 <= i < |parts| ensures sep !in parts[i] {
      if i < |init| { assert parts[i] == init[i]; }
    }
    SplitJoin(parts, sep);
  }

  /** A `c` with none before it is the one `find` finds. */
  lemma FindAt<T>(s: seq<T>, c: T, i: nat)
    requires i < |s| && s[i] == c
    requires forall k :: 0 <= k < i ==> s[k] != c
    ensures Find(s, c) == i
  {
  }

  lemma FindFromAt<T>(s: seq<T>, c: T, start: nat, i: nat)
    requires start <= i < |s| && s[i] == c
    requires forall k :: start <= k < i ==> s[k] != c
    ensures FindFrom(s, c, start) == i
  {
  }

  /** `s.split(c, 1)` when `c` is in `s`, and `(s, "")` otherwise: the form
      `urlsplit` uses for the fragment and the query. */
  function CutAt<T(==)>(s: seq<T>, c: T): (r: (seq<T>, seq<T>))
    ensures c !in r.0
    ensures c in s ==> s == r.0 + [c] + r.1
    ensures c !in s ==> r.0 == s && r.1 == []
  {
    var i := Find(s, c);
    if i == -1 then (s, [])
    else
      assert s == s[..i] + [c] + s[i + 1..];
      (s[..i], s[i + 1..])
  }

  lemma CutAtAfter<T>(a: seq<T>, c: T, b: seq<T>)
    requires c !in a
    ensures CutAt(a + [c] + b, c) == (a, b)
  {
    var s := a + [c] + b;
    FindAfter(a, c, b);
    assert s[..|a|] == a;
    assert s[|a| + 1..] == b;
  }
}
