/** `os.path.join` on a POSIX system (`posixpath.join`): each component
    that starts with `/` restarts the path; any other component is added
    after a `/`, unless the path so far is empty or already ends with one. */
module PosixPath {
  import opened PyStr

  /** `os.path.isabs(s)`: the text starts with `/`. */
  predicate IsAbsolute(s: string)
  {
    s != [] && s[0] == '/'
  }

  /** One component added to the path built so far. */
  function JoinStep(path: string, b: string): (r: string)
    ensures IsAbsolute(b) ==> r == b
    ensures !IsAbsolute(b) ==> r == path + b || r == path + ['/'] + b
  {
    if IsAbsolute(b) then b
    else if path == [] || path[|path| - 1] == '/' then path + b
    else path + ['/'] + b
  }

  /** `os.path.join(a, *parts)`. */
  function PathJoin(a: string, parts: seq<string>): string
    decreases |parts|
  {
    if parts == [] then a else PathJoin(JoinStep(a, parts[0]), parts[1..])
  }

  /** The text the non-empty components of `parts` add, each after a `/`. */
  function Spelled(parts: seq<string>): string
    decreases |parts|
  {
    if parts == [] then []
    else
      var last := parts[|parts| - 1];
      Spelled(parts[..|parts| - 1]) + (if last == [] then [] else ['/'] + last)
  }

  /** Whether `os.path.join` leaves a trailing `/`: it does exactly when
      the last component is empty. */
  function TrailingSlash(parts: seq<string>): string
  {
    if parts != [] && parts[|parts| - 1] == [] then ['/'] else []
  }

  predicate Relative(parts: seq<string>)
  {
    forall i :: 0 <= i < |parts| ==> '/' !in parts[i]
  }

  /** The components are taken from left to right: the last one is one
      more step on the join of the others. */
  lemma {:induction false} PathJoinSnoc(a: string, parts: seq<string>, b: string)
    ensures PathJoin(a, parts + [b]) == JoinStep(PathJoin(a, parts), b)
    decreases |parts|
  {
    if parts == [] {
      assert ([] + [b])[1..] == [];
    } else {
      assert (parts + [b])[0] == parts[0];
      assert (parts + [b])[1..] == parts[1..] + [b];
      PathJoinSnoc(JoinStep(a, parts[0]), parts[1..], b);
    }
  }

  /** Components without a `/` below a base that does not end with one:
      the path is the base, then `/` and each non-empty component (empty
      ones add nothing), then a `/` when the last component is empty. */
  lemma {:induction false} PathJoinRelative(a: string, parts: seq<string>)
    requires a != [] && a[|a| - 1] != '/'
    requires Relative(parts)
    ensures PathJoin(a, parts) == a + Spelled(parts) + TrailingSlash(parts)
    decreases |parts|
  {
    if parts != [] {
      var init, b := parts[..|parts| - 1], parts[|parts| - 1];
      assert parts == init + [b];
      RelativeInit(parts);
      PathJoinRelative(a, init);
      PathJoinSnoc(a, init, b);
      SpelledEnd(a, init);
      assert '/' !in b by {
        assert '/' !in parts[|parts| - 1];
      }
      assert !IsAbsolute(b) by {
        if b != [] { assert b[0] in b; }
      }
      StepAfterSpelled(a + Spelled(init), PathJoin(a, init), b);
      SpelledSnoc(a, parts);
    }
  }

  lemma RelativeInit(parts: seq<string>)
    requires parts != [] && Relative(parts)
    ensures Relative(parts[..|parts| - 1])
  {
    var init := parts[..|parts| - 1];
    forall i | 0 <= i < |init| ensures '/' !in init[i] {
      assert init[i] == parts[i];
    }
  }

  /** One more component, not starting with `/`, after a path that is
      `s` or `s` with a `/`: it comes after exactly one `/`. */
  lemma StepAfterSpelled(s: string, p: string, b: string)
    requires s != [] && s[|s| - 1] != '/'
    requires p == s || p == s + ['/']
    requires !IsAbsolute(b)
    ensures b == [] ==> JoinStep(p, b) == s + ['/']
    ensures b != [] ==> JoinStep(p, b) == s + (['/'] + b)
  {
    if b != [] {
      ConcatAssoc(s, ['/'], b);
      if p == s + ['/'] {
        assert p[|p| - 1] == '/';
      }
    }
  }

  /** The spelled text and the trailing `/` of `parts`, from those of all
      but its last component. */
  lemma SpelledSnoc(a: string, parts: seq<string>)
    requires parts != []
    ensures var init, b := parts[..|parts| - 1], parts[|parts| - 1];
      && (b == [] ==> a + Spelled(parts) + TrailingSlash(parts) == a + Spelled(init) + ['/'])
      && (b != [] ==> a + Spelled(parts) + TrailingSlash(parts) == a + Spelled(init) + (['/'] + b))
  {
    var init, b := parts[..|parts| - 1], parts[|parts| - 1];
    if b != [] {
      ConcatAssoc(a, Spelled(init), ['/'] + b);
    }
  }

  /** The base followed by the spelled components never ends with `/`. */
  lemma {:induction false} SpelledEnd(a: string, parts: seq<string>)
    requires a != [] && a[|a| - 1] != '/'
    requires Relative(parts)
    ensures var s := a + Spelled(parts); s != [] && s[|s| - 1] != '/'
    decreases |parts|
  {
    if parts != [] {
      var init, b := parts[..|parts| - 1], parts[|parts| - 1];
      RelativeInit(parts);
      SpelledEnd(a, init);
      assert '/' !in b by {
        assert '/' !in parts[|parts| - 1];
      }
      if b != [] {
        ConcatAssoc(a, Spelled(init), ['/'] + b);
        var s := a + Spelled(parts);
        assert s[|s| - 1] == b[|b| - 1];
      } else {
        assert a + Spelled(parts) == a + Spelled(init);
      }
    }
  }

  /** A last component starting with `/` discards everything before it. */
  lemma PathJoinAbsoluteLast(a: string, parts: seq<string>, b: string)
    requires IsAbsolute(b)
    ensures PathJoin(a, parts + [b]) == b
  {
    PathJoinSnoc(a, parts, b);
  }

  /** The spelled components start with their `/`. */
  lemma {:induction false} SpelledStart(parts: seq<string>)
    ensures Spelled(parts) == [] || Spelled(parts)[0] == '/'
    decreases |parts|
  {
    if parts != [] {
      SpelledStart(parts[..|parts| - 1]);
    }
  }
}
