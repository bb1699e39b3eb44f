/** Path strings as `main` sees them: Python's `str.split` with an
    explicit separator, `sep.join`, and POSIX `os.path.join` for two
    arguments. Only the POSIX separator is modelled. */
module Paths {

  type Path = string

  /** `os.sep` on POSIX systems. */
  const Sep: char := '/'

  /** `sep.join(parts)`: the parts with one separator between neighbours. */
  function JoinWith(parts: seq<string>, sep: char): string
    requires |parts| >= 1
  {
    if |parts| == 1 then parts[0] else parts[0] + [sep] + JoinWith(parts[1..], sep)
  }

  /** `s.split(sep)`: the maximal separator-free pieces of `s`, in order.
      There is always at least one piece (an empty `s` gives `[""]`). */
  function Split(s: string, sep: char): (parts: seq<string>)
    ensures |parts| >= 1
    decreases |s|
  {
    if |s| == 0 then [""]
    else
      var rest := Split(s[1..], sep);
      if s[0] == sep then [""] + rest else [[s[0]] + rest[0]] + rest[1..]
  }

  /** No piece of `s.split(sep)` contains the separator. */
  lemma {:induction false} SplitSepFree(s: string, sep: char)
    ensures forall k :: 0 <= k < |Split(s, sep)| ==> sep !in Split(s, sep)[k]
    decreases |s|
  {
    if |s| > 0 {
      SplitSepFree(s[1..], sep);
    }
  }

  /** Joining the pieces of `s.split(sep)` with `sep` gives `s` back. */
  lemma {:induction false} SplitJoin(s: string, sep: char)
    ensures JoinWith(Split(s, sep), sep) == s
    decreases |s|
  {
    if |s| > 0 {
      SplitJoin(s[1..], sep);
      var rest := Split(s[1..], sep);
      if s[0] == sep {
        assert s == [sep] + s[1..];
      } else {
        var parts := [[s[0]] + rest[0]] + rest[1..];
        assert parts[1..] == rest[1..];
        assert s == [s[0]] + s[1..];
      }
    }
  }

  /** `path[-1]` where `path = root.split(os.sep)`. */
  function LastComponent(p: Path): string
  {
    var parts := Split(p, Sep);
    parts[|parts| - 1]
  }

  /** Everything before the last component: `os.sep.join(path[:-1])`,
      or "" when there is only one component. */
  function Parent(p: Path): Path
  {
    var parts := Split(p, Sep);
    if |parts| == 1 then "" else JoinWith(parts[..|parts| - 1], Sep)
  }

  /** `name.startswith('_')`. */
  predicate StartsWithUnderscore(name: string)
  {
    |name| > 0 && name[0] == '_'
  }

  /** A directory whose last path component starts with `_`, decided as
      `main` does: `root.split(os.sep)[-1].startswith('_')`. */
  predicate IsPrivateDir(root: Path)
  {
    StartsWithUnderscore(LastComponent(root))
  }

  /** The same decision stated by position: some `_` starts the path or
      follows a separator, and no separator comes after it. */
  predicate PrivateByPosition(root: Path)
  {
    exists i | 0 <= i < |root| :: PrivateFrom(root, i)
  }

  /** The last component of `root` starts at `i`, with a `_`. */
  predicate PrivateFrom(root: Path, i: int)
  {
    0 <= i < |root| && root[i] == '_' && (i == 0 || root[i - 1] == Sep) && Sep !in root[i..]
  }

  /** `posixpath.join(a, b)`: an absolute `b` replaces `a`; otherwise a
      separator is inserted unless `a` is empty or already ends in one. */
  function Join(a: Path, b: string): Path
  {
    if |b| > 0 && b[0] == Sep then b
    else if |a| == 0 || a[|a| - 1] == Sep then a + b
    else a + [Sep] + b
  }

  /** A directory path as `os.walk` reports it for a top without a trailing separator. */
  predicate NoTrailingSep(p: Path)
  {
    |p| == 0 || p[|p| - 1] != Sep
  }

  /** A separator-free string splits into itself. */
  lemma {:induction false} SplitNoSep(s: string, sep: char)
    requires sep !in s
    ensures Split(s, sep) == [s]
    decreases |s|
  {
    if |s| > 0 {
      SplitNoSep(s[1..], sep);
      assert [s[0]] + s[1..] == s;
    }
  }

  /** Splitting distributes over a separator: the pieces of `a + sep + b`
      are the pieces of `a` followed by the pieces of `b`. */
  lemma {:induction false} SplitConcat(a: string, b: string, sep: char)
    ensures Split(a + [sep] + b, sep) == Split(a, sep) + Split(b, sep)
    decreases |a|
  {
    var s := a + [sep] + b;
    if |a| == 0 {
      assert s == [sep] + b;
      assert s[1..] == b;
    } else {
      assert s[1..] == a[1..] + [sep] + b;
      SplitConcat(a[1..], b, sep);
      SplitCons(s, sep);
      SplitCons(a, sep);
      ConsPieces(Split(a[1..], sep), Split(b, sep), a[0], sep);
    }
  }

  /** One step of `Split` on a non-empty string. */
  lemma SplitCons(s: string, sep: char)
    requires |s| > 0
    ensures var rest := Split(s[1..], sep);
      Split(s, sep) == if s[0] == sep then [""] + rest else [[s[0]] + rest[0]] + rest[1..]
  {
  }

  /** Adding a character in front of the first piece commutes with
      appending more pieces. */
  lemma ConsPieces(ra: seq<string>, rb: seq<string>, c: char, sep: char)
    requires |ra| >= 1
    ensures var rest := ra + rb;
      (if c == sep then [""] + rest else [[c] + rest[0]] + rest[1..])
      == (if c == sep then [""] + ra else [[c] + ra[0]] + ra[1..]) + rb
  {
    var rest := ra + rb;
    if c != sep {
      assert rest[0] == ra[0];
      assert rest[1..] == ra[1..] + rb;
    }
  }

  /** `s.split(sep)` is the only way to cut `s` into separator-free pieces
      that join back to `s`. */
  lemma {:induction false} SplitUnique(s: string, parts: seq<string>, sep: char)
    requires |parts| >= 1
    requires forall k :: 0 <= k < |parts| ==> sep !in parts[k]
    requires JoinWith(parts, sep) == s
    ensures parts == Split(s, sep)
    decreases |parts|
  {
    if |parts| == 1 {
      SplitNoSep(s, sep);
    } else {
      var rest := JoinWith(parts[1..], sep);
      SplitUnique(rest, parts[1..], sep);
      SplitConcat(parts[0], rest, sep);
      SplitNoSep(parts[0], sep);
      assert parts == [parts[0]] + parts[1..];
    }
  }

  /** `sep.join` of a list with one more element appends a separator and it. */
  lemma {:induction false} JoinWithSnoc(parts: seq<string>, x: string, sep: char)
    requires |parts| >= 1
    ensures JoinWith(parts + [x], sep) == JoinWith(parts, sep) + [sep] + x
    decreases |parts|
  {
    if |parts| > 1 {
      assert (parts + [x])[1..] == parts[1..] + [x];
      JoinWithSnoc(parts[1..], x, sep);
    }
  }

  /** `path[-1]` is the longest separator-free suffix of the path: the path
      ends with it, and either it is the whole path or a separator comes
      right before it. */
  lemma LastComponentIsSuffix(p: Path)
    ensures var last := LastComponent(p);
      && |last| <= |p|
      && p[|p| - |last|..] == last
      && Sep !in last
      && (|last| == |p| || p[|p| - |last| - 1] == Sep)
      && (|last| < |p| ==> p[..|p| - |last| - 1] == Parent(p))
  {
    var parts := Split(p, Sep);
    var last := parts[|parts| - 1];
    SplitJoin(p, Sep);
    SplitSepFree(p, Sep);
    if |parts| > 1 {
      var init := parts[..|parts| - 1];
      assert init + [last] == parts;
      JoinWithSnoc(init, last, Sep);
      assert p == JoinWith(init, Sep) + [Sep] + last;
    }
  }

  /** The last component of a joined path is the name that was joined. */
  lemma JoinLast(root: Path, name: string)
    requires Sep !in name
    ensures LastComponent(Join(root, name)) == name
    ensures NoTrailingSep(root) ==> Parent(Join(root, name)) == root
  {
    SplitNoSep(name, Sep);
    if |root| == 0 {
      assert Join(root, name) == name;
    } else if root[|root| - 1] == Sep {
      var r' := root[..|root| - 1];
      assert root == r' + [Sep];
      assert Join(root, name) == r' + [Sep] + name;
      SplitConcat(r', name, Sep);
    } else {
      SplitConcat(root, name, Sep);
      SplitJoin(root, Sep);
      var parts := Split(Join(root, name), Sep);
      assert parts[..|parts| - 1] == Split(root, Sep);
    }
  }

  /** Joining a directory without a trailing separator with a plain name is
      injective: different (directory, name) pairs give different paths. */
  lemma JoinInjective(r1: Path, n1: string, r2: Path, n2: string)
    requires NoTrailingSep(r1) && NoTrailingSep(r2)
    requires Sep !in n1 && Sep !in n2
    requires Join(r1, n1) == Join(r2, n2)
    ensures r1 == r2 && n1 == n2
  {
    JoinLast(r1, n1);
    JoinLast(r2, n2);
  }

  /** A directory `_x` is private, but a sub-directory of it whose own name
      does not start with `_` is not: only the directory's own files are
      excluded, never its subtree. */
  lemma PrivateDirDoesNotCoverSubdirs(root: Path, dir: string, sub: string)
    requires Sep !in dir && Sep !in sub
    requires StartsWithUnderscore(dir) && !StartsWithUnderscore(sub)
    ensures IsPrivateDir(Join(root, dir))
    ensures !IsPrivateDir(Join(Join(root, dir), sub))
  {
    JoinLast(root, dir);
    JoinLast(Join(root, dir), sub);
  }

  /** Deciding privacy by splitting the path and by position agree. */
  lemma PrivateDirIff(root: Path)
    ensures IsPrivateDir(root) <==> PrivateByPosition(root)
  {
    if IsPrivateDir(root) {
      PrivateDirHasPosition(root);
    }
    if PrivateByPosition(root) {
      var i :| 0 <= i < |root| && PrivateFrom(root, i);
      PositionIsPrivateDir(root, i);
    }
  }

  /** The characters from the start of the last component on are not separators. */
  lemma LastComponentTail(root: Path)
    ensures var start := |root| - |LastComponent(root)|;
      && 0 <= start <= |root|
      && root[start..] == LastComponent(root)
      && (start == 0 || root[start - 1] == Sep)
      && forall k :: start <= k < |root| ==> root[k] != Sep
  {
    LastComponentIsSuffix(root);
    var last := LastComponent(root);
    var start := |root| - |last|;
    forall k | start <= k < |root| ensures root[k] != Sep {
      assert root[start..][k - start] == root[k];
    }
  }

  /** A private directory's last component starts at a `_`. */
  lemma PrivateDirHasPosition(root: Path)
    requires IsPrivateDir(root)
    ensures PrivateByPosition(root)
  {
    LastComponentTail(root);
    var start := |root| - |LastComponent(root)|;
    assert root[start] == LastComponent(root)[0];
    assert PrivateFrom(root, start);
  }

  /** A `_` that begins the last component makes the directory private. */
  lemma PositionIsPrivateDir(root: Path, i: int)
    requires PrivateFrom(root, i)
    ensures IsPrivateDir(root)
  {
    LastComponentTail(root);
    var last := LastComponent(root);
    var start := |root| - |last|;
    forall k | i <= k < |root| ensures root[k] != Sep {
      assert root[i..][k - i] == root[k];
    }
    assert i == start;
    assert last[0] == root[i];
  }
}
