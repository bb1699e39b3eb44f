/** `main`: walk the tree, hash the files of every directory that is not
    private, and fold the results into `files_dict` and `duplicate_files`.
    The file system is a map from path to content; a scanned path that is
    not in it stands for `open` raising, which `main` does not catch. */
module DupFinder {
  import opened Paths
  import opened Hasher
  import opened Walk
  import opened Dedup

  /** How a run of `main` ends: with both dictionaries, or aborted by the
      first file that could not be opened. */
  datatype Outcome = Done(dicts: Dicts) | OpenFailed(path: Path)

  /** Every path can be opened. */
  predicate AllReadable(paths: seq<Path>, fs: map<Path, seq<byte>>)
  {
    forall k :: 0 <= k < |paths| ==> paths[k] in fs
  }

  /** `paths[k]` is the first path that cannot be opened. */
  predicate FirstUnreadable(paths: seq<Path>, fs: map<Path, seq<byte>>, k: int)
  {
    0 <= k < |paths| && paths[k] !in fs && AllReadable(paths[..k], fs)
  }

  /** Each path paired with the digest of its content. */
  function Hashed(paths: seq<Path>, fs: map<Path, seq<byte>>, digest: seq<byte> -> Hash): (items: seq<Scanned>)
    requires AllReadable(paths, fs)
    ensures |items| == |paths|
    decreases |paths|
  {
    if |paths| == 0 then []
    else
      var n := |paths| - 1;
      Hashed(paths[..n], fs, digest) + [Scanned(paths[n], digest(fs[paths[n]]))]
  }

  /** Position `k` of `Hashed` is path `k` with the digest of its content. */
  lemma {:induction false} HashedIndex(paths: seq<Path>, fs: map<Path, seq<byte>>, digest: seq<byte> -> Hash, k: nat)
    requires AllReadable(paths, fs) && k < |paths|
    ensures Hashed(paths, fs, digest)[k] == Scanned(paths[k], digest(fs[paths[k]]))
    decreases |paths|
  {
    var n := |paths| - 1;
    if k < n {
      HashedIndex(paths[..n], fs, digest, k);
    }
  }

  lemma HashedSnoc(paths: seq<Path>, p: Path, fs: map<Path, seq<byte>>, digest: seq<byte> -> Hash)
    requires AllReadable(paths, fs) && p in fs
    ensures AllReadable(paths + [p], fs)
    ensures Fold(Hashed(paths + [p], fs, digest))
      == Step(Fold(Hashed(paths, fs, digest)), Scanned(p, digest(fs[p])))
  {
    var s := paths + [p];
    assert s[..|paths|] == paths;
    var items := Hashed(s, fs, digest);
    assert items[..|items| - 1] == Hashed(paths, fs, digest);
  }

  /** One iteration of the inner loop extends both the readable prefix and
      the fold by the next path. */
  lemma HashedStep(prev: seq<Path>, paths: seq<Path>, j: nat, fs: map<Path, seq<byte>>,
                   digest: seq<byte> -> Hash)
    requires j < |paths| && paths[j] in fs
    requires AllReadable(paths[..j], fs) && AllReadable(prev + paths[..j], fs)
    ensures AllReadable(paths[..j + 1], fs) && AllReadable(prev + paths[..j + 1], fs)
    ensures Fold(Hashed(prev + paths[..j + 1], fs, digest))
      == Step(Fold(Hashed(prev + paths[..j], fs, digest)), Scanned(paths[j], digest(fs[paths[j]])))
  {
    assert paths[..j + 1] == paths[..j] + [paths[j]];
    assert (prev + paths[..j]) + [paths[j]] == prev + paths[..j + 1];
    HashedSnoc(prev + paths[..j], paths[j], fs, digest);
  }

  /** A first unreadable path of a part of a longer list, all of whose
      earlier paths are readable, is the first unreadable path of the whole. */
  lemma FirstUnreadableShift(before: seq<Path>, paths: seq<Path>, after: seq<Path>,
                             fs: map<Path, seq<byte>>, k: int)
    requires AllReadable(before, fs)
    requires FirstUnreadable(paths, fs, k)
    ensures FirstUnreadable(before + paths + after, fs, |before| + k)
    ensures (before + paths + after)[|before| + k] == paths[k]
  {
    var s := before + paths + after;
    assert s[|before| + k] == paths[k];
    assert s[..|before| + k] == before + paths[..k];
  }

  /** Every group holds exactly the given paths whose content has the
      group's digest. */
  ghost predicate GroupsByContent(ds: Dicts, paths: seq<Path>, fs: map<Path, seq<byte>>,
                            digest: seq<byte> -> Hash)
  {
    forall h, p :: h in ds.groups ==>
      (p in ds.groups[h] <==> p in paths && p in fs && digest(fs[p]) == h)
  }

  /** A digest's group holds exactly the scanned readable paths whose
      content has that digest. */
  lemma GroupMembership(ds: Dicts, paths: seq<Path>, fs: map<Path, seq<byte>>,
                        digest: seq<byte> -> Hash)
    requires AllReadable(paths, fs)
    requires Represents(ds, Hashed(paths, fs, digest))
    ensures GroupsByContent(ds, paths, fs, digest)
  {
    var items := Hashed(paths, fs, digest);
    forall h, p | h in ds.groups
      ensures p in ds.groups[h] <==> p in paths && p in fs && digest(fs[p]) == h
    {
      assert ds.groups[h] == PathsWith(items, h);
      if p in ds.groups[h] {
        var i :| 0 <= i < |items| && items[i].hash == h && items[i].path == p;
        HashedIndex(paths, fs, digest, i);
      }
      if p in paths && digest(fs[p]) == h {
        var k :| 0 <= k < |paths| && paths[k] == p;
        HashedIndex(paths, fs, digest, k);
        assert items[k].path == p && items[k].hash == h;
      }
    }
  }

  /** The inner loop of `main` over the files of one directory: each path is
      hashed and folded into the dictionaries `ds`, which so far hold the
      fold of `prev`. It stops at the first path that cannot be opened. */
  method HashEntry(paths: seq<Path>, fs: map<Path, seq<byte>>, digest: seq<byte> -> Hash,
                   ds: Dicts, ghost prev: seq<Path>)
    returns (out: Outcome)
    requires AllReadable(prev, fs)
    requires ds == Fold(Hashed(prev, fs, digest))
    ensures out.Done? <==> AllReadable(paths, fs)
    ensures out.Done? ==>
      (AllReadable(prev + paths, fs) && out.dicts == Fold(Hashed(prev + paths, fs, digest)))
    ensures out.OpenFailed? ==> exists k :: FirstUnreadable(paths, fs, k) && paths[k] == out.path
  {
    var acc := ds;
    var j := 0;
    assert prev + paths[..0] == prev;
    while j < |paths|
      invariant 0 <= j <= |paths|
      invariant AllReadable(paths[..j], fs)
      invariant AllReadable(prev + paths[..j], fs)
      invariant acc == Fold(Hashed(prev + paths[..j], fs, digest))
    {
      var filePath := paths[j];
      if filePath !in fs {
        assert FirstUnreadable(paths, fs, j);
        return OpenFailed(filePath);
      }
      var fHash;
      ghost var chunks;
      fHash, chunks := HashFile(fs[filePath], digest);
      HashedStep(prev, paths, j, fs, digest);
      acc := Step(acc, Scanned(filePath, fHash));
      j := j + 1;
    }
    assert paths[..j] == paths;
    out := Done(acc);
  }

  /** One iteration of the outer loop of `main`, for the entry `e`: a
      directory whose last path component starts with `_` is passed over,
      the files of any other are hashed in order. `ds` holds the fold of
      the files `prev` scanned so far. */
  method ScanEntry(e: WalkEntry, fs: map<Path, seq<byte>>, digest: seq<byte> -> Hash,
                   ds: Dicts, ghost prev: seq<Path>)
    returns (out: Outcome)
    requires AllReadable(prev, fs)
    requires ds == Fold(Hashed(prev, fs, digest))
    ensures out.Done? <==> AllReadable(Contribution(e), fs)
    ensures out.Done? ==>
      (AllReadable(prev + Contribution(e), fs) && out.dicts == Fold(Hashed(prev + Contribution(e), fs, digest)))
    ensures out.OpenFailed? ==>
      exists k :: FirstUnreadable(Contribution(e), fs, k) && Contribution(e)[k] == out.path
  {
    PrivateDirIff(e.root);
    if IsPrivateDir(e.root) {
      SkippedContributesNothing(e, prev);
      return Done(ds);
    }
    out := HashEntry(EntryPaths(e), fs, digest, ds, prev);
  }

  lemma SkippedContributesNothing(e: WalkEntry, prev: seq<Path>)
    requires Skipped(e)
    ensures Contribution(e) == [] && prev + Contribution(e) == prev
  {
  }

  /** A file of entry `i` that is the first unreadable one of that entry,
      after all earlier scanned files were read, is the first unreadable
      scanned file of the walk. */
  lemma AbortedAt(walk: seq<WalkEntry>, i: nat, fs: map<Path, seq<byte>>, p: Path)
    requires i < |walk|
    requires AllReadable(ScannedPaths(walk[..i]), fs)
    requires exists k :: FirstUnreadable(Contribution(walk[i]), fs, k) && Contribution(walk[i])[k] == p
    ensures exists k :: FirstUnreadable(ScannedPaths(walk), fs, k) && ScannedPaths(walk)[k] == p
  {
    ScannedAround(walk, i);
    var files := Contribution(walk[i]);
    var before := ScannedPaths(walk[..i]);
    var after := ScannedPaths(walk[i + 1..]);
    assert ScannedPaths(walk) == before + files + after;
    var k :| FirstUnreadable(files, fs, k) && files[k] == p;
    FirstUnreadableShift(before, files, after, fs, k);
  }

  /** What the dictionaries folded from every scanned file satisfy. */
  lemma Conclusion(walk: seq<WalkEntry>, fs: map<Path, seq<byte>>, digest: seq<byte> -> Hash, ds: Dicts)
    requires AllReadable(ScannedPaths(walk), fs)
    requires ds == Fold(Hashed(ScannedPaths(walk), fs, digest))
    ensures Represents(ds, Hashed(ScannedPaths(walk), fs, digest))
    ensures GroupsByContent(ds, ScannedPaths(walk), fs, digest)
    ensures WellFormed(walk) ==> forall h :: h in ds.groups ==> |ds.groups[h]| >= 2
  {
    var items := Hashed(ScannedPaths(walk), fs, digest);
    FoldRepresents(items);
    GroupMembership(ds, ScannedPaths(walk), fs, digest);
    if WellFormed(walk) {
      ScannedDistinct(walk);
      var paths := ScannedPaths(walk);
      forall i, j | 0 <= i < j < |items| ensures items[i].path != items[j].path {
        HashedIndex(paths, fs, digest, i);
        HashedIndex(paths, fs, digest, j);
      }
      GroupsHaveTwo(items);
    }
  }

  /** `main` over a walk and a file system. On success the dictionaries are
      exactly the declarative result for the scanned files: `files_dict`
      maps every digest to the first path that produced it, and a digest has
      a group exactly when two or more scanned files produced it, the group
      being every scanned path whose content has that digest. For a walk as
      `os.walk` produces it, every group has at least two paths. Otherwise
      the run stops at the first scanned path that cannot be opened. */
  method FindDuplicates(walk: seq<WalkEntry>, fs: map<Path, seq<byte>>, digest: seq<byte> -> Hash)
    returns (out: Outcome)
    ensures out.Done? <==> AllReadable(ScannedPaths(walk), fs)
    ensures out.Done? ==> Represents(out.dicts, Hashed(ScannedPaths(walk), fs, digest))
    ensures out.Done? ==> GroupsByContent(out.dicts, ScannedPaths(walk), fs, digest)
    ensures out.Done? && WellFormed(walk) ==>
      forall h :: h in out.dicts.groups ==> |out.dicts.groups[h]| >= 2
    ensures out.OpenFailed? ==>
      exists k :: FirstUnreadable(ScannedPaths(walk), fs, k) && ScannedPaths(walk)[k] == out.path
  {
    var ds := Empty;
    ghost var done: seq<Path> := [];
    var i := 0;
    while i < |walk|
      invariant 0 <= i <= |walk|
      invariant done == ScannedPaths(walk[..i])
      invariant AllReadable(done, fs)
      invariant ds == Fold(Hashed(done, fs, digest))
    {
      ScannedPrefixStep(walk, i);
      var r := ScanEntry(walk[i], fs, digest, ds, done);
      if r.OpenFailed? {
        AbortedAt(walk, i, fs, r.path);
        return r;
      }
      ds := r.dicts;
      done := done + Contribution(walk[i]);
      i := i + 1;
    }
    assert walk[..i] == walk;
    Conclusion(walk, fs, digest, ds);
    out := Done(ds);
  }

  /** A tree `top` holding files `a` and `b`, a private sub-directory `x`
      (its name starts with `_`) holding `c`, and its sub-directory `y`
      holding `d`. The file of `x` is not scanned; the file of `x/y` is. */
  lemma PrivateDirScenario(top: Path, x: string, y: string, a: string, b: string, c: string, d: string)
    requires Sep !in x && Sep !in y && Sep !in a && Sep !in b && Sep !in c && Sep !in d
    requires !IsPrivateDir(top) && StartsWithUnderscore(x) && !StartsWithUnderscore(y)
    ensures ScannedPaths([WalkEntry(top, [x], [a, b]),
                          WalkEntry(Join(top, x), [y], [c]),
                          WalkEntry(Join(Join(top, x), y), [], [d])])
      == [Join(top, a), Join(top, b), Join(Join(Join(top, x), y), d)]
  {
    var e0 := WalkEntry(top, [x], [a, b]);
    var e1 := WalkEntry(Join(top, x), [y], [c]);
    var e2 := WalkEntry(Join(Join(top, x), y), [], [d]);
    PrivateDirDoesNotCoverSubdirs(top, x, y);
    PrivateDirIff(top);
    PrivateDirIff(Join(top, x));
    PrivateDirIff(Join(Join(top, x), y));
    JoinAllIndex(top, [a, b], 0);
    JoinAllIndex(top, [a, b], 1);
    assert Contribution(e0) == [Join(top, a), Join(top, b)];
    assert Contribution(e1) == [];
    JoinAllIndex(e2.root, [d], 0);
    assert Contribution(e2) == [Join(Join(Join(top, x), y), d)];
    ScannedSingle(e0);
    ScannedAppend([e0], [e1]);
    ScannedSingle(e1);
    assert [e0] + [e1] == [e0, e1];
    ScannedAppend([e0, e1], [e2]);
    ScannedSingle(e2);
    assert [e0, e1] + [e2] == [e0, e1, e2];
  }

  /** Empty files are hashed like any other: three scanned empty files all
      have the digest of no bytes, so they form a single group. */
  lemma EmptyFilesScenario(p1: Path, p2: Path, p3: Path, fs: map<Path, seq<byte>>, digest: seq<byte> -> Hash)
    requires p1 in fs && p2 in fs && p3 in fs
    requires fs[p1] == [] && fs[p2] == [] && fs[p3] == []
    ensures AllReadable([p1, p2, p3], fs)
    ensures Fold(Hashed([p1, p2, p3], fs, digest)).groups == map[digest([]) := {p1, p2, p3}]
  {
    var paths := [p1, p2, p3];
    assert AllReadable(paths, fs);
    var items := Hashed(paths, fs, digest);
    var h := digest([]);
    HashedIndex(paths, fs, digest, 0);
    HashedIndex(paths, fs, digest, 1);
    HashedIndex(paths, fs, digest, 2);
    assert items == [Scanned(p1, h), Scanned(p2, h), Scanned(p3, h)];
    OneDigestOneGroup(items, h);
    assert PathsWith(items, h) == {p1, p2, p3} by {
      assert items[0].path in PathsWith(items, h);
      assert items[1].path in PathsWith(items, h);
      assert items[2].path in PathsWith(items, h);
    }
  }

  /** Two files with the same content and a third whose content has another
      digest: only the first two form a group. */
  lemma TwoEqualOneOtherScenario(pa: Path, pb: Path, pc: Path, fs: map<Path, seq<byte>>, digest: seq<byte> -> Hash)
    requires pa in fs && pb in fs && pc in fs
    requires fs[pa] == fs[pb] && digest(fs[pc]) != digest(fs[pa])
    ensures AllReadable([pa, pb, pc], fs)
    ensures Fold(Hashed([pa, pb, pc], fs, digest)).groups == map[digest(fs[pa]) := {pa, pb}]
  {
    var paths := [pa, pb, pc];
    assert AllReadable(paths, fs);
    var items := Hashed(paths, fs, digest);
    var h, h' := digest(fs[pa]), digest(fs[pc]);
    HashedIndex(paths, fs, digest, 0);
    HashedIndex(paths, fs, digest, 1);
    HashedIndex(paths, fs, digest, 2);
    assert items == [Scanned(pa, h), Scanned(pb, h), Scanned(pc, h')];
    PairThenOther(pa, pb, pc, h, h');
  }
}
