/** The grouping fold of `main`: every scanned `(path, hash)` pair is folded
    into `files_dict` (first path per hash) and `duplicate_files` (hash to
    the set of paths sharing it). The fold is proved equal to a declarative
    description of its result. */
module Dedup {
  import opened Paths
  import opened Hasher

  /** One file that reached `hash_file`, with the digest it produced. */
  datatype Scanned = Scanned(path: Path, hash: Hash)

  /** The two dictionaries of `main`: `first` is `files_dict`, `groups` is
      `duplicate_files` (a `defaultdict(set)`). */
  datatype Dicts = Dicts(first: map<Hash, Path>, groups: map<Hash, set<Path>>)

  const Empty: Dicts := Dicts(map[], map[])

  /** `duplicate_files[h]` as a read of a `defaultdict(set)`. */
  function GroupOf(ds: Dicts, h: Hash): set<Path>
  {
    if h in ds.groups then ds.groups[h] else {}
  }

  /** One iteration of the inner loop of `main` for the file `s`. A hash
      already in `files_dict` puts both the first path and this path into
      its group; a new hash only records this path as the first. */
  function Step(ds: Dicts, s: Scanned): (r: Dicts)
    ensures r.first.Keys == ds.first.Keys + {s.hash}
    ensures forall h :: h in ds.first ==> r.first[h] == ds.first[h]
    ensures r.groups.Keys == ds.groups.Keys + (if s.hash in ds.first then {s.hash} else {})
    ensures forall h :: h in ds.groups ==> ds.groups[h] <= r.groups[h]
    ensures forall h :: h in r.groups && h != s.hash ==> r.groups[h] == ds.groups[h]
    ensures s.hash !in ds.first ==> r.groups == ds.groups
  {
    if s.hash in ds.first then
      Dicts(ds.first, ds.groups[s.hash := GroupOf(ds, s.hash) + {ds.first[s.hash], s.path}])
    else
      Dicts(ds.first[s.hash := s.path], ds.groups)
  }

  /** The two dictionaries after folding the scanned files in order. */
  function Fold(items: seq<Scanned>): Dicts
  {
    if |items| == 0 then Empty else Step(Fold(items[..|items| - 1]), items[|items| - 1])
  }

  // ---------------------------------------------------------------------
  // Declarative description of the result

  /** Every digest produced. */
  function Hashes(items: seq<Scanned>): set<Hash>
  {
    set i | 0 <= i < |items| :: items[i].hash
  }

  /** The positions of the files with digest `h`. */
  function Indices(items: seq<Scanned>, h: Hash): set<int>
  {
    set i | 0 <= i < |items| && items[i].hash == h
  }

  /** How many scanned files produced digest `h`. */
  function Count(items: seq<Scanned>, h: Hash): nat
  {
    |Indices(items, h)|
  }

  /** The paths of the files with digest `h`. */
  function PathsWith(items: seq<Scanned>, h: Hash): set<Path>
  {
    set i | 0 <= i < |items| && items[i].hash == h :: items[i].path
  }

  /** The position of the first file with digest `h`. */
  function FirstIndex(items: seq<Scanned>, h: Hash): (i: nat)
    requires h in Hashes(items)
    ensures i < |items| && items[i].hash == h
    ensures forall j :: 0 <= j < i ==> items[j].hash != h
    decreases |items|
  {
    if items[0].hash == h then 0
    else
      assert h in Hashes(items[1..]) by {
        var i :| 0 <= i < |items| && items[i].hash == h;
        assert items[1..][i - 1] == items[i];
      }
      var j := FirstIndex(items[1..], h);
      assert forall k :: 1 <= k <= j ==> items[k] == items[1..][k - 1];
      j + 1
  }

  /** The path of the first file with digest `h`. */
  function FirstWith(items: seq<Scanned>, h: Hash): Path
    requires h in Hashes(items)
  {
    items[FirstIndex(items, h)].path
  }

  /** `ds` is what the scan of `items` should produce: the first path of
      every digest seen, and a group for exactly the digests produced at
      least twice, holding every path that produced that digest. */
  ghost predicate Represents(ds: Dicts, items: seq<Scanned>)
  {
    && ds.first.Keys == Hashes(items)
    && (forall h :: h in ds.first ==> ds.first[h] == FirstWith(items, h))
    && (forall h :: h in ds.groups <==> Count(items, h) >= 2)
    && (forall h :: h in ds.groups ==> ds.groups[h] == PathsWith(items, h))
  }

  /** The reference result: the two dictionaries built directly from the
      scan by comprehension, without folding. `FoldIsExpected` equates the
      fold with it. */
  ghost function Expected(items: seq<Scanned>): Dicts
  {
    var first := map h | h in Hashes(items) :: FirstWith(items, h);
    var groups := map h | h in Hashes(items) && Count(items, h) >= 2 :: PathsWith(items, h);
    Dicts(first, groups)
  }

  /** Files with distinct paths. */
  predicate DistinctPaths(items: seq<Scanned>)
  {
    forall i, j :: 0 <= i < j < |items| ==> items[i].path != items[j].path
  }

  // ---------------------------------------------------------------------
  // Facts about one more file

  lemma CountPositive(items: seq<Scanned>, h: Hash)
    ensures Count(items, h) >= 1 <==> h in Hashes(items)
  {
    if h in Hashes(items) {
      var i :| 0 <= i < |items| && items[i].hash == h;
      assert i in Indices(items, h);
    }
    if Count(items, h) >= 1 {
      var i :| i in Indices(items, h);
    }
  }

  /** What one more file adds to the digests, positions, counts and paths
      of the description. */
  lemma SnocFacts(items: seq<Scanned>, x: Scanned, h: Hash)
    ensures Hashes(items + [x]) == Hashes(items) + {x.hash}
    ensures Indices(items + [x], h) == Indices(items, h) + (if x.hash == h then {|items|} else {})
    ensures Count(items + [x], h) == Count(items, h) + (if x.hash == h then 1 else 0)
    ensures PathsWith(items + [x], h) == PathsWith(items, h) + (if x.hash == h then {x.path} else {})
  {
    SnocHashes(items, x);
    SnocIndices(items, x, h);
    SnocPaths(items, x, h);
  }

  lemma SnocHashes(items: seq<Scanned>, x: Scanned)
    ensures Hashes(items + [x]) == Hashes(items) + {x.hash}
  {
    var s := items + [x];
    assert forall i :: 0 <= i < |items| ==> s[i] == items[i];
    assert s[|items|] == x;
  }

  lemma SnocIndices(items: seq<Scanned>, x: Scanned, h: Hash)
    ensures Indices(items + [x], h) == Indices(items, h) + (if x.hash == h then {|items|} else {})
    ensures Count(items + [x], h) == Count(items, h) + (if x.hash == h then 1 else 0)
  {
    var s := items + [x];
    assert forall i :: 0 <= i < |items| ==> s[i] == items[i];
    assert s[|items|] == x;
    assert |items| !in Indices(items, h);
  }

  lemma SnocPaths(items: seq<Scanned>, x: Scanned, h: Hash)
    ensures PathsWith(items + [x], h) == PathsWith(items, h) + (if x.hash == h then {x.path} else {})
  {
    var s := items + [x];
    assert forall i :: 0 <= i < |items| ==> s[i] == items[i];
    assert s[|items|] == x;
  }

  /** Appending a file never changes which file came first for a digest
      that was already seen. */
  lemma FirstIndexSnoc(items: seq<Scanned>, x: Scanned, h: Hash)
    requires h in Hashes(items + [x])
    ensures h in Hashes(items) ==> FirstIndex(items + [x], h) == FirstIndex(items, h)
    ensures h !in Hashes(items) ==> FirstIndex(items + [x], h) == |items|
  {
    SnocFacts(items, x, h);
    var s := items + [x];
    assert forall k :: 0 <= k < |items| ==> s[k] == items[k];
  }

  /** A digest produced exactly once has the first path as its only path. */
  lemma SingleGroup(items: seq<Scanned>, h: Hash)
    requires Count(items, h) == 1
    ensures h in Hashes(items)
    ensures PathsWith(items, h) == {FirstWith(items, h)}
  {
    CountPositive(items, h);
    var f := FirstIndex(items, h);
    assert f in Indices(items, h);
    forall i | 0 <= i < |items| && items[i].hash == h ensures i == f {
      assert i in Indices(items, h);
      if i != f {
        assert {i, f} <= Indices(items, h);
        assert |{i, f}| == 2;
        SubsetCard({i, f}, Indices(items, h));
      }
    }
  }

  lemma SubsetCard<T>(a: set<T>, b: set<T>)
    requires a <= b
    ensures |a| <= |b|
  {
    assert b == a + (b - a);
  }

  // ---------------------------------------------------------------------
  // The fold computes the declarative result

  /** One more file keeps `files_dict` in step with the description. */
  lemma StepFirst(ds: Dicts, items: seq<Scanned>, x: Scanned)
    requires Represents(ds, items)
    ensures Step(ds, x).first.Keys == Hashes(items + [x])
    ensures forall h :: h in Step(ds, x).first ==> Step(ds, x).first[h] == FirstWith(items + [x], h)
  {
    var s := items + [x];
    var r := Step(ds, x);
    SnocFacts(items, x, x.hash);
    forall h | h in r.first ensures r.first[h] == FirstWith(s, h) {
      FirstIndexSnoc(items, x, h);
      if h in Hashes(items) {
        assert s[FirstIndex(items, h)] == items[FirstIndex(items, h)];
      }
    }
  }

  /** One more file keeps `duplicate_files` in step with the description,
      for the digest `h`. */
  lemma StepGroup(ds: Dicts, items: seq<Scanned>, x: Scanned, h: Hash)
    requires Represents(ds, items)
    ensures h in Step(ds, x).groups <==> Count(items + [x], h) >= 2
    ensures h in Step(ds, x).groups ==> Step(ds, x).groups[h] == PathsWith(items + [x], h)
  {
    SnocIndices(items, x, h);
    SnocPaths(items, x, h);
    if h != x.hash {
      StepOtherGroup(ds, items, x, h);
    } else if h !in ds.first {
      StepNewDigest(ds, items, x);
    } else {
      StepSeenDigest(ds, items, x);
    }
  }

  /** A digest other than the new file's keeps its group. */
  lemma StepOtherGroup(ds: Dicts, items: seq<Scanned>, x: Scanned, h: Hash)
    requires Represents(ds, items) && h != x.hash
    ensures h in Step(ds, x).groups <==> h in ds.groups
    ensures h in ds.groups ==> Step(ds, x).groups[h] == ds.groups[h]
  {
  }

  /** A digest seen for the first time gets no group. */
  lemma StepNewDigest(ds: Dicts, items: seq<Scanned>, x: Scanned)
    requires Represents(ds, items) && x.hash !in ds.first
    ensures Count(items, x.hash) == 0
    ensures x.hash !in Step(ds, x).groups
  {
    CountPositive(items, x.hash);
  }

  /** A digest seen before gets a group holding every path with it. */
  lemma StepSeenDigest(ds: Dicts, items: seq<Scanned>, x: Scanned)
    requires Represents(ds, items) && x.hash in ds.first
    ensures Count(items, x.hash) >= 1
    ensures x.hash in Step(ds, x).groups
    ensures Step(ds, x).groups[x.hash] == PathsWith(items, x.hash) + {x.path}
  {
    var h := x.hash;
    CountPositive(items, h);
    var r := Step(ds, x);
    assert r.groups[h] == GroupOf(ds, h) + {ds.first[h], x.path};
    var f := FirstIndex(items, h);
    assert items[f].path in PathsWith(items, h);
    if Count(items, h) == 1 {
      SingleGroup(items, h);
      assert GroupOf(ds, h) == {};
    } else {
      assert GroupOf(ds, h) == PathsWith(items, h);
    }
  }

  /** One more file keeps the fold in step with the description. */
  lemma StepRepresents(ds: Dicts, items: seq<Scanned>, x: Scanned)
    requires Represents(ds, items)
    ensures Represents(Step(ds, x), items + [x])
  {
    StepFirst(ds, items, x);
    forall h ensures (h in Step(ds, x).groups <==> Count(items + [x], h) >= 2)
      && (h in Step(ds, x).groups ==> Step(ds, x).groups[h] == PathsWith(items + [x], h))
    {
      StepGroup(ds, items, x, h);
    }
  }

  /** `main`'s fold produces exactly the declarative result. */
  lemma {:induction false} FoldRepresents(items: seq<Scanned>)
    ensures Represents(Fold(items), items)
    decreases |items|
  {
    if |items| == 0 {
      EmptyRepresents(items);
    } else {
      var n := |items| - 1;
      var init, last := items[..n], items[n];
      assert init + [last] == items;
      assert Fold(items) == Step(Fold(init), last);
      FoldRepresents(init);
      StepRepresents(Fold(init), init, last);
    }
  }

  /** Before any file, both dictionaries are empty, as described. */
  lemma EmptyRepresents(items: seq<Scanned>)
    requires |items| == 0
    ensures Represents(Empty, items)
  {
    forall h ensures Count(items, h) == 0 {
      assert Indices(items, h) == {};
    }
  }

  /** At most one pair of dictionaries represents a scan. */
  lemma RepresentsUnique(a: Dicts, b: Dicts, items: seq<Scanned>)
    requires Represents(a, items) && Represents(b, items)
    ensures a == b
  {
    assert a.first == b.first;
    assert a.groups.Keys == b.groups.Keys;
    assert a.groups == b.groups;
  }

  /** The fold equals the direct description. */
  lemma FoldIsExpected(items: seq<Scanned>)
    ensures Fold(items) == Expected(items)
  {
    FoldRepresents(items);
    forall h | Count(items, h) >= 2 ensures h in Hashes(items) {
      CountPositive(items, h);
    }
    RepresentsUnique(Fold(items), Expected(items), items);
  }

  // ---------------------------------------------------------------------
  // Consequences

  /** With distinct paths, the paths with a digest are as many as the files
      that produced it. */
  lemma {:induction false} PathsWithCount(items: seq<Scanned>, h: Hash)
    requires DistinctPaths(items)
    ensures |PathsWith(items, h)| == Count(items, h)
    decreases |items|
  {
    if |items| == 0 {
      assert Indices(items, h) == {};
      assert PathsWith(items, h) == {};
    } else {
      var n := |items| - 1;
      var init := items[..n];
      var x := items[n];
      assert init + [x] == items;
      PathsWithCount(init, h);
      SnocFacts(init, x, h);
      forall i | 0 <= i < n ensures init[i].path != x.path {
        assert init[i] == items[i];
      }
    }
  }

  /** Every group holds as many distinct paths as files produced its digest,
      so at least two, when the scanned paths are distinct. */
  lemma GroupsHaveTwo(items: seq<Scanned>)
    requires DistinctPaths(items)
    ensures forall h :: h in Fold(items).groups ==> |Fold(items).groups[h]| == Count(items, h) >= 2
  {
    FoldRepresents(items);
    forall h | h in Fold(items).groups ensures |Fold(items).groups[h]| == Count(items, h) {
      PathsWithCount(items, h);
    }
  }

  /** Any two scanned files with the same digest end up in the same group,
      whatever their content (two empty files included). */
  lemma SameHashGrouped(items: seq<Scanned>, i: nat, j: nat)
    requires i < j < |items| && items[i].hash == items[j].hash
    ensures var g := Fold(items).groups; var h := items[i].hash;
      h in g && items[i].path in g[h] && items[j].path in g[h]
  {
    var h := items[i].hash;
    FoldRepresents(items);
    TwoIndices(items, i, j);
    assert items[i].path in PathsWith(items, h);
    assert items[j].path in PathsWith(items, h);
  }

  /** When every scanned file produced the same digest, and there are at
      least two, the result is one group holding every scanned path. */
  lemma OneDigestOneGroup(items: seq<Scanned>, h: Hash)
    requires |items| >= 2
    requires forall i :: 0 <= i < |items| ==> items[i].hash == h
    ensures Fold(items).groups == map[h := PathsWith(items, h)]
  {
    FoldRepresents(items);
    TwoIndices(items, 0, 1);
    var g := Fold(items).groups;
    forall h' | h' in g ensures h' == h {
      CountPositive(items, h');
    }
  }

  /** Two positions with the same digest make its count at least two. */
  lemma TwoIndices(items: seq<Scanned>, i: nat, j: nat)
    requires i < j < |items| && items[i].hash == items[j].hash
    ensures Count(items, items[i].hash) >= 2
  {
    var h := items[i].hash;
    assert {i, j} <= Indices(items, h);
    assert |{i, j}| == 2;
    SubsetCard({i, j}, Indices(items, h));
  }

  /** Without distinct paths a group can have a single member: the same path
      scanned twice forms a group of one. */
  lemma RepeatedPathGroup(p: Path, h: Hash)
    ensures var r := Fold([Scanned(p, h), Scanned(p, h)]); h in r.groups && r.groups[h] == {p}
  {
    var x := Scanned(p, h);
    var items := [x, x];
    assert [x][..0] == [];
    assert Fold([]) == Empty;
    var one := Fold([x]);
    assert one == Step(Empty, x);
    assert one.first == map[h := p] && one.groups == map[];
    assert items[..1] == [x];
    assert Fold(items) == Step(one, x);
  }

  /** Two files with one digest followed by a file with another: one group,
      of the first two paths; the third path is only recorded as first. */
  lemma PairThenOther(p1: Path, p2: Path, p3: Path, h: Hash, h': Hash)
    requires h != h'
    ensures var r := Fold([Scanned(p1, h), Scanned(p2, h), Scanned(p3, h')]);
      r.groups == map[h := {p1, p2}] && r.first == map[h := p1, h' := p3]
  {
    var x1, x2, x3 := Scanned(p1, h), Scanned(p2, h), Scanned(p3, h');
    var items := [x1, x2, x3];
    assert items[..2] == [x1, x2] && [x1, x2][..1] == [x1] && [x1][..0] == [];
    assert Fold([]) == Empty;
    var r1 := Fold([x1]);
    assert r1 == Step(Empty, x1);
    assert r1.first == map[h := p1] && r1.groups == map[];
    var r2 := Fold([x1, x2]);
    assert r2 == Step(r1, x2);
    assert GroupOf(r1, h) == {};
    assert x2.hash in r1.first && r1.first[h] == p1;
    assert r2.groups == r1.groups[h := {} + {p1, p2}];
    assert r1.groups == map[];
    assert ({} + {p1, p2}) == {p1, p2};
    assert r2.groups == map[h := {p1, p2}];
    assert Fold(items) == Step(r2, x3);
  }

  /** Later files never overwrite `files_dict` entries and never remove
      paths from a group. */
  lemma {:induction false} FoldMonotone(items: seq<Scanned>, more: seq<Scanned>)
    ensures forall h :: h in Fold(items).first ==>
      h in Fold(items + more).first && Fold(items + more).first[h] == Fold(items).first[h]
    ensures forall h :: h in Fold(items).groups ==>
      h in Fold(items + more).groups && Fold(items).groups[h] <= Fold(items + more).groups[h]
    decreases |more|
  {
    if |more| == 0 {
      assert items + more == items;
    } else {
      var m := |more| - 1;
      FoldMonotone(items, more[..m]);
      assert (items + more)[..|items + more| - 1] == items + more[..m];
    }
  }
}
