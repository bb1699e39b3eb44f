/** The directory walk as `main` consumes it: a sequence of `os.walk`
    entries, of which those whose directory's last component starts with `_`
    contribute no files. Sub-directory lists are never pruned. */
module Walk {
  import opened Paths
  import opened Gathering

  /** One `(root, dirs, files)` triple produced by `os.walk`. The `dirs`
      list is never consulted or pruned by `main`. */
  datatype WalkEntry = WalkEntry(root: Path, dirs: seq<string>, files: seq<string>)

  /** The entry is skipped by `main`: its own last path component starts
      with `_` (see `Paths.PrivateDirIff` for the agreement with splitting). */
  predicate Skipped(e: WalkEntry)
  {
    PrivateByPosition(e.root)
  }

  /** `os.path.join(root, file)` for each file, in order. */
  function JoinAll(root: Path, files: seq<string>): (ps: seq<Path>)
    ensures |ps| == |files|
    decreases |files|
  {
    if |files| == 0 then []
    else JoinAll(root, files[..|files| - 1]) + [Join(root, files[|files| - 1])]
  }

  /** Position `k` of `JoinAll` is the join with file `k`. */
  lemma {:induction false} JoinAllIndex(root: Path, files: seq<string>, k: nat)
    requires k < |files|
    ensures JoinAll(root, files)[k] == Join(root, files[k])
    decreases |files|
  {
    var n := |files| - 1;
    if k < n {
      JoinAllIndex(root, files[..n], k);
    }
  }

  /** The paths of the files of one entry. */
  function EntryPaths(e: WalkEntry): (ps: seq<Path>)
    ensures |ps| == |e.files|
  {
    JoinAll(e.root, e.files)
  }

  /** The paths one entry hands to `hash_file`: none when it is skipped. */
  function Contribution(e: WalkEntry): seq<Path>
  {
    if Skipped(e) then [] else EntryPaths(e)
  }

  /** The paths `main` passes to `hash_file`, in order. */
  function ScannedPaths(walk: seq<WalkEntry>): seq<Path>
  {
    Gather(walk, Contribution)
  }

  /** `p` is the join of file `k` of entry `i`, an entry that is not skipped. */
  predicate ListedIn(walk: seq<WalkEntry>, i: int, k: int, p: Path)
  {
    && 0 <= i < |walk| && 0 <= k < |walk[i].files| && !Skipped(walk[i])
    && p == Join(walk[i].root, walk[i].files[k])
  }

  /** What `os.walk` guarantees of its output when started from a top
      directory without a trailing separator: every directory is reported
      once, directory paths do not end in a separator, and file names are
      plain names, distinct within their directory. */
  predicate WellFormed(walk: seq<WalkEntry>)
  {
    && (forall i :: 0 <= i < |walk| ==> NoTrailingSep(walk[i].root))
    && (forall i, j :: 0 <= i < j < |walk| ==> walk[i].root != walk[j].root)
    && (forall i :: 0 <= i < |walk| ==> Distinct(walk[i].files))
    && (forall i, k :: 0 <= i < |walk| && 0 <= k < |walk[i].files| ==> Sep !in walk[i].files[k])
  }

  /** Walking two lists of entries one after the other scans the two path
      lists one after the other. */
  lemma ScannedAppend(a: seq<WalkEntry>, b: seq<WalkEntry>)
    ensures ScannedPaths(a + b) == ScannedPaths(a) + ScannedPaths(b)
  {
    GatherAppend(a, b, Contribution);
  }

  /** A single entry scans its own contribution. */
  lemma ScannedSingle(e: WalkEntry)
    ensures ScannedPaths([e]) == Contribution(e)
  {
    GatherSingle(e, Contribution);
  }

  /** Files listed under a skipped entry never reach `hash_file`: removing
      the entry changes nothing that is scanned. */
  lemma SkippedEntryIgnored(a: seq<WalkEntry>, e: WalkEntry, b: seq<WalkEntry>)
    requires Skipped(e)
    ensures ScannedPaths(a + [e] + b) == ScannedPaths(a + b)
  {
    var sa, sb := ScannedPaths(a), ScannedPaths(b);
    assert ScannedPaths(a + [e]) == sa by {
      GatherAppend(a, [e], Contribution);
      GatherSingle(e, Contribution);
      assert Contribution(e) == [];
    }
    GatherAppend(a + [e], b, Contribution);
    GatherAppend(a, b, Contribution);
  }

  /** The scan splits at any entry: what came before, the entry's own
      contribution, and what comes after. */
  lemma ScannedAround(walk: seq<WalkEntry>, i: nat)
    requires i < |walk|
    ensures ScannedPaths(walk[..i + 1]) == ScannedPaths(walk[..i]) + Contribution(walk[i])
    ensures ScannedPaths(walk) == ScannedPaths(walk[..i + 1]) + ScannedPaths(walk[i + 1..])
  {
    ScannedPrefixStep(walk, i);
    GatherSplit(walk, i + 1, Contribution);
  }

  /** The scan of a prefix one entry longer adds that entry's contribution. */
  lemma ScannedPrefixStep(walk: seq<WalkEntry>, i: nat)
    requires i < |walk|
    ensures ScannedPaths(walk[..i + 1]) == ScannedPaths(walk[..i]) + Contribution(walk[i])
  {
    GatherPrefixStep(walk, i, Contribution);
  }

  /** Every file of an entry that is not skipped is scanned, in place. */
  lemma KeptEntryScanned(a: seq<WalkEntry>, e: WalkEntry, b: seq<WalkEntry>)
    requires !Skipped(e)
    ensures ScannedPaths(a + [e] + b) == ScannedPaths(a) + EntryPaths(e) + ScannedPaths(b)
  {
    GatherAppend(a + [e], b, Contribution);
    GatherAppend(a, [e], Contribution);
    GatherSingle(e, Contribution);
  }

  /** Every file of an entry that is not skipped is scanned. */
  lemma ListedIsScanned(walk: seq<WalkEntry>, i: int, k: int, p: Path)
    requires ListedIn(walk, i, k, p)
    ensures p in ScannedPaths(walk)
  {
    var e := walk[i];
    JoinAllIndex(e.root, e.files, k);
    assert Contribution(e)[k] == p;
    GatherHas(walk, Contribution, i, k);
  }

  /** Every scanned path is a file of an entry that is not skipped. */
  lemma ScannedIsListed(walk: seq<WalkEntry>, p: Path)
    requires p in ScannedPaths(walk)
    ensures exists i, k :: ListedIn(walk, i, k, p)
  {
    GatherFrom(walk, Contribution, p);
    var i, k :| 0 <= i < |walk| && 0 <= k < |Contribution(walk[i])| && Contribution(walk[i])[k] == p;
    var e := walk[i];
    JoinAllIndex(e.root, e.files, k);
    assert ListedIn(walk, i, k, p);
  }

  /** The scanned paths are exactly the joins of the files of the entries
      that are not skipped. */
  lemma ScannedMembership(walk: seq<WalkEntry>, p: Path)
    ensures p in ScannedPaths(walk) <==> exists i, k :: ListedIn(walk, i, k, p)
  {
    if p in ScannedPaths(walk) {
      ScannedIsListed(walk, p);
    }
    if exists i, k :: ListedIn(walk, i, k, p) {
      var i, k :| ListedIn(walk, i, k, p);
      ListedIsScanned(walk, i, k, p);
    }
  }

  /** In a well-formed walk, the directory of every scanned path is the root
      of an entry that is not skipped. */
  lemma {:induction false} ScannedParents(walk: seq<WalkEntry>, p: Path)
    requires WellFormed(walk)
    requires p in ScannedPaths(walk)
    ensures exists i :: 0 <= i < |walk| && !Skipped(walk[i]) && Parent(p) == walk[i].root
  {
    ScannedMembership(walk, p);
    var i, k :| ListedIn(walk, i, k, p);
    JoinLast(walk[i].root, walk[i].files[k]);
  }

  /** Files in a skipped directory are never scanned, even when some other
      directory's files are: no scanned path lies directly in that directory. */
  lemma SkippedNeverScanned(walk: seq<WalkEntry>, i: nat, k: nat)
    requires WellFormed(walk)
    requires i < |walk| && k < |walk[i].files| && Skipped(walk[i])
    ensures Join(walk[i].root, walk[i].files[k]) !in ScannedPaths(walk)
  {
    var p := Join(walk[i].root, walk[i].files[k]);
    JoinLast(walk[i].root, walk[i].files[k]);
    if p in ScannedPaths(walk) {
      ScannedParents(walk, p);
      assert false;
    }
  }

  /** The files of one entry give pairwise different paths. */
  lemma EntryPathsDistinct(e: WalkEntry)
    requires Distinct(e.files)
    requires forall k :: 0 <= k < |e.files| ==> Sep !in e.files[k]
    ensures Distinct(EntryPaths(e))
  {
    var ps := EntryPaths(e);
    forall x, y | 0 <= x < y < |ps| ensures ps[x] != ps[y] {
      JoinAllIndex(e.root, e.files, x);
      JoinAllIndex(e.root, e.files, y);
      JoinLast(e.root, e.files[x]);
      JoinLast(e.root, e.files[y]);
    }
  }

  /** No path scanned from a well-formed walk lies directly in a directory
      that none of its entries has as root. */
  lemma NotUnderForeignRoot(walk: seq<WalkEntry>, root: Path, p: Path)
    requires WellFormed(walk)
    requires forall i :: 0 <= i < |walk| ==> walk[i].root != root
    requires p in ScannedPaths(walk)
    ensures Parent(p) != root
  {
    ScannedParents(walk, p);
  }

  /** A well-formed walk scans every path at most once. */
  lemma {:induction false} ScannedDistinct(walk: seq<WalkEntry>)
    requires WellFormed(walk)
    ensures Distinct(ScannedPaths(walk))
    decreases |walk|
  {
    if |walk| > 0 {
      var n := |walk| - 1;
      var w' := walk[..n];
      var e := walk[n];
      assert WellFormed(w');
      ScannedDistinct(w');
      var prev := ScannedPaths(w');
      var c := Contribution(e);
      GatherPrefixStep(walk, n, Contribution);
      assert walk[..n + 1] == walk;
      if !Skipped(e) {
        EntryPathsDistinct(e);
        forall x, y | 0 <= x < |prev| && 0 <= y < |c| ensures prev[x] != c[y] {
          JoinAllIndex(e.root, e.files, y);
          JoinLast(e.root, e.files[y]);
          NotUnderForeignRoot(w', e.root, prev[x]);
        }
      }
      DistinctConcat(prev, c);
    }
  }
}
