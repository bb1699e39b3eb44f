# python-dup-files in Dafny

A model of `main.py`, a script that finds duplicate files by content. It does
two things:

- `hash_file` reads a file in chunks of at most `BUF_SIZE` (65536) bytes and
  feeds them to a SHA-512 accumulator until the first empty read.
- `main` walks a directory tree. It skips every directory whose last path
  component starts with `_`, hashes every file of the other directories, and
  folds each `(path, hash)` pair into two dictionaries:
  - `files_dict` maps a digest to the first path that produced it;
  - `duplicate_files` is a `defaultdict(set)` that maps a digest to the paths
    sharing it.

The modules follow the program's structure:

| file | module | models |
|---|---|---|
| `paths.dfy` | `Paths` | `root.split(os.sep)`, `path[-1].startswith('_')` and POSIX `os.path.join` |
| `hasher.dfy` | `Hasher` | `hash_file`: the reader, the chunk loop and the accumulator |
| `gather.dfy` | `Gathering` | lists built element by element and joined in order (the nested `for` loops) |
| `walk.dfy` | `Walk` | the `os.walk` entries and which paths reach `hash_file` |
| `dedup.dfy` | `Dedup` | the fold into `files_dict` and `duplicate_files`, and a declarative description of its result |
| `main.dfy` | `DupFinder` | `main` itself: the two loops, stopping at a file that cannot be opened, and whole-run scenarios |

Modelling choices:

- The walk is a given sequence of `(root, dirs, files)` entries.
- The file system is a map from path to content. A scanned path missing from
  the map stands for `open` raising an error. `main` does not catch that
  error, so the run ends there (`Outcome.OpenFailed`).
- SHA-512 is a parameter `digest: seq<byte> -> Hash`, applied to the bytes
  passed to `update`. The model proves that those bytes are exactly the file.
- Paths use the POSIX separator `/`.
- Empty files are hashed and grouped like any other.
- A directory `_x` loses only its own files, and its sub-directories are
  still scanned.
- A file that cannot be opened aborts the run.

## Model

| member | source | states |
|---|---|---|
| Paths.SplitJoin | main.py:28 | Joining the pieces of `root.split(os.sep)` with the separator gives `root` back. |
| Paths.SplitSepFree | main.py:28 | No piece of `root.split(os.sep)` contains the separator. |
| Paths.SplitUnique | main.py:28 | `split` is the only way to cut a string into separator-free pieces that join back to it. |
| Paths.SplitConcat | main.py:28 | The pieces of `a + sep + b` are the pieces of `a` followed by the pieces of `b`. |
| Paths.LastComponentIsSuffix | main.py:28-29 | `path[-1]` is the longest separator-free suffix of `root`. Either it is all of `root`, or a separator precedes it and what precedes that separator is the parent. |
| Paths.PrivateDirIff | main.py:28-29 | `path[-1].startswith('_')` holds exactly when some `_` starts `root` or follows a separator, with no separator after it. |
| Paths.PrivateDirDoesNotCoverSubdirs | main.py:27-29 | `root/_x` is skipped, but its sub-directory `root/_x/y` is not when `y` does not start with `_`. Only a directory's own files are excluded. |
| Paths.JoinLast | main.py:36 | The last component of `os.path.join(root, file)` is `file`. When `root` has no trailing separator, everything before it is `root`. |
| Paths.JoinInjective | main.py:36 | For directories without a trailing separator and plain names, different (directory, name) pairs give different joined paths. (`a/` and `a` joined with `x` both give `a/x`.) |
| Hasher.Read | main.py:16 | `f.read(n)` returns the next slice of at most `n` bytes and advances the offset by its length. The result is short only at end of file. For `n > 0` it is empty exactly at end of file (`f.read(0)` is always empty). |
| Hasher.HashFile | main.py:12-19 | On a regular file, the loop terminates. Every chunk is non-empty and at most `BUF_SIZE` long, and all but the last are full. The chunks concatenated in order are the whole file. The result is the digest of the whole file. |
| Hasher.ChunkCount | main.py:15-18 | The loop performs one `update` per started `BUF_SIZE` block of the file. |
| Hasher.WellChunkedUnique | main.py:15-18 | The content determines the chunking: two chunkings of the same bytes of this shape are equal. |
| Walk.ScannedAppend | main.py:27-37 | Walking two entry lists one after the other scans their paths one after the other. |
| Walk.ScannedAround | main.py:27-37 | The scanned paths split at any entry into those before it, that entry's contribution, and those after it. |
| Walk.ScannedPrefixStep | main.py:27-37 | One more entry appends exactly its own contribution to the scanned paths. |
| Walk.SkippedEntryIgnored | main.py:28-29 | Removing an entry whose last component starts with `_` changes nothing that is scanned. |
| Walk.KeptEntryScanned | main.py:33-37 | The files of an entry that is not skipped are scanned in place and in order, as `os.path.join(root, file)`. |
| Walk.ScannedMembership | main.py:27-37 | A path is scanned exactly when it is the join of a file of an entry that is not skipped. |
| Walk.ScannedParents | main.py:27-37 | In a well-formed walk, the parent of every scanned path is the root of an entry that is not skipped. |
| Walk.SkippedNeverScanned | main.py:28-29 | In a well-formed walk, no file listed under a skipped directory reaches `hash_file`. |
| Walk.EntryPathsDistinct | main.py:33-36 | Distinct plain file names of one directory give distinct paths. |
| Walk.ScannedDistinct | main.py:27-37 | A well-formed walk scans every path at most once. |
| Dedup.Step | main.py:39-42 | `files_dict` gains the new digest and keeps every earlier entry. A group is created or grown only for a digest already in `files_dict`. A new digest leaves `duplicate_files` unchanged. No group loses a path, and groups of other digests are untouched. |
| Dedup.StepRepresents | main.py:39-42 | One iteration of the inner loop preserves agreement with the description. |
| Dedup.FoldRepresents | main.py:23-42 | Starting from empty dictionaries, the fold agrees with the description. `files_dict` keys are exactly the digests seen, and each maps to the first path with that digest. A digest is a key of `duplicate_files` exactly when two or more files produced it, and its group is exactly the paths that produced it. |
| Dedup.RepresentsUnique | main.py:39-42 | At most one pair of dictionaries agrees with the description of a scan. |
| Dedup.FoldIsExpected | main.py:39-42 | The fold equals the closed form `Expected`. That form is built by comprehension: `files_dict` maps each digest seen to its first path, and `duplicate_files` maps each digest seen at least twice to all paths with that digest. |
| Dedup.PathsWithCount | main.py:39-40 | With distinct paths, a digest has as many paths as files that produced it. |
| Dedup.GroupsHaveTwo | main.py:40 | With distinct paths, every group has as many members as files with its digest, and at least two. |
| Dedup.SameHashGrouped | main.py:39-40 | Any two scanned files with the same digest are in the same group. |
| Dedup.OneDigestOneGroup | main.py:39-42 | If all of at least two files share one digest, `duplicate_files` is that single group. |
| Dedup.RepeatedPathGroup | main.py:40 | The same path scanned twice forms a group of one. That is why group size needs distinct paths. |
| Dedup.PairThenOther | main.py:39-42 | Two files with one digest followed by a file with another give one group of the first two, and `files_dict` maps each digest to its first path. |
| Dedup.FoldMonotone | main.py:39-42 | Later files never overwrite a `files_dict` entry and never remove a path from a group. |
| DupFinder.HashEntry | main.py:33-42 | Over one directory's files, the inner loop leaves the dictionaries equal to the fold of all paths so far. It stops at the first file that cannot be opened. |
| DupFinder.ScanEntry | main.py:28-42 | One outer iteration adds nothing for a directory whose last component starts with `_`. Otherwise it folds in that directory's files, or stops at the first one that cannot be opened. |
| DupFinder.GroupMembership | main.py:37-40 | A path is in the group of `h` exactly when it was scanned and its content has digest `h`. |
| DupFinder.AbortedAt | main.py:36-37 | A file that is the first unreadable one of its directory, after all earlier scanned files were read, is the first unreadable scanned file of the run. |
| DupFinder.Conclusion | main.py:39-42 | After all scanned files, the dictionaries agree with the description and group paths by content. For a well-formed walk, every group has at least two paths. |
| DupFinder.FindDuplicates | main.py:22-42 | With `print` left out, `main` ends normally exactly when every scanned path can be opened. Then the dictionaries agree with the description of the scan, and each group holds exactly the scanned paths whose content has its digest. For a well-formed walk, each group also has at least two paths. Otherwise it stops at the first scanned path that cannot be opened. |
| DupFinder.PrivateDirScenario | main.py:27-36 | In `top/{a,b}`, `top/_x/c`, `top/_x/y/d`, the scanned paths are `top/a`, `top/b` and `top/_x/y/d`. |
| DupFinder.EmptyFilesScenario | main.py:37-42 | Three empty files all get the digest of no bytes and form one group. |
| DupFinder.TwoEqualOneOtherScenario | main.py:37-42 | Two files with equal content and one with a different digest give one group: the first two. |

## Left out

- All `print` output (main.py:32, 35, 43-46) is left out. The model keeps only the dictionaries and the open errors, not what is written to stdout.
- DupFinder.FindDuplicates: the `print` calls at main.py:32 and main.py:35 run before `hash_file` and can themselves raise, which ends `main` even when every file opens. A file or directory name that is not valid UTF-8 comes back from `os.walk` with surrogate escapes, and a strict UTF-8 stdout raises `UnicodeEncodeError` on it. Writing into a closed pipe raises `BrokenPipeError`. The model does not include these exits: its `Done` outcome assumes every `print` succeeds.
- `CHECK_DIR` and the `__main__` entry point are configuration: the walk is a parameter.
- The directory traversal of `os.walk` is left out. The walk is a given sequence of entries. `Walk.WellFormed` states what `os.walk` guarantees when the top directory (`CHECK_DIR = 'files'`, main.py:7) has no trailing separator, and it is assumed, not derived:
  - each directory appears once;
  - roots have no trailing separator, which holds only because the top has none (`os.walk('files/')` would report `'files/'` as its first root);
  - file names are plain and distinct within their directory.
- SHA-512 and `hashlib` internals are a foreign library. `hexdigest` is an uninterpreted function of the bytes fed to `update`.
- Hasher.HashFile: only regular files are modelled, as finite byte contents. `os.walk` also lists FIFOs and device nodes under `files`. On a FIFO, `open` (main.py:14) blocks until a writer appears. On a device such as `/dev/zero`, `f.read` (main.py:16) never returns `b''`, so the loop does not terminate. The model promises neither termination nor a whole-file digest for these.
- Hasher.HashFile: the fixed 128-character length of a hex digest is not stated, because the digest is abstract.
- Read errors in the middle of a file are not modelled: `f.read` on a regular file always returns the next slice.
- Paths are Dafny strings of Unicode scalar values, so a name that `os.walk` decodes with surrogate escapes (lone surrogates such as U+DC80) is not a `Paths.Path`. Under a C/POSIX locale `print` writes such names without raising and `main` processes them. No behaviour is lost, because the model only inspects `/`, `_` and equality of names.
- Windows separators and the multi-argument form of `os.path.join` are left out, because the script runs on POSIX paths and joins two arguments. `Paths.Join` does model an absolute second argument replacing the directory.
- DupFinder.FindDuplicates: groups of at least two paths are promised only for a well-formed walk, because a walk listing the same path twice gives a group of one (`Dedup.RepeatedPathGroup`).
