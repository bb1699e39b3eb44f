/** `hash_file`: a file's bytes are read in chunks of at most `BUF_SIZE`
    bytes and fed to a streaming digest until the first empty read. The
    digest algorithm itself is a parameter (`digest`), applied to the bytes
    the accumulator received. */
module Hasher {

  newtype byte = x: int | 0 <= x < 256

  /** A hex-encoded digest. */
  type Hash = string

  /** Read size used for hashing. */
  const BUF_SIZE: nat := 65536

  /** A file opened in binary mode: its whole content and the read offset. */
  datatype Reader = Reader(content: seq<byte>, pos: nat)
  {
    predicate Valid() { pos <= |content| }
  }

  /** The streaming digest state: the bytes passed to `update` so far. */
  datatype Accumulator = Accumulator(fed: seq<byte>)
  {
    /** `update(data)`. */
    function Update(data: seq<byte>): Accumulator
    {
      Accumulator(fed + data)
    }

    /** `hexdigest()`, for a given digest function. */
    function HexDigest(digest: seq<byte> -> Hash): Hash
    {
      digest(fed)
    }
  }

  /** What `f.read(n)` returns, and the file object after it. */
  datatype ReadResult = ReadResult(data: seq<byte>, rest: Reader)

  /** `f.read(n)` on a regular file: the next `n` bytes, or fewer only when
      the end of the file is reached; the empty result means end of file. */
  function Read(f: Reader, n: nat): (res: ReadResult)
    requires f.Valid()
    ensures res.rest.Valid() && res.rest.content == f.content
    ensures res.rest.pos == f.pos + |res.data|
    ensures res.data == f.content[f.pos..res.rest.pos]
    ensures |res.data| <= n
    ensures |res.data| < n ==> res.rest.pos == |f.content|
    ensures n > 0 ==> (|res.data| == 0 <==> f.pos == |f.content|)
  {
    var end := if f.pos + n <= |f.content| then f.pos + n else |f.content|;
    ReadResult(f.content[f.pos..end], Reader(f.content, end))
  }

  /** The chunks joined end to end, in order. */
  function Concat(chunks: seq<seq<byte>>): seq<byte>
  {
    if |chunks| == 0 then [] else Concat(chunks[..|chunks| - 1]) + chunks[|chunks| - 1]
  }

  /** Chunks as the read loop produces them: none is empty, none is longer
      than `BUF_SIZE`, and all but the last are exactly `BUF_SIZE` long. */
  predicate WellChunked(chunks: seq<seq<byte>>)
  {
    && (forall k :: 0 <= k < |chunks| ==> 0 < |chunks[k]| <= BUF_SIZE)
    && (forall k :: 0 <= k < |chunks| - 1 ==> |chunks[k]| == BUF_SIZE)
  }

  /** `hash_file` on a file with the given content. Besides the digest, the
      method records, as a ghost, the chunks passed to `update`, in order: together they
      are exactly the file, so the digest is the digest of the whole file.
      The loop terminates because every non-empty read advances the offset. */
  method HashFile(content: seq<byte>, digest: seq<byte> -> Hash)
    returns (h: Hash, ghost chunks: seq<seq<byte>>)
    ensures WellChunked(chunks)
    ensures Concat(chunks) == content
    ensures h == digest(content)
  {
    var acc := Accumulator([]);
    var f := Reader(content, 0);
    chunks := [];
    while true
      invariant f.Valid() && f.content == content
      invariant Concat(chunks) == content[..f.pos]
      invariant acc.fed == Concat(chunks)
      invariant WellChunked(chunks)
      invariant |chunks| > 0 && |chunks[|chunks| - 1]| < BUF_SIZE ==> f.pos == |content|
      decreases |content| - f.pos
    {
      var res := Read(f, BUF_SIZE);
      var data := res.data;
      if |data| == 0 {
        break;
      }
      ChunkStep(content, chunks, f.pos, data);
      f := res.rest;
      acc := acc.Update(data);
      chunks := chunks + [data];
    }
    assert content[..f.pos] == content;
    h := acc.HexDigest(digest);
  }

  /** One non-empty read extends a well-formed chunking of the bytes read so
      far to one of the bytes read after it. */
  lemma ChunkStep(content: seq<byte>, chunks: seq<seq<byte>>, pos: nat, data: seq<byte>)
    requires pos + |data| <= |content| && data == content[pos..pos + |data|]
    requires 0 < |data| <= BUF_SIZE && (|data| < BUF_SIZE ==> pos + |data| == |content|)
    requires Concat(chunks) == content[..pos]
    requires WellChunked(chunks)
    requires |chunks| > 0 && |chunks[|chunks| - 1]| < BUF_SIZE ==> pos == |content|
    ensures Concat(chunks + [data]) == Concat(chunks) + data == content[..pos + |data|]
    ensures WellChunked(chunks + [data])
  {
    var next := chunks + [data];
    assert next[..|chunks|] == chunks;
    assert content[..pos + |data|] == content[..pos] + data;
    forall k | 0 <= k < |chunks| ensures next[k] == chunks[k] && |chunks[k]| == BUF_SIZE {
      assert |chunks| > 0;
    }
  }

  /** Any well-formed chunking of a content has exactly one chunk per started
      `BUF_SIZE` block: the loop performs that many non-empty reads. */
  lemma {:induction false} ChunkCount(chunks: seq<seq<byte>>)
    requires WellChunked(chunks)
    ensures |chunks| == (|Concat(chunks)| + BUF_SIZE - 1) / BUF_SIZE
    decreases |chunks|
  {
    if |chunks| > 0 {
      var init := chunks[..|chunks| - 1];
      var n := |init|;
      assert WellChunked(init) by {
        forall k | 0 <= k < |init| ensures 0 < |init[k]| <= BUF_SIZE && (k < |init| - 1 ==> |init[k]| == BUF_SIZE) {
          assert init[k] == chunks[k];
        }
      }
      ChunkCount(init);
      FullChunksLength(init);
      var last := |chunks[n]|;
      assert |Concat(chunks)| == n * BUF_SIZE + last;
      assert 0 < last <= BUF_SIZE;
      assert n * BUF_SIZE + last + BUF_SIZE - 1 == (n + 1) * BUF_SIZE + (last - 1);
    }
  }

  /** Chunks that are all but the last full add up to a multiple of
      `BUF_SIZE` when the last one is dropped. */
  lemma {:induction false} FullChunksLength(chunks: seq<seq<byte>>)
    requires WellChunked(chunks)
    ensures |chunks| > 0 ==> |Concat(chunks)| == (|chunks| - 1) * BUF_SIZE + |chunks[|chunks| - 1]|
    decreases |chunks|
  {
    if |chunks| > 1 {
      var init := chunks[..|chunks| - 1];
      assert WellChunked(init) by {
        forall k | 0 <= k < |init| ensures 0 < |init[k]| <= BUF_SIZE && (k < |init| - 1 ==> |init[k]| == BUF_SIZE) {
          assert init[k] == chunks[k];
        }
      }
      FullChunksLength(init);
      assert init[|init| - 1] == chunks[|chunks| - 2];
    }
  }

  /** The chunking is determined by the content: two well-formed chunkings
      of the same bytes are the same list of chunks. */
  lemma {:induction false} WellChunkedUnique(a: seq<seq<byte>>, b: seq<seq<byte>>)
    requires WellChunked(a) && WellChunked(b)
    requires Concat(a) == Concat(b)
    ensures a == b
    decreases |a|
  {
    ChunkCount(a);
    ChunkCount(b);
    if |a| > 0 {
      var n := |a| - 1;
      FullChunksLength(a);
      FullChunksLength(b);
      var a', b' := a[..n], b[..n];
      assert WellChunked(a') by {
        forall k | 0 <= k < n ensures 0 < |a'[k]| <= BUF_SIZE && (k < n - 1 ==> |a'[k]| == BUF_SIZE) {
          assert a'[k] == a[k];
        }
      }
      assert WellChunked(b') by {
        forall k | 0 <= k < n ensures 0 < |b'[k]| <= BUF_SIZE && (k < n - 1 ==> |b'[k]| == BUF_SIZE) {
          assert b'[k] == b[k];
        }
      }
      var c := Concat(a);
      assert |a[n]| == |b[n]|;
      var m := |c| - |a[n]|;
      assert Concat(a') == c[..m] && a[n] == c[m..];
      assert Concat(b') == c[..m] && b[n] == c[m..];
      WellChunkedUnique(a', b');
      assert a == a' + [a[n]] && b == b' + [b[n]];
    }
  }
}
