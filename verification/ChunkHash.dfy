/** backend/adapters/file_adapter.py, `_hash_file`: hashing a file chunk by chunk, with CR LF
    pairs replaced inside each chunk. */
module ChunkHash {

  type Bytes = seq<bv8>

  const CR: bv8 := 13
  const LF: bv8 := 10
  const CHUNK: nat := 8192 * 1024

  /** `replace(b"\r\n", b"\n")`. */
  function Normalize(s: Bytes): Bytes {
    if |s| < 2 then s
    else if s[0] == CR && s[1] == LF then [LF] + Normalize(s[2..])
    else [s[0]] + Normalize(s[1..])
  }

  /** It goes through the content pair by pair and byte by byte. */
  lemma NormalizeIs(x: bv8, s: Bytes)
    ensures Normalize([]) == []
    ensures Normalize([13, 10] + s) == [10] + Normalize(s)
    ensures !(x == 13 && s != [] && s[0] == 10) ==> Normalize([x] + s) == [x] + Normalize(s)
  {
    assert ([13, 10] + s)[2..] == s && ([x] + s)[1..] == s;
  }

  /** What the hash is fed for a chunk. */
  function Fed(chunk: Bytes, normalize: bool): Bytes {
    if normalize then Normalize(chunk) else chunk
  }

  /** A CR LF pair lies across position `at`. */
  predicate Straddles(s: Bytes, at: nat) {
    0 < at < |s| && s[at - 1] == CR && s[at] == LF
  }

  /** How many chunk boundaries split a pair. */
  function SplitPairs(s: Bytes, size: nat): nat
    requires size > 0
    decreases |s|
  {
    if |s| <= size then 0
    else (if Straddles(s, size) then 1 else 0) + SplitPairs(s[size..], size)
  }

  /** The bytes fed in all, chunk by chunk. */
  function FedInChunks(s: Bytes, size: nat, normalize: bool): Bytes
    requires size > 0
    decreases |s|
  {
    if |s| <= size then Fed(s, normalize)
    else Fed(s[..size], normalize) + FedInChunks(s[size..], size, normalize)
  }

  /** How many bytes the replacement takes at once. */
  function Width(s: Bytes): nat
    requires |s| >= 2
  {
    if s[0] == CR && s[1] == LF then 2 else 1
  }

  lemma NormalizeStep(s: Bytes)
    requires |s| >= 2
    ensures Normalize(s) == [if Width(s) == 2 then LF else s[0]] + Normalize(s[Width(s)..])
  {
  }

  lemma StraddlesLater(a: Bytes, b: Bytes)
    requires |a| >= 2
    ensures Width(a + b) == Width(a) && (a + b)[0] == a[0] && (a + b)[Width(a)..] == a[Width(a)..] + b
    ensures Straddles(a + b, |a|) <==> Straddles(a[Width(a)..] + b, |a[Width(a)..]|)
  {
  }

  /** Normalising two pieces is normalising the whole, less the pair between them. */
  lemma {:induction false} NormalizeSplit(a: Bytes, b: Bytes)
    ensures !Straddles(a + b, |a|) ==> Normalize(a + b) == Normalize(a) + Normalize(b)
    ensures Straddles(a + b, |a|) ==> |Normalize(a + b)| + 1 == |Normalize(a)| + |Normalize(b)|
    decreases |a|
  {
    hide Normalize, Straddles;
    if |a| == 0 {
      assert a + b == b;
      NormalizeNothing(b);
    } else if |a| == 1 {
      assert a == [a[0]];
      NormalizeSplitByte(a[0], b);
    } else {
      NormalizeSplit(a[Width(a)..], b);
      NormalizeStep(a);
      NormalizeStep(a + b);
      StraddlesLater(a, b);
    }
  }

  lemma NormalizeNothing(b: Bytes)
    ensures Normalize([]) == [] && !Straddles(b, 0)
  {
  }

  lemma NormalizeSplitByte(x: bv8, b: Bytes)
    ensures Normalize([x]) == [x]
    ensures !Straddles([x] + b, 1) ==> Normalize([x] + b) == [x] + Normalize(b)
    ensures Straddles([x] + b, 1) ==> |Normalize([x] + b)| == |Normalize(b)|
  {
    var s := [x] + b;
    assert s[1..] == b;
    if Straddles(s, 1) {
      assert s[2..] == b[1..];
      LeadingLineFeed(b);
    }
  }

  lemma LeadingLineFeed(b: Bytes)
    requires b != [] && b[0] == LF
    ensures |Normalize(b)| == 1 + |Normalize(b[1..])|
  {
  }

  /** The chunks feed one byte more for each pair that a boundary splits. */
  lemma {:induction false} ChunkedLength(s: Bytes, size: nat)
    requires size > 0
    ensures |FedInChunks(s, size, true)| == |Normalize(s)| + SplitPairs(s, size)
    decreases |s|
  {
    if |s| > size {
      assert s == s[..size] + s[size..];
      NormalizeSplit(s[..size], s[size..]);
      ChunkedLength(s[size..], size);
    }
  }

  lemma {:induction false} ChunkedEqual(s: Bytes, size: nat)
    requires size > 0 && SplitPairs(s, size) == 0
    ensures FedInChunks(s, size, true) == Normalize(s)
    decreases |s|
  {
    if |s| > size {
      assert s == s[..size] + s[size..];
      NormalizeSplit(s[..size], s[size..]);
      ChunkedEqual(s[size..], size);
    }
  }

  /** The hash sees the normalised file exactly when no boundary splits a CR LF pair. */
  lemma ChunkingIsExact(s: Bytes, size: nat)
    requires size > 0
    ensures FedInChunks(s, size, true) == Normalize(s) <==> SplitPairs(s, size) == 0
  {
    ChunkedLength(s, size);
    if SplitPairs(s, size) == 0 {
      ChunkedEqual(s, size);
    }
  }

  /** A pair that the first boundary splits is fed unchanged. */
  lemma SplitPairIsKept()
    ensures var s := Zeros(CHUNK - 1) + [CR, LF];
            SplitPairs(s, CHUNK) == 1 && FedInChunks(s, CHUNK, true) != Normalize(s)
  {
    var s := Zeros(CHUNK - 1) + [CR, LF];
    assert |s| == CHUNK + 1 && s[CHUNK - 1] == CR && s[CHUNK] == LF;
    assert SplitPairs(s[CHUNK..], CHUNK) == 0;
    ChunkingIsExact(s, CHUNK);
  }

  function Zeros(n: nat): Bytes { seq(n, _ => 0) }

  lemma NextMultiple(k: nat, size: nat)
    ensures (k + 1) * size == k * size + size
    ensures k > 0 ==> k * size >= size
  {
    if k > 0 { assert k * size == (k - 1) * size + size; }
  }

  lemma StraddlesInRest(s: Bytes, size: nat, k: nat)
    requires 0 < size < |s| && k > 0
    ensures Straddles(s[size..], k * size) <==> Straddles(s, (k + 1) * size)
  {
    NextMultiple(k, size);
  }

  /** No boundary, at any multiple of the chunk size, splits a pair. */
  ghost predicate Unsplit(s: Bytes, size: nat) {
    forall k: nat :: k > 0 ==> !Straddles(s, k * size)
  }

  lemma {:induction false} SplitPairsAtBoundaries(s: Bytes, size: nat)
    requires size > 0
    ensures SplitPairs(s, size) == 0 <==> Unsplit(s, size)
    decreases |s|
  {
    hide Straddles, Unsplit;
    if |s| <= size {
      OneChunkIsUnsplit(s, size);
    } else {
      SplitPairsAtBoundaries(s[size..], size);
      UnsplitRest(s, size);
    }
  }

  lemma OneChunkIsUnsplit(s: Bytes, size: nat)
    requires |s| <= size
    ensures Unsplit(s, size)
  {
    hide Straddles;
    forall k: nat | k > 0 ensures !Straddles(s, k * size) {
      NextMultiple(k, size);
      NoneAtEnd(s, k * size);
    }
  }

  /** Beyond the first boundary, the boundaries are those of the rest. */
  lemma UnsplitRest(s: Bytes, size: nat)
    requires 0 < size < |s|
    ensures Unsplit(s, size) <==> !Straddles(s, size) && Unsplit(s[size..], size)
  {
    hide Straddles;
    assert 1 * size == size;
    if Unsplit(s, size) {
      assert !Straddles(s, 1 * size);
      forall k: nat | k > 0 ensures !Straddles(s[size..], k * size) {
        StraddlesInRest(s, size, k);
        assert !Straddles(s, (k + 1) * size);
      }
    }
    if !Straddles(s, size) && Unsplit(s[size..], size) {
      forall k: nat | k > 0 ensures !Straddles(s, k * size) {
        if k > 1 {
          StraddlesInRest(s, size, k - 1);
          assert !Straddles(s[size..], (k - 1) * size);
        }
      }
    }
  }

  lemma NoneAtEnd(s: Bytes, at: nat)
    requires at >= |s|
    ensures !Straddles(s, at)
  {
  }

  /** Without normalisation the chunks always make up the file. */
  lemma {:induction false} UnchangedContent(s: Bytes, size: nat)
    requires size > 0
    ensures FedInChunks(s, size, false) == s
    decreases |s|
  {
    if |s| > size {
      UnchangedContent(s[size..], size);
      assert s == s[..size] + s[size..];
    }
  }

  lemma {:induction false} PairFreeIsUnsplit(t: Bytes, size: nat)
    requires size > 0 && forall at: nat :: !Straddles(t, at)
    ensures SplitPairs(t, size) == 0
    decreases |t|
  {
    if |t| > size {
      forall at: nat ensures !Straddles(t[size..], at) {
        assert !Straddles(t, size + at);
      }
      PairFreeIsUnsplit(t[size..], size);
    }
  }

  lemma {:induction false} PairFreeIsNormal(t: Bytes)
    requires forall at: nat :: !Straddles(t, at)
    ensures Normalize(t) == t
  {
    if |t| >= 2 {
      assert !Straddles(t, 1);
      forall at: nat ensures !Straddles(t[1..], at) {
        assert !Straddles(t, at + 1);
      }
      PairFreeIsNormal(t[1..]);
    }
  }

  /** Every LF made a CR LF pair. */
  function ToCrLf(t: Bytes): Bytes {
    if t == [] then [] else (if t[0] == LF then [CR, LF] else [t[0]]) + ToCrLf(t[1..])
  }

  lemma {:induction false} NormalizeToCrLf(t: Bytes)
    ensures Normalize(ToCrLf(t)) == t
  {
    if t != [] {
      var rest := ToCrLf(t[1..]);
      NormalizeToCrLf(t[1..]);
      if t[0] == LF {
        assert ToCrLf(t)[2..] == rest;
      } else {
        assert ToCrLf(t)[1..] == rest;
        assert rest != [] ==> rest[0] != LF;
        assert t == [t[0]] + t[1..];
      }
    }
  }

  /** Two files that normalise alike, whatever their line ends, hash alike where one has no split
      pair exactly when the other has none either. */
  lemma LineEndingsHashAlike(s: Bytes, t: Bytes, size: nat)
    requires size > 0 && Normalize(s) == Normalize(t) && SplitPairs(t, size) == 0
    ensures FedInChunks(s, size, true) == FedInChunks(t, size, true) <==> SplitPairs(s, size) == 0
  {
    ChunkingIsExact(t, size);
    ChunkingIsExact(s, size);
  }

  /** The purpose of the option, that a text hashes alike with LF and with CR LF line ends, is
      met exactly when no chunk boundary splits a pair of the latter. */
  lemma CrLfFormHashesAlike(t: Bytes, size: nat)
    requires size > 0 && forall at: nat :: !Straddles(t, at)
    ensures FedInChunks(ToCrLf(t), size, true) == FedInChunks(t, size, true) <==> Unsplit(ToCrLf(t), size)
  {
    NormalizeToCrLf(t);
    PairFreeIsNormal(t);
    PairFreeIsUnsplit(t, size);
    LineEndingsHashAlike(ToCrLf(t), t, size);
    SplitPairsAtBoundaries(ToCrLf(t), size);
  }

  /** The next read takes a chunk, or what is left. */
  lemma FedNext(rest: Bytes, n: nat, size: nat, normalize: bool)
    requires size > 0 && n == (if |rest| < size then |rest| else size)
    ensures FedInChunks(rest, size, normalize) == Fed(rest[..n], normalize) + FedInChunks(rest[n..], size, normalize)
  {
    if |rest| <= size {
      assert rest[..n] == rest && rest[n..] == [];
    }
  }

  lemma ChunkFed(content: Bytes, at: nat, end: nat, fed: Bytes, size: nat, normalize: bool)
    requires size > 0 && at <= |content| && end == (if |content| - at < size then |content| else at + size)
    ensures fed + FedInChunks(content[at..], size, normalize)
            == (fed + Fed(content[at..end], normalize)) + FedInChunks(content[end..], size, normalize)
  {
    hide FedInChunks, Fed;
    var rest, chunk := content[at..], content[at..end];
    FedNext(rest, end - at, size, normalize);
    assert rest[..end - at] == chunk && rest[end - at..] == content[end..];
  }

  lemma NothingFed(size: nat, normalize: bool)
    requires size > 0
    ensures FedInChunks([], size, normalize) == []
  {
  }

  /** The read loop, `size` bytes at a time; `fed` is what the hash has received. */
  method HashChunks(content: Bytes, size: nat, normalize: bool) returns (fed: Bytes)
    requires size > 0
    ensures fed == FedInChunks(content, size, normalize)
  {
    fed := [];
    var at := 0;
    assert content[at..] == content;
    hide FedInChunks, Fed;
    while true
      invariant at <= |content|
      invariant FedInChunks(content, size, normalize) == fed + FedInChunks(content[at..], size, normalize)
      decreases |content| - at
    {
      var end := if |content| - at < size then |content| else at + size;
      var chunk := content[at..end];
      if chunk == [] {
        NothingFed(size, normalize);
        assert content[at..] == [];
        break;
      }
      ChunkFed(content, at, end, fed, size, normalize);
      fed := fed + Fed(chunk, normalize);
      at := end;
    }
  }

  /** `_hash_file`. */
  method HashFile(content: Bytes, normalize: bool) returns (fed: Bytes)
    ensures !normalize ==> fed == content
    ensures normalize ==> |fed| == |Normalize(content)| + SplitPairs(content, 8388608)
    ensures normalize ==> (fed == Normalize(content) <==> Unsplit(content, 8388608))
  {
    fed := HashChunks(content, CHUNK, normalize);
    HashedExactly(content, CHUNK);
  }

  lemma HashedExactly(content: Bytes, size: nat)
    requires size > 0
    ensures FedInChunks(content, size, false) == content
    ensures |FedInChunks(content, size, true)| == |Normalize(content)| + SplitPairs(content, size)
    ensures FedInChunks(content, size, true) == Normalize(content) <==> Unsplit(content, size)
  {
    UnchangedContent(content, size);
    ChunkedLength(content, size);
    ChunkingIsExact(content, size);
    SplitPairsAtBoundaries(content, size);
  }
}
