/** Where the chunker cuts, told by the bytes and the sizes alone. */
module ChunkLaws {
  import opened Basics
  import opened Chunking
  import opened WindowHashes

  /**
    The polynomial of the up to eight bytes from c on, modulo 2 to the 64, is a multiple of the average size,
    which counts as 1 when it is 0.
   */
  ghost predicate CutsAt(avgSize: nat, data: Bytes, c: nat)
    requires c <= |data|
  {
    var window := if c + 8 <= |data| then data[c..c + 8] else data[c..];
    Polynomial(window) % 0x1_0000_0000_0000_0000 % (if avgSize == 0 then 1 else avgSize) == 0
  }

  lemma BoundaryIff(sizes: Sizes, data: Bytes, c: nat)
    requires c <= |data|
    ensures IsBoundary(sizes.Rule(), data, c) <==> CutsAt(sizes.avgSize, data, c)
  {
    HashIsPolynomial(Window(data, c));
  }

  /** From `from` on, m is the first place that cuts, or the limit. */
  ghost predicate IsFirstCut(avgSize: nat, data: Bytes, from: nat, limit: nat, m: nat)
    requires limit <= |data|
  {
    && from <= m && (m == from || m <= limit)
    && (forall c :: from <= c < m && c < limit ==> !CutsAt(avgSize, data, c))
    && (m < limit ==> CutsAt(avgSize, data, m))
  }

  lemma {:induction false} FirstCutIs(sizes: Sizes, data: Bytes, from: nat, limit: nat)
    requires limit <= |data|
    ensures IsFirstCut(sizes.avgSize, data, from, limit, FirstCut(sizes.Rule(), data, from, limit))
    decreases limit - from
  {
    if from < limit {
      BoundaryIff(sizes, data, from);
      if !CutsAt(sizes.avgSize, data, from) { FirstCutIs(sizes, data, from + 1, limit); }
    }
  }

  /**
    The first chunk: everything up to the minimal size; otherwise up to the first place from the minimal size on,
    and before the maximal one and the end, that cuts. Where that is place 0, everything.
   */
  lemma FirstChunk(sizes: Sizes, data: Bytes) returns (m: nat)
    requires data != []
    ensures var chunks := Chunks(sizes.Rule(), data);
      var limit := if |data| < sizes.maxSize then |data| else sizes.maxSize;
      if |data| <= sizes.minSize then chunks == [data]
      else
        && IsFirstCut(sizes.avgSize, data, sizes.minSize, limit, m)
        && m <= |data| && chunks != [] && chunks[0] == if m == 0 then data else data[..m]
  {
    var limit := if |data| < sizes.maxSize then |data| else sizes.maxSize;
    m := FirstCut(sizes.Rule(), data, sizes.minSize, limit);
    FirstCutIs(sizes, data, sizes.minSize, limit);
    assert data[..|data|] == data && data[|data|..] == [];
  }

  /** And every later chunk is the first of what is left. */
  lemma LaterChunks(sizes: Sizes, data: Bytes)
    requires data != []
    ensures var chunks := Chunks(sizes.Rule(), data);
      chunks != [] && |chunks[0]| <= |data| && chunks[1..] == Chunks(sizes.Rule(), data[|chunks[0]|..])
  {
    var n := ChunkLength(sizes.Rule(), data);
    ChunksUnfold(sizes.Rule(), data);
    assert ([data[..n]] + Chunks(sizes.Rule(), data[n..]))[1..] == Chunks(sizes.Rule(), data[n..]);
  }

  /** What each chunk says of itself, and the manifest of all. */
  lemma ChunkTells(hash: Bytes -> Hash, chunks: seq<Chunk>, pieces: seq<Bytes>, i: nat)
    requires Describes(hash, chunks, pieces) && i < |chunks|
    ensures chunks[i].data == pieces[i] && chunks[i].hash == hash(pieces[i]) && chunks[i].length == |pieces[i]|
    ensures chunks[i].offset == |Concat(pieces[..i])|
  {
    assert Carries(hash, chunks[i], pieces, i);
  }

  /** Data without bytes makes one chunk without bytes. */
  lemma EmptyDataIsOneChunk(cutter: Cutter, hash: Bytes -> Hash, chunks: seq<Chunk>)
    requires Describes(hash, chunks, PiecesOf(cutter, []))
    ensures chunks == [Chunk(hash([]), 0, 0, [])]
  {
    assert Carries(hash, chunks[0], PiecesOf(cutter, []), 0);
  }

  /** A manifest lists the chunks' hashes and lengths, and without collisions its hashes lead back to the data. */
  lemma ManifestLeadsBack(cutter: Cutter, hash: Bytes -> Hash, data: Bytes, chunks: seq<Chunk>, manifest: Manifest)
    requires Describes(hash, chunks, PiecesOf(cutter, data)) && CollisionFree(hash, PiecesOf(cutter, data))
    requires Lists(chunks, manifest.chunkHashes, manifest.chunkLengths)
    ensures var pieces := PiecesOf(cutter, data);
      |manifest.chunkHashes| == |manifest.chunkLengths| == |pieces| && forall i :: 0 <= i < |pieces| ==>
        manifest.chunkHashes[i] == hash(pieces[i]) && manifest.chunkLengths[i] == |pieces[i]|
    ensures AllPresent(manifest.chunkHashes, ChunkMap(chunks))
    ensures Concat(LookUp(manifest.chunkHashes, ChunkMap(chunks))) == data
  {
    forall i | 0 <= i < |chunks| { ChunkTells(hash, chunks, PiecesOf(cutter, data), i); }
    RoundTrip(cutter, hash, data, chunks, manifest.chunkHashes);
  }
}
