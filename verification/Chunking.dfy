/** Content-defined chunking: where boundaries fall, what they depend on, and the way back from chunks to data. */
module Chunking {
  import opened Basics

  type Hash = string

  const WORD: int := 0x1_0000_0000_0000_0000
  const MULTIPLIER: int := 0x5bd1e995
  const WINDOW: nat := 8

  datatype Sizes = Sizes(minSize: nat, avgSize: nat, maxSize: nat) {
    function Divisor(): (d: nat)
      ensures d > 0
    {
      if avgSize > 1 then avgSize else 1
    }

    /** A window cuts when its hash is a multiple of the average size. */
    function Rule(): Cutter {
      var d := Divisor();
      Cutter(minSize, maxSize, window => WindowHash(window) % d == 0)
    }
  }

  /** All that chunking depends on: the size limits, and which windows cut. */
  datatype Cutter = Cutter(minSize: nat, maxSize: nat, isCut: Bytes -> bool)

  datatype Chunk = Chunk(hash: Hash, offset: nat, length: nat, data: Bytes)
  datatype Manifest = Manifest(totalSize: nat, chunkHashes: seq<Hash>, chunkLengths: seq<nat>)
  datatype Result = Ok(data: Bytes) | MissingChunk(hash: Hash)

  // ---------------------------------------------------------------- boundaries

  /** The 64-bit wrapping polynomial hash of a window, its last byte added last. */
  function WindowHash(window: Bytes): nat {
    if window == [] then 0
    else (WindowHash(window[..|window| - 1]) * MULTIPLIER % WORD + window[|window| - 1]) % WORD
  }

  function Window(rest: Bytes, cut: nat): Bytes
    requires cut <= |rest|
  {
    if cut + WINDOW <= |rest| then rest[cut..cut + WINDOW] else rest[cut..]
  }

  predicate IsBoundary(cutter: Cutter, rest: Bytes, cut: nat)
    requires cut <= |rest|
  {
    cutter.isCut(Window(rest, cut))
  }

  /** The first position from `cut` on that is a boundary, `limit` if there is none before it. */
  function FirstCut(cutter: Cutter, rest: Bytes, cut: nat, limit: nat): (r: nat)
    requires limit <= |rest|
    ensures if cut < limit then cut <= r <= limit else r == cut
    decreases limit - cut
  {
    if cut < limit && !IsBoundary(cutter, rest, cut) then FirstCut(cutter, rest, cut + 1, limit) else cut
  }

  function Min(a: nat, b: nat): nat {
    if a < b then a else b
  }

  /** How many of the remaining bytes the next chunk takes. */
  function ChunkLength(cutter: Cutter, rest: Bytes): (n: nat)
    requires rest != []
    ensures 0 < n <= |rest|
  {
    if |rest| <= cutter.minSize then |rest|
    else
      var cut := FirstCut(cutter, rest, cutter.minSize, Min(|rest|, cutter.maxSize));
      if cut == 0 then |rest| else cut
  }

  /** The chunks of some data, in order. */
  function Chunks(cutter: Cutter, data: Bytes): seq<Bytes>
    decreases |data|
  {
    if data == [] then []
    else
      var n := ChunkLength(cutter, data);
      [data[..n]] + Chunks(cutter, data[n..])
  }

  function Concat(chunks: seq<Bytes>): Bytes {
    if chunks == [] then [] else chunks[0] + Concat(chunks[1..])
  }

  // ---------------------------------------------------------------- the chunker

  /** The rolling part: hashes the window at one position. */
  method HashWindow(window: Bytes) returns (hash: nat)
    ensures hash == WindowHash(window)
  {
    hash := 0;
    for i := 0 to |window|
      invariant hash == WindowHash(window[..i])
    {
      assert window[..i + 1][..i] == window[..i];
      hash := (hash * MULTIPLIER % WORD + window[i]) % WORD;
    }
    assert window[..|window|] == window;
  }

  lemma WindowInPlace(data: Bytes, offset: nat, cut: nat)
    requires offset + cut <= |data|
    ensures data[offset + cut..Min(offset + cut + WINDOW, |data|)] == Window(data[offset..], cut)
  {
  }

  method AtBoundary(sizes: Sizes, data: Bytes, offset: nat, cut: nat) returns (boundary: bool)
    requires offset + cut <= |data|
    ensures boundary == IsBoundary(sizes.Rule(), data[offset..], cut)
  {
    WindowInPlace(data, offset, cut);
    var hash := HashWindow(data[offset + cut..Min(offset + cut + WINDOW, |data|)]);
    boundary := hash % sizes.Divisor() == 0;
  }

  lemma FirstCutStep(cutter: Cutter, rest: Bytes, cut: nat, limit: nat)
    requires limit <= |rest|
    ensures FirstCut(cutter, rest, cut, limit) ==
      if cut < limit && !IsBoundary(cutter, rest, cut) then FirstCut(cutter, rest, cut + 1, limit) else cut
  {
  }

  lemma LengthFromCut(cutter: Cutter, rest: Bytes, cut: nat)
    requires |rest| > cutter.minSize && cut == FirstCut(cutter, rest, cutter.minSize, Min(|rest|, cutter.maxSize))
    ensures ChunkLength(cutter, rest) == if cut == 0 then |rest| else cut
  {
  }

  /** The scan for the end of the next chunk. */
  method NextLength(sizes: Sizes, data: Bytes, offset: nat) returns (n: nat)
    requires offset < |data|
    ensures n == ChunkLength(sizes.Rule(), data[offset..])
  {
    ghost var rest := data[offset..];
    var remaining := |data| - offset;
    if remaining <= sizes.minSize {
      return remaining;
    }
    var limit := Min(remaining, sizes.maxSize);
    var cut := sizes.minSize;
    ghost var found := FirstCut(sizes.Rule(), rest, cut, limit);
    while cut < limit
      invariant FirstCut(sizes.Rule(), rest, cut, limit) == found
      decreases if cut < limit then limit - cut else 0
    {
      FirstCutStep(sizes.Rule(), rest, cut, limit);
      var boundary := AtBoundary(sizes, data, offset, cut);
      if boundary {
        break;
      }
      cut := cut + 1;
    }
    FirstCutStep(sizes.Rule(), rest, cut, limit);
    LengthFromCut(sizes.Rule(), rest, cut);
    return if cut == 0 then remaining else cut;
  }

  /** The chunk carries the i-th piece, its hash, and the place where it starts. */
  ghost predicate Carries(hash: Bytes -> Hash, chunk: Chunk, pieces: seq<Bytes>, i: nat)
    requires i < |pieces|
  {
    chunk == Chunk(hash(pieces[i]), |Concat(pieces[..i])|, |pieces[i]|, pieces[i])
  }

  /** The chunks are the pieces with their places and hashes. */
  ghost predicate Describes(hash: Bytes -> Hash, chunks: seq<Chunk>, pieces: seq<Bytes>) {
    |chunks| == |pieces| &&
    forall i: nat {:trigger Carries(hash, chunks[i], pieces, i)} :: i < |chunks| ==> Carries(hash, chunks[i], pieces, i)
  }

  function PiecesOf(cutter: Cutter, data: Bytes): seq<Bytes> {
    if data == [] then [[]] else Chunks(cutter, data)
  }

  lemma DescribesNext(hash: Bytes -> Hash, chunks: seq<Chunk>, done: seq<Bytes>, slice: Bytes)
    requires Describes(hash, chunks, done)
    ensures Describes(hash, chunks + [Chunk(hash(slice), |Concat(done)|, |slice|, slice)], done + [slice])
  {
    var pieces, next := done + [slice], chunks + [Chunk(hash(slice), |Concat(done)|, |slice|, slice)];
    forall i: nat | i < |next| ensures Carries(hash, next[i], pieces, i) {
      assert pieces[..i] == done[..i];
      if i < |chunks| {
        assert Carries(hash, chunks[i], done, i);
      } else {
        assert done[..i] == done;
      }
    }
  }

  lemma EmptyIsDescribed(hash: Bytes -> Hash)
    ensures Describes(hash, [Chunk(hash([]), 0, 0, [])], [[]])
  {
    DescribesNext(hash, [], [], []);
    var none: seq<Bytes>, nothing: seq<Chunk> := [], [];
    assert none + [[]] == [[]] && nothing + [Chunk(hash([]), 0, 0, [])] == [Chunk(hash([]), 0, 0, [])];
  }

  /** The pieces from an offset on. */
  ghost function Todo(cutter: Cutter, data: Bytes, offset: nat): seq<Bytes>
    requires offset <= |data|
  {
    Chunks(cutter, data[offset..])
  }

  /** The manifest's lists say of every chunk what the chunk says itself. */
  ghost predicate Lists(chunks: seq<Chunk>, hashes: seq<Hash>, lengths: seq<nat>) {
    |hashes| == |lengths| == |chunks| &&
    forall i :: 0 <= i < |chunks| ==> hashes[i] == chunks[i].hash && lengths[i] == chunks[i].length
  }

  /** The chunks cut so far describe the pieces before the offset, and the rest is still to be cut. */
  ghost predicate CutSoFar(cutter: Cutter, hash: Bytes -> Hash, data: Bytes, offset: nat, done: seq<Bytes>,
                           chunks: seq<Chunk>, hashes: seq<Hash>, lengths: seq<nat>)
  {
    && offset <= |data|
    && done + Todo(cutter, data, offset) == Todo(cutter, data, 0)
    && Concat(done) == data[..offset] && Describes(hash, chunks, done)
    && Lists(chunks, hashes, lengths)
  }

  lemma NothingCut(cutter: Cutter, hash: Bytes -> Hash, data: Bytes)
    ensures CutSoFar(cutter, hash, data, 0, [], [], [], [])
  {
    assert data[..0] == [] && [] + Todo(cutter, data, 0) == Todo(cutter, data, 0);
  }

  lemma AllCut(cutter: Cutter, hash: Bytes -> Hash, data: Bytes, offset: nat, done: seq<Bytes>,
               chunks: seq<Chunk>, hashes: seq<Hash>, lengths: seq<nat>)
    requires CutSoFar(cutter, hash, data, offset, done, chunks, hashes, lengths) && offset >= |data|
    ensures Describes(hash, chunks, Chunks(cutter, data)) && Lists(chunks, hashes, lengths)
  {
    assert data[offset..] == [] && data[0..] == data;
    assert done + [] == done;
  }

  lemma ChunksUnfold(cutter: Cutter, data: Bytes)
    requires data != []
    ensures var n := ChunkLength(cutter, data); Chunks(cutter, data) == [data[..n]] + Chunks(cutter, data[n..])
  {
  }

  lemma {:induction false} ConcatAppend(chunks: seq<Bytes>, last: Bytes)
    ensures Concat(chunks + [last]) == Concat(chunks) + last
    decreases |chunks|
  {
    if chunks == [] {
      assert (chunks + [last])[1..] == [];
    } else {
      ConcatAppend(chunks[1..], last);
      assert (chunks + [last])[1..] == chunks[1..] + [last];
    }
  }

  lemma NextPiece(cutter: Cutter, data: Bytes, offset: nat, slice: Bytes, done: seq<Bytes>) returns (more: seq<Bytes>)
    requires offset < |data| && Concat(done) == data[..offset]
    requires var n := ChunkLength(cutter, data[offset..]); slice == data[offset..offset + n]
    ensures offset + |slice| <= |data| && more == done + [slice]
    ensures more + Todo(cutter, data, offset + |slice|) == done + Todo(cutter, data, offset)
    ensures Concat(more) == data[..offset + |slice|]
  {
    more := done + [slice];
    var rest, n := data[offset..], |slice|;
    assert rest[..n] == slice && rest[n..] == data[offset + n..];
    ChunksUnfold(cutter, rest);
    ConcatAppend(done, slice);
    assert data[..offset] + slice == data[..offset + n];
    ConcatAssoc(done, [slice], Todo(cutter, data, offset + n));
  }

  lemma CutOneMore(cutter: Cutter, hash: Bytes -> Hash, data: Bytes, offset: nat, done: seq<Bytes>,
                   chunks: seq<Chunk>, hashes: seq<Hash>, lengths: seq<nat>, slice: Bytes)
    returns (more: seq<Bytes>)
    requires CutSoFar(cutter, hash, data, offset, done, chunks, hashes, lengths)
    requires offset < |data| && var n := ChunkLength(cutter, data[offset..]); slice == data[offset..offset + n]
    ensures CutSoFar(cutter, hash, data, offset + |slice|, more, chunks + [Chunk(hash(slice), offset, |slice|, slice)],
                     hashes + [hash(slice)], lengths + [|slice|])
  {
    more := NextPiece(cutter, data, offset, slice, done);
    DescribesNext(hash, chunks, done, slice);
  }

  /** The outer loop over the data. */
  method CutUp(sizes: Sizes, hash: Bytes -> Hash, data: Bytes)
    returns (chunks: seq<Chunk>, hashes: seq<Hash>, lengths: seq<nat>)
    ensures Describes(hash, chunks, Chunks(sizes.Rule(), data)) && Lists(chunks, hashes, lengths)
  {
    chunks, hashes, lengths := [], [], [];
    var offset := 0;
    ghost var done: seq<Bytes> := [];
    NothingCut(sizes.Rule(), hash, data);
    while offset < |data|
      invariant CutSoFar(sizes.Rule(), hash, data, offset, done, chunks, hashes, lengths)
      decreases |data| - offset
    {
      var n := NextLength(sizes, data, offset);
      var slice := data[offset..offset + n];
      done := CutOneMore(sizes.Rule(), hash, data, offset, done, chunks, hashes, lengths, slice);
      chunks := chunks + [Chunk(hash(slice), offset, |slice|, slice)];
      hashes := hashes + [hash(slice)];
      lengths := lengths + [|slice|];
      offset := offset + |slice|;
    }
    AllCut(sizes.Rule(), hash, data, offset, done, chunks, hashes, lengths);
  }

  method ChunkData(sizes: Sizes, hash: Bytes -> Hash, data: Bytes) returns (chunks: seq<Chunk>, manifest: Manifest)
    ensures Describes(hash, chunks, PiecesOf(sizes.Rule(), data))
    ensures manifest.totalSize == |data| && Lists(chunks, manifest.chunkHashes, manifest.chunkLengths)
  {
    if data == [] {
      EmptyIsDescribed(hash);
      return [Chunk(hash([]), 0, 0, [])], Manifest(0, [hash([])], [0]);
    }
    var hashes, lengths;
    chunks, hashes, lengths := CutUp(sizes, hash, data);
    return chunks, Manifest(|data|, hashes, lengths);
  }

  // ---------------------------------------------------------------- partition and size bounds

  lemma LengthInBounds(cutter: Cutter, rest: Bytes)
    requires rest != [] && cutter.minSize >= 1
    ensures ChunkLength(cutter, rest) < |rest| ==> cutter.minSize <= ChunkLength(cutter, rest)
    ensures ChunkLength(cutter, rest) <= cutter.maxSize || ChunkLength(cutter, rest) <= cutter.minSize
  {
  }

  /** No chunk is larger than both bounds, and only the last may be smaller than the lower one. */
  ghost predicate InBounds(cutter: Cutter, cs: seq<Bytes>) {
    && (forall i :: 0 <= i < |cs| ==> |cs[i]| <= cutter.maxSize || |cs[i]| <= cutter.minSize)
    && (forall i :: 0 <= i < |cs| - 1 ==> cutter.minSize <= |cs[i]|)
  }

  /** The chunks spell the data out and none of them is empty. */
  lemma {:induction false} ChunksPartition(cutter: Cutter, data: Bytes)
    ensures Concat(Chunks(cutter, data)) == data
    ensures Chunks(cutter, data) == [] <==> data == []
    ensures forall i :: 0 <= i < |Chunks(cutter, data)| ==> Chunks(cutter, data)[i] != []
    decreases |data|
  {
    if data != [] {
      var n := ChunkLength(cutter, data);
      var first, later := data[..n], Chunks(cutter, data[n..]);
      ChunksPartition(cutter, data[n..]);
      assert data == first + data[n..];
      assert Chunks(cutter, data) == [first] + later && ([first] + later)[1..] == later;
    }
  }

  /** No chunk is larger than the maximal size or a larger minimal one, and all but the last reach the minimal one. */
  lemma {:induction false} ChunksInBounds(cutter: Cutter, data: Bytes)
    requires cutter.minSize >= 1
    ensures InBounds(cutter, Chunks(cutter, data))
    decreases |data|
  {
    if data != [] {
      var n := ChunkLength(cutter, data);
      var first, later := data[..n], Chunks(cutter, data[n..]);
      ChunksInBounds(cutter, data[n..]);
      ChunksPartition(cutter, data[n..]);
      LengthInBounds(cutter, data);
      assert Chunks(cutter, data) == [first] + later;
    }
  }

  // ---------------------------------------------------------------- locality

  /** The bytes up to the end of the j-th chunk. */
  function EndOf(cs: seq<Bytes>, j: nat): nat
    requires j <= |cs|
  {
    |Concat(cs[..j])|
  }

  /** From any chunk boundary on, the chunks are those of the remaining bytes alone. */
  lemma {:induction false} ChunksFromBoundary(cutter: Cutter, data: Bytes, j: nat)
    requires j <= |Chunks(cutter, data)|
    ensures var cs := Chunks(cutter, data);
      EndOf(cs, j) <= |data| && cs[j..] == Chunks(cutter, data[EndOf(cs, j)..])
    decreases j
  {
    var cs := Chunks(cutter, data);
    if j == 0 {
      assert cs[..0] == [] && data[0..] == data;
    } else {
      var n := ChunkLength(cutter, data);
      assert cs[1..] == Chunks(cutter, data[n..]);
      ChunksFromBoundary(cutter, data[n..], j - 1);
      assert cs[..j][1..] == cs[1..][..j - 1];
      assert EndOf(cs, j) == n + EndOf(cs[1..], j - 1);
      assert data[n..][EndOf(cs[1..], j - 1)..] == data[EndOf(cs, j)..];
      assert cs[j..] == cs[1..][j - 1..];
    }
  }

  function From(data: Bytes, n: nat): Bytes {
    if n <= |data| then data[n..] else []
  }

  /** Two inputs whose chunkings both cut where a common suffix begins agree on every later chunk. */
  lemma CommonSuffixAgrees(cutter: Cutter, a: Bytes, i: nat, b: Bytes, j: nat)
    requires i <= |Chunks(cutter, a)| && j <= |Chunks(cutter, b)|
    requires From(a, EndOf(Chunks(cutter, a), i)) == From(b, EndOf(Chunks(cutter, b), j))
    ensures Chunks(cutter, a)[i..] == Chunks(cutter, b)[j..]
  {
    ChunksFromBoundary(cutter, a, i);
    ChunksFromBoundary(cutter, b, j);
  }

  /** A cut at least a window before the end does not depend on what follows the data. */
  lemma {:induction false} CutIgnoresTail(cutter: Cutter, rest: Bytes, tail: Bytes, cut: nat, limit: nat, limit': nat)
    requires limit <= |rest| && limit <= limit' <= |rest + tail|
    requires var r := FirstCut(cutter, rest, cut, limit); r + WINDOW <= |rest| && (r >= limit ==> limit' <= r)
    ensures FirstCut(cutter, rest + tail, cut, limit') == FirstCut(cutter, rest, cut, limit)
    decreases limit - cut
  {
    if cut < limit {
      assert Window(rest + tail, cut) == Window(rest, cut);
      if !IsBoundary(cutter, rest, cut) {
        CutIgnoresTail(cutter, rest, tail, cut + 1, limit, limit');
      }
    }
  }

  lemma LengthIgnoresTail(cutter: Cutter, rest: Bytes, tail: Bytes)
    requires rest != [] && ChunkLength(cutter, rest) + WINDOW <= |rest|
    ensures ChunkLength(cutter, rest + tail) == ChunkLength(cutter, rest)
  {
    CutIgnoresTail(cutter, rest, tail, cutter.minSize, Min(|rest|, cutter.maxSize), Min(|rest + tail|, cutter.maxSize));
  }

  lemma CutBefore(data: Bytes, tail: Bytes, n: nat)
    requires n <= |data|
    ensures (data + tail)[..n] == data[..n] && (data + tail)[n..] == data[n..] + tail
  {
  }

  lemma ConsPrefix(first: Bytes, later: seq<Bytes>, later': seq<Bytes>, j: nat)
    requires 0 < j && j - 1 <= |later| && j - 1 <= |later'| && later[..j - 1] == later'[..j - 1]
    ensures ([first] + later)[..j] == ([first] + later')[..j]
  {
    assert ([first] + later)[..j] == [first] + later[..j - 1];
    assert ([first] + later')[..j] == [first] + later'[..j - 1];
  }

  lemma SameFirstChunk(cutter: Cutter, a: Bytes, b: Bytes, j: nat)
    requires a != [] && b != [] && 0 < j && ChunkLength(cutter, a) == ChunkLength(cutter, b)
    requires var n := ChunkLength(cutter, a);
      a[..n] == b[..n] &&
      var as', bs' := Chunks(cutter, a[n..]), Chunks(cutter, b[n..]);
      j - 1 <= |as'| && j - 1 <= |bs'| && as'[..j - 1] == bs'[..j - 1]
    ensures j <= |Chunks(cutter, a)| && j <= |Chunks(cutter, b)| && Chunks(cutter, a)[..j] == Chunks(cutter, b)[..j]
  {
    var n := ChunkLength(cutter, a);
    ChunksUnfold(cutter, a);
    ChunksUnfold(cutter, b);
    ConsPrefix(a[..n], Chunks(cutter, a[n..]), Chunks(cutter, b[n..]), j);
  }

  lemma EndOfFirst(first: Bytes, later: seq<Bytes>, j: nat)
    requires 0 < j <= |later| + 1
    ensures EndOf([first] + later, j) == |first| + EndOf(later, j - 1)
  {
    assert ([first] + later)[..j] == [first] + later[..j - 1];
    assert ([first] + later[..j - 1])[1..] == later[..j - 1];
  }

  /** Appending data leaves every chunk in place that ends at least a window before the old end. */
  lemma {:induction false} EarlyChunksStay(cutter: Cutter, data: Bytes, tail: Bytes, j: nat)
    requires j <= |Chunks(cutter, data)| && EndOf(Chunks(cutter, data), j) + WINDOW <= |data|
    ensures j <= |Chunks(cutter, data + tail)| && Chunks(cutter, data + tail)[..j] == Chunks(cutter, data)[..j]
    decreases j
  {
    if j > 0 {
      var n := ChunkLength(cutter, data);
      var first, later := data[..n], Chunks(cutter, data[n..]);
      EndOfFirst(first, later, j);
      LengthIgnoresTail(cutter, data, tail);
      EarlyChunksStay(cutter, data[n..], tail, j - 1);
      CutBefore(data, tail, n);
      SameFirstChunk(cutter, data, data + tail, j);
    }
  }

  // ---------------------------------------------------------------- reconstruction

  /** The first hash the map lacks, if any. */
  ghost predicate IsFirstMissing(hashes: seq<Hash>, chunkMap: map<Hash, Bytes>, h: Hash) {
    exists i :: 0 <= i < |hashes| && hashes[i] == h && h !in chunkMap &&
      forall j :: 0 <= j < i ==> hashes[j] in chunkMap
  }

  ghost predicate AllPresent(hashes: seq<Hash>, chunkMap: map<Hash, Bytes>) {
    forall i :: 0 <= i < |hashes| ==> hashes[i] in chunkMap
  }

  function LookUp(hashes: seq<Hash>, chunkMap: map<Hash, Bytes>): (r: seq<Bytes>)
    requires forall i :: 0 <= i < |hashes| ==> hashes[i] in chunkMap
    ensures |r| == |hashes| && forall i :: 0 <= i < |r| ==> r[i] == chunkMap[hashes[i]]
  {
    seq(|hashes|, i requires 0 <= i < |hashes| => chunkMap[hashes[i]])
  }

  method ReconstructFromChunks(manifest: Manifest, chunkMap: map<Hash, Bytes>) returns (r: Result)
    ensures r.Ok? <==> AllPresent(manifest.chunkHashes, chunkMap)
    ensures r.Ok? ==> r.data == Concat(LookUp(manifest.chunkHashes, chunkMap))
    ensures r.MissingChunk? ==> IsFirstMissing(manifest.chunkHashes, chunkMap, r.hash)
  {
    var hashes := manifest.chunkHashes;
    var buffer: Bytes := [];
    for i := 0 to |hashes|
      invariant forall j :: 0 <= j < i ==> hashes[j] in chunkMap
      invariant buffer == Concat(LookUp(hashes[..i], chunkMap))
    {
      if hashes[i] !in chunkMap {
        return MissingChunk(hashes[i]);
      }
      ConcatAppend(LookUp(hashes[..i], chunkMap), chunkMap[hashes[i]]);
      assert LookUp(hashes[..i + 1], chunkMap) == LookUp(hashes[..i], chunkMap) + [chunkMap[hashes[i]]];
      buffer := buffer + chunkMap[hashes[i]];
    }
    assert hashes[..|hashes|] == hashes;
    return Ok(buffer);
  }

  ghost predicate CollisionFree(hash: Bytes -> Hash, pieces: seq<Bytes>) {
    forall i, j :: 0 <= i < |pieces| && 0 <= j < |pieces| && hash(pieces[i]) == hash(pieces[j]) ==>
      pieces[i] == pieces[j]
  }

  /** The map a caller builds by inserting the chunks one after the other. */
  function ChunkMap(chunks: seq<Chunk>): map<Hash, Bytes> {
    if chunks == [] then map[]
    else ChunkMap(chunks[..|chunks| - 1])[chunks[|chunks| - 1].hash := chunks[|chunks| - 1].data]
  }

  lemma {:induction false} ChunkMapHolds(hash: Bytes -> Hash, chunks: seq<Chunk>, pieces: seq<Bytes>)
    requires |chunks| == |pieces| && CollisionFree(hash, pieces)
    requires forall i :: 0 <= i < |chunks| ==> chunks[i].hash == hash(pieces[i]) && chunks[i].data == pieces[i]
    ensures forall i :: 0 <= i < |chunks| ==>
      chunks[i].hash in ChunkMap(chunks) && ChunkMap(chunks)[chunks[i].hash] == pieces[i]
    decreases |chunks|
  {
    if chunks != [] {
      var n := |chunks| - 1;
      ChunkMapHolds(hash, chunks[..n], pieces[..n]);
      forall i | 0 <= i < n
        ensures chunks[i].hash in ChunkMap(chunks) && ChunkMap(chunks)[chunks[i].hash] == pieces[i]
      {
        assert chunks[..n][i] == chunks[i] && pieces[..n][i] == pieces[i];
      }
    }
  }

  lemma PiecesSpellData(cutter: Cutter, data: Bytes)
    ensures Concat(PiecesOf(cutter, data)) == data
  {
    if data == [] {
      assert PiecesOf(cutter, data)[1..] == [];
    } else {
      ChunksPartition(cutter, data);
    }
  }

  /** Chunking, storing the chunks by hash and reconstructing gives the data back. */
  lemma RoundTrip(cutter: Cutter, hash: Bytes -> Hash, data: Bytes, chunks: seq<Chunk>, hashes: seq<Hash>)
    requires Describes(hash, chunks, PiecesOf(cutter, data)) && CollisionFree(hash, PiecesOf(cutter, data))
    requires |hashes| == |chunks| && forall i :: 0 <= i < |chunks| ==> hashes[i] == chunks[i].hash
    ensures AllPresent(hashes, ChunkMap(chunks)) && Concat(LookUp(hashes, ChunkMap(chunks))) == data
  {
    var pieces := PiecesOf(cutter, data);
    forall i | 0 <= i < |chunks| ensures chunks[i].hash == hash(pieces[i]) && chunks[i].data == pieces[i] {
      assert Carries(hash, chunks[i], pieces, i);
    }
    ChunkMapHolds(hash, chunks, pieces);
    assert AllPresent(hashes, ChunkMap(chunks));
    assert LookUp(hashes, ChunkMap(chunks)) == pieces;
    PiecesSpellData(cutter, data);
  }
}
