/** The chunk list of `resumir_texto`: the text cut into consecutive
    pieces of at most `max_chunk_length` characters. */
module Chunker {
  import opened Text

  /** `max_chunk_length` in `resumir_texto`. */
  const MaxChunkLength: nat := 1024

  function Min(a: int, b: int): int {
    if a <= b then a else b
  }

  /** Python's `s[lo:hi]` for non-negative bounds: both ends are clamped to
      the length, and a reversed range gives the empty string. */
  function Slice(s: string, lo: nat, hi: nat): string {
    var a, b := Min(lo, |s|), Min(hi, |s|);
    if b <= a then [] else s[a..b]
  }

  /** How many start offsets 0, size, 2 * size, ... lie below `n`. */
  function ChunkCount(n: nat, size: nat): nat
    requires size > 0
  {
    (n + size - 1) / size
  }

  /** The chunk list of `resumir_texto`: one Python slice of length `size`
      per start offset below the length, so chunk `j` is the slice that
      starts at `j * size`. */
  function Chunks(s: string, size: nat): seq<string>
    requires size > 0
  {
    seq(ChunkCount(|s|, size), j requires 0 <= j < ChunkCount(|s|, size) => Slice(s, j * size, j * size + size))
  }

  /** Every start offset of the chunk list lies inside
      the text, and the one after the last does not. */
  lemma ChunkStartInside(n: nat, size: nat, j: nat)
    requires size > 0
    ensures j < ChunkCount(n, size) <==> j * size < n
  {
    var c := ChunkCount(n, size);
    var r := (n + size - 1) % size;
    assert c * size + r == n + size - 1;
    if j < c {
      MulMonotone(j + 1, c, size);
    } else {
      MulMonotone(c, j, size);
    }
  }

  lemma {:induction false} MulMonotone(a: nat, b: nat, k: nat)
    requires a <= b
    ensures a * k <= b * k
    decreases b - a
  {
    if a < b {
      MulMonotone(a + 1, b, k);
    }
  }

  /** Chunk `j` is the text from `j * size` to the next boundary or the end. */
  lemma ChunkIsSlice(s: string, size: nat, j: nat)
    requires size > 0 && j < |Chunks(s, size)|
    ensures j * size < |s|
    ensures Chunks(s, size)[j] == s[j * size..Min(j * size + size, |s|)]
  {
    ChunkStartInside(|s|, size, j);
  }

  /** Every chunk is non-empty and at most `size` long, and every chunk but
      the last is exactly `size` long. */
  lemma ChunkLengths(s: string, size: nat)
    requires size > 0
    ensures forall j :: 0 <= j < |Chunks(s, size)| ==> 0 < |Chunks(s, size)[j]| <= size
    ensures forall j :: 0 <= j < |Chunks(s, size)| - 1 ==> |Chunks(s, size)[j]| == size
  {
    var cs := Chunks(s, size);
    forall j | 0 <= j < |cs|
      ensures 0 < |cs[j]| <= size
      ensures j < |cs| - 1 ==> |cs[j]| == size
    {
      ChunkIsSlice(s, size, j);
      if j < |cs| - 1 {
        ChunkIsSlice(s, size, j + 1);
        assert (j + 1) * size == j * size + size;
      }
    }
  }

  /** The number of chunks is the ceiling of `|s| / size`: the fewest pieces
      of length `size` that cover the text. */
  lemma ChunkCountIsCeiling(s: string, size: nat)
    requires size > 0
    ensures |Chunks(s, size)| * size >= |s|
    ensures |Chunks(s, size)| > 0 ==> (|Chunks(s, size)| - 1) * size < |s|
    ensures Chunks(s, size) == [] <==> s == []
  {
    var c := |Chunks(s, size)|;
    ChunkStartInside(|s|, size, c);
    if c > 0 {
      ChunkStartInside(|s|, size, c - 1);
    }
  }

  /** A non-empty text no longer than `size` is a single chunk. */
  lemma ShortTextIsOneChunk(s: string, size: nat)
    requires size > 0 && 0 < |s| <= size
    ensures Chunks(s, size) == [s]
  {
    ChunkCountIsCeiling(s, size);
    var c := |Chunks(s, size)|;
    if c > 1 {
      MulMonotone(1, c - 1, size);
    }
    assert c == 1;
    ChunkIsSlice(s, size, 0);
    assert s[0..|s|] == s;
  }

  /** The first `j` chunks glued together are the text up to `j * size`. */
  lemma {:induction false} ConcatChunkPrefix(s: string, size: nat, j: nat)
    requires size > 0 && j <= |Chunks(s, size)|
    ensures Concat(Chunks(s, size)[..j]) == s[..Min(j * size, |s|)]
  {
    var cs := Chunks(s, size);
    if j > 0 {
      ConcatChunkPrefix(s, size, j - 1);
      ChunkIsSlice(s, size, j - 1);
      assert cs[..j][..j - 1] == cs[..j - 1];
      assert (j - 1) * size + size == j * size;
      assert s[..(j - 1) * size] + s[(j - 1) * size..Min(j * size, |s|)] == s[..Min(j * size, |s|)];
    }
  }

  /** Chunking is lossless: the chunks glued together in order give back
      the text, with no character lost or repeated. */
  lemma ConcatChunks(s: string, size: nat)
    requires size > 0
    ensures Concat(Chunks(s, size)) == s
  {
    var cs := Chunks(s, size);
    ConcatChunkPrefix(s, size, |cs|);
    ChunkCountIsCeiling(s, size);
    assert cs[..|cs|] == cs;
  }
}
