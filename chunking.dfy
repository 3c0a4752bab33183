/** Fixed-width character chunking with overlap, as done by `split_text` in
    build_vectorstore.py: slices of `chunkSize` characters taken every
    `chunkSize - overlap` characters, starting at offset 0. */
module Chunking {

  /** The defaults of `split_text`, used by the index builder. */
  const DefaultChunkSize: int := 500
  const DefaultOverlap: int := 50

  function Min(a: int, b: int): int { if a <= b then a else b }

  /** Python's `s[lo:hi]` for non-negative bounds: both ends are clipped to
      the length of `s`, and a slice whose clipped end lies before its start
      is empty. */
  function Slice(s: string, lo: nat, hi: nat): (r: string)
    ensures |r| == if Min(lo, |s|) <= Min(hi, |s|) then Min(hi, |s|) - Min(lo, |s|) else 0
    ensures forall i :: 0 <= i < |r| ==> r[i] == s[lo + i]
  {
    var a := Min(lo, |s|);
    var b := Min(hi, |s|);
    if a <= b then s[a..b] else []
  }

  lemma SliceInside(s: string, lo: nat, len: nat)
    requires lo <= |s|
    ensures Slice(s, lo, lo + len) == s[lo..Min(lo + len, |s|)]
  {
  }

  /** Parameters for which the loop of `split_text` terminates on every text
      and slices with Python's plain (non-negative) bounds: a positive chunk
      size and a positive step `chunkSize - overlap`. */
  predicate ValidParams(chunkSize: int, overlap: int) {
    0 < chunkSize && overlap < chunkSize
  }

  /** ceil(n / d) for a positive divisor. */
  function CeilDiv(n: nat, d: nat): nat
    requires 0 < d
  {
    (n + d - 1) / d
  }

  /** Euclidean division is determined by any quotient and remainder pair. */
  lemma DivUnique(x: int, d: int, q: int, r: int)
    requires 0 <= r < d && x == q * d + r
    ensures x / d == q
  {
    var q', r' := x / d, x % d;
    assert (q' - q) * d == r - r';
    if q' > q {
      MulAtLeast(q' - q, d);
    } else if q' < q {
      MulAtLeast(q - q', d);
    }
  }

  lemma MulAtLeast(a: int, d: int)
    requires 1 <= a && 0 < d
    ensures d <= a * d
  {
    assert a * d == (a - 1) * d + d;
    assert 0 <= (a - 1) * d;
  }

  lemma MulStrictMono(j: int, k: int, d: int)
    requires 0 <= j < k && 0 < d
    ensures 0 <= j * d < k * d
  {
    if j > 0 {
      MulAtLeast(j, d);
    }
    MulAtLeast(k - j, d);
    assert k * d == j * d + (k - j) * d;
  }

  lemma MulPred(k: int, d: int)
    ensures (k - 1) * d + d == k * d
  {
  }

  /** One step of `split_text` accounts for one chunk of the count. */
  lemma CeilDivStep(n: nat, d: nat)
    requires 0 < d && 0 < n
    ensures CeilDiv(n, d) == if n <= d then 1 else CeilDiv(n - d, d) + 1
  {
    if n <= d {
      DivUnique(n + d - 1, d, 1, n - 1);
    } else {
      var x := n - d + d - 1;
      var q, r := x / d, x % d;
      assert x + d == (q + 1) * d + r;
      DivUnique(x + d, d, q + 1, r);
    }
  }

  /** The chunks that the loop of `split_text` emits once `start` has reached
      the given offset: the specification of the loop, one call per iteration. */
  function ChunksFrom(text: string, start: nat, chunkSize: int, overlap: int): (r: seq<string>)
    requires ValidParams(chunkSize, overlap)
    ensures |r| == if start < |text| then CeilDiv(|text| - start, chunkSize - overlap) else 0
    decreases |text| - start
  {
    if start < |text| then
      var step := chunkSize - overlap;
      var head := Slice(text, start, start + chunkSize);
      var rest := ChunksFrom(text, start + step, chunkSize, overlap);
      CeilDivStep(|text| - start, step);
      [head] + rest
    else
      []
  }

  /** The result of `split_text(text, chunkSize, overlap)`. */
  function Chunks(text: string, chunkSize: int, overlap: int): (r: seq<string>)
    requires ValidParams(chunkSize, overlap)
    ensures |r| == CeilDiv(|text|, chunkSize - overlap)
    ensures r == [] <==> text == []
  {
    ChunksFrom(text, 0, chunkSize, overlap)
  }

  lemma {:induction false} ChunkLengthsFrom(text: string, start: nat, chunkSize: int, overlap: int)
    requires ValidParams(chunkSize, overlap)
    ensures forall c :: c in ChunksFrom(text, start, chunkSize, overlap) ==> 0 < |c| <= chunkSize
    decreases |text| - start
  {
    if start < |text| {
      ChunkLengthsFrom(text, start + (chunkSize - overlap), chunkSize, overlap);
    }
  }

  /** Every chunk is non-empty and at most `chunkSize` characters long. */
  lemma ChunkLengths(text: string, chunkSize: int, overlap: int)
    requires ValidParams(chunkSize, overlap)
    ensures forall c :: c in Chunks(text, chunkSize, overlap) ==> 0 < |c| <= chunkSize
  {
    ChunkLengthsFrom(text, 0, chunkSize, overlap);
  }

  /** `split_text`: the loop appends `text[start:start+chunkSize]` and advances
      `start` by `chunkSize - overlap` while `start` is inside the text. */
  method SplitText(text: string, chunkSize: int, overlap: int) returns (chunks: seq<string>)
    requires ValidParams(chunkSize, overlap)
    ensures chunks == Chunks(text, chunkSize, overlap)
  {
    chunks := [];
    var start: nat := 0;
    while start < |text|
      invariant chunks + ChunksFrom(text, start, chunkSize, overlap) == Chunks(text, chunkSize, overlap)
      decreases |text| - start
    {
      chunks := chunks + [Slice(text, start, start + chunkSize)];
      start := start + (chunkSize - overlap);
    }
  }

  /** The offset reached from `start` after k steps of the given length: the
      value of `start` in `split_text` after k iterations of its loop. */
  function Advance(start: int, k: nat, step: int): int
    decreases k
  {
    if k == 0 then start else Advance(start + step, k - 1, step)
  }

  lemma {:induction false} AdvanceIsLinear(start: int, k: nat, step: int)
    decreases k
    ensures Advance(start, k, step) == start + k * step
  {
    if k > 0 {
      AdvanceIsLinear(start + step, k - 1, step);
      MulPred(k, step);
    }
  }

  lemma {:induction false} ChunkAtFrom(text: string, start: nat, chunkSize: int, overlap: int, k: nat)
    requires ValidParams(chunkSize, overlap)
    requires k < |ChunksFrom(text, start, chunkSize, overlap)|
    ensures start <= Advance(start, k, chunkSize - overlap) < |text|
    ensures ChunksFrom(text, start, chunkSize, overlap)[k]
         == Slice(text, Advance(start, k, chunkSize - overlap), Advance(start, k, chunkSize - overlap) + chunkSize)
    decreases k
  {
    var step := chunkSize - overlap;
    if k > 0 {
      var rest := ChunksFrom(text, start + step, chunkSize, overlap);
      assert ChunksFrom(text, start, chunkSize, overlap)[k] == rest[k - 1];
      ChunkAtFrom(text, start + step, chunkSize, overlap, k - 1);
    }
  }

  /** Chunk number k is the slice of at most `chunkSize` characters at offset
      k * (chunkSize - overlap), and that offset lies inside the text; so the
      chunk offsets strictly increase in output order. */
  lemma ChunkAt(text: string, chunkSize: int, overlap: int, k: nat)
    requires ValidParams(chunkSize, overlap)
    requires k < |Chunks(text, chunkSize, overlap)|
    ensures 0 <= k * (chunkSize - overlap) < |text|
    ensures Chunks(text, chunkSize, overlap)[k]
         == text[k * (chunkSize - overlap) .. Min(k * (chunkSize - overlap) + chunkSize, |text|)]
  {
    var off := k * (chunkSize - overlap);
    ChunkAtFrom(text, 0, chunkSize, overlap, k);
    AdvanceIsLinear(0, k, chunkSize - overlap);
    assert Chunks(text, chunkSize, overlap)[k] == Slice(text, off, off + chunkSize);
    SliceInside(text, off, chunkSize);
  }

  /** Chunks j < k are the slices at offsets j * step < k * step: chunk
      offsets strictly increase in output order. */
  lemma ChunkOffsetsIncrease(text: string, chunkSize: int, overlap: int, j: nat, k: nat)
    requires ValidParams(chunkSize, overlap)
    requires j < k < |Chunks(text, chunkSize, overlap)|
    ensures 0 <= j * (chunkSize - overlap) < k * (chunkSize - overlap) < |text|
    ensures Chunks(text, chunkSize, overlap)[j]
         == text[j * (chunkSize - overlap) .. Min(j * (chunkSize - overlap) + chunkSize, |text|)]
    ensures Chunks(text, chunkSize, overlap)[k]
         == text[k * (chunkSize - overlap) .. Min(k * (chunkSize - overlap) + chunkSize, |text|)]
  {
    ChunkAt(text, chunkSize, overlap, j);
    ChunkAt(text, chunkSize, overlap, k);
    MulStrictMono(j, k, chunkSize - overlap);
  }

  /** With the defaults, a 1200-character text gives the chunks at offsets
      0, 450 and 900, the last one 300 characters long. */
  lemma DefaultExample(text: string)
    requires |text| == 1200
    ensures var cs := Chunks(text, DefaultChunkSize, DefaultOverlap);
      |cs| == 3 && cs[0] == text[0..500] && cs[1] == text[450..950] && cs[2] == text[900..1200] && |cs[2]| == 300
  {
    ChunkAt(text, DefaultChunkSize, DefaultOverlap, 0);
    ChunkAt(text, DefaultChunkSize, DefaultOverlap, 1);
    ChunkAt(text, DefaultChunkSize, DefaultOverlap, 2);
  }

  /** Every chunk but the first with its first `overlap` characters dropped
      (Python's `c[overlap:]`), concatenated in order. */
  function DropJoin(chunks: seq<string>, overlap: nat): string {
    if chunks == [] then [] else Slice(chunks[0], overlap, |chunks[0]|) + DropJoin(chunks[1..], overlap)
  }

  /** The first chunk followed by the overlap-trimmed rest. */
  function Reassemble(chunks: seq<string>, overlap: nat): string {
    if chunks == [] then [] else chunks[0] + DropJoin(chunks[1..], overlap)
  }

  /** The chunk at `start` with its first `overlap` characters dropped is
      the part of the text that the previous chunk did not cover. */
  lemma TrimmedChunk(text: string, start: nat, chunkSize: int, overlap: int)
    requires ValidParams(chunkSize, overlap) && 0 <= overlap && start < |text|
    ensures var c := Slice(text, start, start + chunkSize);
      Slice(c, overlap, |c|) == text[Min(start + overlap, |text|)..Min(start + chunkSize, |text|)]
  {
    var c := Slice(text, start, start + chunkSize);
    var mid := Min(start + chunkSize, |text|);
    assert c == text[start..mid];
    if overlap <= |c| {
      assert c[overlap..] == text[start + overlap..mid];
    }
  }

  lemma {:induction false} DropJoinFrom(text: string, start: nat, chunkSize: int, overlap: int)
    requires ValidParams(chunkSize, overlap) && 0 <= overlap
    ensures DropJoin(ChunksFrom(text, start, chunkSize, overlap), overlap) == text[Min(start + overlap, |text|)..]
    decreases |text| - start
  {
    if start < |text| {
      var step := chunkSize - overlap;
      var c := Slice(text, start, start + chunkSize);
      var rest := ChunksFrom(text, start + step, chunkSize, overlap);
      var cs := ChunksFrom(text, start, chunkSize, overlap);
      assert cs == [c] + rest;
      assert cs[1..] == rest;
      DropJoinFrom(text, start + step, chunkSize, overlap);
      TrimmedChunk(text, start, chunkSize, overlap);
      var lo, mid := Min(start + overlap, |text|), Min(start + chunkSize, |text|);
      assert DropJoin(cs, overlap) == text[lo..mid] + text[mid..];
      assert text[lo..] == text[lo..mid] + text[mid..];
    }
  }

  /** For a non-negative overlap, the chunks reassemble to exactly the text. */
  lemma Reconstruct(text: string, chunkSize: int, overlap: int)
    requires ValidParams(chunkSize, overlap) && 0 <= overlap
    ensures Reassemble(Chunks(text, chunkSize, overlap), overlap) == text
  {
    var cs := Chunks(text, chunkSize, overlap);
    if text != [] {
      var step := chunkSize - overlap;
      var head := Slice(text, 0, chunkSize);
      var rest := ChunksFrom(text, step, chunkSize, overlap);
      assert cs == [head] + rest;
      assert cs[1..] == rest;
      DropJoinFrom(text, step, chunkSize, overlap);
      var mid := Min(chunkSize, |text|);
      assert head == text[..mid];
      assert Reassemble(cs, overlap) == text[..mid] + text[mid..];
      assert text == text[..mid] + text[mid..];
    }
  }

  lemma {:induction false} NoProgress(text: string, chunkSize: int, overlap: int, k: nat)
    requires chunkSize <= overlap && text != []
    ensures Advance(0, k, chunkSize - overlap) <= 0 < |text|
  {
    NoProgressFrom(0, k, chunkSize - overlap);
  }

  lemma {:induction false} NoProgressFrom(start: int, k: nat, step: int)
    requires step <= 0
    ensures Advance(start, k, step) <= start
    decreases k
  {
    if k > 0 {
      NoProgressFrom(start + step, k - 1, step);
    }
  }
}
