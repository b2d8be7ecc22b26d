/**
 * The overlapping text chunker of the PDF ingestion script: `split_text` cuts a
 * document into windows of `chunkSize` characters whose starts are `chunkSize - overlap`
 * apart.
 */
module Chunker {
  import opened Wrappers

  /** The only error `split_text` raises: a `ValueError` for a window that would not advance. */
  datatype ChunkError = ValueError(message: string)

  const GUARD_MESSAGE: string := "chunk_size must be greater than overlap to avoid infinite loop."

  function Min(a: int, b: int): int {
    if a <= b then a else b
  }

  /** Python's normalisation of a slice bound: a negative bound counts from the end, then the
      bound is clamped to `[0, len]`. */
  function SliceBound(i: int, len: nat): (b: nat)
    ensures b <= len
    ensures 0 <= i <= len ==> b == i
  {
    if i < 0 then (if i + len < 0 then 0 else i + len)
    else if i > len then len
    else i
  }

  /** Python's `s[i:j]` on a string, for any integer bounds. */
  function PySlice(s: string, i: int, j: int): (r: string)
    ensures 0 <= i <= j <= |s| ==> r == s[i..j]
  {
    var lo, hi := SliceBound(i, |s|), SliceBound(j, |s|);
    if lo < hi then s[lo..hi] else []
  }

  /** The number of iterations of the cursor loop over a text of `n` characters:
      the number of multiples of `step` below `n`. */
  function ChunkCount(n: int, step: int): nat
    requires step >= 1
    decreases n
  {
    if n <= 0 then 0 else 1 + ChunkCount(n - step, step)
  }

  /** The chunk the `k`-th iteration appends: the window starting at `k * step`, with its end
      clamped to the length of the text. */
  function ChunkAt(text: string, chunkSize: int, step: int, k: int): string {
    PySlice(text, k * step, Min(k * step + chunkSize, |text|))
  }

  /** All chunks of `text`, in the order the loop appends them. */
  function ChunkSeq(text: string, chunkSize: int, step: int): seq<string>
    requires step >= 1
  {
    seq(ChunkCount(|text|, step), k => ChunkAt(text, chunkSize, step, k))
  }

  /** What `split_text(text, chunkSize, overlap)` returns or raises; the parameters default
      to 500 and 50 as in `split_text`. */
  function Split(text: string, chunkSize: int := 500, overlap: int := 50): Result<seq<string>, ChunkError> {
    if chunkSize <= overlap then Err(ValueError(GUARD_MESSAGE))
    else Ok(ChunkSeq(text, chunkSize, chunkSize - overlap))
  }

  /** `split_text`: the guard, then a cursor loop that appends one slice per iteration. */
  method SplitText(text: string, chunkSize: int := 500, overlap: int := 50)
    returns (r: Result<seq<string>, ChunkError>)
    ensures r == Split(text, chunkSize, overlap)
    ensures r.Err? <==> chunkSize <= overlap
    ensures r.Ok? && |text| == 0 ==> r.value == []
  {
    if chunkSize <= overlap {
      return Err(ValueError(GUARD_MESSAGE));
    }
    var chunks: seq<string> := [];
    var start := 0;
    ghost var step := chunkSize - overlap;
    while start < |text|
      invariant start == |chunks| * step
      invariant |chunks| + ChunkCount(|text| - start, step) == ChunkCount(|text|, step)
      invariant forall k :: 0 <= k < |chunks| ==> chunks[k] == ChunkAt(text, chunkSize, step, k)
      decreases |text| - start
    {
      var end := Min(start + chunkSize, |text|);
      assert PySlice(text, start, end) == ChunkAt(text, chunkSize, step, |chunks|);
      assert (|chunks| + 1) * step == start + step;
      chunks := chunks + [PySlice(text, start, end)];
      start := start + (chunkSize - overlap);
    }
    assert chunks == ChunkSeq(text, chunkSize, step);
    return Ok(chunks);
  }

  /** Euclidean division is determined by quotient and remainder. */
  lemma DivUnique(a: int, b: int, q: int, rem: int)
    requires b > 0 && 0 <= rem < b && a == q * b + rem
    ensures a / b == q
  {
    var q', rem' := a / b, a % b;
    assert (q' - q) * b == rem - rem';
    if q' > q {
      MulAtLeast(q' - q, b);
    } else if q' < q {
      MulAtLeast(q - q', b);
    }
  }

  lemma MulAtLeast(d: int, b: int)
    requires d >= 1 && b > 0
    ensures d * b >= b
  {
    assert d * b == b + (d - 1) * b;
  }

  /** The number of chunks is `ceil(n / step)`. */
  lemma {:induction false} ChunkCountIsCeiling(n: nat, step: int)
    requires step >= 1
    ensures ChunkCount(n, step) == (n + step - 1) / step
  {
    if n == 0 {
      DivUnique(step - 1, step, 0, step - 1);
    } else if n <= step {
      assert ChunkCount(n - step, step) == 0;
      DivUnique(n + step - 1, step, 1, n - 1);
    } else {
      ChunkCountIsCeiling(n - step, step);
      var q := (n - 1) / step;
      DivUnique(n - 1, step, q, (n - 1) % step);
      DivUnique(n + step - 1, step, q + 1, (n - 1) % step);
    }
  }

  /** Chunk `k` exists exactly when its start offset `k * step` lies inside the text. */
  lemma {:induction false} ChunkIndexInRange(n: int, step: int, k: nat)
    requires step >= 1
    ensures k < ChunkCount(n, step) <==> k * step < n
  {
    if n <= 0 {
      assert k * step >= 0;
    } else if k > 0 {
      ChunkIndexInRange(n - step, step, k - 1);
      assert (k - 1) * step == k * step - step;
    }
  }

  /** For a non-negative `chunkSize`, chunk `k` is the plain window
      `text[k*step .. min(k*step + chunkSize, |text|)]`; it holds at most `chunkSize`
      characters, is non-empty when `chunkSize > 0`, and is shorter than `chunkSize` only
      where its end was clamped to the end of the text. */
  lemma ChunkWindow(text: string, chunkSize: int, overlap: int, k: nat)
    requires overlap < chunkSize && 0 <= chunkSize
    requires k < |ChunkSeq(text, chunkSize, chunkSize - overlap)|
    ensures var step := chunkSize - overlap;
      var start := k * step;
      var chunk := ChunkSeq(text, chunkSize, step)[k];
      && 0 <= start < |text|
      && chunk == text[start .. Min(start + chunkSize, |text|)]
      && |chunk| == Min(chunkSize, |text| - start)
      && |chunk| <= chunkSize
      && (chunkSize > 0 ==> |chunk| > 0)
      && (|chunk| < chunkSize <==> start + chunkSize > |text|)
  {
    var step := chunkSize - overlap;
    ChunkIndexInRange(|text|, step, k);
    assert k * step >= 0;
  }

  /** Consecutive chunks are windows whose starts lie exactly `step` characters apart, both
      inside the text. */
  lemma ChunkStartsAdvance(text: string, chunkSize: int, overlap: int, k: nat)
    requires overlap < chunkSize && 0 <= chunkSize
    requires k + 1 < |ChunkSeq(text, chunkSize, chunkSize - overlap)|
    ensures var step := chunkSize - overlap;
      var chunks := ChunkSeq(text, chunkSize, step);
      var start := k * step;
      && 0 <= start < start + step < |text|
      && chunks[k] == text[start .. Min(start + chunkSize, |text|)]
      && chunks[k + 1] == text[start + step .. Min(start + step + chunkSize, |text|)]
  {
    var step := chunkSize - overlap;
    ChunkWindow(text, chunkSize, overlap, k);
    ChunkWindow(text, chunkSize, overlap, k + 1);
    assert (k + 1) * step == k * step + step;
  }

  /** With a non-negative overlap the chunks cover the text: index `i` lies in chunk
      `i / step`, at offset `i - (i / step) * step`. */
  lemma Coverage(text: string, chunkSize: int, overlap: int, i: int)
    requires 0 <= overlap < chunkSize
    requires 0 <= i < |text|
    ensures var step := chunkSize - overlap;
      var chunks := ChunkSeq(text, chunkSize, step);
      var k := i / step;
      && 0 <= k < |chunks|
      && k * step <= i < k * step + |chunks[k]|
      && chunks[k][i - k * step] == text[i]
  {
    var step := chunkSize - overlap;
    var k := i / step;
    assert i == k * step + i % step;
    assert k >= 0;
    ChunkIndexInRange(|text|, step, k);
    ChunkWindow(text, chunkSize, overlap, k);
  }

  /** With a non-negative overlap, chunk `k + 1` starts with the last characters of chunk `k`:
      the shared part has length `min(overlap, |chunk k+1|)`, which is `overlap` whenever
      chunk `k` has full length. */
  lemma ConsecutiveOverlap(text: string, chunkSize: int, overlap: int, k: nat)
    requires 0 <= overlap < chunkSize
    requires k + 1 < |ChunkSeq(text, chunkSize, chunkSize - overlap)|
    ensures var step := chunkSize - overlap;
      var chunks := ChunkSeq(text, chunkSize, step);
      var shared := Min(overlap, |chunks[k + 1]|);
      && |chunks[k]| == step + shared
      && chunks[k][step..] == chunks[k + 1][..shared]
      && (|chunks[k]| == chunkSize ==> shared == overlap)
  {
    var step := chunkSize - overlap;
    ChunkWindow(text, chunkSize, overlap, k);
    ChunkWindow(text, chunkSize, overlap, k + 1);
    ChunkStartsAdvance(text, chunkSize, overlap, k);
  }

  /** There is no deduplication: a trailing chunk no longer than `overlap` lies entirely
      inside its predecessor. */
  lemma TrailingChunkInsidePredecessor(text: string, chunkSize: int, overlap: int, k: nat)
    requires 0 <= overlap < chunkSize
    requires k + 1 < |ChunkSeq(text, chunkSize, chunkSize - overlap)|
    requires |ChunkSeq(text, chunkSize, chunkSize - overlap)[k + 1]| <= overlap
    ensures var step := chunkSize - overlap;
      var chunks := ChunkSeq(text, chunkSize, step);
      step <= |chunks[k]| && chunks[k + 1] == chunks[k][step..]
  {
    var step := chunkSize - overlap;
    var chunks := ChunkSeq(text, chunkSize, step);
    var prev, next := chunks[k], chunks[k + 1];
    ConsecutiveOverlap(text, chunkSize, overlap, k);
    assert prev[step..] == next[..Min(overlap, |next|)];
    assert Min(overlap, |next|) == |next|;
    assert next[..|next|] == next;
  }

  /** The default parameters on a 1000-character text: three chunks starting at 0, 450 and 900,
      the last one 100 characters long. */
  lemma ThousandCharacterExample(text: string)
    requires |text| == 1000
    ensures Split(text) == Ok([text[0..500], text[450..950], text[900..1000]])
  {
    assert ChunkCount(1000, 450) == 3 by {
      assert ChunkCount(-350, 450) == 0;
      assert ChunkCount(100, 450) == 1;
      assert ChunkCount(550, 450) == 2;
    }
    var chunks := ChunkSeq(text, 500, 450);
    assert chunks[0] == text[0..500];
    assert chunks[1] == text[450..950];
    assert chunks[2] == text[900..1000];
    assert chunks == [text[0..500], text[450..950], text[900..1000]];
  }

  /** The default parameters on a 480-character text: the second chunk repeats the tail of the first. */
  lemma ShortTextExample(text: string)
    requires |text| == 480
    ensures Split(text) == Ok([text[0..480], text[450..480]])
  {
    assert ChunkCount(480, 450) == 2 by {
      assert ChunkCount(-420, 450) == 0;
      assert ChunkCount(30, 450) == 1;
    }
    var chunks := ChunkSeq(text, 500, 450);
    assert chunks[0] == text[0..480];
    assert chunks[1] == text[450..480];
    assert chunks == [text[0..480], text[450..480]];
  }

  /** The guard admits a negative `chunkSize` when `overlap` is smaller still; Python then reads
      the negative slice end from the end of the text, so a chunk can be longer than
      `chunkSize` and another one empty. */
  lemma NegativeChunkSizeExample()
    ensures Split("abcdef", -2, -5) == Ok(["abcd", ""])
  {
    assert ChunkCount(6, 3) == 2 by {
      assert ChunkCount(0, 3) == 0;
      assert ChunkCount(3, 3) == 1;
    }
    var chunks := ChunkSeq("abcdef", -2, 3);
    assert chunks[0] == "abcd";
    assert chunks[1] == "";
    assert chunks == ["abcd", ""];
  }
}
