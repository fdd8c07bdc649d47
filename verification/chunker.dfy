/** The sliding-window chunker of the index build: the source text is cut
    into windows of `size` characters, each starting `size - overlap` after
    the previous one, and every window is stripped and kept. The script
    runs it with size 500 and overlap 100. */
module Chunker {
  import opened Text

  function Min(a: int, b: int): int {
    if a <= b then a else b
  }

  /** Where the i-th window begins when consecutive windows are `step`
      apart: the loop adds `step` to `start` once per pass. */
  function Start(i: nat, step: nat): nat {
    if i == 0 then 0 else Start(i - 1, step) + step
  }

  /** The i-th window begins at i * step. */
  lemma {:induction false} StartIsProduct(i: nat, step: nat)
    ensures Start(i, step) == i * step
  {
    if i > 0 {
      StartIsProduct(i - 1, step);
    }
  }

  lemma {:induction false} StartMonotone(i: nat, j: nat, step: nat)
    requires i <= j
    ensures Start(i, step) <= Start(j, step)
  {
    if i < j {
      StartMonotone(i, j - 1, step);
    }
  }

  /** The number of windows over a text of `n` characters: the smallest
      count whose next start would lie at or past the end of the text,
      that is, the ceiling of n / step. */
  function ChunkCount(n: nat, step: nat): (c: nat)
    requires step > 0
    ensures Start(c, step) >= n
    ensures c > 0 ==> Start(c - 1, step) < n
    ensures c == 0 <==> n == 0
  {
    var c := (n + step - 1) / step;
    assert c * step + (n + step - 1) % step == n + step - 1;
    StartIsProduct(c, step);
    if c > 0 then StartIsProduct(c - 1, step); c else c
  }

  /** The two ensures of ChunkCount determine the count. */
  lemma CountIsCeiling(n: nat, step: nat, c: nat)
    requires step > 0
    requires Start(c, step) >= n
    requires c > 0 ==> Start(c - 1, step) < n
    ensures c == ChunkCount(n, step)
  {
    var d := ChunkCount(n, step);
    if c < d {
      StartMonotone(c, d - 1, step);
    } else if c > d {
      StartMonotone(d, c - 1, step);
    }
  }

  /** Window i exists (the loop reaches it) exactly when it starts inside
      the text, that is, when i is below the window count. */
  lemma WindowExists(n: nat, step: nat, i: nat)
    requires step > 0
    ensures i < ChunkCount(n, step) <==> Start(i, step) < n
  {
    var c := ChunkCount(n, step);
    if i < c {
      StartMonotone(i, c - 1, step);
    } else {
      StartMonotone(c, i, step);
    }
  }

  /** The raw i-th window: `text[start:start + size]`, which Python clamps
      at the end of the text. It is never empty and never longer than size. */
  function Window(text: string, size: nat, overlap: nat, i: nat): (w: string)
    requires overlap < size
    requires Start(i, size - overlap) < |text|
    ensures 0 < |w| <= size
  {
    var start := Start(i, size - overlap);
    text[start..Min(start + size, |text|)]
  }

  /** The first m windows, each passed through `clean`, in window order. */
  function Chunks(text: string, size: nat, overlap: nat, m: nat, clean: string -> string): (r: seq<string>)
    requires overlap < size
    requires m > 0 ==> Start(m - 1, size - overlap) < |text|
    ensures |r| == m
  {
    if m == 0 then []
    else Chunks(text, size, overlap, m - 1, clean) + [clean(Window(text, size, overlap, m - 1))]
  }

  /** Chunks(m) holds m chunks, and its i-th is the i-th window, stripped,
      so it is never longer than size. */
  lemma {:induction false} ChunksAt(text: string, size: nat, overlap: nat, m: nat, i: nat)
    requires overlap < size
    requires m > 0 ==> Start(m - 1, size - overlap) < |text|
    requires i < m
    ensures |Chunks(text, size, overlap, m, Strip)| == m
    ensures Start(i, size - overlap) < |text|
    ensures Chunks(text, size, overlap, m, Strip)[i] == Strip(Window(text, size, overlap, i))
    ensures |Chunks(text, size, overlap, m, Strip)[i]| <= size
  {
    if i < m - 1 {
      ChunksAt(text, size, overlap, m - 1, i);
    } else if m > 1 {
      ChunksAt(text, size, overlap, m - 1, 0);
    }
  }

  /** One pass of the loop: the next chunk is the cleaned slice that begins
      at the current start, and the next start is size - overlap on. */
  lemma ChunksStep(text: string, size: nat, overlap: nat, m: nat, clean: string -> string)
    requires overlap < size
    requires Start(m, size - overlap) < |text|
    ensures Chunks(text, size, overlap, m + 1, clean) ==
      Chunks(text, size, overlap, m, clean) + [clean(text[Start(m, size - overlap)..Min(Start(m, size - overlap) + size, |text|)])]
    ensures Start(m + 1, size - overlap) == Start(m, size - overlap) + size - overlap
  {
  }

  /** The chunking loop. Each pass appends the cleaned window that begins at
      `start` and moves `start` forward by size - overlap; nothing is
      filtered, so there is one chunk per window, in window order. The loop
      is stated for any per-window clean-up; the script's is `strip()`. */
  method ChunkWith(text: string, size: nat, overlap: nat, clean: string -> string) returns (chunks: seq<string>)
    requires overlap < size
    ensures |chunks| == ChunkCount(|text|, size - overlap)
    ensures chunks == Chunks(text, size, overlap, |chunks|, clean)
  {
    chunks := [];
    var start := 0;
    while start < |text|
      invariant start == Start(|chunks|, size - overlap)
      invariant |chunks| > 0 ==> Start(|chunks| - 1, size - overlap) < |text|
      invariant chunks == Chunks(text, size, overlap, |chunks|, clean)
      decreases |text| - start
    {
      var end := start + size;
      var chunk := text[start..Min(end, |text|)];
      ChunksStep(text, size, overlap, |chunks|, clean);
      chunks := chunks + [clean(chunk)];
      start := end - overlap;
    }
    CountIsCeiling(|text|, size - overlap, |chunks|);
  }

  /** The script's chunker: the loop above with `strip()` as the clean-up
      (see ChunksAt for what the i-th chunk is). */
  method ChunkText(text: string, size: nat, overlap: nat) returns (chunks: seq<string>)
    requires overlap < size
    ensures |chunks| == ChunkCount(|text|, size - overlap)
    ensures chunks == Chunks(text, size, overlap, |chunks|, Strip)
  {
    chunks := ChunkWith(text, size, overlap, Strip);
  }

  /** Every character of the text lies in some window: character k lies in
      window k / (size - overlap), at offset k - Start(k / (size - overlap)). */
  lemma Coverage(text: string, size: nat, overlap: nat, k: nat)
    requires overlap < size
    requires k < |text|
    ensures var i := k / (size - overlap);
      i < ChunkCount(|text|, size - overlap) &&
      Start(i, size - overlap) <= k < Start(i, size - overlap) + |Window(text, size, overlap, i)| &&
      Window(text, size, overlap, i)[k - Start(i, size - overlap)] == text[k]
  {
    var step := size - overlap;
    var i := k / step;
    StartIsProduct(i, step);
    assert Start(i, step) + k % step == k;
    WindowExists(|text|, step, i);
  }

  /** Two consecutive windows, the first of which is not cut short by the
      end of the text, share exactly `overlap` characters: the last overlap
      characters of window i are the first overlap characters of window i + 1. */
  lemma SharedOverlap(text: string, size: nat, overlap: nat, i: nat)
    requires overlap < size
    requires Start(i + 1, size - overlap) < |text|
    requires Start(i, size - overlap) + size <= |text|
    ensures |Window(text, size, overlap, i)| == size
    ensures overlap <= |Window(text, size, overlap, i + 1)|
    ensures Window(text, size, overlap, i)[size - overlap..] == Window(text, size, overlap, i + 1)[..overlap]
  {
  }

  /** Once a window reaches the end of the text, every later window lies
      inside it: the trailing windows repeat text already chunked. */
  lemma TrailingWindowInsidePrevious(text: string, size: nat, overlap: nat, i: nat)
    requires overlap < size
    requires Start(i + 1, size - overlap) < |text|
    requires Start(i, size - overlap) + size >= |text|
    ensures Window(text, size, overlap, i + 1) == Window(text, size, overlap, i)[size - overlap..]
  {
  }

  /** Every character of text[lo..hi] is whitespace. */
  predicate Blank(text: string, lo: int, hi: int) {
    forall k :: lo <= k < hi && 0 <= k < |text| ==> IsSpace(text[k])
  }

  /** A window whose characters are all whitespace strips to "". */
  lemma WhitespaceWindowStrips(text: string, size: nat, overlap: nat, i: nat)
    requires overlap < size
    requires Start(i, size - overlap) < |text|
    requires Blank(text, Start(i, size - overlap), Min(Start(i, size - overlap) + size, |text|))
    ensures Strip(Window(text, size, overlap, i)) == []
  {
    var st := Start(i, size - overlap);
    var w := Window(text, size, overlap, i);
    forall k | 0 <= k < |w|
      ensures IsSpace(w[k])
    {
      assert w[k] == text[st + k];
    }
    StripAllSpace(w);
  }

  /** Nothing is filtered: a window made only of whitespace still yields its
      chunk, the empty string, at its place in the chunk list. */
  lemma WhitespaceWindowsKept(text: string, size: nat, overlap: nat, m: nat, i: nat)
    requires overlap < size
    requires m > 0 ==> Start(m - 1, size - overlap) < |text|
    requires i < m
    requires Blank(text, Start(i, size - overlap), Min(Start(i, size - overlap) + size, |text|))
    ensures |Chunks(text, size, overlap, m, Strip)| == m
    ensures Chunks(text, size, overlap, m, Strip)[i] == []
  {
    ChunksAt(text, size, overlap, m, i);
    WhitespaceWindowStrips(text, size, overlap, i);
  }

  /** The window counts for the script's configuration (500 / 100): the
      empty text has none, 1000 characters give the windows at 0, 400 and
      800, and 450 characters give two windows, the second lying inside
      the first. */
  lemma ScriptConfigurationCounts()
    ensures ChunkCount(0, 500 - 100) == 0
    ensures ChunkCount(1000, 500 - 100) == 3
    ensures Start(1, 400) == 400 && Start(2, 400) == 800
    ensures ChunkCount(450, 500 - 100) == 2
  {
  }
}
