/**
 * The offline ingestion script: splitting a knowledge-base file into overlapping
 * windows (`chunk_text`) and the facts about those windows: how many there are,
 * how large, and that dropping each window's overlap gives the text back. The loop of
 * `main` is in module IngestBatch.
 */
module Ingest {
  import opened Wrappers
  import opened Text

  /** The defaults of `chunk_text`, which is how `main` calls it. */
  const MaxChars: int := 1200
  const Overlap: int := 150

  /** ceil(n / step) */
  function CeilDiv(n: nat, step: nat): nat
    requires step > 0
  {
    (n + step - 1) / step
  }

  /** k * step, unfolded one step at a time so that proofs stay linear. */
  function Offset(k: nat, step: nat): nat {
    if k == 0 then 0 else Offset(k - 1, step) + step
  }

  lemma {:induction false} OffsetIsProduct(k: nat, step: nat)
    ensures Offset(k, step) == k * step
  {
    if k > 0 {
      OffsetIsProduct(k - 1, step);
      assert (k - 1) * step + step == k * step;
    }
  }

  lemma {:induction false} OffsetMonotone(a: nat, b: nat, step: nat)
    requires a <= b
    ensures Offset(a, step) <= Offset(b, step)
    decreases b
  {
    if a < b {
      OffsetMonotone(a, b - 1, step);
    }
  }

  /** CeilDiv is the least number of steps that covers n. */
  lemma CeilDivBounds(n: nat, step: nat)
    requires step > 0
    ensures Offset(CeilDiv(n, step), step) >= n
    ensures n > 0 ==> Offset(CeilDiv(n, step) - 1, step) < n
    ensures n == 0 <==> CeilDiv(n, step) == 0
  {
    var c := CeilDiv(n, step);
    var r := (n + step - 1) % step;
    assert n + step - 1 == c * step + r;
    OffsetIsProduct(c, step);
    if c > 0 {
      OffsetIsProduct(c - 1, step);
      assert (c - 1) * step == c * step - step;
    }
  }

  /** A count c that satisfies the covering bounds is CeilDiv. */
  lemma CeilDivUnique(n: nat, step: nat, c: nat)
    requires step > 0 && Offset(c, step) >= n
    requires c > 0 ==> Offset(c - 1, step) < n
    requires n == 0 ==> c == 0
    ensures c == CeilDiv(n, step)
  {
    CeilDivBounds(n, step);
    var d := CeilDiv(n, step);
    if c < d {
      OffsetMonotone(c, d - 1, step);
    } else if c > d {
      OffsetMonotone(d, c - 1, step);
    }
  }

  /** The trimmed text that `chunk_text` works on: `(text or "").strip()`. */
  function Trimmed(text: Option<string>): string {
    Strip(text.GetOr(""))
  }

  /** Window k of t: the Python slice `t[k*step : k*step+maxChars]`. */
  function Window(t: string, maxChars: nat, step: nat, k: nat): string {
    Slice(t, Offset(k, step), Offset(k, step) + maxChars)
  }

  /** The first m windows of t. */
  function WindowsUpTo(t: string, maxChars: nat, step: nat, m: nat): (ws: seq<string>)
    ensures |ws| == m
  {
    if m == 0 then [] else WindowsUpTo(t, maxChars, step, m - 1) + [Window(t, maxChars, step, m - 1)]
  }

  lemma {:induction false} WindowsUpToAt(t: string, maxChars: nat, step: nat, m: nat, k: nat)
    requires k < m
    ensures WindowsUpTo(t, maxChars, step, m)[k] == Window(t, maxChars, step, k)
  {
    if k < m - 1 {
      WindowsUpToAt(t, maxChars, step, m - 1, k);
    }
  }

  /**
   * The reference definition of the chunking: the first ceil(|t| / step) windows,
   * window k being the Python slice `t[k*step : k*step+maxChars]`.
   */
  function Chunks(t: string, maxChars: int, overlap: int): seq<string>
    requires 0 < maxChars && overlap < maxChars
  {
    var step := maxChars - overlap;
    WindowsUpTo(t, maxChars, step, CeilDiv(|t|, step))
  }

  /** `chunk_text(text, max_chars, overlap)`: slide a window over the trimmed text. */
  method ChunkText(text: Option<string>, maxChars: int, overlap: int) returns (chunks: seq<string>)
    requires 0 < maxChars && overlap < maxChars
    ensures chunks == Chunks(Trimmed(text), maxChars, overlap)
  {
    var t := Strip(match text case Some(s) => s case None => "");
    assert t == Trimmed(text);
    var step := maxChars - overlap;
    if |t| == 0 {
      CeilDivBounds(0, step);
      return [];
    }
    chunks := [];
    var i := 0;
    while i < |t|
      invariant i == Offset(|chunks|, step)
      invariant |chunks| > 0 ==> i - step < |t|
      invariant |chunks| == 0 ==> i == 0
      invariant chunks == WindowsUpTo(t, maxChars, step, |chunks|)
      decreases |t| - i
    {
      var chunk := Slice(t, i, i + maxChars);
      chunks := chunks + [chunk];
      i := i + step;
    }
    CeilDivUnique(|t|, step, |chunks|);
  }

  /** Blank or missing text gives no chunks. */
  lemma BlankGivesNoChunks(text: Option<string>, maxChars: int, overlap: int)
    requires 0 < maxChars && overlap < maxChars
    requires forall k :: 0 <= k < |text.GetOr("")| ==> IsSpace(text.GetOr("")[k])
    ensures Chunks(Trimmed(text), maxChars, overlap) == []
  {
    var s := text.GetOr("");
    var i, j := StripIsSlice(s);
    StripIsStripped(s);
    CeilDivBounds(|Trimmed(text)|, maxChars - overlap);
  }

  /**
   * There are ceil(|t| / step) chunks: the fewest windows whose starts, step apart,
   * reach the end of t.
   */
  lemma ChunkCount(t: string, maxChars: int, overlap: int)
    requires 0 < maxChars && overlap < maxChars
    ensures var step := maxChars - overlap;
      var cs := Chunks(t, maxChars, overlap);
      && |cs| == (|t| + step - 1) / step
      && |cs| * step >= |t|
      && (|cs| > 0 ==> (|cs| - 1) * step < |t|)
      && (|cs| == 0 <==> |t| == 0)
  {
    var step := maxChars - overlap;
    var c := CeilDiv(|t|, step);
    CeilDivBounds(|t|, step);
    OffsetIsProduct(c, step);
    if c > 0 {
      OffsetIsProduct(c - 1, step);
    }
  }

  /** Chunk k is the Python slice `t[k*step : k*step+maxChars]`. */
  lemma ChunkWindow(t: string, maxChars: int, overlap: int, k: nat)
    requires 0 < maxChars && overlap < maxChars
    requires k < |Chunks(t, maxChars, overlap)|
    ensures var step := maxChars - overlap;
      Chunks(t, maxChars, overlap)[k] == Slice(t, k * step, k * step + maxChars)
  {
    var step := maxChars - overlap;
    WindowsUpToAt(t, maxChars, step, CeilDiv(|t|, step), k);
    OffsetIsProduct(k, step);
  }

  /** Every chunk is non-empty and at most maxChars long. */
  lemma ChunkSizes(t: string, maxChars: int, overlap: int, k: nat)
    requires 0 < maxChars && overlap < maxChars
    requires k < |Chunks(t, maxChars, overlap)|
    ensures 0 < |Chunks(t, maxChars, overlap)[k]| <= maxChars
  {
    var step := maxChars - overlap;
    WindowsUpToAt(t, maxChars, step, CeilDiv(|t|, step), k);
    CeilDivBounds(|t|, step);
    OffsetMonotone(k, CeilDiv(|t|, step) - 1, step);
  }

  /**
   * Chunk 0 followed by every later chunk without its first `overlap` characters
   * (`chunk[overlap:]`).
   */
  function Reassemble(cs: seq<string>, overlap: nat): string
  {
    if |cs| == 0 then []
    else if |cs| == 1 then cs[0]
    else Reassemble(cs[..|cs| - 1], overlap) + SliceFrom(cs[|cs| - 1], overlap)
  }

  /** Window k without its overlap continues the text exactly where window k - 1 ended. */
  lemma WindowContinues(t: string, maxChars: nat, step: nat, k: nat)
    requires 0 < step <= maxChars && 1 <= k && Offset(k, step) < |t|
    ensures t[..Min(Offset(k - 1, step) + maxChars, |t|)] + SliceFrom(Window(t, maxChars, step, k), maxChars - step)
         == t[..Min(Offset(k, step) + maxChars, |t|)]
  {
    var overlap := maxChars - step;
    var start := Offset(k, step);
    assert start == Offset(k - 1, step) + step;
    var end := Min(start + maxChars, |t|);
    var before := Min(start + overlap, |t|);
    assert Window(t, maxChars, step, k) == t[start..end];
    assert start <= before <= end;
    PrefixThenTail(t, start, before, end);
  }

  lemma PrefixThenTail<T>(t: seq<T>, start: nat, before: nat, end: nat)
    requires start <= before <= end <= |t|
    ensures t[..before] + SliceFrom(t[start..end], before - start) == t[..end]
  {
    assert t[start..end][before - start..] == t[before..end];
    assert t[..before] + t[before..end] == t[..end];
  }

  /** One step of the reassembly: window m - 1 extends what windows 0 .. m - 2 gave. */
  lemma WindowsReassembleStep(t: string, maxChars: nat, step: nat, m: nat)
    requires 0 < step <= maxChars && 2 <= m && Offset(m - 1, step) < |t|
    requires Reassemble(WindowsUpTo(t, maxChars, step, m - 1), maxChars - step)
          == t[..Min(Offset(m - 1 - 1, step) + maxChars, |t|)]
    ensures Reassemble(WindowsUpTo(t, maxChars, step, m), maxChars - step)
         == t[..Min(Offset(m - 1, step) + maxChars, |t|)]
  {
    var ws := WindowsUpTo(t, maxChars, step, m);
    assert ws[..m - 1] == WindowsUpTo(t, maxChars, step, m - 1);
    WindowContinues(t, maxChars, step, m - 1);
  }

  /** Window 0 alone is the text up to its own end. */
  lemma WindowsReassembleFirst(t: string, maxChars: nat, step: nat, m: nat)
    requires 0 < |t| && step <= maxChars && m == 1
    ensures Reassemble(WindowsUpTo(t, maxChars, step, m), maxChars - step)
         == t[..Min(Offset(m - 1, step) + maxChars, |t|)]
  {
    assert WindowsUpTo(t, maxChars, step, 1) == [Window(t, maxChars, step, 0)];
  }

  /** The first m windows reassemble to the text up to the end of window m - 1. */
  lemma {:induction false} WindowsReassemble(t: string, maxChars: nat, step: nat, m: nat)
    requires 0 < step <= maxChars
    requires 1 <= m && Offset(m - 1, step) < |t|
    ensures Reassemble(WindowsUpTo(t, maxChars, step, m), maxChars - step)
         == t[..Min(Offset(m - 1, step) + maxChars, |t|)]
  {
    if m == 1 {
      WindowsReassembleFirst(t, maxChars, step, m);
    } else {
      OffsetMonotone(m - 1 - 1, m - 1, step);
      WindowsReassemble(t, maxChars, step, m - 1);
      WindowsReassembleStep(t, maxChars, step, m);
    }
  }

  /** Removing the overlaps gives back the trimmed text exactly. */
  lemma ReassembleChunks(t: string, maxChars: int, overlap: int)
    requires 0 <= overlap < maxChars
    ensures Reassemble(Chunks(t, maxChars, overlap), overlap) == t
  {
    var step := maxChars - overlap;
    var c := CeilDiv(|t|, step);
    CeilDivBounds(|t|, step);
    if c > 0 {
      assert Offset(c, step) == Offset(c - 1, step) + step;
      WindowsReassemble(t, maxChars, step, c);
      assert t[..|t|] == t;
    }
  }
}
