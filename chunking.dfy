/**
 * Fixed-size text chunking (chunk_text in codebase_rag.py).
 *
 * The source is the list comprehension
 * `[text[i:i+max_length] for i in range(0, len(text), max_length)]`:
 * chunk k is the Python slice starting at k * max_length, and there is one
 * chunk per element of the range.
 */
module Chunking {
  import opened Wrappers
  import opened Strings

  /** CHUNK_SIZE, the default max_length, in characters. */
  const CHUNK_SIZE: nat := 512

  function Min(a: int, b: int): int { if a <= b then a else b }

  /** Python's s[lo:hi] for non-negative bounds: both bounds are clamped to |s|. */
  function Slice(s: string, lo: nat, hi: nat): string
  {
    var l := Min(lo, |s|);
    var h := Min(hi, |s|);
    if l <= h then s[l..h] else []
  }

  /** len(range(0, stop, step)) for a positive step. */
  function RangeLength(stop: nat, step: nat): nat
    requires step > 0
    decreases stop
  {
    if stop == 0 then 0
    else if stop <= step then 1
    else 1 + RangeLength(stop - step, step)
  }

  /**
   * chunk_text(text, m) for a positive m: consecutive, non-overlapping pieces
   * of m characters, the last one possibly shorter.
   */
  function Chunks(text: string, m: nat): seq<string>
    requires m > 0
    decreases |text|
  {
    if |text| == 0 then []
    else if |text| <= m then [text]
    else [text[..m]] + Chunks(text[m..], m)
  }

  /**
   * The source's own formulation: `[text[i:i+m] for i in range(0, len(text), m)]`,
   * one Python slice per element k * m of the range.
   */
  function ChunksComprehension(text: string, m: nat): seq<string>
    requires m > 0
  {
    seq(RangeLength(|text|, m), k requires 0 <= k < RangeLength(|text|, m) => Slice(text, k * m, k * m + m))
  }

  datatype ChunkError = ZeroStep  // range() raises ValueError when its step is 0

  /**
   * chunk_text with an arbitrary integer max_length: 0 makes range() raise,
   * a negative step gives an empty range and so an empty list.
   */
  function ChunkText(text: string, maxLength: int): (r: Result<seq<string>, ChunkError>)
    ensures r.Failure? <==> maxLength == 0
    ensures maxLength < 0 ==> r == Success([])
    ensures maxLength > 0 ==> r.Success? && Concat(r.value) == text
  {
    if maxLength == 0 then Failure(ZeroStep)
    else if maxLength < 0 then Success([])
    else ChunksConcat(text, maxLength); Success(Chunks(text, maxLength))
  }

  /** The range has ceil(n / m) elements: the least c with c * m >= n. */
  lemma {:induction false} RangeLengthIsCeiling(n: nat, m: nat)
    requires m > 0
    ensures RangeLength(n, m) * m >= n
    ensures n > 0 ==> (RangeLength(n, m) - 1) * m < n
    ensures RangeLength(n, m) == (n + m - 1) / m
    decreases n
  {
    var c := RangeLength(n, m);
    if n == 0 {
    } else if n <= m {
      DivisionUnique(n + m - 1, m, 1);
    } else {
      RangeLengthIsCeiling(n - m, m);
      var c' := RangeLength(n - m, m);
      assert c == c' + 1;
      assert c * m == c' * m + m;
      DivisionUnique(n + m - 1, m, c);
    }
  }

  /** q is x / m when q * m <= x < q * m + m. */
  lemma DivisionUnique(x: nat, m: nat, q: int)
    requires m > 0
    requires q * m <= x < q * m + m
    ensures x / m == q
  {
    var d := x / m;
    assert d * m + x % m == x;
    if d < q {
      MulAtLeast(q - d, m);
      MulSplit(d, q - d, m);
      assert false;
    } else if d > q {
      MulAtLeast(d - q, m);
      MulSplit(q, d - q, m);
      assert false;
    }
  }

  lemma MulAtLeast(k: int, m: nat)
    requires k >= 1
    ensures k * m >= m
  {
  }

  lemma MulSplit(a: int, b: int, m: int)
    ensures (a + b) * m == a * m + b * m
  {
  }

  /** Joining the chunks in order gives back the text exactly. */
  lemma {:induction false} ChunksConcat(text: string, m: nat)
    requires m > 0
    ensures Concat(Chunks(text, m)) == text
    decreases |text|
  {
    if |text| > m {
      ChunksConcat(text[m..], m);
      var rest := Chunks(text[m..], m);
      assert ([text[..m]] + rest)[1..] == rest;
    }
  }

  /**
   * Shape of the chunk list: empty text gives no chunks (not [""]); a text of
   * length at most m is one chunk; otherwise every chunk but the last has
   * exactly m characters and the last between 1 and m.
   */
  lemma {:induction false} ChunksShape(text: string, m: nat)
    requires m > 0
    ensures |text| == 0 <==> Chunks(text, m) == []
    ensures 0 < |text| <= m ==> Chunks(text, m) == [text]
    ensures var r := Chunks(text, m);
      forall k :: 0 <= k < |r| - 1 ==> |r[k]| == m
    ensures var r := Chunks(text, m);
      |r| > 0 ==> 0 < |r[|r| - 1]| <= m
    decreases |text|
  {
    if |text| > m {
      ChunksShape(text[m..], m);
    }
  }

  /**
   * There are ceil(|text| / m) chunks, and chunk k is text[k*m .. min((k+1)*m, |text|)],
   * which starts inside the text.
   */
  lemma {:induction false} ChunkAt(text: string, m: nat, k: nat)
    requires m > 0
    ensures |Chunks(text, m)| == RangeLength(|text|, m)
    ensures k < |Chunks(text, m)| ==>
      k * m < |text| && Chunks(text, m)[k] == text[k * m .. Min(k * m + m, |text|)]
    decreases |text|
  {
    if |text| > m {
      if k > 0 {
        var rest := text[m..];
        ChunkAt(rest, m, k - 1);
        var j := (k - 1) * m;
        assert k * m == j + m;
        if k < |Chunks(text, m)| {
          assert Chunks(text, m)[k] == Chunks(rest, m)[k - 1];
          var hi := Min(j + m, |rest|);
          assert hi + m == Min(k * m + m, |text|);
          SliceOfSuffix(text, m, j, hi);
        }
      } else {
        ChunkAt(text[m..], m, 0);
      }
    } else if k == 0 {
      assert 0 * m == 0;
    }
  }

  lemma SliceOfSuffix(text: string, m: nat, lo: nat, hi: nat)
    requires m <= |text| && lo <= hi <= |text| - m
    ensures text[m..][lo..hi] == text[m + lo..m + hi]
  {
  }

  /** The recursive definition agrees with the source's list comprehension. */
  lemma ChunksMatchComprehension(text: string, m: nat)
    requires m > 0
    ensures Chunks(text, m) == ChunksComprehension(text, m)
  {
    var r := Chunks(text, m);
    var c := ChunksComprehension(text, m);
    ChunkAt(text, m, 0);
    forall k | 0 <= k < |r| ensures r[k] == c[k] {
      ChunkAt(text, m, k);
    }
  }
}
