/**
 * `chunk_text`: a sliding window over a page's text. The window starts at 0
 * and advances by `max(1, size - overlap)`; each chunk is the Python slice
 * `t[i:i+size]`, with Python's rules for an end past the text or a negative end.
 */
module Chunking {

  const DefaultSize: int := 1000
  const DefaultOverlap: int := 200

  /** `max(1, size - overlap)`: the larger of the two, and one of them. */
  function Stride(size: int, overlap: int): (s: nat)
    ensures s >= 1
    ensures s >= size - overlap
    ensures s == 1 || s == size - overlap
  {
    if size - overlap > 1 then size - overlap else 1
  }

  /** Where Python's slice `t[lo:hi]` ends, for a text of length `n`. */
  function SliceEnd(n: nat, hi: int): (e: nat)
    ensures e <= n
    ensures 0 <= hi <= n ==> e == hi
    ensures n < hi ==> e == n
    ensures hi < 0 ==> e == if hi + n < 0 then 0 else hi + n
  {
    if hi < 0 then (if hi + n < 0 then 0 else hi + n)
    else if hi > n then n
    else hi
  }

  /** `t[lo:lo+size]` for `0 <= lo < len(t)`. */
  function Chunk(t: string, lo: nat, size: int): (c: string)
    requires lo < |t|
    ensures 0 < size ==> 1 <= |c| <= size
    ensures 0 < size ==> c == t[lo..if lo + size < |t| then lo + size else |t|]
    ensures size <= 0 && lo + size >= 0 ==> c == []
  {
    var e := SliceEnd(|t|, lo + size);
    if e <= lo then [] else t[lo..e]
  }

  /** `ceil(n / s)`: the fewest strides of length `s` that reach `n`. */
  function CeilDiv(n: nat, s: nat): (q: nat)
    requires s >= 1
    ensures q * s >= n
    ensures q == 0 || (q - 1) * s < n
  {
    var q := (n + s - 1) / s;
    assert n + s - 1 == q * s + (n + s - 1) % s;
    if q == 0 then q else MulSucc(q - 1, s); q
  }

  /** The number of chunks `m` is pinned down by the last start `(m - 1) * s` lying inside the text. */
  lemma CeilDivUnique(n: nat, s: nat, m: nat)
    requires s >= 1
    requires m * s >= n
    requires m == 0 || (m - 1) * s < n
    ensures m == CeilDiv(n, s)
  {
    var q := CeilDiv(n, s);
    var r := (n + s - 1) % s;
    assert n + s - 1 == q * s + r && 0 <= r < s;
    if m < q {
      MulSucc(q - 1, s);
      MulMono(m, q - 1, s);
    } else if m > q {
      MulMono(q, m - 1, s);
    }
  }

  lemma MulSucc(a: nat, s: nat)
    ensures (a + 1) * s == a * s + s
  {
  }

  lemma MulMono(a: nat, b: nat, s: nat)
    requires a <= b
    ensures a * s <= b * s
  {
  }

  /** What `chunk_text(t, size, overlap)` returns. */
  function Chunks(t: string, size: int, overlap: int): (cs: seq<string>)
    ensures |cs| == CeilDiv(|t|, Stride(size, overlap))
  {
    var s := Stride(size, overlap);
    seq(CeilDiv(|t|, s), k requires 0 <= k < CeilDiv(|t|, s) =>
      StartInside(|t|, s, k);
      Chunk(t, k * s, size))
  }

  /** Every chunk index below the count starts inside the text. */
  lemma StartInside(n: nat, s: nat, k: nat)
    requires s >= 1 && k < CeilDiv(n, s)
    ensures k * s < n
  {
    var q := CeilDiv(n, s);
    assert (n + s - 1) == q * s + (n + s - 1) % s;
    MulMono(k + 1, q, s);
  }

  /** `chunk_text(t, size, overlap)` */
  method ChunkText(t: string, size: int, overlap: int) returns (res: seq<string>)
    ensures res == Chunks(t, size, overlap)
  {
    var s := Stride(size, overlap);
    res := [];
    var i: nat := 0;
    while i < |t|
      invariant i == |res| * s
      invariant |res| == 0 || (|res| - 1) * s < |t|
      invariant forall k :: 0 <= k < |res| ==> k * s < |t| && res[k] == Chunk(t, k * s, size)
      decreases |t| - i
    {
      MulSucc(|res|, s);
      ghost var done := res;
      res := res + [Chunk(t, i, size)];
      assert forall k :: 0 <= k < |done| ==> res[k] == done[k];
      i := i + s;
    }
    CeilDivUnique(|t|, s, |res|);
  }

  /** Empty text gives no chunks, and any other text at least one. */
  lemma ChunksEmpty(t: string, size: int, overlap: int)
    ensures Chunks(t, size, overlap) == [] <==> t == []
  {
    var s := Stride(size, overlap);
    if t != [] {
      assert CeilDiv(|t|, s) >= 1 by {
        assert |t| + s - 1 >= s;
        MulMono(1, 0 + (|t| + s - 1) / s, s);
      }
    }
  }

  /** With a positive size every chunk is non-empty and at most `size` long. */
  lemma ChunkLengths(t: string, size: int, overlap: int, k: nat)
    requires 0 < size && k < |Chunks(t, size, overlap)|
    ensures 1 <= |Chunks(t, size, overlap)[k]| <= size
  {
    StartInside(|t|, Stride(size, overlap), k);
  }

  /**
   * With a positive size and a non-negative overlap, every position of the
   * text lies in chunk `p / stride`.
   */
  lemma ChunksCover(t: string, size: int, overlap: int, p: nat)
    requires 0 < size && 0 <= overlap && p < |t|
    ensures var s := Stride(size, overlap);
            var k := p / s;
            k < |Chunks(t, size, overlap)| &&
            k * s <= p < k * s + |Chunks(t, size, overlap)[k]| &&
            Chunks(t, size, overlap)[k][p - k * s] == t[p]
  {
    var s := Stride(size, overlap);
    var k := p / s;
    assert p == k * s + p % s;
    var q := CeilDiv(|t|, s);
    assert |t| + s - 1 == q * s + (|t| + s - 1) % s;
    if k >= q {
      MulMono(q, k, s);
    }
    StartInside(|t|, s, k);
  }

  /** Two consecutive full-length chunks share exactly `size - stride` characters. */
  lemma ChunksOverlap(t: string, size: int, overlap: int, k: nat)
    requires 0 < size && 0 <= overlap
    requires k + 1 < |Chunks(t, size, overlap)|
    requires |Chunks(t, size, overlap)[k]| == size && |Chunks(t, size, overlap)[k + 1]| == size
    ensures var s := Stride(size, overlap);
            Chunks(t, size, overlap)[k][s..] == Chunks(t, size, overlap)[k + 1][..size - s]
  {
    var s := Stride(size, overlap);
    var cs := Chunks(t, size, overlap);
    StartInside(|t|, s, k);
    StartInside(|t|, s, k + 1);
    var lo, lo' := k * s, (k + 1) * s;
    assert lo' == lo + s;
    assert cs[k] == t[lo..lo + size];
    assert cs[k + 1] == t[lo'..lo' + size];
    assert cs[k][s..] == t[lo + s..lo + size];
    assert cs[k + 1][..size - s] == t[lo'..lo' + size - s];
  }

  /**
   * With the default arguments the window advances by 800 characters, and two
   * consecutive full chunks share their last and first `DefaultOverlap` characters.
   */
  lemma DefaultChunksOverlap(t: string, k: nat)
    requires k + 1 < |Chunks(t, DefaultSize, DefaultOverlap)|
    requires |Chunks(t, DefaultSize, DefaultOverlap)[k]| == DefaultSize
    requires |Chunks(t, DefaultSize, DefaultOverlap)[k + 1]| == DefaultSize
    ensures |Chunks(t, DefaultSize, DefaultOverlap)| == CeilDiv(|t|, 800)
    ensures Chunks(t, DefaultSize, DefaultOverlap)[k][DefaultSize - DefaultOverlap..]
         == Chunks(t, DefaultSize, DefaultOverlap)[k + 1][..DefaultOverlap]
  {
    assert Stride(DefaultSize, DefaultOverlap) == 800;
    ChunksOverlap(t, DefaultSize, DefaultOverlap, k);
  }

  /** A negative size is not rejected: the slice end wraps around the text, as in Python. */
  lemma NegativeSizeWraps()
    ensures Chunks("abcdefghij", -3, 0) == ["abcdefg", "bcdefgh", "cdefghi", "", "", "", "", "", "", ""]
  {
    var t := "abcdefghij";
    var cs := Chunks(t, -3, 0);
    assert Stride(-3, 0) == 1;
    assert |cs| == 10;
    assert cs[0] == t[0..7] == "abcdefg";
    assert cs[1] == t[1..8] == "bcdefgh";
    assert cs[2] == t[2..9] == "cdefghi";
    assert forall k :: 3 <= k < 10 ==> cs[k] == [];
    var expected := ["abcdefg", "bcdefgh", "cdefghi", "", "", "", "", "", "", ""];
    assert forall k :: 0 <= k < 10 ==> cs[k] == expected[k];
  }
}
