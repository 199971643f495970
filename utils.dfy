/**
 The chunking helper of utils.py: `get_chunks(items, size)` walks an index
 from 0 up to `len(items)` in steps of `size` and yields `items[i:i+size]`
 at each step. The recursive function `Chunks` is the reference definition;
 the method `GetChunks` is the loop, proved equal to it, and the lemmas state
 the laws of the chunking: concatenation gives the input back, chunk k is the
 k-th window of the input, every chunk but the last is full, and there are
 ceil(len / size) chunks.
 */
module Utils {

  /** The error Python's `range()` raises when its step argument is zero. */
  datatype ChunkError = ZeroStep

  datatype Result<T> = Ok(value: T) | Err(error: ChunkError)

  function Min(a: int, b: int): int
  {
    if a <= b then a else b
  }

  /** The ceiling of a / b, written as Python code usually writes it. */
  function CeilDiv(a: nat, b: nat): nat
    requires b > 0
  {
    (a + b - 1) / b
  }

  /** The chunks of `items` for a positive `size`: the first `size` items (all
      of them when fewer remain), followed by the chunks of the rest. */
  function Chunks<T>(items: seq<T>, size: nat): (r: seq<seq<T>>)
    requires size > 0
    ensures r == [] <==> items == []
    decreases |items|
  {
    if items == [] then []
    else
      var m := Min(size, |items|);
      [items[..m]] + Chunks(items[m..], size)
  }

  /** All chunks joined back together, in order. */
  function Flatten<T>(chunks: seq<seq<T>>): seq<T>
  {
    if chunks == [] then [] else chunks[0] + Flatten(chunks[1..])
  }

  /** `get_chunks(items, size)`. A zero step makes `range` raise; a negative
      step from 0 towards `len(items)` yields no index, hence no chunk. */
  method GetChunks<T>(items: seq<T>, size: int) returns (r: Result<seq<seq<T>>>)
    ensures size == 0 ==> r == Err(ZeroStep)
    ensures size < 0 ==> r == Ok([])
    ensures size > 0 ==> r == Ok(Chunks(items, size))
  {
    if size == 0 {
      return Err(ZeroStep);
    }
    if size < 0 {
      return Ok([]);
    }
    var chunks: seq<seq<T>> := [];
    var i := 0;
    while i < |items|
      invariant 0 <= i
      invariant chunks + Chunks(items[Min(i, |items|)..], size) == Chunks(items, size)
      decreases |items| - i
    {
      ChunksFrom(items, size, i);
      assert chunks + Chunks(items[i..], size)
          == (chunks + [items[i..Min(i + size, |items|)]]) + Chunks(items[Min(i + size, |items|)..], size);
      chunks := chunks + [items[i..Min(i + size, |items|)]];
      i := i + size;
    }
    assert Chunks(items[Min(i, |items|)..], size) == [];
    assert chunks + [] == chunks;
    return Ok(chunks);
  }

  /** The chunks of the input from index i on: the window from i, then the
      chunks from where that window ends. */
  lemma ChunksFrom<T>(items: seq<T>, size: nat, i: nat)
    requires size > 0 && i < |items|
    ensures Chunks(items[i..], size)
         == [items[i..Min(i + size, |items|)]] + Chunks(items[Min(i + size, |items|)..], size)
  {
    var rest, m := items[i..], Min(size, |items|- i);
    assert rest[..m] == items[i..Min(i + size, |items|)];
    assert rest[m..] == items[Min(i + size, |items|)..];
  }

  /** Joining the chunks gives back the input: nothing lost, repeated or moved. */
  lemma {:induction false} FlattenChunks<T>(items: seq<T>, size: nat)
    requires size > 0
    ensures Flatten(Chunks(items, size)) == items
    decreases |items|
  {
    if items != [] {
      var m := Min(size, |items|);
      FlattenChunks(items[m..], size);
      assert Chunks(items, size)[1..] == Chunks(items[m..], size);
      assert items[..m] + items[m..] == items;
    }
  }

  lemma MulStep(k: int, size: int)
    ensures (k + 1) * size == k * size + size
  {
  }

  /** Division is determined by its remainder bound. */
  lemma DivUnique(x: int, b: int, q: int)
    requires b > 0 && 0 <= x - q * b < b
    ensures x / b == q
  {
    var d := x / b - q;
    assert b * (x / b) + x % b == x;
    assert b * d == (x - q * b) - x % b;
  }

  /** CeilDiv is the ceiling: the least r with a <= r * b. */
  lemma CeilDivBounds(a: nat, b: nat)
    requires b > 0
    ensures a <= CeilDiv(a, b) * b
    ensures CeilDiv(a, b) == 0 || (CeilDiv(a, b) - 1) * b < a
  {
    var r := CeilDiv(a, b);
    assert b * r + (a + b - 1) % b == a + b - 1;
    MulStep(r as int - 1, b);
  }

  /** The chunk count, bounded as a ceiling: the chunks hold the whole input
      and all of them but the last are needed for less than it. */
  lemma {:induction false} ChunkCountBounds<T>(items: seq<T>, size: nat)
    requires size > 0
    ensures |items| <= |Chunks(items, size)| * size
    ensures |Chunks(items, size)| == 0 || (|Chunks(items, size)| - 1) * size < |items|
    decreases |items|
  {
    if items != [] {
      var m := Min(size, |items|);
      var c, c' := |Chunks(items, size)|, |Chunks(items[m..], size)|;
      assert c == 1 + c';
      ChunkCountBounds(items[m..], size);
      MulStep(c', size);
      MulStep(c' - 1, size);
    }
  }

  /** There are ceil(len(items) / size) chunks. */
  lemma ChunkCount<T>(items: seq<T>, size: nat)
    requires size > 0
    ensures |Chunks(items, size)| == CeilDiv(|items|, size)
  {
    var c := |Chunks(items, size)|;
    ChunkCountBounds(items, size);
    MulStep(c - 1, size);
    DivUnique(|items| + size - 1, size, c);
  }

  /** k steps of `size`: the index chunk k starts at. */
  function Offset(k: nat, size: nat): nat
  {
    if k == 0 then 0 else Offset(k - 1, size) + size
  }

  lemma {:induction false} OffsetIsProduct(k: nat, size: nat)
    ensures Offset(k, size) == k * size
  {
    if k > 0 {
      OffsetIsProduct(k - 1, size);
      assert (k - 1) * size + size == k * size;
    }
  }

  /** Past the first chunk, the chunks are those of the rest of the input. */
  lemma ChunksAfterFirst<T>(items: seq<T>, size: nat, k: nat)
    requires size > 0 && 0 < k < |Chunks(items, size)|
    ensures size < |items|
    ensures k - 1 < |Chunks(items[size..], size)|
    ensures Chunks(items, size)[k] == Chunks(items[size..], size)[k - 1]
  {
    var c := Chunks(items, size);
    assert c == [items[..Min(size, |items|)]] + Chunks(items[Min(size, |items|)..], size);
  }

  /** A slice of a suffix is a slice of the whole, shifted by the suffix's start. */
  lemma SliceOfSuffix<T>(s: seq<T>, d: nat, lo: nat, hi: nat)
    requires d <= |s| && lo <= hi <= |s| - d
    ensures s[d..][lo..hi] == s[d + lo..d + hi]
  {
    forall i | 0 <= i < hi - lo
      ensures s[d..][lo..hi][i] == s[d + lo..d + hi][i]
    {
    }
  }

  lemma {:induction false} ChunkAtOffset<T>(items: seq<T>, size: nat, k: nat)
    requires size > 0
    requires k < |Chunks(items, size)|
    ensures Offset(k, size) < |items|
    ensures Chunks(items, size)[k] == items[Offset(k, size) .. Min(Offset(k, size) + size, |items|)]
    decreases k
  {
    if k > 0 {
      ChunksAfterFirst(items, size, k);
      ChunkAtOffset(items[size..], size, k - 1);
      ChunkAtOffsetStep(items, size, k);
    }
  }

  /** The step of ChunkAtOffset: if chunk k - 1 of the input past its first
      chunk is the window at Offset(k - 1), chunk k of the input is the window
      at Offset(k). */
  lemma ChunkAtOffsetStep<T>(items: seq<T>, size: nat, k: nat)
    requires size > 0 && 0 < k
    requires size < |items| && k - 1 < |Chunks(items[size..], size)|
    requires k < |Chunks(items, size)|
    requires Offset(k - 1, size) < |items| - size
    requires Chunks(items[size..], size)[k - 1]
          == items[size..][Offset(k - 1, size) .. Min(Offset(k - 1, size) + size, |items| - size)]
    ensures Offset(k, size) < |items|
    ensures Chunks(items, size)[k] == items[Offset(k, size) .. Min(Offset(k, size) + size, |items|)]
  {
    var lo := Offset(k - 1, size);
    ChunksAfterFirst(items, size, k);
    SliceOfSuffix(items, size, lo, Min(lo + size, |items| - size));
  }

  /** Chunk k is the window of the input that starts at index k * size and
      ends at (k + 1) * size, or at the end of the input. */
  lemma ChunkAt<T>(items: seq<T>, size: nat, k: nat)
    requires size > 0
    requires k < |Chunks(items, size)|
    ensures k * size < |items|
    ensures Chunks(items, size)[k] == items[k * size .. Min((k + 1) * size, |items|)]
  {
    ChunkAtOffset(items, size, k);
    OffsetIsProduct(k, size);
    OffsetIsProduct(k + 1, size);
  }

  /** The length of chunk k: what is left of the input from k * size on, at
      most `size`. */
  lemma ChunkLength<T>(items: seq<T>, size: nat, k: nat)
    requires size > 0 && k < |Chunks(items, size)|
    ensures |Chunks(items, size)[k]| == Min(size, |items| - k * size)
    ensures 1 <= |Chunks(items, size)[k]| <= size
  {
    ChunkAt(items, size, k);
    MulStep(k, size);
  }

  /** No chunk is empty and none is longer than `size`. Every chunk except the
      last holds exactly `size` items; the last holds what remains. */
  lemma ChunkLengths<T>(items: seq<T>, size: nat)
    requires size > 0
    ensures var c := Chunks(items, size);
      && (forall k :: 0 <= k < |c| ==> 1 <= |c[k]| <= size)
      && (forall k :: 0 <= k < |c| - 1 ==> |c[k]| == size)
      && (|c| > 0 ==> |c[|c| - 1]| == |items| - (|c| - 1) * size)
  {
    var c := Chunks(items, size);
    forall k | 0 <= k < |c|
      ensures 1 <= |c[k]| <= size
    {
      ChunkLength(items, size, k);
    }
    forall k | 0 <= k < |c| - 1
      ensures |c[k]| == size
    {
      ChunkLength(items, size, k);
      ChunkAt(items, size, k + 1);
      MulStep(k, size);
    }
    if |c| > 0 {
      ChunkLength(items, size, |c| - 1);
      ChunkCountBounds(items, size);
      MulStep(|c| - 1, size);
    }
  }
}
