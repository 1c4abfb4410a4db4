/** Splitting n items into consecutive chunks of at most `size` items, the
    way both the scoring engine (its image windows) and the batch client (its
    request batches) do it: chunk starts come from range(0, n, size) and each
    chunk ends at `start + size if n - start >= size else n`. */
module Chunks {

  function Min(a: int, b: int): int {
    if a <= b then a else b
  }

  /** The end of the chunk that starts at `start`. */
  function ChunkEnd(start: int, size: int, n: int): (end: int)
    ensures end == Min(start + size, n)
  {
    if n - start >= size then start + size else n
  }

  /** range(from, n, size) for a positive size. */
  function StartsFrom(n: nat, size: nat, from: nat): (r: seq<nat>)
    requires size > 0
    ensures forall s | s in r :: from <= s < n
    decreases n - from
  {
    if from >= n then [] else [from] + StartsFrom(n, size, from + size)
  }

  /** range(0, n, size): the chunk starts. */
  function Starts(n: nat, size: nat): seq<nat>
    requires size > 0
  {
    StartsFrom(n, size, 0)
  }

  /** The start of the chunk that holds item i. */
  function ChunkOf(i: nat, size: nat): (s: nat)
    requires size > 0
    ensures s <= i < s + size
  {
    DivBracket(i, size);
    (i / size) * size
  }

  /** Integer division is determined by the bracket q*d <= x < q*d + d. */
  lemma DivUnique(x: int, d: int, q: int)
    requires d > 0 && q * d <= x < q * d + d
    ensures x / d == q
  {
    var q' := x / d;
    assert x == q' * d + x % d;
    MulStep(q', q, d);
    MulStep(q, q', d);
  }

  /** A larger factor gives a product at least d larger. */
  lemma MulStep(a: int, b: int, d: int)
    ensures a < b && d >= 0 ==> a * d + d <= b * d
  {
    if a < b && d >= 0 {
      var m := b - a;
      assert b * d == a * d + m * d;
      assert m * d == d + (m - 1) * d;
      assert (m - 1) * d >= 0;
    }
  }

  lemma {:induction false} StartsFromShape(n: nat, size: nat, from: nat)
    requires size > 0
    ensures forall k | 0 <= k < |StartsFrom(n, size, from)| ::
      StartsFrom(n, size, from)[k] == from + k * size && StartsFrom(n, size, from)[k] < n
    ensures from >= n ==> |StartsFrom(n, size, from)| == 0
    ensures from < n ==> from + (|StartsFrom(n, size, from)| - 1) * size < n <= from + |StartsFrom(n, size, from)| * size
    decreases n - from
  {
    if from < n {
      StartsFromShape(n, size, from + size);
      var s := StartsFrom(n, size, from);
      var t := StartsFrom(n, size, from + size);
      assert s == [from] + t;
      forall k | 0 < k < |s| ensures s[k] == from + k * size {
        assert s[k] == t[k - 1];
        assert (k - 1) * size + size == k * size;
      }
      assert (|s| - 1) * size == (|t| - 1) * size + size;
      assert |s| * size == |t| * size + size;
    }
  }

  /** The chunk starts are 0, size, 2*size, ... below n, and there are
      ceil(n / size) of them. */
  lemma StartsShape(n: nat, size: nat)
    requires size > 0
    ensures |Starts(n, size)| == (n + size - 1) / size
    ensures forall k | 0 <= k < |Starts(n, size)| :: Starts(n, size)[k] == k * size < n
  {
    StartsFromShape(n, size, 0);
    var c := |Starts(n, size)|;
    if n == 0 {
      DivUnique(size - 1, size, 0);
    } else {
      assert (c - 1) * size < n <= c * size;
      assert c * size <= n + size - 1 < c * size + size;
      DivUnique(n + size - 1, size, c);
    }
  }

  /** Every item lies in exactly one chunk: the one starting at ChunkOf(i),
      which is a chunk start, holds i and is at most `size` long. */
  lemma ChunkOfItem(n: nat, size: nat, i: nat)
    requires size > 0 && i < n
    ensures ChunkOf(i, size) in Starts(n, size)
    ensures ChunkOf(i, size) <= i < ChunkEnd(ChunkOf(i, size), size, n)
    ensures ChunkEnd(ChunkOf(i, size), size, n) - ChunkOf(i, size) <= size
    ensures forall s | s in Starts(n, size) && s <= i < ChunkEnd(s, size, n) :: s == ChunkOf(i, size)
  {
    DivBracket(i, size);
    MultipleIsStart(n, size, i / size);
    forall s | s in Starts(n, size) && s <= i < ChunkEnd(s, size, n) ensures s == ChunkOf(i, size) {
      OnlyChunkOf(n, size, i, s);
    }
  }

  /** A chunk start that holds item i is the chunk of i. */
  lemma OnlyChunkOf(n: nat, size: nat, i: nat, s: nat)
    requires size > 0 && s in Starts(n, size) && s <= i < ChunkEnd(s, size, n)
    ensures s == ChunkOf(i, size)
  {
    StartsFromShape(n, size, 0);
    var st := Starts(n, size);
    var j :| 0 <= j < |st| && st[j] == s;
    DivUnique(i, size, j);
  }


  lemma DivBracket(x: nat, d: nat)
    requires d > 0
    ensures (x / d) * d <= x < (x / d) * d + d
  {
    assert x == (x / d) * d + x % d;
  }

  /** The k-th multiple of size is a chunk start while it is below n. */
  lemma MultipleIsStart(n: nat, size: nat, k: nat)
    requires size > 0 && k * size < n
    ensures k * size in Starts(n, size)
  {
    StartsFromShape(n, size, 0);
    var c := |Starts(n, size)|;
    MulStep(c - 1, k, size);
    assert Starts(n, size)[k] == k * size;
  }

  /** Chunk starts are size apart: the only one in [k*size, k*size + size) is k*size. */
  lemma StartsSpaced(n: nat, size: nat, s: nat, k: nat)
    requires size > 0 && s in Starts(n, size) && k * size <= s < k * size + size
    ensures s == k * size
  {
    StartsFromShape(n, size, 0);
    var j :| 0 <= j < |Starts(n, size)| && Starts(n, size)[j] == s;
    DivUnique(s, size, j);
    DivUnique(s, size, k);
  }

  /** A chunk start is a multiple of size, so it is the chunk of itself. */
  lemma ChunkOfStart(s: nat, size: nat, k: nat)
    requires size > 0 && s == k * size
    ensures ChunkOf(s, size) == s && s / size == k
  {
    DivUnique(s, size, k);
  }

  /** The chunks of xs, for a positive size: xs[s : end] for each start s. */
  function BatchesFrom<T>(xs: seq<T>, size: nat, from: nat): seq<seq<T>>
    requires size > 0
    decreases |xs| - from
  {
    if from >= |xs| then []
    else [xs[from..ChunkEnd(from, size, |xs|)]] + BatchesFrom(xs, size, from + size)
  }

  function Batches<T>(xs: seq<T>, size: nat): seq<seq<T>>
    requires size > 0
  {
    BatchesFrom(xs, size, 0)
  }

  function Flatten<T>(xss: seq<seq<T>>): seq<T> {
    if xss == [] then [] else xss[0] + Flatten(xss[1..])
  }

  lemma {:induction false} BatchesFromFlatten<T>(xs: seq<T>, size: nat, from: nat)
    requires size > 0 && from <= |xs|
    ensures Flatten(BatchesFrom(xs, size, from)) == xs[from..]
    decreases |xs| - from
  {
    if from < |xs| {
      var e := ChunkEnd(from, size, |xs|);
      BatchesFromFlatten(xs, size, e);
      if from + size <= |xs| {
        assert e == from + size;
      } else {
        assert BatchesFrom(xs, size, from + size) == [] == BatchesFrom(xs, size, e);
      }
      assert BatchesFrom(xs, size, from)[1..] == BatchesFrom(xs, size, from + size);
      assert xs[from..] == xs[from..e] + xs[e..];
    }
  }

  lemma {:induction false} BatchesFromCount<T>(xs: seq<T>, size: nat, from: nat)
    requires size > 0
    ensures |BatchesFrom(xs, size, from)| == |StartsFrom(|xs|, size, from)|
    decreases |xs| - from
  {
    if from < |xs| {
      BatchesFromCount(xs, size, from + size);
    }
  }

  lemma {:induction false} BatchesFromAt<T>(xs: seq<T>, size: nat, from: nat, k: nat)
    requires size > 0 && k < |BatchesFrom(xs, size, from)|
    ensures from + k * size < |xs|
    ensures BatchesFrom(xs, size, from)[k] == xs[from + k * size..ChunkEnd(from + k * size, size, |xs|)]
    decreases k
  {
    if k > 0 {
      var rest := BatchesFrom(xs, size, from + size);
      assert BatchesFrom(xs, size, from)[k] == rest[k - 1];
      BatchesFromAt(xs, size, from + size, k - 1);
      assert from + size + (k - 1) * size == from + k * size;
    }
  }

  /** The batches are contiguous, in order, non-empty, at most `size` long,
      one per chunk start, and they concatenate back to xs. */
  lemma BatchesShape<T>(xs: seq<T>, size: nat)
    requires size > 0
    ensures Flatten(Batches(xs, size)) == xs
    ensures |Batches(xs, size)| == |Starts(|xs|, size)| == (|xs| + size - 1) / size
    ensures forall k | 0 <= k < |Batches(xs, size)| ::
      k * size < |xs| && Batches(xs, size)[k] == xs[k * size..ChunkEnd(k * size, size, |xs|)]
      && 0 < |Batches(xs, size)[k]| <= size
  {
    BatchesFromFlatten(xs, size, 0);
    BatchesFromCount(xs, size, 0);
    StartsShape(|xs|, size);
    var b := Batches(xs, size);
    forall k | 0 <= k < |b|
      ensures k * size < |xs| && b[k] == xs[k * size..ChunkEnd(k * size, size, |xs|)] && 0 < |b[k]| <= size
    {
      BatchesFromAt(xs, size, 0, k);
      assert 0 + k * size == k * size;
    }
  }

  /** 250 items in chunks of 100 give three batches of 100, 100 and 50. */
  lemma TwoHundredFiftyByHundred<T>(xs: seq<T>)
    requires |xs| == 250
    ensures |Batches(xs, 100)| == 3
    ensures Batches(xs, 100) == [xs[..100], xs[100..200], xs[200..]]
  {
    assert BatchesFrom(xs, 100, 300) == [];
    assert BatchesFrom(xs, 100, 200) == [xs[200..250]];
    assert BatchesFrom(xs, 100, 100) == [xs[100..200], xs[200..250]];
    assert BatchesFrom(xs, 100, 0) == [xs[0..100], xs[100..200], xs[200..250]];
    assert xs[0..100] == xs[..100] && xs[200..250] == xs[200..];
  }
}
