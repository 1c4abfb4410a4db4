/** The batch client: it picks a prefix of the sorted image listing, posts it
    to the service in consecutive batches and accumulates the timings and
    the accepted images of the responses. The HTTP round trip is the
    function `post`, from the paths of one batch to the decoded response. */
module Client {
  import opened Builtins
  import opened Chunks

  /** What the client reads from one response: the `time_taken` and
      `accepted_images` fields of its body and the request's elapsed time. */
  datatype Response = Response(timeTaken: real, elapsed: real, accepted: seq<string>)

  /** A response written to responses/response_<file>.json. */
  datatype Saved = Saved(file: nat, response: Response)

  /** The client's accumulators after the loop, and the responses it wrote. */
  datatype Stats = Stats(processTime: real, totalTime: real, accepted: seq<string>, saved: seq<Saved>)

  const ImageDir := "./imgs"

  /** os.path.join(dir_path, file) for a plain file name. */
  function PathOf(file: string): (p: string)
    ensures p == ImageDir + "/" + file
  {
    ImageDir + "/" + file
  }

  /** The image paths: the whole sorted listing for total_images == -1,
      otherwise the Python slice [:total_images] of it. */
  function SelectPaths(listing: seq<string>, total: int): (r: seq<string>)
    ensures |r| <= |listing|
    ensures forall k | 0 <= k < |r| :: r[k] == PathOf(listing[k])
    ensures total == -1 ==> |r| == |listing|
    ensures 0 <= total ==> |r| == Min(total, |listing|)
    ensures total < -1 ==> |r| == if |listing| + total > 0 then |listing| + total else 0
  {
    var paths := seq(|listing|, k requires 0 <= k < |listing| => PathOf(listing[k]));
    if total == -1 then paths else SliceTo(paths, total)
  }

  /** The accumulators after posting each batch in turn. */
  function Accumulate(batches: seq<seq<string>>, post: seq<string> -> Response): (s: Stats)
    ensures |s.saved| == |batches|
  {
    if |batches| == 0 then Stats(0.0, 0.0, [], [])
    else
      var before := Accumulate(batches[..|batches| - 1], post);
      var r := post(batches[|batches| - 1]);
      Stats(before.processTime + r.timeTaken, before.totalTime + r.elapsed,
            before.accepted + r.accepted, before.saved + [Saved(|batches| - 1, r)])
  }

  /** The whole loop: range() rejects a zero step, a negative step gives no
      batches, otherwise one post per batch. */
  function Outcome(paths: seq<string>, batchSize: int, post: seq<string> -> Response): (r: Result<Stats>)
    ensures r.Err? <==> batchSize == 0
    ensures r.Err? ==> r.error == ZeroStep
  {
    if batchSize == 0 then Err(ZeroStep)
    else if batchSize < 0 then Ok(Accumulate([], post))
    else Ok(Accumulate(Batches(paths, batchSize), post))
  }

  /** The loop of the client's main: starts i = 0, bs, 2bs, ... below the
      path count, the batch paths[i : end], one post per batch, the
      accumulators updated and the response saved under index i // bs. */
  method SendBatches(paths: seq<string>, batchSize: int, post: seq<string> -> Response)
    returns (r: Result<Stats>)
    ensures r == Outcome(paths, batchSize, post)
  {
    if batchSize == 0 {
      return Err(ZeroStep);
    }
    var processTime, totalTime := 0.0, 0.0;
    var accepted: seq<string> := [];
    var saved: seq<Saved> := [];
    if batchSize < 0 {
      return Ok(Stats(processTime, totalTime, accepted, saved));
    }
    var n := |paths|;
    ghost var batches := Batches(paths, batchSize);
    BatchCount(paths, batchSize, 0);
    var i := 0;
    ghost var k := 0;
    while i < n
      invariant 0 <= k <= |batches| && i == k * batchSize
      invariant k < |batches| <==> i < n
      invariant Stats(processTime, totalTime, accepted, saved) == Accumulate(batches[..k], post)
      decreases n - i
    {
      BatchStep(paths, batchSize, k);
      var start := i;
      var end := if n - start >= batchSize then start + batchSize else n;
      var batch := paths[start..end];
      var response := post(batch);
      AccumulateStep(batches, k, post);
      processTime := processTime + response.timeTaken;
      totalTime := totalTime + response.elapsed;
      accepted := accepted + response.accepted;
      saved := saved + [Saved(i / batchSize, response)];
      i := i + batchSize;
      k := k + 1;
    }
    assert batches[..k] == batches;
    return Ok(Stats(processTime, totalTime, accepted, saved));
  }

  /** One more batch posted: its response is added to every accumulator
      and saved under the batch's ordinal. */
  lemma AccumulateStep(batches: seq<seq<string>>, k: nat, post: seq<string> -> Response)
    requires k < |batches|
    ensures var s := Accumulate(batches[..k], post);
            var r := post(batches[k]);
            Accumulate(batches[..k + 1], post)
              == Stats(s.processTime + r.timeTaken, s.totalTime + r.elapsed, s.accepted + r.accepted, s.saved + [Saved(k, r)])
  {
    assert batches[..k + 1][..k] == batches[..k];
  }

  /** The k-th multiple of the batch size starts a batch exactly while k
      is below the number of batches. */
  lemma BatchCount(paths: seq<string>, size: nat, k: nat)
    requires size > 0
    ensures k * size < |paths| <==> k < |Batches(paths, size)|
  {
    var n := |paths|;
    BatchesFromCount(paths, size, 0);
    StartsShape(n, size);
    if k * size < n {
      MultipleIsStart(n, size, k);
      var st := Starts(n, size);
      var j :| 0 <= j < |st| && st[j] == k * size;
      DivUnique(k * size, size, j);
      DivUnique(k * size, size, k);
    }
  }

  /** The k-th pass of the loop: it starts at k * size, takes the k-th
      batch, files its response under k and moves to the next multiple. */
  lemma BatchStep(paths: seq<string>, size: nat, k: nat)
    requires size > 0 && k < |Batches(paths, size)|
    ensures var start := k * size;
            var end := if |paths| - start >= size then start + size else |paths|;
            && start <= end <= |paths|
            && paths[start..end] == Batches(paths, size)[k]
            && start / size == k
            && start + size == (k + 1) * size
            && ((k + 1) * size < |paths| <==> k + 1 < |Batches(paths, size)|)
  {
    assert k * size + size == (k + 1) * size;
    BatchesFromAt(paths, size, 0, k);
    assert 0 + k * size == k * size;
    ChunkOfStart(k * size, size, k);
    BatchCount(paths, size, k + 1);
  }


  lemma FlattenSnoc<T>(xss: seq<seq<T>>, xs: seq<T>)
    ensures Flatten(xss + [xs]) == Flatten(xss) + xs
  {
    if xss != [] {
      assert (xss + [xs])[1..] == xss[1..] + [xs];
    }
  }

  /** The accumulated list is the responses' accepted images in batch order,
      and the k-th saved response is the k-th batch's, in file k. */
  lemma {:induction false} AccumulateMeaning(batches: seq<seq<string>>, post: seq<string> -> Response)
    ensures Accumulate(batches, post).accepted
         == Flatten(seq(|batches|, k requires 0 <= k < |batches| => post(batches[k]).accepted))
    ensures forall k | 0 <= k < |batches| :: Accumulate(batches, post).saved[k] == Saved(k, post(batches[k]))
  {
    var lists := seq(|batches|, k requires 0 <= k < |batches| => post(batches[k]).accepted);
    if |batches| > 0 {
      var front := batches[..|batches| - 1];
      AccumulateMeaning(front, post);
      var frontLists := seq(|front|, k requires 0 <= k < |front| => post(front[k]).accepted);
      assert lists == frontLists + [post(batches[|batches| - 1]).accepted];
      FlattenSnoc(frontLists, post(batches[|batches| - 1]).accepted);
    }
  }

  /** Posting the batches of a run one after the other sums their times:
      the totals of a run split in two are the sums of the totals of the halves. */
  lemma {:induction false} AccumulateTimes(first: seq<seq<string>>, second: seq<seq<string>>, post: seq<string> -> Response)
    ensures Accumulate(first + second, post).processTime
         == Accumulate(first, post).processTime + Accumulate(second, post).processTime
    ensures Accumulate(first + second, post).totalTime
         == Accumulate(first, post).totalTime + Accumulate(second, post).totalTime
    decreases |second|
  {
    if |second| > 0 {
      var front := second[..|second| - 1];
      AccumulateTimes(first, front, post);
      assert (first + second)[..|first + second| - 1] == first + front;
    } else {
      assert first + second == first;
    }
  }

  /** A successful run posts every path exactly once, in order, in batches
      of at most batchSize, and saves the k-th response in file k. */
  lemma RunShape(paths: seq<string>, batchSize: int, post: seq<string> -> Response)
    requires batchSize > 0
    ensures var s := Outcome(paths, batchSize, post).value;
            var b := Batches(paths, batchSize);
            && Flatten(b) == paths
            && |s.saved| == |b| == (|paths| + batchSize - 1) / batchSize
            && (forall k | 0 <= k < |b| :: 0 < |b[k]| <= batchSize && s.saved[k] == Saved(k, post(b[k])))
            && s.accepted == Flatten(seq(|b|, k requires 0 <= k < |b| => post(b[k]).accepted))
  {
    BatchesShape(paths, batchSize);
    AccumulateMeaning(Batches(paths, batchSize), post);
  }

  /** No paths or a negative batch size: nothing is posted and every
      accumulator keeps its initial value. */
  lemma NothingPosted(paths: seq<string>, batchSize: int, post: seq<string> -> Response)
    requires batchSize != 0 && (paths == [] || batchSize < 0)
    ensures Outcome(paths, batchSize, post) == Ok(Stats(0.0, 0.0, [], []))
  {
    if batchSize > 0 {
      assert Batches(paths, batchSize) == [];
    }
  }

  /** 250 paths in batches of 100: three posts, saved in files 0, 1 and 2. */
  lemma TwoHundredFiftyPaths(paths: seq<string>, post: seq<string> -> Response)
    requires |paths| == 250
    ensures var s := Outcome(paths, 100, post).value;
            s.saved == [Saved(0, post(paths[..100])), Saved(1, post(paths[100..200])), Saved(2, post(paths[200..]))]
  {
    TwoHundredFiftyByHundred(paths);
    var b := Batches(paths, 100);
    AccumulateMeaning(b, post);
    var s := Outcome(paths, 100, post).value;
    assert |s.saved| == 3;
  }
}
