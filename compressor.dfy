/**
 The work accounting of main.py. The imaging library (open, resize, save) is
 a parameter: `openImage(name)` is the size of the opened image, or None when
 opening, resizing or saving that file raises. What stays is what the
 program itself computes around it: the halved dimensions, the one-per-image
 counter increment, the sequential run in chunks of ten with its progress bar,
 and the chunk plan of the parallel run.
 */
module Compressor {
  import opened Utils

  datatype Option<T> = None | Some(value: T)

  /** Width and height of an image, as `Image.size` reports them. */
  datatype Dims = Dims(width: nat, height: nat)

  /** One output file: its base name and the dimensions of the saved image. */
  datatype Written = Written(name: string, dims: Dims)

  /** The imaging library applied to one file name. */
  type ImageStep = string -> Option<Dims>

  /** The size passed to `resize`: each dimension floor-divided by two. */
  function Halved(d: Dims): (r: Dims)
    ensures 2 * r.width <= d.width < 2 * r.width + 2
    ensures 2 * r.height <= d.height < 2 * r.height + 2
  {
    Dims(d.width / 2, d.height / 2)
  }

  /** Every name opens without an error. */
  ghost predicate AllOpen(names: seq<string>, openImage: ImageStep)
  {
    forall i :: 0 <= i < |names| ==> openImage(names[i]).Some?
  }

  /** The files one pass of `compress_images` over `names` writes: one per
      image, in order, each at half size, up to the first image the library
      fails on (its exception ends the loop). */
  function Transcoded(names: seq<string>, openImage: ImageStep): (r: seq<Written>)
    ensures |r| <= |names|
  {
    if names == [] then []
    else match openImage(names[0])
      case None => []
      case Some(d) => [Written(names[0], Halved(d))] + Transcoded(names[1..], openImage)
  }

  /** Output i is image i, under its own name and at half size, for every
      output; the image after the last output is the one the library failed
      on; and every image is written exactly when every image opens. */
  lemma {:induction false} TranscodedMeaning(names: seq<string>, openImage: ImageStep)
    ensures var r := Transcoded(names, openImage);
      && (forall i :: 0 <= i < |r| ==>
            openImage(names[i]).Some? && r[i] == Written(names[i], Halved(openImage(names[i]).value)))
      && (|r| < |names| ==> openImage(names[|r|]).None?)
      && (|r| == |names| <==> AllOpen(names, openImage))
    decreases |names|
  {
    if names != [] && openImage(names[0]).Some? {
      var r, rest := Transcoded(names, openImage), Transcoded(names[1..], openImage);
      TranscodedMeaning(names[1..], openImage);
      assert r == [Written(names[0], Halved(openImage(names[0]).value))] + rest;
      forall i | 0 <= i < |r|
        ensures openImage(names[i]).Some? && r[i] == Written(names[i], Halved(openImage(names[i]).value))
      {
        if i > 0 {
          assert r[i] == rest[i - 1] && names[i] == names[1..][i - 1];
        }
      }
      if AllOpen(names, openImage) {
        forall i | 0 <= i < |names| - 1
          ensures openImage(names[1..][i]).Some?
        {
          assert names[1..][i] == names[i + 1];
        }
      }
      if |r| == |names| {
        forall i | 0 <= i < |names|
          ensures openImage(names[i]).Some?
        {
          if i > 0 {
            assert names[i] == names[1..][i - 1];
          }
        }
      }
    }
  }

  /** What the workers write together, one `compress_images` call per chunk:
      a failure ends only its own chunk. */
  function TranscodedPerChunk(chunks: seq<seq<string>>, openImage: ImageStep): seq<Written>
  {
    if chunks == [] then []
    else Transcoded(chunks[0], openImage) + TranscodedPerChunk(chunks[1..], openImage)
  }

  /** The integer `Value` the worker processes share. */
  class SharedCounter {
    var value: int

    constructor (initial: int)
      ensures value == initial
    {
      value := initial;
    }
  }

  /** The tqdm progress bar, reduced to its position `n` and its `total`. */
  class ProgressBar {
    var n: int
    const total: nat

    constructor (total: nat)
      ensures this.total == total && n == 0
    {
      this.total := total;
      n := 0;
    }

    /** `update(k)` moves the position by k. */
    method Update(k: int)
      modifies this
      ensures n == old(n) + k
    {
      n := n + k;
    }
  }

  /** `compress_images`: transcodes `names` in order; with a lock, raises the
      shared counter once per finished image. `raised` says that the library
      failed on an image, which ends the call with that exception. */
  method CompressImages(names: seq<string>, openImage: ImageStep, counter: SharedCounter?, lock: bool)
    returns (written: seq<Written>, raised: bool)
    requires lock ==> counter != null
    modifies counter
    ensures written == Transcoded(names, openImage)
    ensures raised <==> |written| < |names|
    ensures lock ==> counter.value == old(counter.value) + |written|
    ensures !lock && counter != null ==> counter.value == old(counter.value)
  {
    ghost var all := Transcoded(names, openImage);
    TranscodedMeaning(names, openImage);
    written := [];
    var i := 0;
    while i < |names|
      invariant 0 <= i <= |names|
      invariant i <= |all| && written == all[..i]
      invariant lock ==> counter.value == old(counter.value) + i
      invariant !lock && counter != null ==> counter.value == old(counter.value)
    {
      var image := openImage(names[i]);
      if image.None? {
        return written, true;
      }
      assert all[..i + 1] == all[..i] + [all[i]];
      written := written + [Written(names[i], Halved(image.value))];
      if lock {
        counter.value := counter.value + 1;
      }
      i := i + 1;
    }
    raised := false;
  }

  /** Transcoding two lists in one pass: the second is reached only when every
      image of the first opens. */
  lemma {:induction false} TranscodedAppend(a: seq<string>, b: seq<string>, openImage: ImageStep)
    ensures Transcoded(a + b, openImage)
         == if |Transcoded(a, openImage)| == |a|
            then Transcoded(a, openImage) + Transcoded(b, openImage)
            else Transcoded(a, openImage)
    decreases |a|
  {
    if a == [] {
      assert a + b == b;
    } else {
      assert (a + b)[0] == a[0];
      assert (a + b)[1..] == a[1..] + b;
      match openImage(a[0])
      case None =>
      case Some(d) =>
        TranscodedAppend(a[1..], b, openImage);
    }
  }

  /** The chunk size of the sequential run. */
  const SequentialChunkSize: nat := 10

  /** One pass over the names up to `hi` is the pass up to `lo` followed by
      the pass over the window between them, when everything before `lo`
      opens; when the library fails inside the window, the pass over all names
      stops there too. */
  lemma TranscodedWindow(names: seq<string>, lo: nat, hi: nat, openImage: ImageStep)
    requires lo <= hi <= |names|
    requires |Transcoded(names[..lo], openImage)| == lo
    ensures Transcoded(names[..hi], openImage)
         == Transcoded(names[..lo], openImage) + Transcoded(names[lo..hi], openImage)
    ensures |Transcoded(names[lo..hi], openImage)| < hi - lo ==>
              Transcoded(names, openImage) == Transcoded(names[..hi], openImage)
  {
    var before, window, upTo, after := names[..lo], names[lo..hi], names[..hi], names[hi..];
    assert upTo == before + window;
    TranscodedAppend(before, window, openImage);
    if |Transcoded(window, openImage)| < |window| {
      assert names == upTo + after;
      TranscodedAppend(upTo, after, openImage);
    }
  }

  /** `run`: the names in chunks of ten, one `compress_images` call per chunk,
      without a lock, advancing the progress bar by the chunk's length after
      each call. An exception from a chunk ends the run before the bar moves
      for that chunk, so the bar then stands at the last multiple of ten. */
  method Run(imageNames: seq<string>, openImage: ImageStep, bar: ProgressBar)
    returns (written: seq<Written>, raised: bool)
    modifies bar
    ensures written == Transcoded(imageNames, openImage)
    ensures raised <==> !AllOpen(imageNames, openImage)
    ensures bar.n == old(bar.n) + (if raised then |written| / 10 * 10 else |imageNames|)
    ensures old(bar.n) == 0 && bar.total == |imageNames| && !raised ==> bar.n == bar.total
  {
    var plan := GetChunks(imageNames, SequentialChunkSize);
    var chunks := plan.value;
    ChunkCountBounds(imageNames, SequentialChunkSize);
    var n := |imageNames|;
    written, raised := [], false;
    var j := 0;
    while j < |chunks|
      invariant 0 <= j <= |chunks|
      invariant written == Transcoded(imageNames[..Min(j * SequentialChunkSize, n)], openImage)
      invariant |written| == Min(j * SequentialChunkSize, n)
      invariant bar.n == old(bar.n) + Min(j * SequentialChunkSize, n)
    {
      ChunkAt(imageNames, SequentialChunkSize, j);
      TranscodedWindow(imageNames, j * SequentialChunkSize, Min((j + 1) * SequentialChunkSize, n), openImage);
      var w, r := CompressImages(chunks[j], openImage, null, false);
      written := written + w;
      if r {
        DivUnique(|written|, 10, j);
        TranscodedMeaning(imageNames, openImage);
        raised := true;
        return;
      }
      bar.Update(|chunks[j]|);
      j := j + 1;
    }
    assert imageNames[..n] == imageNames;
    TranscodedMeaning(imageNames, openImage);
  }

  /** The chunk size of the parallel run: the image count floor-divided by the
      worker count. */
  function ChunkSize(imageCount: nat, workers: nat): (r: nat)
    requires workers > 0
    ensures r * workers <= imageCount < (r + 1) * workers
  {
    var q := imageCount / workers;
    assert workers * q + imageCount % workers == imageCount;
    q
  }

  lemma MulLe(x: int, y: int, q: nat)
    requires x <= y
    ensures x * q <= y * q
  {
    assert y * q - x * q == (y - x) * q;
  }

  lemma MulLt(x: int, y: int, q: nat)
    requires x < y && q > 0
    ensures x * q < y * q
  {
    assert y * q - x * q == (y - x) * q;
    MulLe(1, y - x, q);
  }

  /** The parallel chunk size is zero exactly when there are fewer images than
      workers. */
  lemma ChunkSizeZero(imageCount: nat, workers: nat)
    requires workers > 0
    ensures ChunkSize(imageCount, workers) == 0 <==> imageCount < workers
  {
    var q := ChunkSize(imageCount, workers);
    if q >= 1 {
      MulLe(1, q, workers);
    }
  }

  /** The arithmetic behind TaskCount, over plain numbers: q is the floor and
      c the ceiling described by their bounds. */
  lemma CeilOfFloorBounds(n: int, workers: int, q: int, c: int)
    requires workers > 0 && q >= 1
    requires q * workers <= n < (q + 1) * workers
    requires n <= c * q && (c - 1) * q < n
    ensures workers <= c <= 2 * workers - 1
    ensures c == workers <==> n == q * workers
  {
    var rem := n - q * workers;
    assert c >= workers by {
      if c < workers {
        MulLt(c, workers, q);
      }
    }
    assert c <= 2 * workers - 1 by {
      if c >= 2 * workers {
        MulLe(2 * workers - 1, c - 1, q);
        MulLe(1, q, workers - 1);
      }
    }
    if rem == 0 {
      assert c <= workers by {
        if c > workers {
          MulLe(workers, c - 1, q);
        }
      }
    }
  }

  /** With at least as many images as workers, the parallel plan has between
      `workers` and 2 * workers - 1 tasks, exactly `workers` when the worker
      count divides the image count. */
  lemma TaskCount(imageCount: nat, workers: nat)
    requires workers > 0 && imageCount >= workers
    ensures var tasks := CeilDiv(imageCount, ChunkSize(imageCount, workers));
      && workers <= tasks <= 2 * workers - 1
      && (tasks == workers <==> imageCount % workers == 0)
  {
    ChunkSizeZero(imageCount, workers);
    var q := ChunkSize(imageCount, workers);
    CeilDivBounds(imageCount, q);
    CeilOfFloorBounds(imageCount, workers, q, CeilDiv(imageCount, q));
    DivUnique(imageCount, workers, q);
    assert imageCount == workers * (imageCount / workers) + imageCount % workers;
  }

  /** The per-chunk output of a plan always starts with the output one
      sequential pass over the same names would give, and equals it when every
      image opens. */
  lemma {:induction false} PerChunkExtendsSequential(chunks: seq<seq<string>>, openImage: ImageStep)
    ensures var s, p := Transcoded(Flatten(chunks), openImage), TranscodedPerChunk(chunks, openImage);
      |s| <= |p| && s == p[..|s|]
    ensures AllOpen(Flatten(chunks), openImage) ==>
      Transcoded(Flatten(chunks), openImage) == TranscodedPerChunk(chunks, openImage)
    decreases |chunks|
  {
    if chunks != [] {
      PerChunkExtendsSequential(chunks[1..], openImage);
      TranscodedAppend(chunks[0], Flatten(chunks[1..]), openImage);
      AllOpenAppend(chunks[0], Flatten(chunks[1..]), openImage);
      TranscodedMeaning(chunks[0], openImage);
    }
  }

  lemma AllOpenAppend(a: seq<string>, b: seq<string>, openImage: ImageStep)
    ensures AllOpen(a + b, openImage) <==> AllOpen(a, openImage) && AllOpen(b, openImage)
  {
    if AllOpen(a, openImage) && AllOpen(b, openImage) {
      forall i | 0 <= i < |a + b|
        ensures openImage((a + b)[i]).Some?
      {
        if i >= |a| {
          assert (a + b)[i] == b[i - |a|];
        }
      }
    }
    if AllOpen(a + b, openImage) {
      forall i | 0 <= i < |a|
        ensures openImage(a[i]).Some?
      {
        assert (a + b)[i] == a[i];
      }
      forall i | 0 <= i < |b|
        ensures openImage(b[i]).Some?
      {
        assert (a + b)[|a| + i] == b[i];
      }
    }
  }

  lemma {:induction false} TranscodedPerChunkAppend(chunks: seq<seq<string>>, c: seq<string>, openImage: ImageStep)
    ensures TranscodedPerChunk(chunks + [c], openImage)
         == TranscodedPerChunk(chunks, openImage) + Transcoded(c, openImage)
    decreases |chunks|
  {
    if chunks == [] {
      assert chunks + [c] == [c];
    } else {
      assert (chunks + [c])[1..] == chunks[1..] + [c];
      TranscodedPerChunkAppend(chunks[1..], c, openImage);
    }
  }

  /** The laws of the parallel plan when there are at least as many images as
      workers: the tasks cover every name once, in order, and there are at
      least `workers` of them and possibly more. */
  lemma PlanLaws(imageNames: seq<string>, workers: nat)
    requires workers > 0 && |imageNames| >= workers
    ensures ChunkSize(|imageNames|, workers) > 0
    ensures var tasks := Chunks(imageNames, ChunkSize(|imageNames|, workers));
      && Flatten(tasks) == imageNames
      && workers <= |tasks| <= 2 * workers - 1
      && (|tasks| == workers <==> |imageNames| % workers == 0)
  {
    ChunkSizeZero(|imageNames|, workers);
    var size := ChunkSize(|imageNames|, workers);
    FlattenChunks(imageNames, size);
    ChunkCount(imageNames, size);
    TaskCount(|imageNames|, workers);
  }

  /** `run_multiprocessing`, with the pool's tasks run one after another: the
      plan is `get_chunks(image_names, len(image_names) // workers)`, one
      `compress_images` call with the shared counter and lock per chunk. An
      exception in a task is never collected, so it ends only that task. The
      plan fails exactly when there are fewer images than workers; otherwise
      the counter finishes at the number of files written, those files begin
      with what the sequential run writes, and they are exactly those files
      when every image opens. */
  method RunMultiprocessing(imageNames: seq<string>, workers: nat, openImage: ImageStep)
    returns (tasks: Result<seq<seq<string>>>, written: seq<Written>, completed: int)
    requires workers > 0
    ensures tasks.Err? <==> |imageNames| < workers
    ensures tasks.Err? ==> tasks.error == ZeroStep && written == [] && completed == 0
    ensures tasks.Ok? ==> tasks.value == Chunks(imageNames, ChunkSize(|imageNames|, workers))
    ensures tasks.Ok? ==> written == TranscodedPerChunk(tasks.value, openImage) && completed == |written|
    ensures tasks.Ok? ==>
      && |Transcoded(imageNames, openImage)| <= |written|
      && Transcoded(imageNames, openImage) == written[..|Transcoded(imageNames, openImage)|]
    ensures tasks.Ok? && AllOpen(imageNames, openImage) ==>
      written == Transcoded(imageNames, openImage) && completed == |imageNames|
  {
    var size := ChunkSize(|imageNames|, workers);
    ChunkSizeZero(|imageNames|, workers);
    var counter := new SharedCounter(0);
    tasks := GetChunks(imageNames, size);
    written, completed := [], 0;
    if tasks.Err? {
      return;
    }
    var chunks := tasks.value;
    var j := 0;
    while j < |chunks|
      invariant 0 <= j <= |chunks|
      invariant written == TranscodedPerChunk(chunks[..j], openImage)
      invariant counter.value == |written|
    {
      var w, _ := CompressImages(chunks[j], openImage, counter, true);
      assert chunks[..j + 1] == chunks[..j] + [chunks[j]];
      TranscodedPerChunkAppend(chunks[..j], chunks[j], openImage);
      written := written + w;
      j := j + 1;
    }
    assert chunks[..j] == chunks;
    completed := counter.value;
    FlattenChunks(imageNames, size);
    PerChunkExtendsSequential(chunks, openImage);
    TranscodedMeaning(imageNames, openImage);
  }

  /** The example of a plan with more tasks than workers: 17 images on 8
      workers give chunks of 2, hence 9 tasks. */
  lemma SeventeenImagesEightWorkers(imageNames: seq<string>)
    requires |imageNames| == 17
    ensures ChunkSize(17, 8) == 2
    ensures |Chunks(imageNames, ChunkSize(17, 8))| == 9
  {
    ChunkCount(imageNames, 2);
  }
}
