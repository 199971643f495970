# Image compressor: work splitting and progress accounting

The program halves the size of every image in a folder and saves each one again at quality 50. It does this twice: first sequentially, in chunks of ten, and then on a process pool with one task per chunk of `len(image_names) // workers` names. This project models the arithmetic and bookkeeping around the image calls:

- `utils.dfy` (module `Utils`) models `get_chunks`, the generator that slices a list into consecutive windows of a fixed size. `Chunks` is a recursive reference definition. `GetChunks` is the stepping loop, proved equal to it. The lemmas state that the chunks join back into the input, that chunk k is the window starting at `k * size`, that every chunk but the last is full, and that there are `ceil(len / size)` chunks. A zero step is the `ValueError` that `range` raises. A negative step yields no chunks.
- `compressor.dfy` (module `Compressor`) models `compress_images`, `run` and the chunk plan of `run_multiprocessing`. The imaging library is a parameter `openImage: string -> Option<Dims>`. It gives the size of the opened image, or `None` when opening, resizing or saving that file raises. The model keeps:
  - the halving `(width // 2, height // 2)`;
  - the counter increment after each saved image when a lock is given;
  - what happens in each run when an image fails.

  A failure ends `compress_images`, so the counter counts only the images before it. In `run` the exception ends the whole run before the progress bar moves for that chunk. In `run_multiprocessing` the futures' exceptions are never collected, so a failure ends only its own task. `TranscodedPerChunk` is what the tasks write together: one `compress_images` pass per submitted chunk (main.py:57-62), concatenated in chunk order.

Two edge behaviours of the parallel plan are proved:
- With fewer images than workers (including no images), the chunk size is 0 and building the task list raises.
- Otherwise there are between `workers` and `2 * workers - 1` tasks, exactly `workers` only when the worker count divides the image count. For example, 17 images on 8 workers give 9 tasks.

Three behaviours of the code are kept as written:
- The chunk size `len(image_names) // workers` has no lower bound of 1, so the plan fails when there are fewer images than workers.
- The plan can submit up to `2 * workers - 1` tasks, more than there are workers.
- A failing image ends its `compress_images` call, and the later images of that chunk are not attempted.

## Model

| member | source | states |
|---|---|---|
| Utils.GetChunks | utils.py:16-18 | a zero step is the `range` error; a negative step yields no chunks; a positive step yields exactly the chunks of the reference definition `Chunks` |
| Utils.Chunks | utils.py:16-18 | there are no chunks exactly when the input is empty |
| Utils.FlattenChunks | utils.py:16-18 | joining the chunks in order gives back the input exactly: nothing lost, repeated or reordered |
| Utils.ChunkAt | utils.py:17-18 | chunk k starts inside the input at `k * size` and equals `items[k*size : min((k+1)*size, len(items))]` |
| Utils.ChunkLength | utils.py:17-18 | chunk k holds `min(size, len(items) - k*size)` items, at least 1 and at most `size` |
| Utils.ChunkLengths | utils.py:17-18 | no chunk is empty or longer than `size`; every chunk but the last has exactly `size` items; the last has what remains after the full ones |
| Utils.ChunkCountBounds | utils.py:17 | the chunks hold at least `len(items)` places, and one chunk fewer would hold fewer than `len(items)` |
| Utils.ChunkCount | utils.py:17 | the number of chunks is the ceiling of `len(items) / size` |
| Utils.CeilDivBounds | utils.py:17 | the ceiling `(a + b - 1) // b` used by `ChunkCount` is the least r with `a <= r * b` |
| Compressor.Halved | main.py:21-23 | each target dimension is the floor of half the source dimension: `2r <= d < 2r + 2` |
| Compressor.Transcoded | main.py:18-27 | one pass over the names writes at most one file per name |
| Compressor.TranscodedMeaning | main.py:18-27 | one output per image, in order, named after the image and of halved size, up to the first image the library fails on, which is the image right after the last output; all images are written exactly when all of them open |
| Compressor.TranscodedAppend | main.py:18-27 | one pass over two lists is the pass over the first followed, only when every image of the first opens, by the pass over the second |
| Compressor.TranscodedWindow | main.py:38-39 | when every name before `lo` opens, the pass over `names[..hi]` is the pass over `names[..lo]` followed by the pass over the window `names[lo..hi]`; when an image inside the window fails, the pass over all names stops there too |
| Compressor.SharedCounter.constructor | main.py:54 | the shared counter `manager.Value(int, 0)` starts at the given value |
| Compressor.CompressImages | main.py:11-31 | writes exactly `Transcoded(names)`, reports the exception exactly when some image fails, raises the counter by the number of images written when a lock is given and leaves it unchanged otherwise |
| Compressor.ProgressBar.Update | main.py:40 | the bar's position moves by exactly the given amount |
| Compressor.Run | main.py:35-40 | the sequential run writes the same files as one pass over all names; it raises exactly when some image fails; the bar advances by the total image count, or to the last multiple of ten before the failing image; a bar that starts at 0 with `total` equal to the image count stands at `total` after a run where every image opens |
| Compressor.ChunkSize | main.py:49-50 | the parallel chunk size is the floor of images / workers: `q * workers <= n < (q + 1) * workers` |
| Compressor.ChunkSizeZero | main.py:50 | the chunk size is 0 exactly when there are fewer images than workers |
| Compressor.TaskCount | main.py:50 | with at least as many images as workers, `ceil(n / (n // workers))` lies between `workers` and `2 * workers - 1` and equals `workers` exactly when workers divide n |
| Compressor.PlanLaws | main.py:49-62 | with at least as many images as workers, the submitted chunks cover every name once in order and number between `workers` and `2 * workers - 1` |
| Compressor.PerChunkExtendsSequential | main.py:56-62 | for any chunk list, what the per-chunk tasks write starts with what one pass over the joined names writes, and equals it when every image opens |
| Compressor.RunMultiprocessing | main.py:47-65 | the plan fails exactly when there are fewer images than workers; otherwise one task per chunk of `n // workers`, the counter ends at the number of files written, those files begin with the sequential run's files, and they are exactly those files, with the counter at n, when every image opens |
| Compressor.SeventeenImagesEightWorkers | main.py:50 | 17 images on 8 workers give a chunk size of 2 and 9 tasks, one more than there are workers |

## Left out

- The imaging library (`Image.open`, `resize`, `save` at main.py:20-27) is foreign code. It is the parameter `openImage`, reduced to the image size or a failure. Pixels, the resampling filter, quality and the optimize flag are not modelled.
- `openImage` ties a failure to no property of the image: the model does not say which sizes the library rejects. In particular, an image with a side of 1 pixel halves to a side of 0, and whether `resize` then raises is left to the parameter.
- Output paths are not modelled. The folder arguments and the `os.path.join` / `os.path.basename` calls (main.py:19, 24, 26) are left out, and an output file is named after the input name. This matches `basename` for names from `os.listdir`, which contain no separator.
- Compressor.CompressImages: any failure on an image is modelled as leaving no output for it. A save that fails half way could leave a partial file, and the model does not say so.
- Compressor.RunMultiprocessing: the pool's tasks run one after another, in chunk order. The order and overlap of the worker processes are not modelled. The final counter and the set of written files do not depend on them, because every increment is made under the lock and each task writes its own files.
- `ProcessPoolExecutor`, `Manager().Lock()` and `Value`, and the busy-wait on `f.done()` (main.py:52-65) concern concurrency. The progress bar updates made while polling in parallel mode are left out too.
- `os.cpu_count()` (main.py:49) is the parameter `workers`, required to be at least 1. Its `None` result, and the `TypeError` that would follow, are not modelled.
- tqdm rendering is not modelled. Neither is the single module-level progress bar shared by both runs (main.py:75, 80).
- `get_folder_size` (utils.py:7-13) is left out: it is filesystem traversal with floating-point MB rounding. The size prints that use it (main.py:42-43, 67-68) are left out too.
- `create_dir` (utils.py:21-25), `os.getcwd` and `os.listdir` (main.py:71-74) are filesystem I/O. `time_exec` (utils.py:28-39) is wall-clock timing and printing.
- `get_chunks` is a lazy generator; the model builds the whole list of chunks. Building a chunk is a slice with no effect, so producing the chunks ahead of time changes nothing, even when `run` stops early on a failing chunk. The one difference is when a zero step raises: on the first iteration in the code, at the call in the model.
