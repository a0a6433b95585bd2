# mandel.c in Dafny: row split, tile fill, movie frame split and frame names

`mandel.c` renders a Mandelbrot image. It works in one of two modes:

- **Single image.** `compute_image` splits the image rows among `numThreads`
  threads. Each `thread_worker` writes the pixels of its rows into one shared
  image.
- **Movie mode** (`-M`). `main` splits the 50 frames of an animation among
  `numProcs` child processes. Each child re-executes the program for one
  frame, which writes `mandel<f>.jpg`.

This project models the integer logic of both modes and proves what it
guarantees:

- `split.dfy` (module `Split`): the shared arithmetic. `total` items go to
  `n` workers. Worker `i` gets `total / n` items starting at `i * (total / n)`.
  The last worker also gets the leftover `total % n`. The proofs show the
  ranges are contiguous and disjoint, and that together they cover every item
  once.
- `engine.dfy` (module `Engine`): `compute_image` and `thread_worker`.
  - The image is an `array2<int>` indexed `[row, column]`.
  - A pixel's colour is the parameter `pix(i, j)`. It stands for the
    floating-point escape-time calculation and the colour mapping, with the
    window and `max` the threads share.
  - The global `numThreads` is a parameter.
  - The order in which the threads run is a parameter `schedule`, a
    permutation of the thread indices.
  - The proofs show that every pixel ends as `pix(i, j)`, whatever the thread
    count and whatever the schedule.
- `frame_names.dfy` (module `FrameNames`): the decimal text of a number,
  parsing it back, and the file name `"mandel" + decimal(f) + ".jpg"` of
  frame `f`.
- `movie.dfy` (module `Movie`): the movie-mode loop of `main`.
  - Whether each `fork` succeeds is a parameter.
  - Each child's work is the list of frame jobs it runs.

Where the intended behaviour and the code disagree, the model follows the
code:

- The comment at mandel.c:130 says movie mode generates 50 images, and the
  `-n` help text at mandel.c:346 says several processes make the movie. So
  each child is meant to render every frame of its range. In the code, the
  first `execl` replaces the child process, so the child renders only the
  first frame of its range (see Findings).
- The parent waits for its children at mandel.c:207-212 so that it can report
  the movie finished, but `waitpid` discards every child's status. Movie mode
  returns 0 once all forks succeed, even when a child's render failed.
- A failed `fork` is fatal (mandel.c:157-160). The code exits with status 1
  without waiting for the children it has already forked; they go on running.
- The return value of `pthread_create` is not checked (mandel.c:318-323). A
  thread that is not created leaves its rows black, and mandel.c:322 then joins
  a handle that was never set. The model assumes every thread is created.
- A plain `%d` suffix (mandel.c:170) puts `mandel10.jpg` before `mandel2.jpg`
  lexicographically, so the names do not sort in frame order. The model proves
  only that distinct frames get distinct names.

## Model

| member | source | states |
|---|---|---|
| `Split.Contiguous` | mandel.c:143-151 | worker 0 starts at item 0, and worker i + 1 starts exactly where worker i ends (start + count) |
| `Split.LastEndsAtTotal` | mandel.c:137-151 | the last worker's range ends exactly at total: its count includes the leftover `total % n` |
| `Split.EndsBeforeLater` | mandel.c:143-151 | the range of an earlier worker ends no later than any later worker's range starts |
| `Split.Disjoint` | mandel.c:143-151 | two workers whose ranges share an item are the same worker |
| `Split.Owner` | mandel.c:137-151 | every item of [0, total) has an owning worker below n whose range contains it |
| `Split.ExactlyOnce` | mandel.c:137-151 | an item is in some worker's range exactly when it lies in [0, total), and it is then in only one range |
| `Split.Sizes` | mandel.c:137-151 | every worker but the last gets total / n items and the last total / n + total % n; with more workers than items the non-last counts are 0 and every start is 0; with n <= total every count is at least 1 |
| `Split.TenOverThree` | mandel.c:137-151 | 10 frames over 3 processes give the ranges [0,3), [3,6), [6,10), of sizes 3, 3 and 4 |
| `Engine.RowPartitionContiguous` | mandel.c:282-314 | thread 0 starts at row 0, each `startRow` is the previous `endRow + 1`, and the last `endRow` is `height - 1` |
| `Engine.RowPartitionExactlyOnce` | mandel.c:282-314 | a row is in some thread's inclusive range exactly when it is a row of the image, and then in only one range |
| `Engine.RowPartitionSizes` | mandel.c:282-297 | non-last threads get height / numThreads rows and the last height / numThreads + height % numThreads; with more threads than rows every non-last range is empty (`endRow == startRow - 1`); otherwise no range is empty |
| `Engine.RowPartitionInImage` | mandel.c:290-314 | every non-empty range lies inside rows [0, height), so no thread writes outside the image |
| `Engine.CellAfterTiles` | mandel.c:46-58 | after a sequence of tiles, a pixel holds pix(i, j) when some tile covers its row, and keeps its earlier value otherwise (both directions) |
| `Engine.AnyScheduleRendersImage` | mandel.c:275-323 | running the partition's tiles in any order that runs every thread leaves every pixel of the image equal to pix(i, j), whatever it held before |
| `Engine.Deterministic` | mandel.c:275-323 | the rendered pixel is the same for any two thread counts and any two schedules |
| `Engine.ThreadWorker` | mandel.c:41-62 | writes pix(i, j) into every column of rows startRow..endRow and leaves all other rows unchanged |
| `Engine.ComputeRowRanges` | mandel.c:282-314 | the running-currentStart loop fills `args` with exactly the row partition; the first range starts at 0, the ranges are contiguous, and the last ends at height - 1 |
| `Engine.RunTiles` | mandel.c:318-323 | running the threads whole, in schedule order, leaves each pixel as CellAfter of its old value under the scheduled tiles |
| `Engine.ComputeImage` | mandel.c:275-325 | after compute_image every pixel of the image equals pix(i, j), for any numThreads >= 1 and any schedule |
| `Engine.RenderImage` | mandel.c:225-231 | the single-image path allocates a width x height image, fills it black and computes it; every pixel ends as pix(i, j), so the black fill never survives |
| `FrameNames.Decimal` | mandel.c:170 | the `%d` text of a natural number: at least one digit, all characters digits, and a leading '0' only for the number 0 |
| `FrameNames.ParseDecimalOfDecimal` | mandel.c:170 | parsing the decimal text of n gives back n |
| `FrameNames.DecimalOfParseDecimal` | mandel.c:170 | every canonical digit string is the decimal text of the value it denotes |
| `FrameNames.DecimalLength` | mandel.c:168-170 | a number below 10^k has at most k decimal digits |
| `FrameNames.FrameOfNameInverse` | mandel.c:170 | reading the frame number back from a file name gives f exactly when the name is "mandel" + decimal(f) + ".jpg" |
| `FrameNames.FrameNameInjective` | mandel.c:168-170 | two frames share an output name exactly when they are the same frame |
| `FrameNames.FrameNameFits` | mandel.c:168-170 | the name of any frame a C `int` can hold is at most 20 characters, within the 64-byte `outname` buffer |
| `Movie.AllJobsRendered` | mandel.c:164-200 | the jobs the children run as written produce exactly the first frame of every non-empty range, and no other frame |
| `Movie.AssignedPartition` | mandel.c:137-151 | a frame is assigned to some child exactly when it is in [0, totalFrames), and then to only one child |
| `Movie.RenderedFramesAre` | mandel.c:164-200 | the frames produced are {i * (totalFrames / numProcs) : i < numProcs} when every child has a frame; {0} when there are more processes than frames; none for an empty movie |
| `Movie.OutputsDistinct` | mandel.c:145-170 | two different children that both render write to different files |
| `Movie.DefaultMovieRendersOneFrame` | mandel.c:164-200 | with the defaults (50 frames, 1 process), the child is assigned frames 0 to 49, yet its only job is frame 0 into "mandel0.jpg" |
| `Movie.AllIntendedJobsFrames` | mandel.c:166 | under the corrected child, a frame is produced exactly when some child is assigned it |
| `Movie.IntendedRendersEveryFrame` | mandel.c:166 | under the corrected child, the frames produced are exactly [0, totalFrames) |
| `Movie.MovieMode` | mandel.c:131-214 | the loop forks children until the first failed fork: every recorded fork succeeded and the next one, if any, failed; each child gets its Split range; the exit status is 1 after a failed fork and 0 otherwise; the jobs are the as-written jobs of the forked children (each file name a function of its frame); with all forks successful they produce exactly the rendered frames of the whole partition |

## Findings

| source | as written | input that shows it | evidently intended | confidence | as-written member | corrected member |
|---|---|---|---|---|---|---|
| mandel.c:166-198 | the loop over a child's frames calls `execl` in its first pass. `execl` does not return on success, and its failure path calls `exit(1)`, so only frame `start` is ever rendered | the default movie: 50 frames, `-n 1`. The only child is assigned frames 0 to 49, but only `mandel0.jpg` is written | every child renders every frame of its assigned range, so all of `mandel0.jpg` to `mandel49.jpg` are written | high; not executed | `Movie.DefaultMovieRendersOneFrame` | `Movie.IntendedRendersEveryFrame` |

The two halves of this finding are used as follows:

- `Movie.MovieMode` models the loop as written, because that is what the
  program does. Its `jobs` follow `ChildJobs`.
- The assigned ranges it returns (`children`) are the intended partition.
  `Movie.AssignedPartition` and `Movie.IntendedRendersEveryFrame` prove facts
  about that partition under the corrected child `Movie.IntendedChildJobs`.

## Left out

- `iterations_at_point`, the pixel-to-plane coordinate mapping and
  `iteration_to_color` are left out. They are IEEE double arithmetic, and
  `0xFFFFFF*iters` overflows a C `int` once `iters > 128`. The colour of a
  pixel is the parameter `pix(i, j)` instead.
- The per-frame scale `xscale * (0.98 * f)` is left out, and so are the `%lf`
  and `%d` texts of centre, scale and `max` handed to `execl`. These are
  floating-point values and their formatting. A `FrameJob` holds only the
  frame number; its output name `OutName()` is computed from that number.
- `pthread_create` and `pthread_join` are left out. The threads are modelled
  as whole tiles run one after another in the order `schedule` gives.
  Interleavings finer than a tile are not modelled. The rows of the threads
  are disjoint, so no cell is written by two threads, and any interleaving
  leaves the same image as the sequential run.
- `Engine.ComputeImage` and `Engine.AnyScheduleRendersImage` assume that every
  `pthread_create` succeeds (`IsSchedule` runs every thread). The code does
  not check its return value (mandel.c:319), so a refused thread would leave
  its rows with the black fill; that case is not modelled.
- `fork`, `execl` and `waitpid` are replaced:
  - whether each fork succeeds is the parameter `forkOk`;
  - what an exec'd child does is its `FrameJob`;
  - the `pids` array, the child exit statuses and whether the exec'd render
    itself succeeds are not modelled.
- Argument parsing (`getopt`, `atoi`, `atof`), `show_help` and the `printf`
  messages are left out. The parameters arrive already parsed; `totalFrames`
  is the constant `Movie.MovieFrames`, since no option changes it.
- The image library (`initRawImage`, `setImageCOLOR`, `storeJpegImageFile`,
  `freeRawImage`) is left out. The allocation and black fill are a fresh
  `array2` filled with 0; storing and freeing the image are not modelled.
- Negative image sizes (from `atoi`) are not modelled. Heights, widths and
  frame counts are `nat`.
- A thread or process count of 0 is excluded by `requires`, because the source
  divides by it (mandel.c:282-283 and 137-139). A negative count from `-t` or
  `-n` is not modelled either. The division is then defined, but the arrays at
  mandel.c:141 and 287-288 get a negative size, which is undefined behaviour.
  The loops then never run: the image keeps its black fill, and movie mode
  prints "Movie finished." and returns 0.
- C `int` overflow is not modelled. Every start and count in the split, and
  every frame number, stays between 0 and the item count; an `endRow` stays
  between -1 (an empty range at row 0) and the item count.
