/**
 * The rendering engine of mandel.c: compute_image splits the image rows into
 * one inclusive range [startRow, endRow] per thread, and every thread_worker
 * writes the pixels of its rows into the shared image.
 *
 * The image is an array2 indexed [row j, column i]: img.Length0 is the
 * height and img.Length1 the width. The colour of pixel (i, j) is the
 * parameter `pix`: it stands for iteration_to_color(iterations_at_point(x, y, max), max)
 * with x, y derived from (i, j) and the window, width, height and max that
 * every thread shares, so it depends on (i, j) alone.
 */
module Engine {
  import Split

  /** The row range of one ThreadArgs: both ends inclusive, empty when endRow == startRow - 1. */
  datatype RowRange = RowRange(startRow: int, endRow: int)

  predicate Covers(r: RowRange, j: int) {
    r.startRow <= j <= r.endRow
  }

  /** A range thread_worker can run on an image of `height` rows without leaving it. */
  predicate InImage(r: RowRange, height: int) {
    r.startRow <= r.endRow ==> 0 <= r.startRow && r.endRow < height
  }

  /** Rows of thread `t`: the Split share of `height` rows, written as an inclusive range. */
  function RowRangeOf(height: nat, n: nat, t: nat): RowRange
    requires n >= 1
  {
    RowRange(Split.Start(height, n, t), Split.Start(height, n, t) + Split.Count(height, n, t) - 1)
  }

  /** The ranges compute_image hands to its `n` threads, thread 0 first. */
  function RowPartition(height: nat, n: nat): (p: seq<RowRange>)
    requires n >= 1
    ensures |p| == n
  {
    seq(n, t requires 0 <= t < n => RowRangeOf(height, n, t))
  }

  /**
   * Thread 0 starts at row 0, thread t + 1 starts right after thread t ends,
   * and the last thread ends at the last row.
   */
  lemma {:induction false} RowPartitionContiguous(height: nat, n: nat)
    requires n >= 1
    ensures RowPartition(height, n)[0].startRow == 0
    ensures forall t :: 0 <= t < n - 1 ==>
      RowPartition(height, n)[t + 1].startRow == RowPartition(height, n)[t].endRow + 1
    ensures RowPartition(height, n)[n - 1].endRow == height - 1
  {
    var p := RowPartition(height, n);
    forall t | 0 <= t < n - 1
      ensures p[t + 1].startRow == p[t].endRow + 1
    {
      Split.Contiguous(height, n, t);
    }
    Split.LastEndsAtTotal(height, n);
  }

  /** Every row of the image is in exactly one thread's range, and no other row is in any. */
  lemma {:induction false} RowPartitionExactlyOnce(height: nat, n: nat, j: int)
    requires n >= 1
    ensures 0 <= j < height <==> exists t :: 0 <= t < n && Covers(RowPartition(height, n)[t], j)
    ensures forall t, u ::
      0 <= t < n && 0 <= u < n && Covers(RowPartition(height, n)[t], j) && Covers(RowPartition(height, n)[u], j)
      ==> t == u
  {
    var p := RowPartition(height, n);
    Split.ExactlyOnce(height, n, j);
    assert forall t :: 0 <= t < n ==> (Covers(p[t], j) <==> Split.Owns(height, n, t, j));
  }

  /**
   * Every thread but the last gets height / n rows, the last one
   * height / n + height % n; with more threads than rows, every range but the
   * last is empty (endRow == startRow - 1), and with no more threads than rows
   * every range holds at least one row.
   */
  lemma {:induction false} RowPartitionSizes(height: nat, n: nat, t: nat)
    requires n >= 1 && t < n
    ensures t < n - 1 ==>
      RowPartition(height, n)[t].endRow - RowPartition(height, n)[t].startRow + 1 == height / n
    ensures t == n - 1 ==>
      RowPartition(height, n)[t].endRow - RowPartition(height, n)[t].startRow + 1 == height / n + height % n
    ensures n > height && t < n - 1 ==>
      RowPartition(height, n)[t].endRow == RowPartition(height, n)[t].startRow - 1
    ensures n <= height ==> RowPartition(height, n)[t].startRow <= RowPartition(height, n)[t].endRow
  {
    Split.Sizes(height, n, t);
  }

  /** Every range of the partition stays inside the image. */
  lemma {:induction false} RowPartitionInImage(height: nat, n: nat)
    requires n >= 1
    ensures forall t :: 0 <= t < n ==> InImage(RowPartition(height, n)[t], height)
  {
    var p := RowPartition(height, n);
    forall t | 0 <= t < n
      ensures InImage(p[t], height)
    {
      if t < n - 1 {
        Split.EndsBeforeLater(height, n, t, n - 1);
      }
      Split.LastEndsAtTotal(height, n);
    }
  }

  /**
   * The value of the pixel in column i of row j, first `init`, after the tiles
   * are run one after another in the order given: the last tile covering row j
   * wrote pix(i, j).
   */
  function CellAfter(tiles: seq<RowRange>, init: int, i: int, j: int, pix: (int, int) -> int): int
    decreases |tiles|
  {
    if tiles == [] then init
    else if Covers(tiles[|tiles| - 1], j) then pix(i, j)
    else CellAfter(tiles[..|tiles| - 1], init, i, j, pix)
  }

  /** A pixel ends as pix(i, j) if some tile covers its row, and keeps its old value otherwise. */
  lemma {:induction false} CellAfterTiles(tiles: seq<RowRange>, init: int, i: int, j: int, pix: (int, int) -> int)
    ensures CellAfter(tiles, init, i, j, pix)
      == if exists k :: 0 <= k < |tiles| && Covers(tiles[k], j) then pix(i, j) else init
    decreases |tiles|
  {
    if tiles != [] && !Covers(tiles[|tiles| - 1], j) {
      var front := tiles[..|tiles| - 1];
      CellAfterTiles(front, init, i, j, pix);
      assert forall k :: 0 <= k < |front| ==> front[k] == tiles[k];
    }
  }

  /** `schedule` runs every one of `n` threads once, in some order. */
  predicate IsSchedule(schedule: seq<int>, n: int) {
    |schedule| == n
    && (forall k :: 0 <= k < |schedule| ==> 0 <= schedule[k] < n)
    && (forall t :: 0 <= t < n ==> t in schedule)
  }

  /** The ranges in the order the threads of `schedule` run. */
  function Scheduled(ranges: seq<RowRange>, schedule: seq<int>): (r: seq<RowRange>)
    requires forall k :: 0 <= k < |schedule| ==> 0 <= schedule[k] < |ranges|
    ensures |r| == |schedule|
    ensures forall k :: 0 <= k < |r| ==> r[k] == ranges[schedule[k]]
  {
    seq(|schedule|, k requires 0 <= k < |schedule| => ranges[schedule[k]])
  }

  /**
   * Running the tiles of the row partition for any number of threads, in any
   * order, leaves every pixel of the image equal to pix(i, j), whatever it held
   * before (the black fill of main included).
   */
  lemma {:induction false} AnyScheduleRendersImage(height: nat, n: nat, schedule: seq<int>,
                                                   init: int, i: int, j: int, pix: (int, int) -> int)
    requires n >= 1 && IsSchedule(schedule, n)
    requires 0 <= j < height
    ensures CellAfter(Scheduled(RowPartition(height, n), schedule), init, i, j, pix) == pix(i, j)
  {
    var p := RowPartition(height, n);
    var tiles := Scheduled(p, schedule);
    RowPartitionExactlyOnce(height, n, j);
    var t :| 0 <= t < n && Covers(p[t], j);
    assert t in schedule;
    var k :| 0 <= k < |schedule| && schedule[k] == t;
    assert Covers(tiles[k], j);
    CellAfterTiles(tiles, init, i, j, pix);
  }

  /** The rendered image is the same for every thread count and every schedule. */
  lemma {:induction false} Deterministic(height: nat, n1: nat, s1: seq<int>, n2: nat, s2: seq<int>,
                                         init: int, i: int, j: int, pix: (int, int) -> int)
    requires n1 >= 1 && IsSchedule(s1, n1)
    requires n2 >= 1 && IsSchedule(s2, n2)
    requires 0 <= j < height
    ensures CellAfter(Scheduled(RowPartition(height, n1), s1), init, i, j, pix)
         == CellAfter(Scheduled(RowPartition(height, n2), s2), init, i, j, pix)
  {
    AnyScheduleRendersImage(height, n1, s1, init, i, j, pix);
    AnyScheduleRendersImage(height, n2, s2, init, i, j, pix);
  }

  /**
   * thread_worker: writes pix(i, j) into every column of rows startRow..endRow
   * and leaves every other row as it was.
   */
  method ThreadWorker(img: array2<int>, arg: RowRange, pix: (int, int) -> int)
    requires InImage(arg, img.Length0)
    modifies img
    ensures forall j, i :: 0 <= j < img.Length0 && 0 <= i < img.Length1 ==>
      img[j, i] == if Covers(arg, j) then pix(i, j) else old(img[j, i])
  {
    var width := img.Length1;
    var j := arg.startRow;
    while j <= arg.endRow
      invariant arg.startRow <= j && (j <= arg.endRow + 1 || j == arg.startRow)
      invariant forall jj, ii :: 0 <= jj < img.Length0 && 0 <= ii < width ==>
        img[jj, ii] == if arg.startRow <= jj < j then pix(ii, jj) else old(img[jj, ii])
    {
      var i := 0;
      while i < width
        invariant 0 <= i <= width
        invariant forall jj, ii :: 0 <= jj < img.Length0 && 0 <= ii < width ==>
          img[jj, ii] == if arg.startRow <= jj < j || (jj == j && ii < i) then pix(ii, jj) else old(img[jj, ii])
      {
        img[j, i] := pix(i, j);
        i := i + 1;
      }
      j := j + 1;
    }
  }

  /**
   * The first loop of compute_image: fills one ThreadArgs range per thread
   * with a running currentStart, giving the last thread the leftover rows.
   */
  method ComputeRowRanges(height: nat, numThreads: int) returns (args: array<RowRange>)
    requires numThreads >= 1
    ensures fresh(args) && args.Length == numThreads
    ensures args[..] == RowPartition(height, numThreads)
    ensures args[0].startRow == 0
    ensures forall t :: 0 <= t < numThreads - 1 ==> args[t + 1].startRow == args[t].endRow + 1
    ensures args[numThreads - 1].endRow == height - 1
  {
    var rowsPerThread := height / numThreads;
    var leftover2 := height % numThreads;
    args := new RowRange[numThreads];
    var currentStart := 0;
    for t := 0 to numThreads
      invariant currentStart == if t < numThreads then Split.Start(height, numThreads, t) else height
      invariant forall k :: 0 <= k < t ==> args[k] == RowRangeOf(height, numThreads, k)
    {
      var thisRows := rowsPerThread;
      if t == numThreads - 1 {
        thisRows := thisRows + leftover2;
      }
      args[t] := RowRange(currentStart, currentStart + thisRows - 1);
      currentStart := currentStart + thisRows;
      if t + 1 < numThreads {
        Split.Contiguous(height, numThreads, t);
      } else {
        Split.LastEndsAtTotal(height, numThreads);
      }
    }
    RowPartitionContiguous(height, numThreads);
  }

  /**
   * The threads of compute_image, run whole and one after another in the
   * order `schedule` gives; each pixel ends as CellAfter says.
   */
  method RunTiles(img: array2<int>, args: array<RowRange>, schedule: seq<int>, pix: (int, int) -> int)
    requires forall k :: 0 <= k < |schedule| ==> 0 <= schedule[k] < args.Length
    requires forall t :: 0 <= t < args.Length ==> InImage(args[t], img.Length0)
    modifies img
    ensures forall j, i :: 0 <= j < img.Length0 && 0 <= i < img.Length1 ==>
      img[j, i] == CellAfter(Scheduled(args[..], schedule), old(img[j, i]), i, j, pix)
  {
    for k := 0 to |schedule|
      invariant forall j, i :: 0 <= j < img.Length0 && 0 <= i < img.Length1 ==>
        img[j, i] == CellAfter(Scheduled(args[..], schedule[..k]), old(img[j, i]), i, j, pix)
    {
      ghost var before := Scheduled(args[..], schedule[..k]);
      ThreadWorker(img, args[schedule[k]], pix);
      assert Scheduled(args[..], schedule[..k + 1])[..k] == before;
    }
    assert schedule[..|schedule|] == schedule;
  }

  /**
   * compute_image: one thread per range of the row partition, all joined;
   * afterwards every pixel holds pix(i, j), for any thread count and any order
   * in which the threads ran.
   */
  method ComputeImage(img: array2<int>, numThreads: int, schedule: seq<int>, pix: (int, int) -> int)
    requires numThreads >= 1 && IsSchedule(schedule, numThreads)
    modifies img
    ensures forall j, i :: 0 <= j < img.Length0 && 0 <= i < img.Length1 ==> img[j, i] == pix(i, j)
  {
    var args := ComputeRowRanges(img.Length0, numThreads);
    RowPartitionInImage(img.Length0, numThreads);
    RunTiles(img, args, schedule, pix);
    forall j, i | 0 <= j < img.Length0 && 0 <= i < img.Length1
      ensures img[j, i] == pix(i, j)
    {
      AnyScheduleRendersImage(img.Length0, numThreads, schedule, old(img[j, i]), i, j, pix);
    }
  }

  /**
   * The single-image path of main: a width x height image filled with black
   * (colour 0), then computed; no black pixel survives.
   */
  method RenderImage(width: nat, height: nat, numThreads: int, schedule: seq<int>, pix: (int, int) -> int)
    returns (img: array2<int>)
    requires numThreads >= 1 && IsSchedule(schedule, numThreads)
    ensures fresh(img) && img.Length0 == height && img.Length1 == width
    ensures forall j, i :: 0 <= j < height && 0 <= i < width ==> img[j, i] == pix(i, j)
  {
    img := new int[height, width]((j, i) => 0);
    ComputeImage(img, numThreads, schedule, pix);
  }
}
