/**
 * The work split that mandel.c uses twice: `total` items (image rows in
 * compute_image, animation frames in movie mode) are shared among `n`
 * workers, each getting `total / n` items and the last one also getting the
 * leftover `total % n`. Worker `i` owns the half-open range
 * [Start(total, n, i), Start(total, n, i) + Count(total, n, i)).
 *
 * The source divides by `n`, so every member requires `n >= 1`.
 * All quantities stay between 0 and `total`, so no C `int` overflow arises.
 */
module Split {

  /** Items every worker gets: `height/numThreads`, `totalFrames/numProcs`. */
  function Share(total: nat, n: nat): nat
    requires n >= 1
  {
    total / n
  }

  /** Items left over for the last worker: `height%numThreads`, `totalFrames%numProcs`. */
  function Leftover(total: nat, n: nat): nat
    requires n >= 1
  {
    total % n
  }

  /** First item of worker `i`. */
  function Start(total: nat, n: nat, i: nat): nat
    requires n >= 1
  {
    i * Share(total, n)
  }

  /** Number of items of worker `i`; only the last one receives the leftover. */
  function Count(total: nat, n: nat, i: nat): nat
    requires n >= 1
  {
    Share(total, n) + if i == n - 1 then Leftover(total, n) else 0
  }

  /** `i` is the owner of item `x`. */
  predicate Owns(total: nat, n: nat, i: nat, x: int)
    requires n >= 1
  {
    Start(total, n, i) <= x < Start(total, n, i) + Count(total, n, i)
  }

  lemma MulMonotone(a: nat, b: nat, q: nat)
    requires a <= b
    ensures a * q <= b * q
  {
  }

  /** Worker 0 starts at item 0 and each next worker starts where the previous one ended. */
  lemma Contiguous(total: nat, n: nat, i: nat)
    requires n >= 1 && i + 1 < n
    ensures Start(total, n, 0) == 0
    ensures Start(total, n, i + 1) == Start(total, n, i) + Count(total, n, i)
  {
  }

  /** The last worker ends exactly at `total`. */
  lemma LastEndsAtTotal(total: nat, n: nat)
    requires n >= 1
    ensures Start(total, n, n - 1) + Count(total, n, n - 1) == total
  {
  }

  /** A worker before `k` ends no later than `k` starts: the ranges never overlap. */
  lemma {:induction false} EndsBeforeLater(total: nat, n: nat, i: nat, k: nat)
    requires n >= 1 && i < k < n
    ensures Start(total, n, i) + Count(total, n, i) <= Start(total, n, k)
  {
    Contiguous(total, n, i);
    MulMonotone(i + 1, k, Share(total, n));
  }

  /** Distinct workers own no common item. */
  lemma {:induction false} Disjoint(total: nat, n: nat, i: nat, k: nat, x: int)
    requires n >= 1 && i < n && k < n
    requires Owns(total, n, i, x) && Owns(total, n, k, x)
    ensures i == k
  {
    if i < k {
      EndsBeforeLater(total, n, i, k);
    } else if k < i {
      EndsBeforeLater(total, n, k, i);
    }
  }

  /** Every item of [0, total) has an owner, and only those items have one. */
  function Owner(total: nat, n: nat, x: nat): (i: nat)
    requires n >= 1 && x < total
    ensures i < n && Owns(total, n, i, x)
  {
    var q := Share(total, n);
    if q == 0 || x / q >= n - 1 then
      LastEndsAtTotal(total, n);
      MulMonotone(n - 1, if q == 0 then n - 1 else x / q, q);
      n - 1
    else
      x / q
  }

  /** Every item of [0, total) belongs to exactly one worker, and nothing else is owned. */
  lemma {:induction false} ExactlyOnce(total: nat, n: nat, x: int)
    requires n >= 1
    ensures 0 <= x < total <==> exists i :: 0 <= i < n && Owns(total, n, i, x)
    ensures forall i, k :: 0 <= i < n && 0 <= k < n && Owns(total, n, i, x) && Owns(total, n, k, x) ==> i == k
  {
    if 0 <= x < total {
      var o := Owner(total, n, x);
      assert Owns(total, n, o, x);
    }
    if exists i :: 0 <= i < n && Owns(total, n, i, x) {
      var i :| 0 <= i < n && Owns(total, n, i, x);
      assert 0 <= Start(total, n, i);
      if i < n - 1 {
        EndsBeforeLater(total, n, i, n - 1);
      }
      LastEndsAtTotal(total, n);
    }
    forall i, k | 0 <= i < n && 0 <= k < n && Owns(total, n, i, x) && Owns(total, n, k, x)
      ensures i == k
    {
      Disjoint(total, n, i, k, x);
    }
  }

  /**
   * Sizes: every worker but the last gets `total / n` items, the last one
   * `total / n + total % n`; with more workers than items every worker but
   * the last gets none, and with no more workers than items every worker gets
   * at least one.
   */
  lemma Sizes(total: nat, n: nat, i: nat)
    requires n >= 1 && i < n
    ensures i < n - 1 ==> Count(total, n, i) == total / n
    ensures i == n - 1 ==> Count(total, n, i) == total / n + total % n
    ensures n > total && i < n - 1 ==> Count(total, n, i) == 0
    ensures n > total ==> Start(total, n, i) == 0
    ensures n <= total ==> Count(total, n, i) >= 1
  {
  }

  /** 10 items over 3 workers: ranges [0,3), [3,6), [6,10). */
  lemma TenOverThree()
    ensures Start(10, 3, 0) == 0 && Count(10, 3, 0) == 3
    ensures Start(10, 3, 1) == 3 && Count(10, 3, 1) == 3
    ensures Start(10, 3, 2) == 6 && Count(10, 3, 2) == 4
  {
  }
}
