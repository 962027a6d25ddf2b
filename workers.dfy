/**
  The work partition shared by the "parallel" variants: worker i of T gets the
  contiguous index range [i * per, (i + 1) * per) with per = ceil(n / T)
  (choose_leaf.c initialize_threads, linear_split.c linear_split_parallel).
  The threads themselves are not modelled: each worker is run in turn.
 */
module Workers {

  /** NUM_CORES in r_tree.h: the size of the process-wide per-worker result arrays. */
  const NUM_CORES: nat := 12

  /** ceil(n / T) on integers: the smallest share with which T workers cover n items. */
  function PerWorker(n: nat, T: nat): (per: nat)
    requires T >= 1
    ensures T * per >= n
    ensures per >= 1 ==> T * (per - 1) < n
  {
    var per := (n + T - 1) / T;
    assert per * T <= n + T - 1 < (per + 1) * T;
    per
  }

  /** The index range [start, end) handed to worker i. */
  function WorkerRange(n: nat, T: nat, i: nat): (r: (nat, nat))
    requires T >= 1
    ensures r.1 - r.0 == PerWorker(n, T)
  {
    var per := PerWorker(n, T);
    (i * per, (i + 1) * per)
  }

  /** The ranges of two different workers do not overlap. */
  lemma WorkerRangesDisjoint(n: nat, T: nat, i: nat, j: nat)
    requires T >= 1 && i < j
    ensures WorkerRange(n, T, i).1 <= WorkerRange(n, T, j).0
  {
    MulLeft(i + 1, j, PerWorker(n, T));
  }

  /** Ranges follow the order of their workers. */
  lemma WorkerRangesOrdered(n: nat, T: nat, i: nat, j: nat)
    requires T >= 1
    ensures i < j ==> WorkerRange(n, T, i).1 <= WorkerRange(n, T, j).0
  {
    if i < j {
      WorkerRangesDisjoint(n, T, i, j);
    }
  }

  /** A product with a non-negative factor grows with the other factor. */
  lemma {:induction false} MulLeft(a: nat, b: nat, c: nat)
    requires a <= b
    ensures a * c <= b * c
    decreases b - a
  {
    if a < b {
      MulLeft(a + 1, b, c);
      assert (a + 1) * c == a * c + c;
    }
  }

  /** Every index below n falls in the range of worker x / per, one of the T workers. */
  lemma WorkerRangesCover(n: nat, T: nat, x: nat)
    requires T >= 1 && x < n
    ensures PerWorker(n, T) >= 1
    ensures x / PerWorker(n, T) < T
    ensures WorkerRange(n, T, x / PerWorker(n, T)).0 <= x < WorkerRange(n, T, x / PerWorker(n, T)).1
  {
    var per := PerWorker(n, T);
    var i := x / per;
    assert i * per <= x < (i + 1) * per;
  }

  /** The worker whose range holds index x. */
  function WorkerOf(n: nat, T: nat, x: nat): (w: nat)
    requires T >= 1 && x < n
    ensures w < T && WorkerRange(n, T, w).0 <= x < WorkerRange(n, T, w).1
  {
    WorkerRangesCover(n, T, x);
    x / PerWorker(n, T)
  }
}
