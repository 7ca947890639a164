/**
 * The arithmetic of `updateStats`: the counters shown above the list and the
 * progress percentage.
 */
module Statistics {
  import opened Seqs
  import opened TaskModel

  datatype Stats = Stats(total: nat, completed: nat, pending: nat, progress: nat)

  /**
   * `Math.round(completed / total * 100)`, or 0 for an empty list, in exact integer
   * arithmetic: the nearest integer to the percentage, a half rounded up.
   */
  function Progress(completed: nat, total: nat): (p: nat)
    ensures total == 0 ==> p == 0
    ensures total > 0 ==> 2 * total * p <= 200 * completed + total < 2 * total * (p + 1)
  {
    if total > 0 then (200 * completed + total) / (2 * total) else 0
  }

  /** The counters and percentage for the list `s`. */
  function ComputeStats(s: seq<Task>): (r: Stats)
    ensures r.total == |s|
    ensures r.completed == |Filter(s, IsCompleted())|
    ensures r.pending == |Filter(s, IsPending())|
    ensures r.completed + r.pending == r.total
    ensures r.progress == Progress(r.completed, r.total)
  {
    FilterSplitsLength(s, IsCompleted());
    FilterExtensional(s, Not(IsCompleted()), IsPending());
    var total := |s|;
    var completed := |Filter(s, IsCompleted())|;
    Stats(total, completed, total - completed, Progress(completed, total))
  }

  lemma MulMonotone(a: nat, b: int, c: int)
    ensures b <= c ==> a * b <= a * c
  {
  }

  /** Comparing a quotient with `k` is comparing the dividend with `d * k`. */
  lemma DivBounds(x: nat, d: nat, k: nat)
    requires d > 0
    ensures d * k <= x ==> k <= x / d
    ensures x < d * k ==> x / d < k
  {
    var q := x / d;
    assert d * q <= x < d * q + d;
    MulMonotone(d, q + 1, k);
    MulMonotone(d, k, q);
  }

  /**
   * The percentage lies in [0, 100]; it is 0 when nothing is completed and 100 when
   * every task of a non-empty list is.
   */
  lemma ProgressBounds(completed: nat, total: nat)
    requires completed <= total
    ensures Progress(completed, total) <= 100
    ensures completed == 0 ==> Progress(completed, total) == 0
    ensures 0 < total == completed ==> Progress(completed, total) == 100
  {
    if total > 0 {
      var x, d := 200 * completed + total, 2 * total;
      assert x <= 201 * total;
      DivBounds(x, d, 101);
      DivBounds(x, d, 100);
      DivBounds(x, d, 1);
    }
  }

  /**
   * Below 200 tasks the percentage reads 100 only when every task is completed; up
   * to 200 tasks it reads 0 only when none is.
   */
  lemma ProgressExtremesExact(completed: nat, total: nat)
    requires completed <= total
    ensures 0 < total < 200 && Progress(completed, total) == 100 ==> completed == total
    ensures total <= 200 && Progress(completed, total) == 0 ==> completed == 0
  {
    if total > 0 {
      var x, d := 200 * completed + total, 2 * total;
      DivBounds(x, d, 100);
      DivBounds(x, d, 1);
      if completed < total {
        assert x <= 201 * total - 200;
      }
    }
  }

  /** Beyond that the rounding shows 100% with a task pending, and 0% with one completed. */
  lemma ProgressRoundsAtLargeTotals()
    ensures Progress(200, 201) == 100
    ensures Progress(1, 201) == 0
  {
  }

  /** One completed task out of four is 25%; an empty list is 0%. */
  lemma ProgressExamples()
    ensures Progress(1, 4) == 25
    ensures ComputeStats([]).progress == 0
  {
  }
}
