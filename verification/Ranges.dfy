// The ranges [max * (i - 1) / n, max * i / n) in which the workers of a program share max items.
module Ranges {
  import opened NumberTheory

  function RangeEnd(max: nat, threads: nat, id: nat): nat
    requires threads > 0
  {
    max * id / threads
  }

  lemma RangesGrow(max: nat, threads: nat, i: nat, j: nat)
    requires threads > 0 && i <= j
    ensures RangeEnd(max, threads, i) <= RangeEnd(max, threads, j)
  {
    assert max * i <= max * j;
    QuotientsGrow(max * i, max * j, threads);
  }

  lemma QuotientsGrow(a: nat, b: nat, d: nat)
    requires d > 0 && a <= b
    ensures a / d <= b / d
  {
    var p: int, q: int := a / d, b / d;
    assert (p - q) * d == a - a % d - (b - b % d);
    MultipleIsFar(p - q, d);
  }

  lemma LastRange(max: nat, threads: nat)
    requires threads > 0
    ensures RangeEnd(max, threads, threads) == max && RangeEnd(max, threads, 0) == 0
  {
    DivModUnique(max * threads, max, 0, threads);
  }

  lemma RangeFacts(max: nat, threads: nat, id: nat)
    requires 1 <= id <= threads
    ensures RangeEnd(max, threads, id - 1) <= RangeEnd(max, threads, id) <= max
  {
    RangesGrow(max, threads, id - 1, id);
    RangesGrow(max, threads, id, threads);
    LastRange(max, threads);
  }

  // Range i ends at the i-th of `threads` equal parts, rounded down.
  lemma EndIs(max: nat, threads: nat, id: nat)
    requires threads > 0
    ensures RangeEnd(max, threads, id) * threads <= max * id < (RangeEnd(max, threads, id) + 1) * threads
  {
    QuotientTruncates(max * id, threads);
  }

  // The shares of the threads differ by at most one.
  lemma SharesAreEqual(max: nat, threads: nat, i: nat, j: nat)
    requires 1 <= i <= threads && 1 <= j <= threads
    ensures var a, b := RangeEnd(max, threads, i) - RangeEnd(max, threads, i - 1),
                        RangeEnd(max, threads, j) - RangeEnd(max, threads, j - 1);
      -1 <= a - b <= 1
  {
    ShareIs(max, threads, i);
    ShareIs(max, threads, j);
  }

  lemma ShareIs(max: nat, threads: nat, id: nat)
    requires 1 <= id <= threads
    ensures max / threads <= RangeEnd(max, threads, id) - RangeEnd(max, threads, id - 1) <= max / threads + 1
  {
    EndIs(max, threads, id - 1);
    EndIs(max, threads, id);
    QuotientTruncates(max, threads);
    ShareBetween(RangeEnd(max, threads, id - 1), RangeEnd(max, threads, id), max * (id - 1), max, max / threads,
                 threads);
    assert max * id == max * (id - 1) + max;
  }

  lemma ShareBetween(a: int, b: int, x: int, max: int, q: int, d: int)
    requires d > 0 && a * d <= x < (a + 1) * d && b * d <= x + max < (b + 1) * d && q * d <= max < (q + 1) * d
    ensures q <= b - a <= q + 1
  {
    assert (b - a - (q + 2)) * d < 0 by {
      assert (b - a - (q + 2)) * d == b * d - (a + 1) * d - (q + 1) * d;
    }
    assert (b + 1 - a - q) * d > 0 by {
      assert (b + 1 - a - q) * d == (b + 1) * d - a * d - q * d;
    }
    if b - a - (q + 2) >= 0 {
      MulMonotone(0, b - a - (q + 2), d);
    }
    if b + 1 - a - q <= 0 {
      MulMonotone(b + 1 - a - q, 0, d);
    }
  }

  // The ranges of the threads cover every position, and no position twice.
  lemma {:induction false} RangesCover(max: nat, threads: nat, ids: nat, n: nat) returns (id: nat)
    requires threads > 0 && 1 <= ids <= threads && n < RangeEnd(max, threads, ids)
    ensures 1 <= id <= ids && RangeEnd(max, threads, id - 1) <= n < RangeEnd(max, threads, id)
    decreases ids
  {
    LastRange(max, threads);
    if ids > 1 && n < RangeEnd(max, threads, ids - 1) {
      id := RangesCover(max, threads, ids - 1, n);
    } else {
      id := ids;
    }
  }

  lemma RangesDisjoint(max: nat, threads: nat, n: nat, i: nat, j: nat)
    requires threads > 0 && 1 <= i && 1 <= j
    requires RangeEnd(max, threads, i - 1) <= n < RangeEnd(max, threads, i)
    requires RangeEnd(max, threads, j - 1) <= n < RangeEnd(max, threads, j)
    ensures i == j
  {
    if i < j {
      RangesGrow(max, threads, i, j - 1);
    } else if j < i {
      RangesGrow(max, threads, j, i - 1);
    }
  }
}
