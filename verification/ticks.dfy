/**
 * The multiples of a scale interval inside `[minYear, maxYear]`, which both
 * marker loops enumerate (src/components/timeline/year-scale.tsx and
 * src/components/timeline/timeline-view.tsx): start at
 * `Math.ceil(minYear / interval) * interval` and step by `interval` while at
 * most `maxYear`. In exact arithmetic the k-th step is the multiple
 * `(first + k) * interval`.
 */
module Ticks {

  /** `Math.ceil` */
  function Ceil(x: real): (c: int)
    ensures x <= c as real < x + 1.0
  {
    -((-x).Floor)
  }

  /** The multiple `k * step`, as a real. */
  function Multiple(k: int, step: real): real
  {
    k as real * step
  }

  /** One more step is the next multiple. */
  lemma MultipleNext(k: int, step: real)
    ensures Multiple(k + 1, step) == Multiple(k, step) + step
  {
    assert (k + 1) as real * step == k as real * step + 1.0 * step;
  }

  /** The smallest `k` whose multiple is at least `lo`. */
  function FirstIndex(lo: real, step: real): int
    requires step > 0.0
  {
    Ceil(lo / step)
  }

  /** The largest `k` whose multiple is at most `hi`. */
  function LastIndex(hi: real, step: real): int
    requires step > 0.0
  {
    (hi / step).Floor
  }

  /** For a positive step, `k * step >= lo` exactly when `k` is at least
      the first index. */
  lemma AtLeastLow(k: int, lo: real, step: real)
    requires step > 0.0
    ensures Multiple(k, step) >= lo <==> k >= FirstIndex(lo, step)
  {
    var q := lo / step;
    assert q * step == lo;
    if k as real >= q {
      assert k as real * step >= q * step;
    } else {
      assert k as real * step < q * step;
    }
  }

  /** For a positive step, `k * step <= hi` exactly when `k` is at most the
      last index. */
  lemma AtMostHigh(k: int, hi: real, step: real)
    requires step > 0.0
    ensures Multiple(k, step) <= hi <==> k <= LastIndex(hi, step)
  {
    var q := hi / step;
    assert q * step == hi;
    if k as real <= q {
      assert k as real * step <= q * step;
    } else {
      assert k as real * step > q * step;
    }
  }

  /** The multiples of `step` in `[lo, hi]`, ascending. */
  function Multiples(lo: real, hi: real, step: real): (r: seq<real>)
    requires step > 0.0
    ensures forall j :: 0 <= j < |r| ==> r[j] == Multiple(FirstIndex(lo, step) + j, step)
  {
    var first := FirstIndex(lo, step);
    var count := if LastIndex(hi, step) >= first then LastIndex(hi, step) - first + 1 else 0;
    seq(count, j requires 0 <= j => Multiple(first + j, step))
  }

  /** Every listed value is a multiple of the step inside the range. */
  lemma MultiplesSound(lo: real, hi: real, step: real)
    requires step > 0.0
    ensures forall v :: v in Multiples(lo, hi, step) ==>
              lo <= v <= hi && exists k: int :: v == Multiple(k, step)
  {
    var r := Multiples(lo, hi, step);
    var first := FirstIndex(lo, step);
    forall j | 0 <= j < |r|
      ensures lo <= r[j] <= hi
    {
      AtLeastLow(first + j, lo, step);
      AtMostHigh(first + j, hi, step);
    }
  }

  /** Every multiple of the step inside the range is listed. */
  lemma MultiplesComplete(lo: real, hi: real, step: real, k: int)
    requires step > 0.0 && lo <= Multiple(k, step) <= hi
    ensures Multiple(k, step) in Multiples(lo, hi, step)
  {
    AtLeastLow(k, lo, step);
    AtMostHigh(k, hi, step);
    var r := Multiples(lo, hi, step);
    assert r[k - FirstIndex(lo, step)] == Multiple(k, step);
  }

  /** The values strictly increase, one step apart. */
  lemma MultiplesAscending(lo: real, hi: real, step: real)
    requires step > 0.0
    ensures var r := Multiples(lo, hi, step);
            forall j :: 0 <= j < |r| - 1 ==> r[j + 1] == r[j] + step && r[j] < r[j + 1]
  {
  }

  /** The first value is the smallest multiple at or above `lo`: one step
      below it is already below the range. */
  lemma MultiplesStart(lo: real, hi: real, step: real)
    requires step > 0.0 && Multiples(lo, hi, step) != []
    ensures var v := Multiples(lo, hi, step)[0];
            lo <= v && v - step < lo
  {
    var first := FirstIndex(lo, step);
    AtLeastLow(first, lo, step);
    AtLeastLow(first - 1, lo, step);
  }

  /** The range is empty exactly when it holds no multiple of the step. */
  lemma MultiplesEmpty(lo: real, hi: real, step: real)
    requires step > 0.0
    ensures Multiples(lo, hi, step) == [] <==>
            forall k: int :: !(lo <= Multiple(k, step) <= hi)
  {
    var first := FirstIndex(lo, step);
    if Multiples(lo, hi, step) != [] {
      MultiplesSound(lo, hi, step);
      AtLeastLow(first, lo, step);
      AtMostHigh(first, hi, step);
      assert lo <= Multiple(first, step) <= hi;
    } else {
      forall k: int ensures !(lo <= Multiple(k, step) <= hi) {
        AtLeastLow(k, lo, step);
        AtMostHigh(k, hi, step);
      }
    }
  }
}
