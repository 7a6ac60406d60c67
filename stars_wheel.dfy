/** src/components/ui/custom/stars-scrolling-wheel.tsx: the countdown `generateRange` builds for the
    wheel, and the item-count arithmetic the component derives from it. Numbers are integers here. */
module StarsWheel {
  import opened Seqs

  /** `value, value - step, …` down to the last value that is still at least 0. */
  function Countdown(value: int, step: int): (r: seq<int>)
    requires step > 0 || value < 0
    decreases if value < 0 then 0 else value + 1
  {
    if value < 0 then [] else [value] + Countdown(value - step, step)
  }

  /** The first value `generateRange` counts down from. */
  function RangeStart(max: int, step: int, sideItemsCount: int): int {
    max + sideItemsCount * step
  }

  /** `generateRange`: the loop stops only when the value drops below 0, so it needs a positive step
      unless it starts below 0. */
  method GenerateRange(max: int, step: int, sideItemsCount: int) returns (result: seq<int>)
    requires step > 0 || RangeStart(max, step, sideItemsCount) < 0
    ensures result == Countdown(RangeStart(max, step, sideItemsCount), step)
  {
    result := [];
    var end := max + sideItemsCount * step;
    var value := end;
    while value >= 0
      invariant step > 0 || value < 0
      invariant result + Countdown(value, step) == Countdown(end, step)
      decreases if value < 0 then 0 else value + 1
    {
      CountdownStep(result, value, step);
      result := result + [value];
      value := value - step;
    }
  }

  lemma CountdownStep(prefix: seq<int>, value: int, step: int)
    requires step > 0 && value >= 0
    ensures prefix + Countdown(value, step) == prefix + [value] + Countdown(value - step, step)
  {
    AppendAssoc(prefix, [value], Countdown(value - step, step));
  }

  // ---------------------------------------------------------------- what the countdown is

  /** Element `i` is `value - i * step`; there are `value / step + 1` of them when `value >= 0`. */
  lemma {:induction false} CountdownShape(value: int, step: int)
    requires step > 0 || value < 0
    ensures var r := Countdown(value, step);
      && |r| == (if value < 0 then 0 else value / step + 1)
      && forall i :: 0 <= i < |r| ==> r[i] == value - i * step
    decreases if value < 0 then 0 else value + 1
  {
    if value >= 0 {
      CountdownShape(value - step, step);
      var r := Countdown(value, step);
      var tail := Countdown(value - step, step);
      assert |tail| == (if value - step < 0 then 0 else (value - step) / step + 1);
      if value - step >= 0 {
        assert (value - step) / step + 1 == value / step by {
          DivShift(value, step);
        }
      } else {
        assert value / step == 0 by {
          DivSmall(value, step);
        }
      }
      forall i | 0 <= i < |r| ensures r[i] == value - i * step {
        if i > 0 {
          assert r[i] == tail[i - 1] == value - step - (i - 1) * step;
        }
      }
    }
  }

  lemma DivShift(value: int, step: int)
    requires step > 0 && value >= step
    ensures (value - step) / step + 1 == value / step
  {
    var q := (value - step) / step;
    var m := (value - step) % step;
    assert value - step == q * step + m;
    assert value == (q + 1) * step + m;
    DivUnique(value, step, q + 1, m);
  }

  /** Quotient and remainder are the only ones with the remainder in `[0, step)`. */
  lemma DivUnique(a: int, step: int, q: int, m: int)
    requires step > 0 && 0 <= m < step && a == q * step + m
    ensures a / step == q
  {
    var q0 := a / step;
    var m0 := a % step;
    assert a == q0 * step + m0 && 0 <= m0 < step;
    assert (q - q0) * step == m0 - m;
    if q > q0 {
      AtLeastOnce(q - q0, step);
    } else if q < q0 {
      AtLeastOnce(q0 - q, step);
    }
  }

  lemma AtLeastOnce(d: int, step: int)
    requires d >= 1 && step > 0
    ensures d * step >= step
  {
    assert d * step == (d - 1) * step + step;
    MulMono(0, d - 1, step);
  }

  lemma DivSmall(value: int, step: int)
    requires 0 <= value < step
    ensures value / step == 0
  {
  }

  /** Every value is at least 0, consecutive values differ by exactly `step` (so the countdown is
      strictly decreasing), it starts at `value` and its last element is below `step`. */
  lemma CountdownBounds(value: int, step: int)
    requires step > 0
    ensures var r := Countdown(value, step);
      && (forall i :: 0 <= i < |r| ==> r[i] >= 0)
      && (forall i :: 0 <= i < |r| - 1 ==> r[i + 1] == r[i] - step)
      && (forall i, j :: 0 <= i < j < |r| ==> r[i] > r[j])
      && (value >= 0 ==> r != [] && r[0] == value && r[|r| - 1] < step)
  {
    CountdownShape(value, step);
    var r := Countdown(value, step);
    if value >= 0 {
      var n := value / step;
      assert |r| == n + 1;
      LastBelowStep(value, step);
      forall i | 0 <= i < |r| ensures r[i] >= 0 {
        NonNegativeAt(value, step, i);
      }
      forall i | 0 <= i < |r| - 1 ensures r[i + 1] == r[i] - step {
        StepDown(value, step, i);
      }
      forall i, j | 0 <= i < j < |r| ensures r[i] > r[j] {
        Decreasing(value, step, i, j);
      }
    }
  }

  lemma LastBelowStep(value: int, step: int)
    requires value >= 0 && step > 0
    ensures 0 <= value - (value / step) * step < step
  {
  }

  lemma NonNegativeAt(value: int, step: int, i: int)
    requires value >= 0 && step > 0 && 0 <= i <= value / step
    ensures value - i * step >= 0
  {
    MulMono(i, value / step, step);
  }

  lemma StepDown(value: int, step: int, i: int)
    ensures value - (i + 1) * step == value - i * step - step
  {
  }

  lemma Decreasing(value: int, step: int, i: int, j: int)
    requires step > 0 && i < j
    ensures value - i * step > value - j * step
  {
    MulMono(i + 1, j, step);
    StepDown(0, step, i);
  }

  lemma MulMono(a: int, b: int, step: int)
    requires a <= b && step > 0
    ensures a * step <= b * step
  {
  }

  // ---------------------------------------------------------------- the wheel's geometry

  /** `displayedItemsCount`: the centre item and `sideItemsCount` on each side. */
  function DisplayedItemsCount(sideItemsCount: int): int {
    1 + sideItemsCount * 2
  }

  /** `finalY`: the offset that brings the last `displayedItemsCount` items into view. */
  function FinalY(itemHeight: int, range: seq<int>, sideItemsCount: int): int {
    itemHeight * (|range| - DisplayedItemsCount(sideItemsCount))
  }

  /** For a star count of at least 0 and a positive step, the range has `max / step + sideItemsCount
      + 1` items, so the wheel scrolls to `itemHeight * (max / step - sideItemsCount)`. */
  lemma RangeLength(max: int, step: int, sideItemsCount: int, itemHeight: int)
    requires step > 0 && max >= 0 && sideItemsCount >= 0
    ensures |Countdown(RangeStart(max, step, sideItemsCount), step)| == max / step + sideItemsCount + 1
    ensures FinalY(itemHeight, Countdown(RangeStart(max, step, sideItemsCount), step), sideItemsCount)
            == itemHeight * (max / step - sideItemsCount)
  {
    var end := RangeStart(max, step, sideItemsCount);
    CountdownShape(end, step);
    assert end / step == max / step + sideItemsCount by {
      DivAddMultiple(max, step, sideItemsCount);
    }
  }

  lemma DivAddMultiple(a: int, step: int, k: int)
    requires step > 0
    ensures (a + k * step) / step == a / step + k
  {
    var q := a / step;
    var m := a % step;
    assert a == q * step + m && 0 <= m < step;
    assert a + k * step == (q + k) * step + m;
    DivUnique(a + k * step, step, q + k, m);
  }

  /** A start below 0 gives an empty range, whatever the step. */
  lemma NegativeStartIsEmpty(max: int, step: int, sideItemsCount: int)
    requires RangeStart(max, step, sideItemsCount) < 0
    ensures Countdown(RangeStart(max, step, sideItemsCount), step) == []
  {
  }
}
