/**
 The `DoubleSlider` widget: a horizontal scroll bar whose integer position
 `index` stands for the double value `index * step + min`. The slider's state
 is an immutable record and every setter a function from the old state to the
 new one. Doubles are idealised as exact reals, so the properties below hold
 in exact arithmetic; the scroll bar's own clamping of its position into
 `[minimum, maximum - extent]` is not part of this model.
 */
module DoubleSlider {
  import opened JavaNumerics

  /**
   `valueToIndex(value, offset, step)`: `(int) ((value - offset) / step)`.
   With a zero step the double quotient is an infinity of the sign of
   `value - offset`, or NaN when that is zero too, which the cast turns into
   the largest int, the smallest int, or 0.
   */
  function ValueToIndex(value: real, offset: real, step: real): (index: int)
    ensures IsInt32(index)
    ensures step == 0.0 ==> (index == MaxInt <==> value > offset)
    ensures step == 0.0 ==> (index == MinInt <==> value < offset)
    ensures step == 0.0 ==> (index == 0 <==> value == offset)
  {
    if step == 0.0 then
      if value > offset then MaxInt else if value < offset then MinInt else 0
    else
      Narrow((value - offset) / step)
  }

  /** `indexToValue(index, offset, step)`: the value the position `index` stands for. */
  function IndexToValue(index: int, offset: real, step: real): (value: real)
    ensures index == 0 ==> value == offset
    ensures step != 0.0 ==> (value - offset) / step == index as real
  {
    index as real * step + offset
  }

  /**
   The slider's state: the scroll bar's model (position `index`, `extent`,
   `minimum`, `maximum`) and the three doubles the subclass adds, which the
   getters `getMin`, `getMax` and `getStep` return.
   */
  datatype Slider = Slider(
    index: int, extent: int, minimum: int, maximum: int,
    min: real, max: real, step: real)

  /** The quotient `(value - offset) / step` truncates into the range of int, so the cast does not saturate. */
  predicate Unsaturated(value: real, offset: real, step: real)
  {
    step != 0.0 && IsInt32(Truncate((value - offset) / step))
  }

  /**
   The constructor: position `valueToIndex(value, min, step)`, extent 1,
   minimum 0 and maximum `valueToIndex(max, min, step) + 1`, with the `+ 1`
   a 32-bit int addition.
   */
  function NewSlider(value: real, min: real, max: real, step: real): (s: Slider)
    ensures s.min == min && s.max == max && s.step == step
    ensures s.extent == 1 && s.minimum == 0
    ensures s.index == ValueToIndex(value, min, step)
    ensures ValueToIndex(max, min, step) < MaxInt ==> s.maximum == ValueToIndex(max, min, step) + 1
    ensures ValueToIndex(max, min, step) == MaxInt ==> s.maximum == MinInt
  {
    Slider(ValueToIndex(value, min, step), 1, 0, AddInt(ValueToIndex(max, min, step), 1), min, max, step)
  }

  /** `getDoubleValue()`: the value the current position stands for. */
  function DoubleValue(s: Slider): (v: real)
    ensures s.index == 0 ==> v == s.min
    ensures s.step > 0.0 ==> (v > s.min <==> s.index > 0)
  {
    IndexToValue(s.index, s.min, s.step)
  }

  /** `setDoubleValue(value)`: moves the position to the index of `value`; nothing else changes. */
  function SetDoubleValue(s: Slider, value: real): (t: Slider)
    ensures t == s.(index := t.index)
    ensures IsInt32(t.index)
    ensures Unsaturated(value, s.min, s.step) ==> t.index == Truncate((value - s.min) / s.step)
  {
    s.(index := ValueToIndex(value, s.min, s.step))
  }

  /**
   `setMin(min)`: reads the current value, replaces `min`, and sets the value
   again, so the position is re-derived against the new origin. Only `min`
   and the position change.
   */
  function SetMin(s: Slider, min: real): (t: Slider)
    ensures t == s.(min := min, index := t.index)
    ensures t.index == ValueToIndex(DoubleValue(s), min, s.step)
  {
    var value := DoubleValue(s);
    SetDoubleValue(s.(min := min), value)
  }

  /**
   `setMax(max)`: replaces `max` and sets the scroll bar's maximum to
   `valueToIndex(max)`, without the constructor's `+ 1`. The position is left
   alone.
   */
  function SetMax(s: Slider, max: real): (t: Slider)
    ensures t == s.(max := max, maximum := t.maximum)
    ensures t.maximum == ValueToIndex(max, s.min, s.step)
  {
    s.(max := max, maximum := ValueToIndex(max, s.min, s.step))
  }

  /**
   `setStep(step)`: reads the current value, replaces `step`, and sets the
   value again. Only `step` and the position change.
   */
  function SetStep(s: Slider, step: real): (t: Slider)
    ensures t == s.(step := step, index := t.index)
    ensures t.index == ValueToIndex(DoubleValue(s), s.min, step)
  {
    var value := DoubleValue(s);
    SetDoubleValue(s.(step := step), value)
  }

  /** The largest position the scroll bar lets the user reach: `maximum - extent`. */
  function TopIndex(s: Slider): int
  {
    s.maximum - s.extent
  }

  // ---------------------------------------------------------------------
  // Real-arithmetic helpers

  lemma RealMulSign(a: real, s: real)
    requires s > 0.0
    ensures a > 0.0 <==> a * s > 0.0
    ensures a == 0.0 <==> a * s == 0.0
  {
  }

  lemma RealScaleLe(a: real, b: real, s: real)
    requires s > 0.0 && a <= b
    ensures a * s <= b * s
  {
  }

  lemma RealScaleLt(a: real, b: real, s: real)
    requires s > 0.0 && a < b
    ensures a * s < b * s
  {
  }

  lemma RealDivMul(d: real, s: real)
    requires s != 0.0
    ensures (d / s) * s == d
  {
  }

  /** Scaling `t <= x < t + 1` by a positive `s`, with `d` the scaled `x`. */
  lemma ScaleBelow(d: real, s: real, x: real, t: int)
    requires s > 0.0 && d == x * s && t as real <= x < (t + 1) as real
    ensures t as real * s <= d < (t + 1) as real * s
  {
    RealScaleLe(t as real, x, s);
    RealScaleLt(x, (t + 1) as real, s);
  }

  /** Scaling `t - 1 < x <= t` by a positive `s`, with `d` the scaled `x`. */
  lemma ScaleAbove(d: real, s: real, x: real, t: int)
    requires s > 0.0 && d == x * s && (t - 1) as real < x <= t as real
    ensures (t - 1) as real * s < d <= t as real * s
  {
    RealScaleLt((t - 1) as real, x, s);
    RealScaleLe(x, t as real, s);
  }

  // ---------------------------------------------------------------------
  // Properties

  /** Truncating an integer-valued real gives the integer back. */
  lemma TruncateInt(i: int)
    ensures Truncate(i as real) == i
  {
    if i < 0 {
      assert (-(i as real)) == (-i) as real;
    }
  }

  /**
   `valueToIndex` inverts `indexToValue`: with a non-zero step every int
   position survives the trip through its value.
   */
  lemma IndexValueRoundTrip(index: int, offset: real, step: real)
    requires step != 0.0 && IsInt32(index)
    ensures ValueToIndex(IndexToValue(index, offset, step), offset, step) == index
  {
    TruncateInt(index);
  }

  /**
   In the other direction the trip rounds toward `offset`: a value at or
   above `offset` lies between the value of its index and that of the next
   index, a value below it between the previous index's value and its own.
   */
  lemma ValueToIndexBrackets(value: real, offset: real, step: real)
    requires step > 0.0 && Unsaturated(value, offset, step)
    ensures var i := ValueToIndex(value, offset, step);
      value >= offset ==> IndexToValue(i, offset, step) <= value < IndexToValue(i + 1, offset, step)
    ensures var i := ValueToIndex(value, offset, step);
      value < offset ==> IndexToValue(i - 1, offset, step) < value <= IndexToValue(i, offset, step)
  {
    var t := Truncate((value - offset) / step);
    assert ValueToIndex(value, offset, step) == t;
    if value >= offset {
      BracketAbove(value, offset, step, t);
    } else {
      BracketBelow(value, offset, step, t);
    }
  }

  /** The half of the bracket at or above `offset`, where truncation rounds down. */
  lemma BracketAbove(value: real, offset: real, step: real, t: int)
    requires step > 0.0 && value >= offset && t == Truncate((value - offset) / step)
    ensures IndexToValue(t, offset, step) <= value < IndexToValue(t + 1, offset, step)
  {
    var d := value - offset;
    var x := d / step;
    RealDivMul(d, step);
    assert x >= 0.0 by { RealMulSign(x, step); }
    ScaleBelow(d, step, x, t);
  }

  /** The half of the bracket below `offset`, where truncation rounds up. */
  lemma BracketBelow(value: real, offset: real, step: real, t: int)
    requires step > 0.0 && value < offset && t == Truncate((value - offset) / step)
    ensures IndexToValue(t - 1, offset, step) < value <= IndexToValue(t, offset, step)
  {
    var d := value - offset;
    var x := d / step;
    RealDivMul(d, step);
    assert x < 0.0 by { RealMulSign(x, step); }
    ScaleAbove(d, step, x, t);
  }

  /**
   Because the cast truncates toward zero, position 0 covers the two steps
   either side of `offset`: exactly the values strictly between those of
   positions -1 and 1 map to it.
   */
  lemma IndexZeroBand(value: real, offset: real, step: real)
    requires step > 0.0
    ensures ValueToIndex(value, offset, step) == 0
        <==> IndexToValue(-1, offset, step) < value < IndexToValue(1, offset, step)
  {
    var d := value - offset;
    var x := d / step;
    RealDivMul(d, step);
    UnitBand(d, step, x);
    assert Narrow(x) == 0 <==> Truncate(x) == 0;
  }

  /** With `d` the scaled `x`, `x` lies strictly within one of zero exactly when `d` lies within one scaled unit. */
  lemma UnitBand(d: real, s: real, x: real)
    requires s > 0.0 && d == x * s
    ensures -1.0 < x < 1.0 <==> (-1) as real * s < d < 1 as real * s
  {
    if -1.0 < x < 1.0 {
      RealScaleLt(-1.0, x, s);
      RealScaleLt(x, 1.0, s);
    } else if x >= 1.0 {
      RealScaleLe(1.0, x, s);
    } else {
      RealScaleLe(x, -1.0, s);
    }
  }

  /** Setting the value the slider already shows leaves it unchanged. */
  lemma SetDoubleValueIdempotent(s: Slider)
    requires s.step != 0.0 && IsInt32(s.index)
    ensures SetDoubleValue(s, DoubleValue(s)) == s
  {
    IndexValueRoundTrip(s.index, s.min, s.step);
  }

  /**
   The value read back after `setDoubleValue(v)` is `v` rounded to the grid
   toward `min`: at or above `min` it lies between the new position's value
   and the next position's.
   */
  lemma SetDoubleValueReadBack(s: Slider, value: real)
    requires s.step > 0.0 && Unsaturated(value, s.min, s.step)
    ensures var t := SetDoubleValue(s, value);
      value >= s.min ==> DoubleValue(t) <= value < IndexToValue(t.index + 1, s.min, s.step)
    ensures var t := SetDoubleValue(s, value);
      value < s.min ==> IndexToValue(t.index - 1, s.min, s.step) < value <= DoubleValue(t)
  {
    ValueToIndexBrackets(value, s.min, s.step);
  }

  /** `setMin` with the current minimum changes nothing. */
  lemma SetMinSame(s: Slider)
    requires s.step != 0.0 && IsInt32(s.index)
    ensures SetMin(s, s.min) == s
  {
    SetDoubleValueIdempotent(s);
  }

  /**
   Moving the minimum by a whole number `k` of steps keeps the displayed value
   exactly and shifts the position down by `k`.
   */
  lemma SetMinOnGrid(s: Slider, k: int)
    requires s.step != 0.0 && IsInt32(s.index - k)
    ensures SetMin(s, s.min + k as real * s.step).index == s.index - k
    ensures DoubleValue(SetMin(s, s.min + k as real * s.step)) == DoubleValue(s)
  {
    var m := s.min + k as real * s.step;
    assert (s.index - k) as real * s.step == s.index as real * s.step - k as real * s.step;
    assert DoubleValue(s) == IndexToValue(s.index - k, m, s.step);
    IndexValueRoundTrip(s.index - k, m, s.step);
  }

  /**
   Moving the minimum off the grid keeps the displayed value only up to one
   step: at or above the new minimum, the old value lies between the new
   position's value and the next position's.
   */
  lemma SetMinKeepsValueWithinStep(s: Slider, min: real)
    requires s.step > 0.0 && DoubleValue(s) >= min && Unsaturated(DoubleValue(s), min, s.step)
    ensures var t := SetMin(s, min);
      DoubleValue(t) <= DoubleValue(s) < IndexToValue(t.index + 1, min, s.step)
  {
    ValueToIndexBrackets(DoubleValue(s), min, s.step);
  }

  /** `setStep` with the current step changes nothing. */
  lemma SetStepSame(s: Slider)
    requires s.step != 0.0 && IsInt32(s.index)
    ensures SetStep(s, s.step) == s
  {
    SetDoubleValueIdempotent(s);
  }

  /**
   A new positive step keeps the displayed value up to one new step: at or
   above the minimum, the old value lies between the new position's value
   and the next position's.
   */
  lemma SetStepKeepsValueWithinStep(s: Slider, step: real)
    requires step > 0.0 && DoubleValue(s) >= s.min && Unsaturated(DoubleValue(s), s.min, step)
    ensures var t := SetStep(s, step);
      DoubleValue(t) <= DoubleValue(s) < IndexToValue(t.index + 1, s.min, step)
  {
    ValueToIndexBrackets(DoubleValue(s), s.min, step);
  }

  /**
   A new slider whose initial value lies in `[min, max]` shows that value
   rounded down to the grid, and its highest reachable position stands for
   `max` rounded down to the grid.
   */
  lemma NewSliderRange(value: real, min: real, max: real, step: real)
    requires step > 0.0 && min <= value <= max
    requires Unsaturated(value, min, step) && Unsaturated(max, min, step)
    requires ValueToIndex(max, min, step) < MaxInt
    ensures var s := NewSlider(value, min, max, step);
      min <= DoubleValue(s) <= value < IndexToValue(s.index + 1, min, step)
    ensures var s := NewSlider(value, min, max, step);
      TopIndex(s) == ValueToIndex(max, min, step)
    ensures var s := NewSlider(value, min, max, step);
      IndexToValue(TopIndex(s), min, step) <= max < IndexToValue(TopIndex(s) + 1, min, step)
  {
    ValueToIndexBrackets(value, min, step);
    ValueToIndexBrackets(max, min, step);
  }

  /**
   `setMax` does not add the constructor's `+ 1`: setting the maximum a
   slider was built with lowers the scroll bar's maximum, and with it the
   highest reachable position, by one.
   */
  lemma SetMaxAsymmetry(value: real, min: real, max: real, step: real)
    requires ValueToIndex(max, min, step) < MaxInt
    ensures var s := NewSlider(value, min, max, step);
      SetMax(s, max).maximum == s.maximum - 1
    ensures var s := NewSlider(value, min, max, step);
      TopIndex(SetMax(s, max)) == TopIndex(s) - 1
  {
  }

  /**
   After `setMax(m)` on a slider of extent 1 (with `m` at or above the
   minimum) the position just above the highest reachable one still stands
   for a value no greater than `m`: the grid value nearest below `m` can no
   longer be selected.
   */
  lemma SetMaxUnreachable(s: Slider, max: real)
    requires s.extent == 1 && s.step > 0.0 && max >= s.min && Unsaturated(max, s.min, s.step)
    ensures var top := TopIndex(SetMax(s, max));
      top + 1 == ValueToIndex(max, s.min, s.step) && IndexToValue(top + 1, s.min, s.step) <= max
  {
    ValueToIndexBrackets(max, s.min, s.step);
  }

  /**
   `setMax` as the constructor's `+ 1` indicates it was meant: the scroll
   bar's maximum one above `valueToIndex(max)`, so that with extent 1 the
   position of `max` stays reachable.
   */
  function SetMaxCorrected(s: Slider, max: real): (t: Slider)
    ensures t == s.(max := max, maximum := t.maximum)
    ensures ValueToIndex(max, s.min, s.step) < MaxInt ==> t.maximum == ValueToIndex(max, s.min, s.step) + 1
  {
    s.(max := max, maximum := AddInt(ValueToIndex(max, s.min, s.step), 1))
  }

  /**
   After the corrected `setMax(m)` on a slider of extent 1, the highest
   reachable position stands for `m` rounded down to the grid.
   */
  lemma SetMaxCorrectedReachesMax(s: Slider, max: real)
    requires s.extent == 1 && s.step > 0.0 && max >= s.min && Unsaturated(max, s.min, s.step)
    requires ValueToIndex(max, s.min, s.step) < MaxInt
    ensures var top := TopIndex(SetMaxCorrected(s, max));
      top == ValueToIndex(max, s.min, s.step)
      && IndexToValue(top, s.min, s.step) <= max < IndexToValue(top + 1, s.min, s.step)
  {
    ValueToIndexBrackets(max, s.min, s.step);
  }

  /** The corrected `setMax` with the maximum a slider was built with changes nothing. */
  lemma SetMaxCorrectedAgreesWithConstructor(value: real, min: real, max: real, step: real)
    ensures SetMaxCorrected(NewSlider(value, min, max, step), max) == NewSlider(value, min, max, step)
  {
  }

  /**
   The three sliders of the OrthoStack window: stretch (50 in [1, 1000] by
   0.5), angle (75 in [0, 90] by 0.2) and zoom (0.75 in [0.01, 1.5] by 0.002)
   each start exactly at their initial value and reach exactly their maximum.
   */
  lemma PluginSliders()
    ensures var s := NewSlider(50.0, 1.0, 1000.0, 0.5);
      s.index == 98 && DoubleValue(s) == 50.0 && s.maximum == 1999 && IndexToValue(TopIndex(s), s.min, s.step) == 1000.0
    ensures var s := NewSlider(75.0, 0.0, 90.0, 0.2);
      s.index == 375 && DoubleValue(s) == 75.0 && s.maximum == 451 && IndexToValue(TopIndex(s), s.min, s.step) == 90.0
    ensures var s := NewSlider(0.75, 0.01, 1.5, 0.002);
      s.index == 370 && DoubleValue(s) == 0.75 && s.maximum == 746 && IndexToValue(TopIndex(s), s.min, s.step) == 1.5
  {
    TruncateInt(98);
    TruncateInt(1998);
    TruncateInt(375);
    TruncateInt(450);
    TruncateInt(370);
    TruncateInt(745);
  }
}
