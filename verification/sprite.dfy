/** The animation and scaling state both key slot designs share: the
    frame-index advance at the end of `draw` and the proportional `resize`. */
module Sprite {

  /** Current sprite-sheet column and the count of draws so far. */
  datatype Anim = Anim(frameIndex: int, frameCounter: int)

  /** A freshly constructed object. */
  const Start: Anim := Anim(0, 0)

  /** Whether the draw that brings the counter to `counter` advances the frame. */
  predicate Ticks(counter: int, rate: int)
    requires rate > 0
  {
    counter % rate == 0
  }

  /** One `draw()`: the counter goes up by one; the frame index moves to the next
      column, wrapping at `columns`, exactly when the new counter is a multiple of
      `animationRate`. */
  function Advance(a: Anim, columns: int, rate: int): (r: Anim)
    requires columns > 0 && rate > 0
    ensures r.frameCounter == a.frameCounter + 1
    ensures !Ticks(r.frameCounter, rate) ==> r.frameIndex == a.frameIndex
    ensures 0 <= a.frameIndex < columns ==> 0 <= r.frameIndex < columns
    ensures Ticks(r.frameCounter, rate) && 0 <= a.frameIndex < columns ==>
              r.frameIndex == if a.frameIndex + 1 == columns then 0 else a.frameIndex + 1
  {
    var counter := a.frameCounter + 1;
    if counter % rate == 0 then Anim((a.frameIndex + 1) % columns, counter)
    else Anim(a.frameIndex, counter)
  }

  /** `n` consecutive draws. */
  function Draws(a: Anim, columns: int, rate: int, n: nat): Anim
    requires columns > 0 && rate > 0
  {
    if n == 0 then a else Advance(Draws(a, columns, rate, n - 1), columns, rate)
  }

  /** Number of multiples of `rate` in the half-open range (c, c + n]. */
  function Multiples(c: int, n: nat, rate: int): int
    requires rate > 0
  {
    (c + n) / rate - c / rate
  }

  /** Across `n` draws the frame index has advanced once per multiple of the rate
      the counter passed, modulo the column count. */
  lemma {:induction false} DrawsAdvanceByMultiples(a: Anim, columns: int, rate: int, n: nat)
    requires columns > 0 && rate > 0
    requires 0 <= a.frameIndex < columns
    ensures Draws(a, columns, rate, n).frameCounter == a.frameCounter + n
    ensures Draws(a, columns, rate, n).frameIndex == (a.frameIndex + Multiples(a.frameCounter, n, rate)) % columns
  {
    if n > 0 {
      DrawsAdvanceByMultiples(a, columns, rate, n - 1);
      var b := Draws(a, columns, rate, n - 1);
      var m := Multiples(a.frameCounter, n - 1, rate);
      var c := a.frameCounter + n;
      DivStep(c - 1, rate);
      if c % rate == 0 {
        assert Multiples(a.frameCounter, n, rate) == m + 1;
        ModSucc(a.frameIndex + m, columns);
      } else {
        assert Multiples(a.frameCounter, n, rate) == m;
      }
    }
  }

  /** Stepping a counter by one raises its quotient by one exactly at a multiple. */
  lemma DivStep(c: int, rate: int)
    requires rate > 0
    ensures (c + 1) / rate == c / rate + (if (c + 1) % rate == 0 then 1 else 0)
  {
    var q := c / rate;
    var m := c % rate;
    if m + 1 == rate {
      DivModUnique(c + 1, rate, q + 1, 0);
    } else {
      DivModUnique(c + 1, rate, q, m + 1);
    }
  }

  lemma ModSucc(x: int, columns: int)
    requires columns > 0
    ensures (x % columns + 1) % columns == (x + 1) % columns
  {
    var q := x / columns;
    var m := x % columns;
    if m + 1 == columns {
      DivModUnique(x + 1, columns, q + 1, 0);
      DivModUnique(m + 1, columns, 1, 0);
    } else {
      DivModUnique(x + 1, columns, q, m + 1);
      DivModUnique(m + 1, columns, 0, m + 1);
    }
  }

  lemma MulAtLeast(k: int, d: int)
    requires k >= 1 && d > 0
    ensures k * d >= d
  {
    if k > 1 {
      MulAtLeast(k - 1, d);
      assert k * d == (k - 1) * d + d;
    }
  }

  /** Quotient and remainder are the only ones with `x == q * d + m`, `0 <= m < d`. */
  lemma DivModUnique(x: int, d: int, q: int, m: int)
    requires d > 0 && 0 <= m < d && x == q * d + m
    ensures x / d == q && x % d == m
  {
    var q' := x / d;
    if q' > q {
      MulAtLeast(q' - q, d);
      assert false;
    } else if q > q' {
      MulAtLeast(q - q', d);
      assert false;
    }
  }

  /** With rate 1 every draw moves to the next column, so after `columns` draws
      the animation is back at its starting column. */
  lemma FullCycleAtRateOne(a: Anim, columns: int)
    requires columns > 0 && 0 <= a.frameIndex < columns
    ensures Draws(a, columns, 1, columns).frameIndex == a.frameIndex
  {
    DrawsAdvanceByMultiples(a, columns, 1, columns);
    DivModUnique(a.frameCounter + columns, 1, a.frameCounter + columns, 0);
    DivModUnique(a.frameCounter, 1, a.frameCounter, 0);
    DivModUnique(a.frameIndex + columns, columns, 1, a.frameIndex);
  }

  /** Size and velocity steps an object derives from the viewport. */
  datatype Scaled = Scaled(x: real, y: real, viewWidth: real, viewHeight: real,
                           size: real, xVelocity: real, yVelocity: real)

  /** A coordinate along an extent `from`, carried over to an extent `to`. */
  function Rescale(x: real, from: real, to: real): real
    requires from != 0.0
  {
    x / from * to
  }

  /** `resize()`: the position is rescaled from the old viewport to the new one,
      and size and velocity steps are recomputed from the new viewport. */
  function Resize(s: Scaled, newWidth: real, newHeight: real, scaleFactor: real, stepFactor: real): (r: Scaled)
    requires s.viewWidth != 0.0 && s.viewHeight != 0.0
    requires scaleFactor != 0.0 && stepFactor != 0.0
    ensures r.viewWidth == newWidth && r.viewHeight == newHeight
    ensures r.x == Rescale(s.x, s.viewWidth, newWidth) && r.y == Rescale(s.y, s.viewHeight, newHeight)
  {
    Scaled(Rescale(s.x, s.viewWidth, newWidth), Rescale(s.y, s.viewHeight, newHeight), newWidth, newHeight,
           newHeight / scaleFactor, newWidth / stepFactor, newHeight / stepFactor)
  }

  /** The position keeps its share of the viewport; the size is the new height
      over the scale factor, and the velocity steps the new extents over the
      step factor. */
  lemma ResizeKeepsProportion(s: Scaled, newWidth: real, newHeight: real, scaleFactor: real, stepFactor: real)
    requires s.viewWidth != 0.0 && s.viewHeight != 0.0
    requires scaleFactor != 0.0 && stepFactor != 0.0
    ensures var r := Resize(s, newWidth, newHeight, scaleFactor, stepFactor);
            && r.x * s.viewWidth == s.x * newWidth && r.y * s.viewHeight == s.y * newHeight
            && r.size * scaleFactor == newHeight
            && r.xVelocity * stepFactor == newWidth && r.yVelocity * stepFactor == newHeight
  {
    RescaleScales(s.x, s.viewWidth, newWidth);
    RescaleScales(s.y, s.viewHeight, newHeight);
  }

  lemma RescaleScales(x: real, from: real, to: real)
    requires from != 0.0
    ensures Rescale(x, from, to) * from == x * to
  {
    var u := x / from;
    assert u * from == x;
    assert u * to * from == u * from * to;
  }

  /** Resizing to another viewport and back restores the original position. */
  lemma ResizeRoundTrip(s: Scaled, newWidth: real, newHeight: real, scaleFactor: real, stepFactor: real)
    requires s.viewWidth != 0.0 && s.viewHeight != 0.0 && newWidth != 0.0 && newHeight != 0.0
    requires scaleFactor != 0.0 && stepFactor != 0.0
    ensures var back := Resize(Resize(s, newWidth, newHeight, scaleFactor, stepFactor),
                               s.viewWidth, s.viewHeight, scaleFactor, stepFactor);
            back.x == s.x && back.y == s.y
  {
    RescaleBack(s.x, s.viewWidth, newWidth);
    RescaleBack(s.y, s.viewHeight, newHeight);
  }

  /** Rescaling a coordinate from extent `a` to `b` and back gives it back. */
  lemma RescaleBack(x: real, a: real, b: real)
    requires a != 0.0 && b != 0.0
    ensures Rescale(Rescale(x, a, b), b, a) == x
  {
    var u := x / a;
    assert u * b / b == u;
    assert u * a == x;
  }
}
