/** The difference of two timetags in rounded arithmetic: the server decides as it would without rounding. */
module Rounding {
  import opened Timetags

  /** 2^-53, the largest relative error of rounding to a double. */
  const ROUND_OFF: real := 0.00000000000000011102230246251565404236316680908203125

  function Abs(x: real): real { if x < 0.0 then -x else x }

  /** The magnitudes that occur, far from overflow and underflow. */
  predicate Ordinary(x: real) { x == 0.0 || 0.0000000001 <= Abs(x) <= 10000000000.0 }

  /** Some rounding of every result, with the relative error of doubles. */
  ghost predicate Rounds(round: real -> real) {
    forall x :: Ordinary(x) ==> Near(x, round(x))
  }

  predicate Near(x: real, y: real) { Abs(y - x) <= ROUND_OFF * Abs(x) }

  /** The seconds and fractions are integers of 32 bits, and their differences exact. */
  function RoundedDiff(round: real -> real, a: Timetag, b: Timetag): real {
    round((a.sec - b.sec) as real + round(Product(a.frac - b.frac, round(TICK))))
  }

  function Product(f: int, x: real): real { f as real * x }

  /** Two roundings of what is close to `x`. */
  lemma NearTwice(x: real, y: real, m: real, s: real)
    requires Near(x, y) && Near(y, m)
    ensures Abs(m - x) <= 3.0 * ROUND_OFF * Abs(x)
    ensures Near(m, s) ==> Abs(s - x) <= 4.0 * ROUND_OFF * Abs(x)
  {
  }

  lemma ProductBound(x: real, y: real, x': real, y': real)
    requires 0.0 <= x <= x' && 0.0 <= y <= y'
    ensures x * y <= x' * y'
  {
    assert x * y <= x' * y;
    assert x' * y <= x' * y';
  }

  /** The fractions times the rounded constant: as close to the exact product as that is to its own. */
  lemma ProductNear(f: int, tick: real)
    requires -0x1_0000_0000 < f < 0x1_0000_0000 && Near(TICK, tick)
    ensures Near(Product(f, TICK), Product(f, tick)) && Ordinary(Product(f, tick))
  {
    hide Near, Ordinary, Product;
    ProductZero(TICK);
    ProductZero(tick);
    ProductNegated(f, TICK);
    ProductNegated(f, tick);
    Mirrored(Product(f, TICK), Product(f, tick));
    if f > 0 {
      PositiveNear(f, tick);
    } else if f < 0 {
      PositiveNear(-f, tick);
    }
  }

  lemma ProductZero(x: real)
    ensures Product(0, x) == 0.0
  {
  }

  lemma ProductNegated(f: int, x: real)
    ensures Product(-f, x) == -Product(f, x)
  {
    assert (-f) as real == -(f as real);
  }

  lemma Mirrored(x: real, y: real)
    ensures Near(x, y) <==> Near(-x, -y)
    ensures Ordinary(y) <==> Ordinary(-y)
    ensures Near(0.0, 0.0) && Ordinary(0.0)
  {
  }

  lemma PositiveNear(f: int, tick: real)
    requires 0 < f < 0x1_0000_0000 && Near(TICK, tick)
    ensures Near(Product(f, TICK), Product(f, tick)) && Ordinary(Product(f, tick))
  {
    hide Near, Product;
    NearTick(tick);
    Scaled(f, TICK, tick, ROUND_OFF);
    Bounded(f, tick);
    IsNear(Product(f, TICK), Product(f, tick));
  }

  lemma NearTick(tick: real)
    ensures Near(TICK, tick) <==> TICK - ROUND_OFF * TICK <= tick <= TICK + ROUND_OFF * TICK
  {
  }

  lemma Bounded(f: int, tick: real)
    requires 0 < f < 0x1_0000_0000 && 0.0000000001 <= tick <= 0.0000000003
    ensures 0.0000000001 <= Product(f, tick) <= 2.0
  {
    ProductBound(1.0, 0.0000000001, f as real, tick);
    ProductBound(f as real, tick, 4294967296.0, 0.0000000003);
  }

  lemma Scaled(f: int, t: real, t': real, u: real)
    requires f > 0 && t > 0.0 && u >= 0.0 && t - u * t <= t' <= t + u * t
    ensures 0.0 <= Product(f, t)
    ensures Product(f, t) - u * Product(f, t) <= Product(f, t') <= Product(f, t) + u * Product(f, t)
  {
    var r := f as real;
    assert r * (t - u * t) <= r * t' <= r * (t + u * t);
    assert r * (u * t) == u * (r * t);
  }

  lemma IsNear(x: real, y: real)
    requires 0.0 <= x && x - ROUND_OFF * x <= y <= x + ROUND_OFF * x
    ensures Near(x, y)
  {
  }

  /** Within one second the error is relative to the difference. */
  lemma SameSecond(f: int, s: real)
    requires -0x1_0000_0000 < f < 0x1_0000_0000
    requires Abs(s - Product(f, TICK)) <= 4.0 * ROUND_OFF * Abs(Product(f, TICK))
    ensures s < 0.0 <==> Product(f, TICK) < 0.0
    ensures s > 0.0 <==> Product(f, TICK) > 0.0
    ensures s < FLT_EPSILON <==> Product(f, TICK) < FLT_EPSILON
  {
    if 0 < f <= 512 {
      assert f as real <= 512.0;
    } else if f > 512 {
      assert f as real >= 513.0;
    }
  }

  lemma AwayFromZero(f: int, m: real)
    requires -0x1_0000_0000 < f < 0x1_0000_0000
    requires Abs(m - Product(f, TICK)) <= 3.0 * ROUND_OFF * Abs(Product(f, TICK))
    ensures Ordinary(m)
  {
    assert f > 0 ==> f as real >= 1.0;
    assert f < 0 ==> f as real <= -1.0;
  }

  /** Across a second the exact difference keeps away from zero and from FLT_EPSILON. */
  lemma NextSecond(f: int)
    requires -0x1_0000_0000 < f < 0x1_0000_0000
    ensures var d := 1.0 + Product(f, TICK);
            0.0000000002 < d < 2.0 && Abs(d - FLT_EPSILON) > 0.000000000001
  {
    var t := f + 0x1_0000_0000;
    assert f as real == t as real - 4294967296.0;
    if t <= 511 {
      assert t as real <= 511.0;
    } else {
      assert t as real >= 512.0;
    }
  }

  /**
   * Whatever the rounding, the sign of the difference is that of the exact one, and so is the
   * comparison with FLT_EPSILON: the queue is ordered, and dispatched, as if nothing were rounded.
   */
  lemma RoundingDecidesAlike(round: real -> real, a: Timetag, b: Timetag)
    requires Rounds(round)
    ensures RoundedDiff(round, a, b) < 0.0 <==> Diff(a, b) < 0.0
    ensures RoundedDiff(round, a, b) > 0.0 <==> Diff(a, b) > 0.0
    ensures RoundedDiff(round, a, b) < FLT_EPSILON <==> Diff(a, b) < FLT_EPSILON
  {
    hide Product, Near, Ordinary, Rounds;
    var k, f, tick := a.sec - b.sec, a.frac - b.frac, round(TICK);
    TickIsOrdinary();
    RoundedNear(round, TICK);
    ProductNear(f, tick);
    var m := round(Product(f, tick));
    RoundedNear(round, Product(f, tick));
    RoundedNear(round, k as real + m);
    Decides(k, f, m, round(k as real + m), Product(f, tick));
    DiffIs(a, b);
  }

  lemma TickIsOrdinary()
    ensures Ordinary(TICK)
  {
  }

  lemma RoundedNear(round: real -> real, x: real)
    requires Rounds(round)
    ensures Ordinary(x) ==> Near(x, round(x))
  {
    hide Ordinary, Near;
  }

  lemma DiffIs(a: Timetag, b: Timetag)
    ensures Diff(a, b) == (a.sec - b.sec) as real + Product(a.frac - b.frac, TICK)
  {
  }

  lemma Decides(k: int, f: int, m: real, s: real, y: real)
    requires -0x1_0000_0000 < f < 0x1_0000_0000 && -0x1_0000_0000 < k < 0x1_0000_0000
    requires Near(Product(f, TICK), y) && Near(y, m) && (Ordinary(k as real + m) ==> Near(k as real + m, s))
    ensures var d := k as real + Product(f, TICK);
            (s < 0.0 <==> d < 0.0) && (s > 0.0 <==> d > 0.0) && (s < FLT_EPSILON <==> d < FLT_EPSILON)
  {
    hide Product, Near, Ordinary;
    NearTwice(Product(f, TICK), y, m, s);
    ProductNegated(f, TICK);
    if k == 0 {
      AwayFromZero(f, m);
      SameSecond(f, s);
    } else {
      NextSecond(f);
      NextSecond(-f);
      OtherSecond(k as real, Product(f, TICK), m, s);
    }
  }

  lemma OtherSecond(k: real, x: real, m: real, s: real)
    requires 1.0 <= Abs(k) <= 4294967296.0 && (Abs(k) == 1.0 || Abs(k) >= 2.0)
    requires 0.0000000002 < 1.0 + x < 2.0 && Abs(1.0 + x - FLT_EPSILON) > 0.000000000001
    requires 0.0000000002 < 1.0 - x < 2.0
    requires Abs(m - x) <= 3.0 * ROUND_OFF * Abs(x) && (Ordinary(k + m) ==> Near(k + m, s))
    ensures (s < 0.0 <==> k + x < 0.0) && (s > 0.0 <==> k + x > 0.0) && (s < FLT_EPSILON <==> k + x < FLT_EPSILON)
  {
    assert Abs(m - x) <= 0.000000000000001;
    assert Abs(k + x) > 0.0000000002;
  }
}
