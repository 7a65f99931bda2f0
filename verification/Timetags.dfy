/** OSC timetags and the difference the scheduler orders its queue by. */
module Timetags {
  import opened Bytes

  /** Seconds since 1900 and a binary fraction of a second in units of 2^-32. */
  datatype Timetag = Timetag(sec: u32, frac: u32)

  /** "Now": dispatched as soon as it is received. */
  const IMMEDIATE := Timetag(0, 1)

  /** The source's decimal for 2^-32; a little below it. */
  const TICK: real := 0.00000000023283064365

  /** 2^-23, the single-precision machine epsilon. */
  const FLT_EPSILON: real := 0.00000011920928955078125

  function Diff(a: Timetag, b: Timetag): real {
    a.sec as real - b.sec as real + (a.frac as real - b.frac as real) * TICK
  }

  /** Lexicographic order on (sec, frac), the order of the instants themselves. */
  predicate Before(a: Timetag, b: Timetag) {
    a.sec < b.sec || (a.sec == b.sec && a.frac < b.frac)
  }

  /** The instant as a number of 2^-32 seconds. */
  function Ticks(a: Timetag): int { a.sec * 0x1_0000_0000 + a.frac }

  /** A fraction counts for less than a second, in spite of the rounded constant. */
  lemma DiffAcrossSeconds(a: Timetag, b: Timetag)
    requires a.sec < b.sec
    ensures Diff(a, b) < 0.0
  {
    assert a.frac as real - b.frac as real <= 4294967295.0;
    assert 4294967295.0 * TICK < 1.0;
    assert a.sec as real - b.sec as real <= -1.0;
  }

  lemma DiffSign(a: Timetag, b: Timetag)
    ensures Diff(a, b) < 0.0 <==> Before(a, b)
    ensures Diff(a, b) == 0.0 <==> a == b
    ensures Diff(a, b) > 0.0 <==> Before(b, a)
  {
    if a.sec < b.sec {
      DiffAcrossSeconds(a, b);
    } else if b.sec < a.sec {
      DiffAcrossSeconds(b, a);
      assert Diff(a, b) == -Diff(b, a);
    }
  }

  /** The comparison the queue uses is a strict total order, that of the instants. */
  lemma DiffStrictTotalOrder(a: Timetag, b: Timetag, c: Timetag)
    ensures Diff(a, b) < 0.0 <==> Ticks(a) < Ticks(b)
    ensures a != b ==> (Diff(a, b) < 0.0 || Diff(b, a) < 0.0)
    ensures !(Diff(a, b) < 0.0 && Diff(b, a) < 0.0)
    ensures Diff(a, b) < 0.0 && Diff(b, c) < 0.0 ==> Diff(a, c) < 0.0
    ensures Diff(a, c) == Diff(a, b) + Diff(b, c)
  {
    DiffSign(a, b);
    DiffSign(b, a);
    DiffSign(b, c);
    DiffSign(a, c);
  }

  /**
   * What "less than FLT_EPSILON later" means in ticks: up to 512 of them within one second,
   * one tick less when the two instants lie on either side of a second.
   */
  lemma EpsilonWindow(a: Timetag, b: Timetag)
    requires !Before(a, b)
    ensures Diff(a, b) < FLT_EPSILON <==>
            Ticks(a) - Ticks(b) <= if a.sec == b.sec then 512 else 511
  {
    var k := a.sec - b.sec;
    var f := a.frac - b.frac;
    assert Diff(a, b) == k as real + f as real * TICK;
    if k == 0 {
    } else if k == 1 {
      assert Ticks(a) - Ticks(b) == 0x1_0000_0000 + f;
    } else {
      assert k as real >= 2.0 && f as real * TICK > -1.0;
    }
  }
}
