/**
 * Python's `round(x, d)` for the two columns `eval_query` rounds:
 * `semantic_sim` to four decimals and `latency` to two. Values are exact
 * reals here, so rounding goes to the nearest multiple of `10^-d`, and a
 * value exactly halfway goes to the even multiple, as Python does.
 */
module Rounding {
  /** The integer nearest to `v`; a value exactly halfway goes to the even neighbour. */
  function NearestEven(v: real): int {
    var n := v.Floor;
    var frac := v - n as real;
    if frac > 0.5 then n + 1
    else if frac < 0.5 then n
    else if n % 2 == 0 then n
    else n + 1
  }

  /** `round(x, 4)`, applied to `semantic_sim`. */
  function Round4(x: real): real {
    NearestEven(x * 10000.0) as real / 10000.0
  }

  /** `round(x, 2)`, applied to `latency`. */
  function Round2(x: real): real {
    NearestEven(x * 100.0) as real / 100.0
  }

  /** The nearest integer is at most half a unit away, and an integer is its own nearest. */
  lemma NearestEvenSpec(v: real)
    ensures -0.5 <= NearestEven(v) as real - v <= 0.5
    ensures v == v.Floor as real ==> NearestEven(v) == v.Floor
  {
  }

  /** Exactly halfway between two integers, the even one is chosen. */
  lemma NearestEvenTie(n: int)
    ensures NearestEven(n as real + 0.5) % 2 == 0
    ensures NearestEven(n as real + 0.5) == n || NearestEven(n as real + 0.5) == n + 1
  {
    assert (n as real + 0.5).Floor == n;
  }

  /** Taking the nearest integer never reverses the order of two values. */
  lemma NearestEvenMonotone(u: real, v: real)
    requires u <= v
    ensures NearestEven(u) <= NearestEven(v)
  {
    var nu, nv := u.Floor, v.Floor;
    assert nu <= nv;
    if nu == nv && NearestEven(u) == nu + 1 {
      assert u - nu as real >= 0.5;
      assert v - nv as real > 0.5 || (v - nv as real == 0.5 && u - nu as real == 0.5);
    }
  }

  /** Both roundings land within half a unit of the last kept decimal place. */
  lemma RoundNearest(x: real)
    ensures -0.00005 <= Round4(x) - x <= 0.00005
    ensures -0.005 <= Round2(x) - x <= 0.005
  {
    NearestEvenSpec(x * 10000.0);
    NearestEvenSpec(x * 100.0);
  }

  /** `round(x, 4)` never reverses the order of two values. */
  lemma Round4Monotone(x: real, y: real)
    requires x <= y
    ensures Round4(x) <= Round4(y)
  {
    NearestEvenMonotone(x * 10000.0, y * 10000.0);
  }

  /** Rounding a rounded value changes nothing. */
  lemma Round4Idempotent(x: real)
    ensures Round4(Round4(x)) == Round4(x)
  {
    var m := NearestEven(x * 10000.0);
    assert Round4(x) * 10000.0 == m as real;
    assert (m as real).Floor == m;
    NearestEvenSpec(m as real);
  }

  /** 0 is kept, and a value in [-1, 1] stays in [-1, 1]. */
  lemma Round4KeepsUnitBounds(x: real)
    ensures x == 0.0 ==> Round4(x) == 0.0
    ensures -1.0 <= x <= 1.0 ==> -1.0 <= Round4(x) <= 1.0
  {
    NearestEvenSpec(0.0);
    if -1.0 <= x <= 1.0 {
      NearestEvenSpec(-10000.0);
      NearestEvenSpec(10000.0);
      Round4Monotone(-1.0, x);
      Round4Monotone(x, 1.0);
    }
  }

  /**
   * The faithful test `round(best_sim, 4) >= 0.65` holds exactly when the
   * unrounded similarity is at least 0.64995: the halfway value rounds up
   * because 6499 is odd.
   */
  lemma RoundedAtLeastCutoff(x: real)
    ensures Round4(x) >= 0.65 <==> x >= 0.64995
  {
    var m := NearestEven(x * 10000.0);
    var n := (x * 10000.0).Floor;
    if x >= 0.64995 {
      assert x * 10000.0 >= 6499.5;
      assert n >= 6499;
      assert m >= 6500;
    } else {
      assert x * 10000.0 < 6499.5;
      assert n <= 6499;
      assert m <= 6499;
    }
  }
}
