/** The cubic that both resamplers evaluate, over the real numbers. */
module Interpolation {

  /** Four neighbouring samples of one channel. */
  datatype Taps = Taps(xm1: real, x0: real, x1: real, x2: real) {
    function A(): real {
      (3.0 * (x0 - x1) - xm1 + x2) / 2.0
    }

    function B(): real {
      2.0 * x1 + xm1 - (5.0 * x0 + x2) / 2.0
    }

    function C(): real {
      (x1 - xm1) / 2.0
    }

    /** One sample further. */
    function Shift(next: real): Taps {
      Taps(x0, x1, x2, next)
    }
  }

  /** The value at `t` past `x0`. */
  function Cubic(w: Taps, t: real): real {
    ((w.A() * t + w.B()) * t + w.C()) * t + w.x0
  }

  /** Its derivative. */
  function Slope(w: Taps, t: real): real {
    (3.0 * w.A() * t + 2.0 * w.B()) * t + w.C()
  }

  lemma Horner(a: real, b: real, c: real, d: real, t: real, h: real)
    ensures ((a * (t + h) + b) * (t + h) + c) * (t + h) + d
         == ((a * t + b) * t + c) * t + d + h * ((3.0 * a * t + 2.0 * b) * t + c + h * (3.0 * a * t + b + a * h))
  {
    var at, ah := a * t, a * h;
    assert a * (t + h) == at + ah;
    var u := at + ah + b;
    assert u * (t + h) == u * t + u * h;
    var v := u * t + u * h + c;
    assert v * (t + h) == v * t + v * h;
    assert u * t == at * t + ah * t + b * t && u * h == at * h + ah * h + b * h;
    assert ah * t == at * h;
    var att, ath, ahh := at * t, at * h, ah * h;
    assert v == att + 2.0 * ath + ahh + b * t + b * h + c;
    assert v * t == att * t + 2.0 * (ath * t) + ahh * t + (b * t) * t + (b * h) * t + c * t;
    assert v * h == att * h + 2.0 * (ath * h) + ahh * h + (b * t) * h + (b * h) * h + c * h;
    assert ath * t == att * h && ahh * t == ath * h && (b * h) * t == (b * t) * h;
  }

  /** `Slope` is the derivative: what remains of the difference quotient is a multiple of the step. */
  lemma SlopeIsDerivative(w: Taps, t: real, h: real)
    ensures Cubic(w, t + h) - Cubic(w, t) == h * (Slope(w, t) + h * (3.0 * w.A() * t + w.B() + w.A() * h))
  {
    Horner(w.A(), w.B(), w.C(), w.x0, t, h);
  }

  /** Neighbouring pieces join at each sample, in value and in slope. */
  lemma PiecesJoin(w: Taps, next: real)
    ensures Cubic(w, 1.0) == Cubic(w.Shift(next), 0.0) == w.x1
    ensures Slope(w, 1.0) == Slope(w.Shift(next), 0.0)
  {
  }

  /** A polynomial of degree at most two. */
  function Quadratic(p: real, q: real, r: real, x: real): real {
    (p * x + q) * x + r
  }

  lemma QuadraticShift(p: real, q: real, r: real, x: real, h: real)
    ensures Quadratic(p, q, r, x + h) == Quadratic(p, q, r, x) + (2.0 * (p * x) + q) * h + (p * h) * h
  {
    var px, ph := p * x, p * h;
    assert p * (x + h) == px + ph;
    assert (px + ph + q) * (x + h) == (px + ph + q) * x + (px + ph + q) * h;
    assert (px + ph + q) * x == px * x + ph * x + q * x && (px + ph + q) * h == px * h + ph * h + q * h;
    assert ph * x == px * h;
  }

  /** Over samples of such a polynomial the cubic is that polynomial. */
  lemma QuadraticExact(p: real, q: real, r: real, x: real, t: real, w: Taps)
    requires w.x0 == Quadratic(p, q, r, x) && w.xm1 == Quadratic(p, q, r, x - 1.0)
    requires w.x1 == Quadratic(p, q, r, x + 1.0) && w.x2 == Quadratic(p, q, r, x + 2.0)
    ensures Cubic(w, t) == Quadratic(p, q, r, x + t)
  {
    QuadraticShift(p, q, r, x, -1.0);
    QuadraticShift(p, q, r, x, 1.0);
    QuadraticShift(p, q, r, x, 2.0);
    QuadraticShift(p, q, r, x, t);
    assert w.A() == 0.0 && w.B() == p && w.C() == 2.0 * (p * x) + q;
  }

  /** A different first tap changes the value at `0 <= t < 1` unless `t` is 0. */
  lemma FirstTapMatters(w: Taps, xm1: real, t: real)
    requires 0.0 <= t < 1.0
    ensures Cubic(w, t) == Cubic(w.(xm1 := xm1), t) <==> t == 0.0 || w.xm1 == xm1
  {
    CubicChanges(w, xm1, t);
    hide Bump, Cubic;
    BumpVanishes(t);
    Product(w.xm1 - xm1, Bump(t));
  }

  lemma CubicChanges(w: Taps, xm1: real, t: real)
    ensures Cubic(w, t) == Cubic(w.(xm1 := xm1), t) - (w.xm1 - xm1) * Bump(t) / 2.0
  {
    var v := w.(xm1 := xm1);
    CubicChange(v.A(), v.B(), v.C(), w.A(), w.B(), w.C(), w.x0, w.xm1 - xm1, t);
  }

  /** How much a change of the first tap weighs at `t`. */
  function Bump(t: real): real {
    t * ((1.0 - t) * (1.0 - t))
  }

  lemma BumpVanishes(t: real)
    requires 0.0 <= t < 1.0
    ensures Bump(t) == 0.0 <==> t == 0.0
  {
    Product(1.0 - t, 1.0 - t);
    Product(t, (1.0 - t) * (1.0 - t));
  }

  lemma Product(x: real, y: real)
    ensures x * y == 0.0 <==> x == 0.0 || y == 0.0
  {
  }

  lemma CubicChange(a: real, b: real, c: real, a': real, b': real, c': real, x0: real, d: real, t: real)
    requires a' == a - d / 2.0 && b' == b + d && c' == c - d / 2.0
    ensures ((a' * t + b') * t + c') * t + x0 == ((a * t + b) * t + c) * t + x0 - d * Bump(t) / 2.0
  {
    var dt, dtt := d * t, d * t * t;
    assert a' * t == a * t - dt / 2.0;
    assert (a' * t + b') * t == (a * t + b) * t - dtt / 2.0 + dt;
    var u := (a * t + b) * t;
    assert (u - dtt / 2.0 + dt + c') * t == (u + c) * t - dtt * t / 2.0 + dtt - dt / 2.0;
    BumpExpands(d, t);
  }

  lemma BumpExpands(d: real, t: real)
    ensures d * Bump(t) == d * t - 2.0 * (d * t * t) + d * t * t * t
  {
    assert (1.0 - t) * (1.0 - t) == 1.0 - 2.0 * t + t * t;
    assert t * (1.0 - 2.0 * t + t * t) == t - 2.0 * (t * t) + t * t * t;
    assert d * (t - 2.0 * (t * t) + t * t * t) == d * t - 2.0 * (d * t * t) + d * t * t * t;
  }
}
