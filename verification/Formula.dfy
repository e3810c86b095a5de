/** The formula that weights pass through before they are compared (normalise in sched/Node.cpp). */
module Formulas {

  /** A square root, which is not to be had over the reals otherwise. */
  ghost predicate IsRoot(sqrt: real -> real) {
    forall x :: x > 0.0 ==> sqrt(x) > 0.0 && sqrt(x) * sqrt(x) == x
  }

  function Normalise(sqrt: real -> real, weight: real, minimum: real): real
    requires IsRoot(sqrt)
  {
    var w := if minimum < 0.0 then weight - minimum else weight;
    Square(w);
    0.5 * (1.0 - w / sqrt(w * w + 1000.0))
  }

  lemma Square(w: real)
    ensures w * w >= 0.0
  {
  }

  /** It turns the order round: the heavier weight becomes the smaller number. */
  lemma NormaliseReverses(sqrt: real -> real, v: real, w: real)
    requires IsRoot(sqrt) && 0.0 <= v && 0.0 <= w
    ensures Normalise(sqrt, v, 0.0) > Normalise(sqrt, w, 0.0) <==> v < w
  {
    if v < w {
      FractionGrows(sqrt, v, w);
    } else if w < v {
      FractionGrows(sqrt, w, v);
    }
  }

  /** And it lies between zero and one half. */
  lemma NormaliseRange(sqrt: real -> real, w: real)
    requires IsRoot(sqrt) && 0.0 <= w
    ensures 0.0 < Normalise(sqrt, w, 0.0) <= 0.5
  {
    Square(w);
    var s := sqrt(w * w + 1000.0);
    SquaresOrdered(s, w);
    Crossed(w, 1.0, s, 1.0);
    NotNegative(w, s);
  }

  lemma NotNegative(w: real, s: real)
    requires 0.0 <= w && 0.0 < s
    ensures w / s >= 0.0
  {
  }

  lemma FractionGrows(sqrt: real -> real, v: real, w: real)
    requires IsRoot(sqrt) && 0.0 <= v < w
    ensures Normalise(sqrt, v, 0.0) > Normalise(sqrt, w, 0.0)
  {
    Square(v);
    Square(w);
    var r, s := sqrt(v * v + 1000.0), sqrt(w * w + 1000.0);
    SquaresGrow(v, w);
    Squared(v, s, w * w + 1000.0);
    Squared(w, r, v * v + 1000.0);
    Distributed(v * v, w * w);
    Square(v * s);
    Positive(w, r);
    SquaresOrdered(w * r, v * s);
    Crossed(v, w, r, s);
  }

  lemma Positive(w: real, r: real)
    requires w > 0.0 && r > 0.0
    ensures w * r > 0.0
  {
  }

  lemma Squared(v: real, s: real, x: real)
    requires s * s == x
    ensures (v * s) * (v * s) == v * v * x
  {
    assert (v * s) * (v * s) == v * v * (s * s);
  }

  lemma Distributed(a: real, b: real)
    ensures b * (a + 1000.0) - a * (b + 1000.0) == 1000.0 * (b - a)
  {
  }

  lemma SquaresGrow(a: real, b: real)
    requires 0.0 <= a < b
    ensures a * a < b * b
  {
    assert b * b - a * a == (b - a) * (b + a);
    Positive(b - a, b + a);
  }

  lemma SquaresOrdered(a: real, b: real)
    requires a > 0.0 && b * b < a * a
    ensures b < a
  {
    if a < b {
      SquaresGrow(a, b);
    }
  }

  /** Fractions are compared crosswise. */
  lemma Crossed(v: real, w: real, r: real, s: real)
    requires r > 0.0 && s > 0.0 && v * s < w * r
    ensures v / r < w / s
  {
    var p, q := v / r, w / s;
    assert p * r == v && q * s == w;
    assert v * s == p * (r * s) && w * r == q * (r * s);
    Positive(r, s);
    if p >= q {
      OrderTimes(q, p, r * s);
    }
  }

  lemma OrderTimes(q: real, p: real, c: real)
    requires q <= p && c > 0.0
    ensures q * c <= p * c
  {
  }
}
