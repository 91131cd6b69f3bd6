/**
 Lagrange interpolation at zero over distinct points: the weights sum to one and their
 first two moments vanish, so any three or more points give back the constant term of a
 polynomial of degree two.
 */
module Lagrange {
  import opened Scalars

  /** The product of `-y` over the points other than `x`. */
  function Numerator(xs: seq<int>, x: int): int {
    if xs == [] then 1 else (if xs[0] == x then 1 else -xs[0]) * Numerator(xs[1..], x)
  }

  /** The product of `x - y` over the points other than `x`. */
  function Denominator(xs: seq<int>, x: int): int {
    if xs == [] then 1 else (if xs[0] == x then 1 else x - xs[0]) * Denominator(xs[1..], x)
  }

  function Weight(xs: seq<int>, x: int, p: nat): int
    requires p > 0
  {
    Numerator(xs, x) * Inverse(Denominator(xs, x), p)
  }

  ghost predicate Points(xs: seq<int>, p: nat) {
    && (forall i :: 0 <= i < |xs| ==> 0 < xs[i] < p)
    && (forall i, j :: 0 <= i < j < |xs| ==> xs[i] != xs[j])
  }

  function Power(x: int, e: nat): int {
    if e == 0 then 1 else x * Power(x, e - 1)
  }

  /** The sum over `ys` of the weights among `xs` times the `e`-th power. */
  function Moment(xs: seq<int>, ys: seq<int>, e: nat, p: nat): int
    requires p > 0
  {
    if ys == [] then 0 else Weight(xs, ys[0], p) * Power(ys[0], e) + Moment(xs, ys[1..], e, p)
  }

  /** The same with each term multiplied by its distance from `a`. */
  function Shifted(xs: seq<int>, ys: seq<int>, a: int, e: nat, p: nat): int
    requires p > 0
  {
    if ys == [] then 0
    else Weight(xs, ys[0], p) * (ys[0] - a) * Power(ys[0], e) + Shifted(xs, ys[1..], a, e, p)
  }

  // ---------------------------------------------------------------- taking one point away

  lemma {:induction false} DenominatorInvertible(xs: seq<int>, x: int, p: nat)
    requires Prime(p) && 0 < x < p && forall i :: 0 <= i < |xs| ==> 0 < xs[i] < p
    ensures Invertible(Denominator(xs, x), p)
  {
    if xs == [] {
      if Cong(1, 0, p) {
        CongEqual(1, 0, p);
      }
    } else {
      DenominatorInvertible(xs[1..], x, p);
      if xs[0] != x {
        DifferenceInvertible(x, xs[0], p);
        ProductInvertible(x - xs[0], Denominator(xs[1..], x), p);
      }
    }
  }

  /** With one more point `a`, the weight of `x` changes by the factor `-a / (x - a)`. */
  lemma WeightWithout(xs: seq<int>, ys: seq<int>, a: int, x: int, p: nat)
    requires Prime(p) && 0 < x < p && 0 < a < p && x != a
    requires forall i :: 0 <= i < |ys| ==> 0 < ys[i] < p
    requires Numerator(xs, x) == -a * Numerator(ys, x) && Denominator(xs, x) == (x - a) * Denominator(ys, x)
    ensures Cong(Weight(xs, x, p) * (x - a), -a * Weight(ys, x, p), p)
  {
    hide Numerator, Denominator, Inverse;
    var d, n, i := Denominator(ys, x), Numerator(ys, x), Inverse(Denominator(xs, x), p);
    var j := Inverse(d, p);
    DenominatorInvertible(ys, x, p);
    DifferenceInvertible(x, a, p);
    InverseOfProduct(x - a, d, p);
    CongScale((x - a) * i, j, -a * n, p);
    Regroup(-a * n, i, x - a);
    Regroup(-a, n, j);
  }

  lemma InverseOfProduct(u: int, d: int, p: nat)
    requires Prime(p) && Invertible(u, p) && Invertible(d, p)
    ensures Cong(u * Inverse(u * d, p), Inverse(d, p), p)
  {
    hide Inverse;
    var i := Inverse(u * d, p);
    ProductInvertible(u, d, p);
    InverseWorks(u * d, p);
    Regroup(d, u, i);
    assert u * d == d * u;
    InverseUnique(d, u * i, p);
  }

  lemma Regroup(a: int, b: int, c: int)
    ensures (a * b) * c == a * (b * c) == a * (c * b) == b * (a * c)
  {
    assert (a * b) * c == a * (b * c);
    assert b * (a * c) == (b * a) * c;
  }

  lemma {:induction false} ShiftedWithout(xs: seq<int>, ys: seq<int>, zs: seq<int>, a: int, e: nat, p: nat)
    requires Prime(p) && 0 < a < p
    requires forall i :: 0 <= i < |ys| ==> 0 < ys[i] < p
    requires forall i :: 0 <= i < |zs| ==> 0 < zs[i] < p && zs[i] != a
    requires forall x :: x != a ==>
      Numerator(xs, x) == -a * Numerator(ys, x) && Denominator(xs, x) == (x - a) * Denominator(ys, x)
    ensures Cong(Shifted(xs, zs, a, e, p), -a * Moment(ys, zs, e, p), p)
  {
    if zs == [] {
      CongRefl(0, p);
    } else {
      var x := zs[0];
      ShiftedWithout(xs, ys, zs[1..], a, e, p);
      WeightWithout(xs, ys, a, x, p);
      CongScale(Weight(xs, x, p) * (x - a), -a * Weight(ys, x, p), Power(x, e), p);
      CongAdd(Weight(xs, x, p) * (x - a) * Power(x, e), -a * Weight(ys, x, p) * Power(x, e),
              Shifted(xs, zs[1..], a, e, p), -a * Moment(ys, zs[1..], e, p), p);
      Distribute(a, Weight(ys, x, p), Power(x, e), Moment(ys, zs[1..], e, p));
    }
  }

  lemma Distribute(a: int, w: int, q: int, m: int)
    ensures -a * w * q + -a * m == -a * (w * q + m)
  {
    assert -a * (w * q + m) == -a * (w * q) + -a * m;
    assert -a * w * q == -a * (w * q);
  }

  lemma {:induction false} ShiftedExpands(xs: seq<int>, ys: seq<int>, a: int, e: nat, p: nat)
    requires p > 0
    ensures Shifted(xs, ys, a, e, p) == Moment(xs, ys, e + 1, p) - a * Moment(xs, ys, e, p)
  {
    if ys != [] {
      ShiftedExpands(xs, ys[1..], a, e, p);
      ExpandTerm(Weight(xs, ys[0], p), ys[0], a, Power(ys[0], e), Moment(xs, ys[1..], e, p));
    }
  }

  lemma ExpandTerm(w: int, x: int, a: int, q: int, m: int)
    ensures w * (x - a) * q == w * (x * q) - a * (w * q)
    ensures a * (w * q + m) == a * (w * q) + a * m
  {
    assert w * (x - a) * q == w * x * q - w * a * q;
    assert w * x * q == w * (x * q);
    assert w * a * q == a * (w * q);
  }

  lemma {:induction false} AtBack(ys: seq<int>, a: int, x: int)
    requires x != a
    ensures Numerator(ys + [a], x) == -a * Numerator(ys, x)
    ensures Denominator(ys + [a], x) == (x - a) * Denominator(ys, x)
  {
    if ys == [] {
      assert (ys + [a])[1..] == [];
      assert Numerator([], x) == 1 && Denominator([], x) == 1;
    } else {
      assert (ys + [a])[1..] == ys[1..] + [a];
      AtBack(ys[1..], a, x);
      var n, d := Numerator(ys[1..], x), Denominator(ys[1..], x);
      var f, g := if ys[0] == x then 1 else -ys[0], if ys[0] == x then 1 else x - ys[0];
      calc {
        Numerator(ys + [a], x);
        f * (-a * n);
        { Regroup(f, -a, n); }
        -a * (f * n);
        -a * Numerator(ys, x);
      }
      calc {
        Denominator(ys + [a], x);
        g * ((x - a) * d);
        { Regroup(g, x - a, d); }
        (x - a) * (g * d);
        (x - a) * Denominator(ys, x);
      }
    }
  }

  lemma {:induction false} ShiftedAtBack(xs: seq<int>, ys: seq<int>, a: int, e: nat, p: nat)
    requires p > 0
    ensures Shifted(xs, ys + [a], a, e, p) == Shifted(xs, ys, a, e, p)
  {
    if ys == [] {
      assert (ys + [a])[1..] == [];
      assert Weight(xs, a, p) * (a - a) == 0;
    } else {
      assert (ys + [a])[1..] == ys[1..] + [a];
      ShiftedAtBack(xs, ys[1..], a, e, p);
    }
  }

  /** Removing the first point: how the moments of all points relate to those of the others. */
  lemma PeelFront(xs: seq<int>, e: nat, p: nat)
    requires Prime(p) && Points(xs, p) && xs != []
    ensures Cong(Moment(xs, xs, e + 1, p) - xs[0] * Moment(xs, xs, e, p), -xs[0] * Moment(xs[1..], xs[1..], e, p), p)
  {
    var a, ys := xs[0], xs[1..];
    ShiftedExpands(xs, xs, a, e, p);
    assert Weight(xs, a, p) * (a - a) == 0;
    assert Shifted(xs, xs, a, e, p) == Shifted(xs, ys, a, e, p);
    ShiftedWithout(xs, ys, ys, a, e, p);
  }

  lemma PeelBack(xs: seq<int>, e: nat, p: nat)
    requires Prime(p) && Points(xs, p) && xs != []
    ensures var n := |xs| - 1;
            Cong(Moment(xs, xs, e + 1, p) - xs[n] * Moment(xs, xs, e, p), -xs[n] * Moment(xs[..n], xs[..n], e, p), p)
  {
    var n := |xs| - 1;
    var a, ys := xs[n], xs[..n];
    assert xs == ys + [a];
    ShiftedExpands(xs, xs, a, e, p);
    ShiftedAtBack(xs, ys, a, e, p);
    forall x | x != a
      ensures Numerator(xs, x) == -a * Numerator(ys, x) && Denominator(xs, x) == (x - a) * Denominator(ys, x)
    {
      AtBack(ys, a, x);
    }
    ShiftedWithout(xs, ys, ys, a, e, p);
  }

  // ---------------------------------------------------------------- the moments

  /** From `m1 - a m0 = -a` and `m1 - b m0 = -b`: the weights sum to one and the first moment is zero. */
  lemma SolveTwo(m0: int, m1: int, a: int, b: int, p: nat)
    requires Prime(p) && Invertible(b - a, p)
    requires Cong(m1 - a * m0, -a, p) && Cong(m1 - b * m0, -b, p)
    ensures Cong(m0, 1, p) && Cong(m1, 0, p)
  {
    CongSub(m1 - a * m0, -a, m1 - b * m0, -b, p);
    assert (m1 - a * m0) - (m1 - b * m0) == (b - a) * m0;
    assert -a - -b == (b - a) * 1;
    Cancel(b - a, m0, 1, p);
    CongScale(m0, 1, a, p);
    CongAdd(m1 - a * m0, -a, a * m0, a * 1, p);
  }

  lemma {:induction false} Moments(xs: seq<int>, p: nat)
    requires Prime(p) && Points(xs, p) && xs != []
    ensures Cong(Moment(xs, xs, 0, p), 1, p)
    ensures |xs| >= 2 ==> Cong(Moment(xs, xs, 1, p), 0, p)
    ensures |xs| >= 3 ==> Cong(Moment(xs, xs, 2, p), 0, p)
  {
    if |xs| == 1 {
      OnePoint(xs, p);
    } else {
      var n := |xs| - 1;
      var a, b := xs[0], xs[n];
      Moments(xs[1..], p);
      Moments(xs[..n], p);
      PeelFront(xs, 0, p);
      PeelBack(xs, 0, p);
      ScaleTo(-a, Moment(xs[1..], xs[1..], 0, p), 1, Moment(xs, xs, 1, p) - a * Moment(xs, xs, 0, p), p);
      ScaleTo(-b, Moment(xs[..n], xs[..n], 0, p), 1, Moment(xs, xs, 1, p) - b * Moment(xs, xs, 0, p), p);
      DifferenceInvertible(b, a, p);
      SolveTwo(Moment(xs, xs, 0, p), Moment(xs, xs, 1, p), a, b, p);
      if n >= 2 {
        PeelFront(xs, 1, p);
        ScaleTo(-a, Moment(xs[1..], xs[1..], 1, p), 0, Moment(xs, xs, 2, p) - a * Moment(xs, xs, 1, p), p);
        CongScale(Moment(xs, xs, 1, p), 0, a, p);
        CongAdd(Moment(xs, xs, 2, p) - a * Moment(xs, xs, 1, p), 0, a * Moment(xs, xs, 1, p), 0, p);
      }
    }
  }

  lemma ScaleTo(c: int, m: int, v: int, s: int, p: nat)
    requires Cong(m, v, p) && Cong(s, c * m, p)
    ensures Cong(s, c * v, p)
  {
    CongScale(m, v, c, p);
    CongTrans(s, c * m, c * v, p);
  }

  lemma OnePoint(xs: seq<int>, p: nat)
    requires Prime(p) && Points(xs, p) && |xs| == 1
    ensures Cong(Moment(xs, xs, 0, p), 1, p)
  {
    assert xs[1..] == [];
    assert Numerator([], xs[0]) == 1 && Denominator([], xs[0]) == 1;
    assert Numerator(xs, xs[0]) == 1 && Denominator(xs, xs[0]) == 1;
    DenominatorInvertible(xs, xs[0], p);
    InverseWorks(1, p);
    assert Moment(xs, xs, 0, p) == Inverse(1, p);
  }

  // ---------------------------------------------------------------- interpolation at zero

  function Evaluate(c: seq<int>, x: int): int
    requires |c| == 3
  {
    c[0] + c[1] * x + c[2] * x * x
  }

  /** The interpolation sum over the points, given a value for each. */
  function Interpolate(xs: seq<int>, ys: seq<int>, values: seq<int>, p: nat): int
    requires p > 0 && |values| == |ys|
  {
    if ys == [] then 0 else values[0] * Weight(xs, ys[0], p) + Interpolate(xs, ys[1..], values[1..], p)
  }

  lemma {:induction false} InterpolateIsMoments(xs: seq<int>, ys: seq<int>, values: seq<int>, c: seq<int>, p: nat)
    requires p > 0 && |values| == |ys| && |c| == 3
    requires forall i :: 0 <= i < |ys| ==> Cong(values[i], Evaluate(c, ys[i]), p)
    ensures Cong(Interpolate(xs, ys, values, p),
                 c[0] * Moment(xs, ys, 0, p) + c[1] * Moment(xs, ys, 1, p) + c[2] * Moment(xs, ys, 2, p), p)
  {
    if ys == [] {
      CongRefl(0, p);
    } else {
      var x, w := ys[0], Weight(xs, ys[0], p);
      InterpolateIsMoments(xs, ys[1..], values[1..], c, p);
      CongScale(values[0], Evaluate(c, x), w, p);
      var m0, m1, m2 := Moment(xs, ys[1..], 0, p), Moment(xs, ys[1..], 1, p), Moment(xs, ys[1..], 2, p);
      CongAdd(values[0] * w, Evaluate(c, x) * w,
              Interpolate(xs, ys[1..], values[1..], p), c[0] * m0 + c[1] * m1 + c[2] * m2, p);
      assert Power(x, 1) == x && Power(x, 2) == x * x by {
        assert Power(x, 1) == x * Power(x, 0);
        assert Power(x, 2) == x * Power(x, 1);
      }
      CollectTerms(c[0], c[1], c[2], x, w, m0, m1, m2);
    }
  }

  lemma CollectTerms(c0: int, c1: int, c2: int, x: int, w: int, m0: int, m1: int, m2: int)
    ensures (c0 + c1 * x + c2 * x * x) * w + (c0 * m0 + c1 * m1 + c2 * m2)
         == c0 * (w * 1 + m0) + c1 * (w * x + m1) + c2 * (w * (x * x) + m2)
  {
    assert c0 * (w * 1 + m0) == c0 * w + c0 * m0;
    assert c1 * (w * x + m1) == c1 * x * w + c1 * m1;
    assert c2 * (w * (x * x) + m2) == c2 * x * x * w + c2 * m2;
  }

  /**
   Any three or more distinct points give back the constant term, whichever they are and
   in whatever order they are listed.
   */
  lemma InterpolationAtZero(xs: seq<int>, values: seq<int>, c: seq<int>, p: nat)
    requires Prime(p) && Points(xs, p) && |xs| >= 3
    requires |values| == |xs| && |c| == 3
    requires forall i :: 0 <= i < |xs| ==> Cong(values[i], Evaluate(c, xs[i]), p)
    ensures Cong(Interpolate(xs, xs, values, p), c[0], p)
  {
    Moments(xs, p);
    InterpolateIsMoments(xs, xs, values, c, p);
    var m0, m1, m2 := Moment(xs, xs, 0, p), Moment(xs, xs, 1, p), Moment(xs, xs, 2, p);
    CongScale(m0, 1, c[0], p);
    CongScale(m1, 0, c[1], p);
    CongScale(m2, 0, c[2], p);
    CongAdd(c[0] * m0, c[0] * 1, c[1] * m1, c[1] * 0, p);
    CongAdd(c[0] * m0 + c[1] * m1, c[0] * 1 + c[1] * 0, c[2] * m2, c[2] * 0, p);
    CongTrans(Interpolate(xs, xs, values, p), c[0] * m0 + c[1] * m1 + c[2] * m2, c[0] * 1 + c[1] * 0 + c[2] * 0, p);
  }
}
