/**
 Polynomials over GF(2^8), constant term first, and Lagrange interpolation at 0.
 */
module Polynomial {
  import opened GF256

  type Poly = seq<Elem>

  function Eval(p: Poly, x: Elem): Elem {
    if p == [] then 0 else Add(p[0], Mul(x, Eval(p[1..], x)))
  }

  ghost predicate Distinct(xs: seq<Elem>) { forall i, j :: 0 <= i < j < |xs| ==> xs[i] != xs[j] }

  lemma DistinctTail(xs: seq<Elem>)
    requires xs != [] && Distinct(xs)
    ensures Distinct(xs[1..]) && xs[0] !in xs[1..]
  {
    forall i, j | 0 <= i < j < |xs[1..]| ensures xs[1..][i] != xs[1..][j] {
      assert xs[1..][i] == xs[i + 1] && xs[1..][j] == xs[j + 1];
    }
    forall i | 0 <= i < |xs[1..]| ensures xs[1..][i] != xs[0] { assert xs[1..][i] == xs[i + 1]; }
  }

  lemma EvalAtZero(p: Poly)
    ensures Eval(p, 0) == if p == [] then 0 else p[0]
  {
    hide Add, Mul;
    if p != [] {
      MulZero(Eval(p[1..], 0));
      AddZero(p[0]);
    }
  }

  // ---------- division by a linear factor

  /** The coefficients of (x + h) * q(x) + c. */
  function MulLinear(q: Poly, h: Elem, c: Elem): (p: Poly)
    ensures |p| == |q| + 1
  {
    if q == [] then [c] else [Add(c, Mul(h, q[0]))] + MulLinear(q[1..], h, q[0])
  }

  lemma {:induction false} EvalMulLinear(q: Poly, h: Elem, c: Elem, x: Elem)
    ensures Eval(MulLinear(q, h, c), x) == Add(c, Mul(Add(x, h), Eval(q, x)))
    decreases |q|
  {
    hide Add, Mul;
    if q == [] {
      MulZero(x);
      MulZero(Add(x, h));
      assert MulLinear(q, h, c)[1..] == [];
    } else {
      var e, d := Eval(q[1..], x), Add(x, h);
      EvalMulLinear(q[1..], h, q[0], x);
      assert MulLinear(q, h, c)[1..] == MulLinear(q[1..], h, q[0]);
      calc {
        Eval(MulLinear(q, h, c), x);
        Add(Add(c, Mul(h, q[0])), Mul(x, Add(q[0], Mul(d, e))));
        { MulAdd(x, q[0], Mul(d, e)); }
        Add(Add(c, Mul(h, q[0])), Add(Mul(x, q[0]), Mul(x, Mul(d, e))));
        { AddAssoc(c, Mul(h, q[0]), Add(Mul(x, q[0]), Mul(x, Mul(d, e))));
          AddAssoc(Mul(h, q[0]), Mul(x, q[0]), Mul(x, Mul(d, e)));
          AddComm(Mul(h, q[0]), Mul(x, q[0])); }
        Add(c, Add(Add(Mul(x, q[0]), Mul(h, q[0])), Mul(x, Mul(d, e))));
        { MulAdd(q[0], x, h); MulLeftComm(x, d, e); }
        Add(c, Add(Mul(d, q[0]), Mul(d, Mul(x, e))));
        { MulAdd(d, q[0], Mul(x, e)); }
        Add(c, Mul(d, Eval(q, x)));
      }
    }
  }

  lemma MulLeftComm(a: Elem, b: Elem, c: Elem)
    ensures Mul(a, Mul(b, c)) == Mul(b, Mul(a, c))
  {
    hide Mul;
    MulAssoc(a, b, c);
    MulComm(a, b);
    MulAssoc(b, a, c);
  }

  /** The quotient of p by (x + h); the remainder is Eval(p, h). */
  function Quotient(p: Poly, h: Elem): (q: Poly)
    requires p != []
    ensures |q| == |p| - 1
  {
    if |p| == 1 then [] else [Eval(p[1..], h)] + Quotient(p[1..], h)
  }

  lemma {:induction false} DivideLinear(p: Poly, h: Elem)
    requires p != []
    ensures MulLinear(Quotient(p, h), h, Eval(p, h)) == p
    decreases |p|
  {
    hide Add, Mul;
    if |p| == 1 {
      MulZero(h);
      AddZero(p[0]);
      assert p[1..] == [];
    } else {
      var q := Quotient(p, h);
      assert q[1..] == Quotient(p[1..], h);
      DivideLinear(p[1..], h);
      AddAssoc(p[0], Mul(h, q[0]), Mul(h, q[0]));
      AddSelf(Mul(h, q[0]));
      AddZero(p[0]);
    }
  }

  lemma DivisionLaw(p: Poly, h: Elem, x: Elem)
    requires p != []
    ensures Eval(p, x) == Add(Eval(p, h), Mul(Add(x, h), Eval(Quotient(p, h), x)))
  {
    hide Add, Mul, Eval;
    DivideLinear(p, h);
    EvalMulLinear(Quotient(p, h), h, Eval(p, h), x);
  }

  // ---------- a polynomial is determined by its values

  lemma AddCancel(a: Elem, b: Elem)
    ensures Add(a, b) == 0 <==> a == b
  {}

  lemma AddInj(a: Elem, b: Elem, c: Elem)
    ensures Add(a, b) == Add(a, c) ==> b == c
  {}

  lemma {:induction false} UniqueInterpolation(p: Poly, q: Poly, xs: seq<Elem>)
    requires |p| == |q| <= |xs| && Distinct(xs)
    requires forall i :: 0 <= i < |xs| ==> Eval(p, xs[i]) == Eval(q, xs[i])
    ensures p == q
    decreases |p|
  {
    hide Add, Mul, Eval;
    if p != [] {
      var h, t := xs[0], xs[1..];
      assert Eval(p, h) == Eval(q, h);
      var p', q' := Quotient(p, h), Quotient(q, h);
      forall i | 0 <= i < |t|
        ensures Eval(p', t[i]) == Eval(q', t[i])
      {
        assert t[i] == xs[i + 1];
        DivisionLaw(p, h, t[i]);
        DivisionLaw(q, h, t[i]);
        AddInj(Eval(p, h), Mul(Add(t[i], h), Eval(p', t[i])), Mul(Add(t[i], h), Eval(q', t[i])));
        AddCancel(t[i], h);
        Cancel(Add(t[i], h), Eval(p', t[i]), Eval(q', t[i]));
      }
      UniqueInterpolation(p', q', t);
      DivideLinear(p, h);
      DivideLinear(q, h);
    }
  }

  /** Newton's interpolating polynomial. */
  function Interpolant(xs: seq<Elem>, ys: seq<Elem>): (p: Poly)
    requires |xs| == |ys|
    ensures |p| == |xs|
  {
    if xs == [] then []
    else
      var rest := seq(|xs| - 1, i requires 0 <= i < |xs| - 1 => Div(Add(ys[i + 1], ys[0]), Add(xs[i + 1], xs[0])));
      MulLinear(Interpolant(xs[1..], rest), xs[0], ys[0])
  }

  lemma DivMul(a: Elem, b: Elem)
    requires b != 0
    ensures Mul(b, Div(a, b)) == a
  {
    hide Mul, Inv;
    MulLeftComm(b, a, Inv(b));
    InvLaw(b);
    MulOne(a);
  }

  lemma AddBack(a: Elem, b: Elem)
    ensures Add(a, Add(b, a)) == b
  {}

  lemma {:induction false} InterpolantFits(xs: seq<Elem>, ys: seq<Elem>, k: nat)
    requires |xs| == |ys| && Distinct(xs) && k < |xs|
    ensures Eval(Interpolant(xs, ys), xs[k]) == ys[k]
    decreases |xs|
  {
    hide Add, Mul, Eval, Div;
    var h, x := xs[0], xs[k];
    var rest := seq(|xs| - 1, i requires 0 <= i < |xs| - 1 => Div(Add(ys[i + 1], ys[0]), Add(xs[i + 1], xs[0])));
    var q := Interpolant(xs[1..], rest);
    EvalMulLinear(q, h, ys[0], x);
    if k == 0 {
      AddSelf(h);
      MulZero(Eval(q, x));
      AddZero(ys[0]);
    } else {
      InterpolantFits(xs[1..], rest, k - 1);
      assert xs[1..][k - 1] == x && rest[k - 1] == Div(Add(ys[k], ys[0]), Add(x, h));
      AddCancel(x, h);
      DivMul(Add(ys[k], ys[0]), Add(x, h));
      AddBack(ys[0], ys[k]);
    }
  }

  // ---------- Lagrange interpolation at 0

  /** The Lagrange coefficient at 0 of the node x: the product of u / (u + x) over the other nodes u. */
  function Weight(nodes: seq<Elem>, x: Elem): Elem {
    if nodes == [] then 1
    else if nodes[0] == x then Weight(nodes[1..], x)
    else Mul(Div(nodes[0], Add(nodes[0], x)), Weight(nodes[1..], x))
  }

  /** The sum of ys[i] times the coefficient of xs[i] among the nodes. */
  function Combine(nodes: seq<Elem>, xs: seq<Elem>, ys: seq<Elem>): Elem
    requires |xs| == |ys|
    decreases |xs|
  {
    if xs == [] then 0
    else Add(Mul(ys[0], Weight(nodes, xs[0])), Combine(nodes, xs[1..], ys[1..]))
  }

  function AtZero(xs: seq<Elem>, ys: seq<Elem>): Elem
    requires |xs| == |ys|
  {
    Combine(xs, xs, ys)
  }

  function Constant(n: nat, c: Elem): (ys: seq<Elem>)
    ensures |ys| == n && forall i :: 0 <= i < n ==> ys[i] == c
  {
    seq(n, i => c)
  }

  lemma {:induction false} CombineScale(nodes: seq<Elem>, xs: seq<Elem>, ys: seq<Elem>, c: Elem, zs: seq<Elem>)
    requires |xs| == |ys| == |zs|
    requires forall i :: 0 <= i < |ys| ==> zs[i] == Mul(c, ys[i])
    ensures Combine(nodes, xs, zs) == Mul(c, Combine(nodes, xs, ys))
    decreases |xs|
  {
    hide Add, Mul, Weight;
    if xs == [] {
      MulZero(c);
    } else {
      CombineScale(nodes, xs[1..], ys[1..], c, zs[1..]);
      MulAssoc(c, ys[0], Weight(nodes, xs[0]));
      MulAdd(c, Mul(ys[0], Weight(nodes, xs[0])), Combine(nodes, xs[1..], ys[1..]));
    }
  }

  lemma {:induction false} CombineAdd(nodes: seq<Elem>, xs: seq<Elem>, ys: seq<Elem>, ys': seq<Elem>, zs: seq<Elem>)
    requires |xs| == |ys| == |ys'| == |zs|
    requires forall i :: 0 <= i < |ys| ==> zs[i] == Add(ys[i], ys'[i])
    ensures Combine(nodes, xs, zs) == Add(Combine(nodes, xs, ys), Combine(nodes, xs, ys'))
    decreases |xs|
  {
    hide Add, Mul, Weight;
    if xs == [] {
      AddZero(0);
    } else {
      var w := Weight(nodes, xs[0]);
      CombineAdd(nodes, xs[1..], ys[1..], ys'[1..], zs[1..]);
      MulAdd(w, ys[0], ys'[0]);
      AddSwap(Mul(ys[0], w), Mul(ys'[0], w), Combine(nodes, xs[1..], ys[1..]), Combine(nodes, xs[1..], ys'[1..]));
    }
  }

  /** A factor (x + h) in the values cancels the node h. */
  lemma {:induction false} CombineFactor(h: Elem, t: seq<Elem>, xs: seq<Elem>, qs: seq<Elem>, ys: seq<Elem>)
    requires |xs| == |ys| == |qs| && h !in xs
    requires forall i :: 0 <= i < |xs| ==> ys[i] == Mul(Add(xs[i], h), qs[i])
    ensures Combine([h] + t, xs, ys) == Mul(h, Combine(t, xs, qs))
    decreases |xs|
  {
    hide Add, Mul, Weight;
    if xs == [] {
      MulZero(h);
    } else {
      CombineFactor(h, t, xs[1..], qs[1..], ys[1..]);
      FactorTerm(h, t, xs[0], qs[0]);
      MulAdd(h, Mul(qs[0], Weight(t, xs[0])), Combine(t, xs[1..], qs[1..]));
    }
  }

  lemma FactorTerm(h: Elem, t: seq<Elem>, x: Elem, q: Elem)
    requires x != h
    ensures Mul(Mul(Add(x, h), q), Weight([h] + t, x)) == Mul(h, Mul(q, Weight(t, x)))
  {
    hide Add, Mul, Div;
    var d, w := Add(x, h), Weight(t, x);
    assert ([h] + t)[1..] == t;
    AddComm(x, h);
    AddCancel(x, h);
    calc {
      Mul(Mul(d, q), Mul(Div(h, d), w));
      { MulAssoc(d, q, Mul(Div(h, d), w)); }
      Mul(d, Mul(q, Mul(Div(h, d), w)));
      { MulLeftComm(q, Div(h, d), w); }
      Mul(d, Mul(Div(h, d), Mul(q, w)));
      { MulAssoc(d, Div(h, d), Mul(q, w)); DivMul(h, d); }
      Mul(h, Mul(q, w));
    }
  }

  /** Values (x + xs[0]) * q(x) interpolate at 0 to xs[0] times what q does over the other nodes. */
  lemma AtZeroFactor(xs: seq<Elem>, qs: seq<Elem>, ys: seq<Elem>)
    requires 0 < |xs| == |ys| == |qs| && Distinct(xs)
    requires forall i :: 0 <= i < |xs| ==> ys[i] == Mul(Add(xs[i], xs[0]), qs[i])
    ensures AtZero(xs, ys) == Mul(xs[0], AtZero(xs[1..], qs[1..]))
  {
    hide Add, Mul, Weight;
    AddSelf(xs[0]);
    MulZero(qs[0]);
    MulZero(Weight(xs, xs[0]));
    AddZero(Combine(xs, xs[1..], ys[1..]));
    assert xs == [xs[0]] + xs[1..];
    CombineFactor(xs[0], xs[1..], xs[1..], qs[1..], ys[1..]);
  }

  lemma WeightSwap(a: Elem, b: Elem, t: seq<Elem>, x: Elem)
    ensures Weight([a, b] + t, x) == Weight([b, a] + t, x)
  {
    hide Add, Mul, Div;
    assert ([a, b] + t)[1..] == [b] + t && ([b, a] + t)[1..] == [a] + t;
    assert ([b] + t)[1..] == t && ([a] + t)[1..] == t;
    MulLeftComm(Div(a, Add(a, x)), Div(b, Add(b, x)), Weight(t, x));
  }

  lemma {:induction false} CombineSameWeights(nodes: seq<Elem>, nodes': seq<Elem>, xs: seq<Elem>, ys: seq<Elem>)
    requires |xs| == |ys|
    requires forall x :: Weight(nodes, x) == Weight(nodes', x)
    ensures Combine(nodes, xs, ys) == Combine(nodes', xs, ys)
    decreases |xs|
  {
    hide Add, Mul, Weight;
    if xs != [] { CombineSameWeights(nodes, nodes', xs[1..], ys[1..]); }
  }

  lemma AtZeroSwap(a: Elem, b: Elem, t: seq<Elem>, y: Elem, z: Elem, u: seq<Elem>)
    requires |t| == |u|
    ensures AtZero([a, b] + t, [y, z] + u) == AtZero([b, a] + t, [z, y] + u)
  {
    hide Add, Mul, Weight;
    var ns, ns' := [a, b] + t, [b, a] + t;
    forall x ensures Weight(ns, x) == Weight(ns', x) { WeightSwap(a, b, t, x); }
    CombineSameWeights(ns, ns', t, u);
    CombineTwo(ns, a, b, t, y, z, u);
    CombineTwo(ns', b, a, t, z, y, u);
    var p, q, r := Mul(y, Weight(ns, a)), Mul(z, Weight(ns, b)), Combine(ns, t, u);
    AddAssoc(p, q, r);
    AddComm(p, q);
    AddAssoc(q, p, r);
  }

  lemma CombineCons(nodes: seq<Elem>, a: Elem, t: seq<Elem>, y: Elem, u: seq<Elem>)
    requires |t| == |u|
    ensures Combine(nodes, [a] + t, [y] + u) == Add(Mul(y, Weight(nodes, a)), Combine(nodes, t, u))
  {
    hide Add, Mul, Weight;
    assert ([a] + t)[1..] == t && ([y] + u)[1..] == u;
  }

  lemma CombineTwo(nodes: seq<Elem>, a: Elem, b: Elem, t: seq<Elem>, y: Elem, z: Elem, u: seq<Elem>)
    requires |t| == |u|
    ensures Combine(nodes, [a, b] + t, [y, z] + u)
         == Add(Mul(y, Weight(nodes, a)), Add(Mul(z, Weight(nodes, b)), Combine(nodes, t, u)))
  {
    hide Add, Mul, Weight, Combine;
    assert [a, b] + t == [a] + ([b] + t) && [y, z] + u == [y] + ([z] + u);
    CombineCons(nodes, a, [b] + t, y, [z] + u);
    CombineCons(nodes, b, t, z, u);
  }

  /** Interpolating the identity: first node times (1 + sum of all coefficients). */
  lemma AtZeroIdentity(xs: seq<Elem>)
    requires 0 < |xs| && Distinct(xs)
    requires AtZero(xs[1..], Constant(|xs| - 1, 1)) == 1
    ensures AtZero(xs, xs) == Mul(xs[0], Add(1, AtZero(xs, Constant(|xs|, 1))))
  {
    hide Add, Mul, Weight, Combine;
    var a, ones := xs[0], Constant(|xs|, 1);
    var shifted := seq(|xs|, i requires 0 <= i < |xs| => Add(xs[i], a));
    var scaled := Constant(|xs|, a);
    forall i | 0 <= i < |xs|
      ensures shifted[i] == Mul(Add(xs[i], a), ones[i]) && scaled[i] == Mul(a, ones[i])
      ensures xs[i] == Add(shifted[i], scaled[i])
    {
      MulOne(Add(xs[i], a));
      MulOne(a);
      AddBack(a, xs[i]);
      AddComm(a, Add(xs[i], a));
    }
    assert ones[1..] == Constant(|xs| - 1, 1);
    AtZeroFactor(xs, ones, shifted);
    CombineScale(xs, xs, ones, a, scaled);
    CombineAdd(xs, xs, shifted, scaled, xs);
    MulAdd(a, 1, AtZero(xs, ones));
  }

  lemma {:induction false} CoefficientsSumToOne(xs: seq<Elem>)
    requires 0 < |xs| && Distinct(xs)
    ensures AtZero(xs, Constant(|xs|, 1)) == 1
    decreases |xs|
  {
    hide Add, Mul;
    if |xs| == 1 {
      MulOne(1);
      AddZero(1);
      assert xs == [xs[0]] + [] && Constant(1, 1) == [1] + [];
      CombineCons(xs, xs[0], [], 1, []);
    } else {
      hide Weight, Combine;
      var a, b, t := xs[0], xs[1], xs[2..];
      var xs' := [b, a] + t;
      assert xs == [a, b] + t;
      DistinctTail(xs);
      DistinctTail(xs');
      CoefficientsSumToOne(xs[1..]);
      AtZeroIdentity(xs);
      CoefficientsSumToOne(xs'[1..]);
      AtZeroIdentity(xs');
      AtZeroSwap(a, b, t, a, b, t);
      var u := Constant(|t|, 1);
      assert Constant(|xs|, 1) == [1, 1] + u;
      AtZeroSwap(a, b, t, 1, 1, u);
      var s := Add(1, AtZero(xs, Constant(|xs|, 1)));
      assert Mul(a, s) == Mul(b, s);
      if s != 0 {
        MulComm(a, s);
        MulComm(b, s);
        Cancel(s, a, b);
        assert false;
      }
      AddCancel(1, AtZero(xs, Constant(|xs|, 1)));
    }
  }

  /** The interpolation theorem: fewer coefficients than nodes, and the values give back the constant term. */
  lemma {:induction false} Interpolation(p: Poly, xs: seq<Elem>, ys: seq<Elem>)
    requires |p| <= |xs| == |ys| && Distinct(xs)
    requires forall i :: 0 <= i < |xs| ==> ys[i] == Eval(p, xs[i])
    ensures AtZero(xs, ys) == Eval(p, 0)
    decreases |xs|
  {
    hide Add, Mul, Weight, Combine;
    if p == [] {
      var ones := Constant(|xs|, 1);
      MulZero(1);
      CombineScale(xs, xs, ones, 0, ys);
      MulZero(Combine(xs, xs, ones));
    } else {
      hide Eval;
      var h, q := xs[0], Quotient(p, xs[0]);
      var e, ones := Eval(p, h), Constant(|xs|, 1);
      var qs := seq(|xs|, i requires 0 <= i < |xs| => Eval(q, xs[i]));
      var products := seq(|xs|, i requires 0 <= i < |xs| => Mul(Add(xs[i], h), qs[i]));
      var es := Constant(|xs|, e);
      forall i | 0 <= i < |xs|
        ensures es[i] == Mul(e, ones[i]) && ys[i] == Add(es[i], products[i])
      {
        MulOne(e);
        DivisionLaw(p, h, xs[i]);
      }
      CombineAdd(xs, xs, es, products, ys);
      CombineScale(xs, xs, ones, e, es);
      CoefficientsSumToOne(xs);
      MulOne(e);
      AtZeroFactor(xs, qs, products);
      Interpolation(q, xs[1..], qs[1..]);
      DivisionLaw(p, h, 0);
      AddZero(h);
    }
  }
}
