/** Finite sums over sequences and sets, and what happens to them when one term changes. */
module Sums {

  function Sum(v: seq<real>): real {
    if v == [] then 0.0 else v[0] + Sum(v[1..])
  }

  function Abs(x: real): real {
    if x < 0.0 then -x else x
  }

  /** The L1 norm of a vector. */
  function Norm(v: seq<real>): real {
    Sum(seq(|v|, i requires 0 <= i < |v| => Abs(v[i])))
  }

  function Minus(u: seq<real>, v: seq<real>): (w: seq<real>)
    requires |u| == |v|
  {
    seq(|u|, i requires 0 <= i < |u| => u[i] - v[i])
  }

  /** The L1 distance between two vectors. */
  function Dist(u: seq<real>, v: seq<real>): real
    requires |u| == |v|
  {
    Norm(Minus(u, v))
  }

  lemma {:induction false} SumUpdate(v: seq<real>, i: nat, x: real)
    requires i < |v|
    ensures Sum(v[i := x]) == Sum(v) - v[i] + x
  {
    if i == 0 {
      assert v[0 := x][1..] == v[1..];
    } else {
      assert v[i := x][1..] == v[1..][i - 1 := x];
      SumUpdate(v[1..], i - 1, x);
    }
  }

  lemma {:induction false} SumMonotone(u: seq<real>, v: seq<real>)
    requires |u| == |v|
    requires forall i :: 0 <= i < |u| ==> u[i] <= v[i]
    ensures Sum(u) <= Sum(v)
  {
    if u == [] {
    } else {
      SumMonotone(u[1..], v[1..]);
    }
  }

  /** Summing an affine image of a vector. */
  lemma {:induction false} SumAffine(u: seq<real>, v: seq<real>, a: real, b: real)
    requires |u| == |v|
    requires forall i :: 0 <= i < |u| ==> u[i] == a + b * v[i]
    ensures Sum(u) == a * (|u| as real) + b * Sum(v)
  {
    if u == [] {
    } else {
      SumAffine(u[1..], v[1..], a, b);
    }
  }

  lemma SumConstant(v: seq<real>, c: real)
    requires forall i :: 0 <= i < |v| ==> v[i] == c
    ensures Sum(v) == c * (|v| as real)
  {
  }

  lemma NormNonnegative(v: seq<real>)
    ensures 0.0 <= Norm(v)
  {
    var zero := seq(|v|, i => 0.0);
    SumConstant(zero, 0.0);
    SumMonotone(zero, seq(|v|, i requires 0 <= i < |v| => Abs(v[i])));
  }

  lemma NormOfNonnegative(v: seq<real>)
    requires forall i :: 0 <= i < |v| ==> 0.0 <= v[i]
    ensures Norm(v) == Sum(v)
  {
    assert seq(|v|, i requires 0 <= i < |v| => Abs(v[i])) == v;
  }

  lemma DistAtMostMasses(u: seq<real>, v: seq<real>)
    requires |u| == |v|
    requires forall i :: 0 <= i < |u| ==> 0.0 <= u[i] && 0.0 <= v[i]
    ensures Dist(u, v) <= Sum(u) + Sum(v)
  {
    var w := Minus(u, v);
    var both := seq(|u|, i requires 0 <= i < |u| => u[i] + v[i]);
    SumMonotone(seq(|w|, i requires 0 <= i < |w| => Abs(w[i])), both);
    SumPointwise(u, v, both);
  }

  lemma {:induction false} SumPointwise(u: seq<real>, v: seq<real>, w: seq<real>)
    requires |u| == |v| == |w|
    requires forall i :: 0 <= i < |u| ==> w[i] == u[i] + v[i]
    ensures Sum(w) == Sum(u) + Sum(v)
  {
    if u == [] {
    } else {
      SumPointwise(u[1..], v[1..], w[1..]);
    }
  }

  lemma {:induction false} ZeroNormIsZero(v: seq<real>)
    requires Norm(v) <= 0.0
    ensures forall i :: 0 <= i < |v| ==> v[i] == 0.0
  {
    forall i | 0 <= i < |v|
      ensures v[i] == 0.0
    {
      var a := seq(|v|, k requires 0 <= k < |v| => Abs(v[k]));
      SumUpdate(a, i, 0.0);
      var zero := seq(|v|, k => 0.0);
      SumConstant(zero, 0.0);
      SumMonotone(zero, a[i := 0.0]);
    }
  }

  // --- sums over sets

  ghost function SumOver<K(!new)>(s: set<K>, f: K -> real): real {
    if s == {} then 0.0 else
      var k :| k in s;
      f(k) + SumOver(s - {k}, f)
  }

  /** The order in which a set is summed does not matter. */
  lemma {:induction false} SumOverPick<K(!new)>(s: set<K>, f: K -> real, k: K)
    requires k in s
    ensures SumOver(s, f) == f(k) + SumOver(s - {k}, f)
    decreases |s|
  {
    var first :| first in s && SumOver(s, f) == f(first) + SumOver(s - {first}, f);
    if first != k {
      SumOverPick(s - {first}, f, k);
      SumOverPick(s - {k}, f, first);
      assert s - {first} - {k} == s - {k} - {first};
    }
  }

  lemma {:induction false} SumOverAgree<K(!new)>(s: set<K>, f: K -> real, g: K -> real)
    requires forall k :: k in s ==> f(k) == g(k)
    ensures SumOver(s, f) == SumOver(s, g)
    decreases |s|
  {
    if s == {} {
    } else {
      var k :| k in s;
      SumOverPick(s, f, k);
      SumOverPick(s, g, k);
      SumOverAgree(s - {k}, f, g);
    }
  }

  lemma {:induction false} SumOverMonotone<K(!new)>(s: set<K>, f: K -> real, g: K -> real)
    requires forall k :: k in s ==> f(k) <= g(k)
    ensures SumOver(s, f) <= SumOver(s, g)
    decreases |s|
  {
    if s == {} {
    } else {
      var k :| k in s;
      SumOverPick(s, f, k);
      SumOverPick(s, g, k);
      SumOverMonotone(s - {k}, f, g);
    }
  }

  /** Changing one term of a sum over a set. */
  lemma SumOverChange<K(!new)>(s: set<K>, f: K -> real, g: K -> real, k: K)
    requires k in s
    requires forall x :: x in s && x != k ==> f(x) == g(x)
    ensures SumOver(s, g) == SumOver(s, f) - f(k) + g(k)
  {
    SumOverPick(s, f, k);
    SumOverPick(s, g, k);
    SumOverAgree(s - {k}, f, g);
  }

  function Times(c: real, x: real): real {
    c * x
  }

  lemma {:induction false} SumOverScale<K(!new)>(s: set<K>, f: K -> real, g: K -> real, c: real)
    requires forall k :: k in s ==> g(k) == Times(c, f(k))
    ensures SumOver(s, g) == Times(c, SumOver(s, f))
    decreases |s|
  {
    if s == {} {
    } else {
      var k :| k in s;
      SumOverPick(s, f, k);
      SumOverPick(s, g, k);
      SumOverScale(s - {k}, f, g, c);
      TimesDistributes(c, f(k), SumOver(s - {k}, f));
    }
  }

  lemma TimesDistributes(c: real, x: real, y: real)
    ensures Times(c, x + y) == Times(c, x) + Times(c, y)
  {
  }

  // --- powers

  function Power(x: real, k: nat): real {
    if k == 0 then 1.0 else x * Power(x, k - 1)
  }

  lemma {:induction false} PowerAdds(x: real, j: nat, k: nat)
    ensures Power(x, j + k) == Power(x, j) * Power(x, k)
  {
    if j == 0 {
    } else {
      PowerAdds(x, j - 1, k);
      ProductAssociates(x, Power(x, j - 1), Power(x, k));
    }
  }

  lemma ProductAssociates(x: real, y: real, z: real)
    ensures x * (y * z) == (x * y) * z
  {
  }
}
