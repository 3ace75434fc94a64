/** Why the equation behind a ranking has a solution: x = b + Q x, for a nonnegative matrix whose columns leak,
    solved by eliminating one unknown after another. */
module LinearSystem {
  import opened Sums

  /** Entry (j, i) is what unknown i contributes to unknown j. */
  type Matrix = (nat, nat) -> real

  ghost function Upto(f: nat -> real, n: nat): real {
    if n == 0 then 0.0 else Upto(f, n - 1) + f(n - 1)
  }

  lemma {:induction false} UptoCombine(f: nat -> real, g: nat -> real, h: nat -> real, c: real, n: nat)
    requires forall i: nat :: i < n ==> h(i) == f(i) + Times(c, g(i))
    ensures Upto(h, n) == Upto(f, n) + Times(c, Upto(g, n))
  {
    if n == 0 {
    } else {
      UptoCombine(f, g, h, c, n - 1);
      TimesDistributes(c, Upto(g, n - 1), g(n - 1));
    }
  }

  /** Changing one term of a sum. */
  lemma {:induction false} UptoChange(f: nat -> real, h: nat -> real, k: nat, n: nat)
    requires k < n && forall i: nat :: i < n && i != k ==> h(i) == f(i)
    ensures Upto(h, n) == Upto(f, n) - f(k) + h(k)
  {
    if k < n - 1 {
      UptoChange(f, h, k, n - 1);
    } else {
      UptoAgree(f, h, n - 1);
    }
  }

  lemma {:induction false} UptoAgree(f: nat -> real, h: nat -> real, n: nat)
    requires forall i: nat :: i < n ==> h(i) == f(i)
    ensures Upto(h, n) == Upto(f, n)
  {
    if n == 0 {
    } else {
      UptoAgree(f, h, n - 1);
    }
  }

  lemma {:induction false} UptoNonnegative(f: nat -> real, n: nat)
    requires forall i: nat :: i < n ==> 0.0 <= f(i)
    ensures 0.0 <= Upto(f, n)
    ensures n > 0 ==> f(n - 1) <= Upto(f, n)
  {
    if n == 0 {
    } else {
      UptoNonnegative(f, n - 1);
    }
  }

  ghost function Column(q: Matrix, i: nat): nat -> real {
    (j: nat) => q(j, i)
  }

  ghost function Row(q: Matrix, x: seq<real>, j: nat): nat -> real {
    (i: nat) => if i < |x| then Times(q(j, i), x[i]) else 0.0
  }

  /** Every entry is nonnegative and every unknown passes on less than itself. */
  ghost predicate Leaky(q: Matrix, n: nat) {
    && (forall i: nat, j: nat :: i < n && j < n ==> 0.0 <= q(j, i))
    && forall i: nat :: i < n ==> Upto(Column(q, i), n) < 1.0
  }

  ghost predicate Solves(q: Matrix, b: nat -> real, x: seq<real>) {
    forall j: nat :: j < |x| ==> x[j] == b(j) + Upto(Row(q, x, j), |x|)
  }

  // --- eliminating unknown m

  /** How much of unknown m's own input reaches unknown j, after any number of turns at m. */
  ghost function Share(q: Matrix, m: nat): nat -> real {
    (j: nat) => if q(m, m) < 1.0 then q(j, m) / (1.0 - q(m, m)) else 0.0
  }

  ghost function Reduced(q: Matrix, m: nat): Matrix {
    (j: nat, i: nat) => q(j, i) + Times(Share(q, m)(j), q(m, i))
  }

  ghost function ReducedInput(q: Matrix, b: nat -> real, m: nat): nat -> real {
    (j: nat) => b(j) + Times(Share(q, m)(j), b(m))
  }

  lemma ShareFacts(q: Matrix, m: nat, j: nat)
    requires Leaky(q, m + 1) && j <= m
    ensures q(m, m) < 1.0 && Times(1.0 - q(m, m), Share(q, m)(j)) == q(j, m) && 0.0 <= Share(q, m)(j)
  {
    UptoNonnegative(Column(q, m), m + 1);
    QuotientFacts(q(j, m), 1.0 - q(m, m));
  }

  lemma QuotientFacts(x: real, y: real)
    requires 0.0 <= x && 0.0 < y
    ensures Times(y, x / y) == x && 0.0 <= x / y
  {
  }

  lemma TimesNonnegative(x: real, y: real)
    requires 0.0 <= x && 0.0 <= y
    ensures 0.0 <= Times(x, y)
  {
  }

  lemma AtMostOne(y: real, s: real)
    requires 0.0 < y && Times(y, s) <= y
    ensures s <= 1.0
  {
  }

  /** The shares of unknown m add up to at most one. */
  lemma SharesAtMostOne(q: Matrix, m: nat)
    requires Leaky(q, m + 1)
    ensures q(m, m) < 1.0 && Upto(Share(q, m), m) <= 1.0
  {
    ShareFacts(q, m, m);
    var y := 1.0 - q(m, m);
    forall j: nat | j < m
      ensures Column(q, m)(j) == 0.0 + Times(y, Share(q, m)(j))
    {
      ShareFacts(q, m, j);
    }
    var zero: nat -> real := j => 0.0;
    UptoCombine(zero, Share(q, m), Column(q, m), y, m);
    UptoZero(zero, m);
    AtMostOne(y, Upto(Share(q, m), m));
  }

  lemma {:induction false} UptoZero(f: nat -> real, n: nat)
    requires forall i: nat :: i < n ==> f(i) == 0.0
    ensures Upto(f, n) == 0.0
  {
    if n == 0 {
    } else {
      UptoZero(f, n - 1);
    }
  }

  lemma ReducedIsLeaky(q: Matrix, m: nat)
    requires Leaky(q, m + 1)
    ensures Leaky(Reduced(q, m), m)
  {
    forall i: nat, j: nat | i < m && j < m
      ensures 0.0 <= Reduced(q, m)(j, i)
    {
      ShareFacts(q, m, j);
      TimesNonnegative(Share(q, m)(j), q(m, i));
    }
    SharesAtMostOne(q, m);
    forall i: nat | i < m
      ensures Upto(Column(Reduced(q, m), i), m) < 1.0
    {
      var c, total := q(m, i), Upto(Share(q, m), m);
      UptoCombine(Column(q, i), Share(q, m), Column(Reduced(q, m), i), c, m);
      TimesNonnegative(c, 1.0 - total);
      assert Upto(Column(q, i), m + 1) == Upto(Column(q, i), m) + c;
      assert Times(c, total) <= c;
    }
  }

  /** The last unknown, once the others are known. */
  ghost function LastUnknown(q: Matrix, b: nat -> real, rest: seq<real>): real {
    var m := |rest|;
    if q(m, m) < 1.0 then (b(m) + Upto(Row(q, rest, m), m)) / (1.0 - q(m, m)) else 0.0
  }

  lemma {:induction false} Solution(n: nat, q: Matrix, b: nat -> real) returns (x: seq<real>)
    requires Leaky(q, n) && forall j: nat :: j < n ==> 0.0 <= b(j)
    ensures |x| == n && Solves(q, b, x)
    ensures forall j: nat :: j < n ==> b(j) <= x[j]
    decreases n
  {
    if n == 0 {
      x := [];
    } else {
      var m := n - 1;
      ReducedIsLeaky(q, m);
      forall j: nat | j < m
        ensures b(j) <= ReducedInput(q, b, m)(j)
      {
        ShareFacts(q, m, j);
        TimesNonnegative(Share(q, m)(j), b(m));
      }
      var rest := Solution(m, Reduced(q, m), ReducedInput(q, b, m));
      var last := LastUnknown(q, b, rest);
      LastFacts(q, b, rest);
      x := rest + [last];
      forall j: nat | j < n
        ensures x[j] == b(j) + Upto(Row(q, x, j), n)
      {
        UptoAgree(Row(q, rest, j), Row(q, x, j), m);
        if j < m { BackSubstituted(q, b, rest, j); }
      }
    }
  }

  lemma LastFacts(q: Matrix, b: nat -> real, rest: seq<real>)
    requires Leaky(q, |rest| + 1) && 0.0 <= b(|rest|)
    requires forall i: nat :: i < |rest| ==> 0.0 <= rest[i]
    ensures var m, last := |rest|, LastUnknown(q, b, rest);
      last == b(m) + Upto(Row(q, rest, m), m) + Times(q(m, m), last) && b(m) <= last
  {
    var m := |rest|;
    ShareFacts(q, m, m);
    forall i: nat | i < m
      ensures 0.0 <= Row(q, rest, m)(i)
    {
      TimesNonnegative(q(m, i), rest[i]);
    }
    UptoNonnegative(Row(q, rest, m), m);
    var input := b(m) + Upto(Row(q, rest, m), m);
    QuotientFacts(input, 1.0 - q(m, m));
    var last := LastUnknown(q, b, rest);
    assert Times(1.0 - q(m, m), last) == last - Times(q(m, m), last);
    TimesNonnegative(q(m, m), last);
  }

  /** An equation of the reduced system is the original one with the last unknown put back. */
  lemma BackSubstituted(q: Matrix, b: nat -> real, rest: seq<real>, j: nat)
    requires Leaky(q, |rest| + 1) && j < |rest|
    requires rest[j] == ReducedInput(q, b, |rest|)(j) + Upto(Row(Reduced(q, |rest|), rest, j), |rest|)
    ensures rest[j] == b(j) + Upto(Row(q, rest, j), |rest|) + Times(q(j, |rest|), LastUnknown(q, b, rest))
  {
    var m := |rest|;
    var c := Share(q, m)(j);
    ShareFacts(q, m, j);
    forall i: nat | i < m
      ensures Row(Reduced(q, m), rest, j)(i) == Row(q, rest, j)(i) + Times(c, Row(q, rest, m)(i))
    {
      ReducedTerm(q(j, i), c, q(m, i), rest[i]);
    }
    UptoCombine(Row(q, rest, j), Row(q, rest, m), Row(Reduced(q, m), rest, j), c, m);
    var input := b(m) + Upto(Row(q, rest, m), m);
    TimesDistributes(c, b(m), Upto(Row(q, rest, m), m));
    ShareOfInput(q(j, m), 1.0 - q(m, m), c, input, LastUnknown(q, b, rest));
  }

  lemma ReducedTerm(a: real, c: real, d: real, x: real)
    ensures Times(a + Times(c, d), x) == Times(a, x) + Times(c, Times(d, x))
  {
  }

  lemma ShareOfInput(a: real, y: real, c: real, input: real, last: real)
    requires 0.0 < y && Times(y, c) == a && last == input / y
    ensures Times(c, input) == Times(a, last)
  {
  }
}
