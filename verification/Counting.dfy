/** Natural-number totals of a measure over a sequence. */
module Counting {

  ghost function Tally<T(!new)>(s: seq<T>, f: T -> nat): nat {
    if s == [] then 0 else Tally(s[..|s| - 1], f) + f(s[|s| - 1])
  }

  lemma TallySnoc<T(!new)>(s: seq<T>, x: T, f: T -> nat)
    ensures Tally(s + [x], f) == Tally(s, f) + f(x)
  {
  }

  lemma {:induction false} TallyAppend<T(!new)>(a: seq<T>, b: seq<T>, f: T -> nat)
    ensures Tally(a + b, f) == Tally(a, f) + Tally(b, f)
  {
    if b == [] {
      assert a + b == a;
    } else {
      var front, last := b[..|b| - 1], b[|b| - 1];
      assert a + b == (a + front) + [last];
      TallySnoc(a + front, last, f);
      TallyAppend(a, front, f);
    }
  }

  lemma {:induction false} TallyUpdate<T(!new)>(s: seq<T>, i: nat, x: T, f: T -> nat)
    requires i < |s|
    ensures Tally(s[i := x], f) + f(s[i]) == Tally(s, f) + f(x)
  {
    if i == |s| - 1 {
      assert s[i := x][..|s| - 1] == s[..|s| - 1];
    } else {
      assert s[i := x][..|s| - 1] == s[..|s| - 1][i := x];
      TallyUpdate(s[..|s| - 1], i, x, f);
    }
  }

  lemma {:induction false} TallyAtMost<T(!new)>(s: seq<T>, f: T -> nat, g: T -> nat)
    requires forall i :: 0 <= i < |s| ==> f(s[i]) <= g(s[i])
    ensures Tally(s, f) <= Tally(s, g)
  {
    if s == [] {
    } else {
      TallyAtMost(s[..|s| - 1], f, g);
    }
  }

  lemma {:induction false} TallySum<T(!new)>(s: seq<T>, f: T -> nat, g: T -> nat, h: T -> nat)
    requires forall i :: 0 <= i < |s| ==> h(s[i]) == f(s[i]) + g(s[i])
    ensures Tally(s, h) == Tally(s, f) + Tally(s, g)
  {
    if s == [] {
    } else {
      TallySum(s[..|s| - 1], f, g, h);
    }
  }

  lemma {:induction false} TallyZero<T(!new)>(s: seq<T>, f: T -> nat)
    requires forall i :: 0 <= i < |s| ==> f(s[i]) == 0
    ensures Tally(s, f) == 0
  {
    if s == [] {
    } else {
      TallyZero(s[..|s| - 1], f);
    }
  }

  lemma {:induction false} TallyPointwise<A(!new), B(!new)>(a: seq<A>, f: A -> nat, b: seq<B>, g: B -> nat)
    requires |a| == |b| && forall i :: 0 <= i < |a| ==> f(a[i]) == g(b[i])
    ensures Tally(a, f) == Tally(b, g)
  {
    if a == [] {
    } else {
      TallyPointwise(a[..|a| - 1], f, b[..|b| - 1], g);
    }
  }

  lemma {:induction false} TallyMember<T(!new)>(s: seq<T>, i: nat, f: T -> nat)
    requires i < |s|
    ensures f(s[i]) <= Tally(s, f)
  {
    if i == |s| - 1 {
    } else {
      TallyMember(s[..|s| - 1], i, f);
    }
  }

  lemma {:induction false} TallyOnes<T(!new)>(s: seq<T>, f: T -> nat)
    requires forall i :: 0 <= i < |s| ==> f(s[i]) == 1
    ensures Tally(s, f) == |s|
  {
    if s == [] {
    } else {
      TallyOnes(s[..|s| - 1], f);
    }
  }

  lemma {:induction false} TallyWitness<T(!new)>(s: seq<T>, f: T -> nat) returns (i: nat)
    requires Tally(s, f) > 0
    ensures i < |s| && f(s[i]) > 0
  {
    if f(s[|s| - 1]) > 0 {
      i := |s| - 1;
    } else {
      i := TallyWitness(s[..|s| - 1], f);
    }
  }

  /** The sum of a sequence of naturals. */
  ghost function SumN(s: seq<nat>): nat {
    Tally(s, (x: nat) => x)
  }

  lemma SumToBack(s: seq<nat>, n: nat)
    requires n < |s|
    ensures SumN(s[..n + 1]) == SumN(s[..n]) + s[n]
  {
    assert s[..n + 1] == s[..n] + [s[n]];
    TallySnoc(s[..n], s[n], (x: nat) => x);
  }
}
