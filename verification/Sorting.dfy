/** The library sorts the program calls: any rearrangement that is ordered by the given relation. */
module Sorting {

  ghost predicate TotalPreorder<T(!new)>(leq: (T, T) -> bool) {
    && (forall x, y :: leq(x, y) || leq(y, x))
    && (forall x, y, z :: leq(x, y) && leq(y, z) ==> leq(x, z))
  }

  ghost predicate SortedBy<T(!new)>(leq: (T, T) -> bool, s: seq<T>) {
    forall i, j :: 0 <= i < j < |s| ==> leq(s[i], s[j])
  }

  method Sort<T(!new)>(s: seq<T>, leq: (T, T) -> bool) returns (r: seq<T>)
    requires TotalPreorder(leq)
    ensures multiset(r) == multiset(s)
    ensures SortedBy(leq, r)
  {
    r := [];
    for k := 0 to |s|
      invariant multiset(r) == multiset(s[..k])
      invariant SortedBy(leq, r)
    {
      r := Insert(r, s[k], leq);
      assert s[..k + 1] == s[..k] + [s[k]];
    }
    assert s[..|s|] == s;
  }

  method Insert<T(!new)>(s: seq<T>, x: T, leq: (T, T) -> bool) returns (r: seq<T>)
    requires TotalPreorder(leq)
    requires SortedBy(leq, s)
    ensures multiset(r) == multiset(s) + multiset{x}
    ensures SortedBy(leq, r)
  {
    var i := |s|;
    while i > 0 && !leq(s[i - 1], x)
      invariant 0 <= i <= |s|
      invariant forall k :: i <= k < |s| ==> leq(x, s[k])
    {
      i := i - 1;
    }
    r := s[..i] + [x] + s[i..];
    InsertKeepsOrder(s, i, x, leq);
    assert s == s[..i] + s[i..];
  }

  lemma InsertKeepsOrder<T(!new)>(s: seq<T>, i: nat, x: T, leq: (T, T) -> bool)
    requires TotalPreorder(leq) && SortedBy(leq, s)
    requires i <= |s| && (i > 0 ==> leq(s[i - 1], x))
    requires forall k :: i <= k < |s| ==> leq(x, s[k])
    ensures SortedBy(leq, s[..i] + [x] + s[i..])
  {
  }

  lemma SameElements<T(!new)>(a: seq<T>, b: seq<T>)
    requires multiset(a) == multiset(b)
    ensures |a| == |b|
    ensures forall x :: x in a <==> x in b
  {
    assert |multiset(a)| == |a| && |multiset(b)| == |b|;
    assert forall x :: x in a <==> x in multiset(a);
    assert forall x :: x in b <==> x in multiset(b);
  }

  ghost predicate NoDuplicates<T(!new)>(s: seq<T>) {
    forall i, j :: 0 <= i < j < |s| ==> s[i] != s[j]
  }

  lemma {:induction false} NoDuplicatesAsMultiset<T(!new)>(s: seq<T>)
    ensures NoDuplicates(s) <==> forall x :: multiset(s)[x] <= 1
  {
    if s == [] {
    } else {
      var rest := s[1..];
      NoDuplicatesAsMultiset(rest);
      assert s == [s[0]] + rest;
      assert multiset(s) == multiset{s[0]} + multiset(rest);
      if NoDuplicates(s) {
        assert NoDuplicates(rest);
        assert s[0] !in rest;
        assert multiset(rest)[s[0]] == 0;
      }
      if forall x :: multiset(s)[x] <= 1 {
        assert forall x :: multiset(rest)[x] <= multiset(s)[x];
        assert multiset(s)[s[0]] <= 1;
        assert s[0] !in multiset(rest);
        assert s[0] !in rest;
        forall i, j | 0 <= i < j < |s|
          ensures s[i] != s[j]
        {
          assert s[j] == rest[j - 1];
          if i > 0 { assert s[i] == rest[i - 1]; }
        }
      }
    }
  }

  lemma RearrangedNoDuplicates<T(!new)>(a: seq<T>, b: seq<T>)
    requires multiset(a) == multiset(b)
    requires NoDuplicates(a)
    ensures NoDuplicates(b)
  {
    NoDuplicatesAsMultiset(a);
    NoDuplicatesAsMultiset(b);
  }

  lemma {:induction false} DistinctCount<T(!new)>(s: seq<T>)
    requires NoDuplicates(s)
    ensures |set x | x in s| == |s|
  {
    if s == [] {
    } else {
      var rest := s[1..];
      assert NoDuplicates(rest);
      DistinctCount(rest);
      assert s[0] !in rest;
      assert (set x | x in s) == (set x | x in rest) + {s[0]};
    }
  }

  lemma {:induction false} SubsetSize<T(!new)>(a: set<T>, b: set<T>)
    requires a <= b
    ensures |a| <= |b|
  {
    if a == {} {
    } else {
      var x :| x in a;
      SubsetSize(a - {x}, b - {x});
    }
  }

  lemma NoDuplicatesAppend<T(!new)>(a: seq<T>, b: seq<T>)
    requires NoDuplicates(a) && NoDuplicates(b)
    requires forall x :: x in a ==> x !in b
    ensures NoDuplicates(a + b)
  {
    forall i, j | 0 <= i < j < |a + b|
      ensures (a + b)[i] != (a + b)[j]
    {
      if i < |a| <= j {
        assert (a + b)[i] in a && (a + b)[j] in b;
      }
    }
  }

  /** A sum of one measure over the elements of a sequence. */
  ghost function Total<T(!new)>(s: seq<T>, f: T -> real): real {
    if s == [] then 0.0 else f(s[0]) + Total(s[1..], f)
  }

  lemma {:induction false} TotalAppend<T(!new)>(a: seq<T>, b: seq<T>, f: T -> real)
    ensures Total(a + b, f) == Total(a, f) + Total(b, f)
  {
    if a == [] {
      assert a + b == b;
    } else {
      assert (a + b)[1..] == a[1..] + b;
      TotalAppend(a[1..], b, f);
    }
  }

  lemma TotalWithout<T(!new)>(b: seq<T>, i: nat, f: T -> real)
    requires i < |b|
    ensures Total(b, f) == f(b[i]) + Total(b[..i] + b[i + 1..], f)
  {
    assert b == b[..i] + ([b[i]] + b[i + 1..]);
    TotalAppend(b[..i], [b[i]] + b[i + 1..], f);
    TotalAppend(b[..i], b[i + 1..], f);
    assert ([b[i]] + b[i + 1..])[1..] == b[i + 1..];
  }

  lemma WithoutSame<T(!new)>(a: seq<T>, b: seq<T>, i: nat)
    requires multiset(a) == multiset(b)
    requires a != [] && i < |b| && b[i] == a[0]
    ensures multiset(a[1..]) == multiset(b[..i] + b[i + 1..])
  {
    assert a == [a[0]] + a[1..];
    assert b == b[..i] + [b[i]] + b[i + 1..];
    var rest := b[..i] + b[i + 1..];
    assert multiset(a) == multiset{a[0]} + multiset(a[1..]);
    assert multiset(b) == multiset{b[i]} + multiset(rest);
    assert multiset(a[1..]) == multiset(a) - multiset{a[0]};
    assert multiset(rest) == multiset(b) - multiset{a[0]};
  }

  lemma {:induction false} TotalIsOrderFree<T(!new)>(a: seq<T>, b: seq<T>, f: T -> real)
    requires multiset(a) == multiset(b)
    ensures Total(a, f) == Total(b, f)
  {
    SameElements(a, b);
    if a == [] {
    } else {
      assert a[0] in b;
      var i :| 0 <= i < |b| && b[i] == a[0];
      WithoutSame(a, b, i);
      TotalIsOrderFree(a[1..], b[..i] + b[i + 1..], f);
      TotalWithout(b, i, f);
    }
  }

  // --- the order of strings

  predicate LexLeq(a: string, b: string) {
    a == [] || (b != [] && (a[0] < b[0] || (a[0] == b[0] && LexLeq(a[1..], b[1..]))))
  }

  lemma {:induction false} LexTotal(a: string, b: string)
    ensures LexLeq(a, b) || LexLeq(b, a)
    ensures LexLeq(a, b) && LexLeq(b, a) ==> a == b
  {
    if a != [] && b != [] && a[0] == b[0] {
      LexTotal(a[1..], b[1..]);
      assert a == [a[0]] + a[1..] && b == [b[0]] + b[1..];
    }
  }

  lemma {:induction false} LexTransitive(a: string, b: string, c: string)
    requires LexLeq(a, b) && LexLeq(b, c)
    ensures LexLeq(a, c)
  {
    if a != [] && a[0] == b[0] && b[0] == c[0] {
      LexTransitive(a[1..], b[1..], c[1..]);
    }
  }

  lemma LexIsTotalPreorder()
    ensures TotalPreorder(LexLeq)
  {
    forall x, y
      ensures LexLeq(x, y) || LexLeq(y, x)
    {
      LexTotal(x, y);
    }
    forall x, y, z | LexLeq(x, y) && LexLeq(y, z)
      ensures LexLeq(x, z)
    {
      LexTransitive(x, y, z);
    }
  }

  /** The shorter of two texts that agree, or the one with the smaller character at the first difference. */
  ghost predicate ComesFirst(a: string, b: string) {
    || (|a| <= |b| && a == b[..|a|])
    || exists k: nat :: k < |a| && k < |b| && a[..k] == b[..k] && a[k] < b[k]
  }

  /** The order names are sorted in is the dictionary order by character code. */
  lemma {:induction false} LexLeqIsDictionaryOrder(a: string, b: string)
    ensures LexLeq(a, b) <==> ComesFirst(a, b)
  {
    if a == [] || b == [] {
    } else if a[0] != b[0] {
      assert a[..0] == b[..0];
    } else {
      LexLeqIsDictionaryOrder(a[1..], b[1..]);
      FirstAlike(a, b);
    }
  }

  lemma FirstAlike(a: string, b: string)
    requires a != [] && b != [] && a[0] == b[0]
    ensures ComesFirst(a, b) <==> ComesFirst(a[1..], b[1..])
  {
    forall k: nat | k < |a| && k < |b|
      ensures a[..k] == b[..k] <==> (k == 0 || a[1..][..k - 1] == b[1..][..k - 1])
    {
      assert k > 0 ==> a[..k] == [a[0]] + a[1..][..k - 1] && b[..k] == [b[0]] + b[1..][..k - 1];
    }
    if |a| <= |b| {
      assert a == [a[0]] + a[1..] && b[..|a|] == [b[0]] + b[1..][..|a| - 1];
    }
    if ComesFirst(a[1..], b[1..]) && !(|a| <= |b| && a[1..] == b[1..][..|a| - 1]) {
      var k: nat :| k < |a| - 1 && k < |b| - 1 && a[1..][..k] == b[1..][..k] && a[1..][k] < b[1..][k];
      assert a[..k + 1] == b[..k + 1] && a[k + 1] < b[k + 1];
    }
    if ComesFirst(a, b) && !(|a| <= |b| && a == b[..|a|]) {
      var k: nat :| k < |a| && k < |b| && a[..k] == b[..k] && a[k] < b[k];
      assert a[1..][..k - 1] == b[1..][..k - 1] && a[1..][k - 1] < b[1..][k - 1];
    }
  }

  ghost predicate Enumerates(ids: seq<string>, s: set<string>) {
    NoDuplicates(ids) && forall id :: id in ids <==> id in s
  }

  /** The elements of a set of names, sorted. */
  method SortedIds(s: set<string>) returns (ids: seq<string>)
    ensures Enumerates(ids, s) && SortedBy(LexLeq, ids)
  {
    var list: seq<string> := [];
    var rest := s;
    while rest != {}
      invariant rest <= s
      invariant Enumerates(list, s - rest)
      decreases rest
    {
      var x :| x in rest;
      assert x !in list;
      list := list + [x];
      rest := rest - {x};
    }
    LexIsTotalPreorder();
    ids := Sort(list, LexLeq);
    SameElements(list, ids);
    RearrangedNoDuplicates(list, ids);
  }
}
