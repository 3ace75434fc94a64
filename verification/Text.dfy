/** The string operations of the Go standard library the program relies on. */
module Text {

  /** The characters with Unicode's White_Space property. */
  predicate IsSpace(c: char) {
    || c == ' ' || '\U{0009}' <= c <= '\U{000D}'
    || c == '\U{0085}' || c == '\U{00A0}' || c == '\U{1680}' || '\U{2000}' <= c <= '\U{200A}'
    || c == '\U{2028}' || c == '\U{2029}' || c == '\U{202F}' || c == '\U{205F}' || c == '\U{3000}'
  }

  function TrimLeft(s: string): string {
    if s != [] && IsSpace(s[0]) then TrimLeft(s[1..]) else s
  }

  function TrimRight(s: string): string {
    if s != [] && IsSpace(s[|s| - 1]) then TrimRight(s[..|s| - 1]) else s
  }

  function TrimSpace(s: string): string {
    TrimRight(TrimLeft(s))
  }

  predicate Trimmed(s: string) {
    s != [] ==> !IsSpace(s[0]) && !IsSpace(s[|s| - 1])
  }

  lemma {:induction false} TrimLeftFacts(s: string)
    ensures var t := TrimLeft(s);
      && |t| <= |s| && t == s[|s| - |t|..]
      && (t == [] || !IsSpace(t[0]))
      && forall k :: 0 <= k < |s| - |t| ==> IsSpace(s[k])
  {
    if s == [] || !IsSpace(s[0]) {
    } else {
      TrimLeftFacts(s[1..]);
      var t := TrimLeft(s);
      forall k | 0 <= k < |s| - |t|
        ensures IsSpace(s[k])
      {
        if k > 0 { assert s[k] == s[1..][k - 1]; }
      }
    }
  }

  lemma {:induction false} TrimRightFacts(s: string)
    ensures var t := TrimRight(s);
      && |t| <= |s| && t == s[..|t|]
      && (t == [] || !IsSpace(t[|t| - 1]))
      && forall k :: |t| <= k < |s| ==> IsSpace(s[k])
  {
    if s == [] || !IsSpace(s[|s| - 1]) {
    } else {
      TrimRightFacts(s[..|s| - 1]);
      var t := TrimRight(s);
      forall k | |t| <= k < |s|
        ensures IsSpace(s[k])
      {
        if k < |s| - 1 { assert s[k] == s[..|s| - 1][k]; }
      }
    }
  }

  lemma TrimSpaceTrims(s: string)
    ensures Trimmed(TrimSpace(s))
    ensures |TrimSpace(s)| <= |s|
  {
    TrimLeftFacts(s);
    TrimRightFacts(TrimLeft(s));
  }

  lemma TrimmedIsFixed(s: string)
    requires Trimmed(s)
    ensures TrimSpace(s) == s
  {
  }

  /** Trimming takes away the spaces on either side, and nothing else. */
  lemma TrimSpaceStrips(left: string, s: string, right: string)
    requires Trimmed(s) && (forall c :: c in left + right ==> IsSpace(c))
    ensures TrimSpace(left + s + right) == s
  {
    TrimLeftStrips(left, s + right);
    assert left + s + right == left + (s + right);
    if s == "" {
      TrimLeftStrips(right, "");
      assert right + "" == right == s + right;
    } else {
      assert TrimLeft(s + right) == s + right;
      TrimRightStrips(s, right);
    }
  }

  lemma {:induction false} TrimLeftStrips(left: string, s: string)
    requires forall c :: c in left ==> IsSpace(c)
    ensures TrimLeft(left + s) == TrimLeft(s)
  {
    if left == [] {
      assert left + s == s;
    } else {
      assert (left + s)[1..] == left[1..] + s;
      TrimLeftStrips(left[1..], s);
    }
  }

  lemma {:induction false} TrimRightStrips(s: string, right: string)
    requires forall c :: c in right ==> IsSpace(c)
    ensures TrimRight(s + right) == TrimRight(s)
  {
    if right == [] {
      assert s + right == s;
    } else {
      var n := |right| - 1;
      assert (s + right)[..|s| + n] == s + right[..n];
      TrimRightStrips(s, right[..n]);
    }
  }

  /** The white space taken away: tabs and line ends, blanks of every width, U+0085. */
  lemma WhiteSpaceIs(c: char)
    ensures IsSpace(c) <==>
      c as int in {9, 10, 11, 12, 13, 32, 133, 160, 5760, 8232, 8233, 8239, 8287, 12288} || 8192 <= c as int <= 8202
  {
  }

  /** Trimming neither invents a character nor loses one that is not a space. */
  lemma TrimKeeps(s: string, c: char)
    requires !IsSpace(c)
    ensures c in TrimSpace(s) <==> c in s
  {
    TrimLeftKeeps(s, c);
    TrimRightKeeps(TrimLeft(s), c);
  }

  lemma TrimLeftKeeps(s: string, c: char)
    requires !IsSpace(c)
    ensures c in TrimLeft(s) <==> c in s
  {
    TrimLeftFacts(s);
    var t := TrimLeft(s);
    assert s == s[..|s| - |t|] + t;
  }

  lemma TrimRightKeeps(s: string, c: char)
    requires !IsSpace(c)
    ensures c in TrimRight(s) <==> c in s
  {
    TrimRightFacts(s);
    var t := TrimRight(s);
    assert s == t + s[|t|..];
  }

  lemma {:induction false} TrimLeftStops(p: string, a: char, x: string)
    requires !IsSpace(a)
    ensures TrimLeft(p + [a] + x) == TrimLeft(p) + [a] + x
  {
    var u := p + [a] + x;
    if p == [] {
      assert u[0] == a;
    } else if IsSpace(p[0]) {
      assert u[1..] == p[1..] + [a] + x;
      TrimLeftStops(p[1..], a, x);
    } else {
      assert u[0] == p[0];
    }
  }

  /** Trimming never reaches past a character that is not a space. */
  lemma TrimShows(p: string, a: char, x: string)
    requires !IsSpace(a)
    ensures |TrimSpace(p + [a] + x)| > |TrimLeft(p)| && TrimSpace(p + [a] + x)[|TrimLeft(p)|] == a
  {
    TrimLeftStops(p, a, x);
    var u := TrimLeft(p) + [a] + x;
    TrimRightFacts(u);
    assert u[|TrimLeft(p)|] == a;
  }

  function Upper(c: char): char {
    if 'a' <= c <= 'z' then 'A' + (c - 'a') else c
  }

  function ToUpper(s: string): string {
    seq(|s|, i requires 0 <= i < |s| => Upper(s[i]))
  }

  function Lower(c: char): char {
    if 'A' <= c <= 'Z' then 'a' + (c - 'A') else c
  }

  function ToLower(s: string): string {
    seq(|s|, i requires 0 <= i < |s| => Lower(s[i]))
  }

  // --- decimal numerals

  predicate IsDigit(c: char) {
    '0' <= c <= '9'
  }

  function Digit(n: nat): (c: char)
    requires n < 10
    ensures IsDigit(c)
  {
    '0' + n as char
  }

  predicate AllDigits(s: string) {
    forall k :: 0 <= k < |s| ==> IsDigit(s[k])
  }

  function Itoa(n: nat): (s: string)
    ensures s != [] && AllDigits(s)
  {
    if n < 10 then [Digit(n)] else Itoa(n / 10) + [Digit(n % 10)]
  }

  function Value(s: string): nat
    requires AllDigits(s)
  {
    if s == [] then 0 else
      assert IsDigit(s[|s| - 1]);
      Value(s[..|s| - 1]) * 10 + (s[|s| - 1] - '0') as nat
  }

  lemma {:induction false} ItoaReadsBack(n: nat)
    ensures Value(Itoa(n)) == n
  {
    if n >= 10 {
      ItoaReadsBack(n / 10);
      assert Itoa(n)[..|Itoa(n)| - 1] == Itoa(n / 10);
    } else {
      assert Itoa(n)[..0] == [];
    }
  }

  lemma ItoaInjective(a: nat, b: nat)
    requires Itoa(a) == Itoa(b)
    ensures a == b
  {
    ItoaReadsBack(a);
    ItoaReadsBack(b);
  }
}
