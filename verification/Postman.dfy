/** The importer's rewriting of Postman's {{variable}} syntax (pkg/generator/postman_importer.go). */
module Postman {
  import opened Text
  import opened Template

  /** What Postman itself means by a text: only {{key}} is a variable. */
  function PostmanTokens(s: string): seq<Token>
    decreases |s|
  {
    if s == [] then []
    else if IsDouble(s) then [Variable(DoubleKey(s))] + PostmanTokens(s[2 + FindDouble(s[2..]) + 2..])
    else [Literal(s[0])] + PostmanTokens(s[1..])
  }

  /** The rewriter prints Postman's tokens in the session's own syntax. */
  method InterpolatePostmanVars(s: string) returns (out: string)
    ensures out == Print(PostmanTokens(s))
  {
    out := "";
    var i := 0;
    ghost var whole := Printed(s, 0);
    assert s[0..] == s;
    while i < |s|
      invariant 0 <= i <= |s|
      invariant whole == out + Printed(s, i)
    {
      var piece, next := RewriteOne(s, i);
      assert out + (piece + Printed(s, next)) == out + piece + Printed(s, next);
      out, i := out + piece, next;
    }
    assert s[i..] == [];
  }

  /** One round of the loop: what to write and where to go on. */
  method RewriteOne(s: string, i: nat) returns (piece: string, next: nat)
    requires i < |s|
    ensures Rewrites(s, i, piece, next)
  {
    if i + 1 < |s| && s[i] == '{' && s[i + 1] == '{' {
      var end := FindDouble(s[i + 2..]);
      if end >= 0 {
        var key := TrimSpace(s[i + 2..i + 2 + end]);
        KeyAt(s, i, end, key);
        return "${" + key + "}", i + 2 + end + 2;
      }
    }
    CharAt(s, i);
    return [s[i]], i + 1;
  }

  /** From position i the rewriting writes `piece` and goes on at `next`. */
  ghost predicate Rewrites(s: string, i: nat, piece: string, next: nat) {
    i < next <= |s| && Printed(s, i) == piece + Printed(s, next)
  }

  ghost function Printed(s: string, i: nat): string
    requires i <= |s|
  {
    Print(PostmanTokens(s[i..]))
  }

  lemma KeyAt(s: string, i: nat, end: int, key: string)
    requires i + 1 < |s| && s[i] == '{' && s[i + 1] == '{'
    requires end == FindDouble(s[i + 2..]) >= 0 && key == TrimSpace(s[i + 2..i + 2 + end])
    ensures Rewrites(s, i, "${" + key + "}", i + 2 + end + 2)
  {
    var rest := s[i..];
    assert rest[2..] == s[i + 2..];
    assert rest[2..2 + end] == s[i + 2..i + 2 + end];
    assert rest[2 + end + 2..] == s[i + 2 + end + 2..];
  }

  lemma CharAt(s: string, i: nat)
    requires i < |s|
    requires i + 1 < |s| && s[i] == '{' && s[i + 1] == '{' ==> FindDouble(s[i + 2..]) < 0
    ensures Rewrites(s, i, [s[i]], i + 1)
  {
  }

  // --- against Postman's own meaning

  /** For every text: the rewritten template means what Postman meant exactly when Postman's tokens can be
      printed, that is, when no key holds a closing brace and no literal, once rewritten, is taken for the
      start of a variable. */
  lemma RewriteKeepsPostmanMeaning(s: string)
    ensures Tokenise(Print(PostmanTokens(s))) == PostmanTokens(s) <==> Printable(PostmanTokens(s))
  {
    PrintReadsBack(PostmanTokens(s));
  }

  // --- against interpolating the unchanged text

  predicate SafeKey(key: string) {
    '}' !in key && (key == [] || key[0] != '.')
  }

  /** Every {{key}} found by the rewriter has a key free of closing braces and of a leading dot. */
  predicate SafeKeys(tokens: seq<Token>) {
    forall i :: 0 <= i < |tokens| ==> tokens[i].Variable? ==> SafeKey(tokens[i].key)
  }

  lemma NoDoubleLater(s: string, n: nat)
    requires FindDouble(s) < 0 && n <= |s|
    ensures FindDouble(s[n..]) < 0
  {
    FindDoubleFinds(s);
    FindDoubleFinds(s[n..]);
    assert forall k {:trigger DoubleAt(s[n..], k)} :: DoubleAt(s[n..], k) ==> DoubleAt(s, n + k);
  }

  lemma {:induction false} UnclosedTextIsPlain(s: string)
    requires FindDouble(s) < 0
    ensures Print(PostmanTokens(s)) == s
  {
    if s == [] {
    } else {
      NoDoubleLater(s, 1);
      if |s| >= 2 { NoDoubleLater(s, 2); }
      UnclosedTextIsPlain(s[1..]);
      assert ([Literal(s[0])] + PostmanTokens(s[1..]))[1..] == PostmanTokens(s[1..]);
    }
  }

  /** The rewritten text. */
  function Imported(s: string): string {
    Print(PostmanTokens(s))
  }

  /** How much of a text its leading ${...} takes up. */
  function RegionLength(s: string): (n: nat)
    requires IsDollar(s)
    ensures 3 <= n <= |s|
  {
    2 + FindBrace(s[2..]) + 1
  }

  ghost predicate NoDoubleBefore(s: string, n: nat)
    requires n <= |s|
  {
    forall j :: 0 <= j < n ==> !IsDouble(s[j..])
  }

  /** Read as a session reads it, the text has no {{...}} starting inside a ${...}, and every other {{key}} has
      a key free of closing braces and of a leading dot. */
  ghost predicate ImportSafe(s: string)
    decreases |s|
  {
    if s == [] then true
    else if IsDollar(s) then NoDoubleBefore(s, RegionLength(s)) && ImportSafe(s[RegionLength(s)..])
    else if IsDouble(s) then SafeKey(DoubleKey(s)) && ImportSafe(s[2 + FindDouble(s[2..]) + 2..])
    else ImportSafe(s[1..])
  }

  /** For every text: interpolating the rewritten text is interpolating the original, token for token, exactly
      when the text is safe. */
  lemma {:induction false} ImportKeepsTokensExactlyWhenSafe(s: string)
    ensures Tokenise(Imported(s)) == Tokenise(s) <==> ImportSafe(s)
    decreases |s|, 1
  {
    if s == [] {
    } else if IsDollar(s) {
      RegionCase(s);
    } else if IsDouble(s) {
      KeyCase(s);
    } else {
      ImportKeepsTokensExactlyWhenSafe(s[1..]);
      LiteralCase(s);
    }
  }

  lemma KeyCase(s: string)
    requires !IsDollar(s) && IsDouble(s)
    ensures Tokenise(Imported(s)) == Tokenise(s) <==> ImportSafe(s)
    decreases |s|, 0
  {
    var rest := DoubleTokens(s);
    ImportKeepsTokensExactlyWhenSafe(rest);
    KeyHeads(DoubleKey(s), Imported(rest), Tokenise(rest));
  }

  /** And not only token for token: every session gets the same text, or fails on the same variable, exactly
      then. */
  lemma ImportKeepsMeaningExactlyWhenSafe(s: string)
    ensures (forall vars :: Render(Tokenise(Imported(s)), vars) == Render(Tokenise(s), vars)) <==> ImportSafe(s)
  {
    ImportKeepsTokensExactlyWhenSafe(s);
    var a, b := Tokenise(Imported(s)), Tokenise(s);
    if a != b {
      var keys := set t: Token | t in a + b && t.Variable? :: t.key;
      var vars := SomeVarsTellApart(a, b, keys);
    }
  }

  // --- a region ${...} of the original text

  lemma RegionCase(s: string)
    requires IsDollar(s)
    ensures Tokenise(Imported(s)) == Tokenise(s) <==> ImportSafe(s)
    decreases |s|, 0
  {
    var n := RegionLength(s);
    if NoDoubleBefore(s, n) {
      ImportKeepsTokensExactlyWhenSafe(s[n..]);
      PlainPrefix(s, n);
      RegionKept(s, Imported(s[n..]));
      SameHead(Variable(DollarKey(s)), Tokenise(Imported(s[n..])), Tokenise(s[n..]));
    } else {
      var j := FirstDouble(s, n);
      PlainPrefix(s, j);
      var rest := DoubleTokens(s[j..]);
      RegionBroken(s, j, DoubleKey(s[j..]), Imported(rest));
    }
  }

  lemma {:induction false} PlainPrefix(s: string, n: nat)
    requires n <= |s| && NoDoubleBefore(s, n)
    ensures Imported(s) == s[..n] + Imported(s[n..])
  {
    if n == 0 {
      assert s[..0] == [] && s[0..] == s;
    } else {
      assert forall j :: 0 <= j < n - 1 ==> s[1..][j..] == s[j + 1..];
      PlainPrefix(s[1..], n - 1);
      assert s[0..] == s;
      PlainHead(s);
      assert s[1..][n - 1..] == s[n..];
      OneMoreChar(s, n, Imported(s[n..]));
    }
  }

  lemma PlainHead(s: string)
    requires s != [] && !IsDouble(s)
    ensures Imported(s) == [s[0]] + Imported(s[1..])
  {
  }

  lemma OneMoreChar(s: string, n: nat, tail: string)
    requires 0 < n <= |s|
    ensures [s[0]] + (s[1..][..n - 1] + tail) == s[..n] + tail
  {
    assert s[..n] == [s[0]] + s[1..][..n - 1];
  }

  /** A region that is copied unchanged still reads as the same variable. */
  lemma RegionKept(s: string, tail: string)
    requires IsDollar(s)
    ensures var n := RegionLength(s);
      && Tokenise(s) == [Variable(DollarKey(s))] + Tokenise(s[n..])
      && Tokenise(s[..n] + tail) == [Variable(DollarKey(s))] + Tokenise(tail)
  {
    var n, raw := RegionLength(s), s[2..2 + FindBrace(s[2..])];
    FindBraceFinds(s[2..]);
    assert '}' !in raw;
    assert s[..n] == "${" + raw + "}";
    VariableReadsBack(raw, tail);
  }

  lemma FirstDouble(s: string, n: nat) returns (j: nat)
    requires n <= |s| && !NoDoubleBefore(s, n)
    ensures j < n && IsDouble(s[j..]) && NoDoubleBefore(s, j)
  {
    j := 0;
    while !IsDouble(s[j..])
      invariant j < n && NoDoubleBefore(s, j)
      invariant exists k :: j <= k < n && IsDouble(s[k..])
      decreases n - j
    {
      j := j + 1;
    }
  }

  /** A region with a {{...}} starting inside it reads differently once that has been rewritten. */
  lemma RegionBroken(s: string, j: nat, key: string, tail: string)
    requires IsDollar(s) && j < RegionLength(s) && IsDouble(s[j..])
    ensures Tokenise(s[..j] + ("${" + key + "}" + tail)) != Tokenise(s)
  {
    assert s[j] == '{' && s[j + 1] == '{';
    if j < 2 {
      assert s[..j] == "$";
      DollarStaysLiteral("${" + key + "}" + tail);
    } else {
      var rest := "${" + key + "}" + tail;
      assert rest[2 + |key|] == '}';
      FindBraceFinds(s[2..]);
      assert s[RegionLength(s) - 1] == '}';
      KeyBroken(s, j, rest);
    }
  }

  lemma KeyBroken(s: string, j: nat, rest: string)
    requires IsDollar(s) && 2 <= j && j + 1 < RegionLength(s) && s[j] == '{' && s[j + 1] == '{'
    requires Starts(rest, '$', '{') && '}' in rest
    ensures Tokenise(s[..j] + rest) != Tokenise(s)
  {
    var p, t := s[2..j], s[..j] + rest;
    assert t[2..] == p + rest;
    BraceAhead(t, p, rest);
    NoBraceBefore(s, j);
    assert p + ['$'] <= t[2..] && p + ['{'] <= s[2..];
    RegionStartsWith(t, p, '$');
    RegionStartsWith(s, p, '{');
    DifferentKeys(s, t);
  }

  lemma BraceAhead(t: string, p: string, rest: string)
    requires Starts(t, '$', '{') && t[2..] == p + rest && '}' in rest
    ensures IsDollar(t)
  {
    FindBraceFinds(t[2..]);
    var k :| 0 <= k < |rest| && rest[k] == '}';
    assert t[2..][|p| + k] == '}';
  }

  lemma NoBraceBefore(s: string, j: nat)
    requires IsDollar(s) && 2 <= j < RegionLength(s)
    ensures '}' !in s[2..j]
  {
    FindBraceFinds(s[2..]);
  }

  lemma DifferentKeys(s: string, t: string)
    requires IsDollar(s) && IsDollar(t) && DollarKey(s) != DollarKey(t)
    ensures Tokenise(s) != Tokenise(t)
  {
    assert Tokenise(s)[0] == Variable(DollarKey(s)) && Tokenise(t)[0] == Variable(DollarKey(t));
  }

  /** What the scanner takes for the key when the region starts with `p` and then `c`. */
  lemma RegionStartsWith(t: string, p: string, c: char)
    requires IsDollar(t) && '}' !in p && c != '}' && !IsSpace(c) && p + [c] <= t[2..]
    ensures |DollarKey(t)| > |TrimLeft(p)| && DollarKey(t)[|TrimLeft(p)|] == c
  {
    var body := t[2..];
    var end := FindBrace(body);
    FindBraceFinds(body);
    assert forall k :: 0 <= k < |p| ==> body[k] == (p + [c])[k] == p[k];
    assert body[|p|] == (p + [c])[|p|] == c;
    assert end > |p|;
    var raw := t[2..2 + end];
    assert raw == p + [c] + raw[|p| + 1..];
    TrimShows(p, c, raw[|p| + 1..]);
  }

  // --- a {{key}} of the original text

  /** Both readings of a text that starts with {{key}}: the same remainder, the key with or without its dot. */
  lemma DoubleTokens(s: string) returns (rest: string)
    requires IsDouble(s)
    ensures rest == s[2 + FindDouble(s[2..]) + 2..] && |rest| < |s|
    ensures Trimmed(DoubleKey(s)) && PostmanTokens(s) == [Variable(DoubleKey(s))] + PostmanTokens(rest)
    ensures Imported(s) == "${" + DoubleKey(s) + "}" + Imported(rest)
    ensures Tokenise(s) == [Variable(TrimSpace(DropDot(DoubleKey(s))))] + Tokenise(rest)
  {
    rest := s[2 + FindDouble(s[2..]) + 2..];
    TrimSpaceTrims(s[2..2 + FindDouble(s[2..])]);
  }

  /** The rewritten variable, scanned, against the original variable followed by `original`. */
  lemma KeyHeads(key: string, tail: string, original: seq<Token>)
    requires Trimmed(key)
    ensures Tokenise("${" + key + "}" + tail) == [Variable(TrimSpace(DropDot(key)))] + original
      <==> SafeKey(key) && Tokenise(tail) == original
  {
    var printed := "${" + key + "}" + tail;
    VariableReadsBack(key, tail);
    if SafeKey(key) {
      TrimmedIsFixed(key);
      SameHead(Variable(key), Tokenise(tail), original);
    } else {
      UnsafeKeyDiffers(key, DollarKey(printed));
    }
  }

  /** A key with a leading dot loses it when read from the original, one with a brace is cut short when read
      from the rewriting. */
  lemma UnsafeKeyDiffers(key: string, cut: string)
    requires Trimmed(key) && !SafeKey(key)
    requires '}' !in cut
    requires '}' !in key ==> cut == TrimSpace(key)
    ensures TrimSpace(DropDot(key)) != cut
  {
    TrimKeeps(DropDot(key), '}');
    TrimSpaceTrims(DropDot(key));
    if '}' in key {
      assert '}' in DropDot(key) by {
        var k :| 0 <= k < |key| && key[k] == '}';
        if key[0] == '.' { assert DropDot(key)[k - 1] == '}'; }
      }
    } else {
      TrimmedIsFixed(key);
      assert |TrimSpace(DropDot(key))| <= |DropDot(key)| < |key|;
    }
  }

  // --- a literal of the original text

  lemma LiteralCase(s: string)
    requires s != [] && !IsDollar(s) && !IsDouble(s)
    ensures Tokenise(Imported(s)) == Tokenise(s) <==> Tokenise(Imported(s[1..])) == Tokenise(s[1..])
  {
    var c, rest := s[0], s[1..];
    var tail := Imported(rest);
    PlainHead(s);
    LiteralStaysLiteral(s);
    assert ([c] + tail)[1..] == tail;
    assert Tokenise([c] + tail) == [Literal(c)] + Tokenise(tail);
    assert Tokenise(s) == [Literal(c)] + Tokenise(rest);
    SameHead(Literal(c), Tokenise(tail), Tokenise(rest));
  }

  lemma SameHead(t: Token, a: seq<Token>, b: seq<Token>)
    ensures [t] + a == [t] + b <==> a == b
  {
    assert ([t] + a)[1..] == a && ([t] + b)[1..] == b;
  }

  /** Rewriting never makes a literal the start of a variable. */
  lemma LiteralStaysLiteral(s: string)
    requires s != [] && !IsDollar(s) && !IsDouble(s)
    ensures !IsDollar([s[0]] + Imported(s[1..])) && !IsDouble([s[0]] + Imported(s[1..]))
  {
    var rest := s[1..];
    if rest != [] {
      assert Imported(rest)[0] == if IsDouble(rest) then '$' else rest[0];
      if s[0] == '$' && rest[0] == '{' {
        UnclosedRegionIsPlain(s);
      } else if s[0] == '{' && rest[0] == '{' {
        assert s[2..] == rest[1..];
        assert FindDouble(rest[1..]) < 0 && !DoubleAt(rest, 0);
        UnclosedTextIsPlain(rest);
        assert [s[0]] + rest == s;
      }
    }
  }

  /** Without any closing brace ahead nothing is rewritten. */
  lemma UnclosedRegionIsPlain(s: string)
    requires Starts(s, '$', '{') && !IsDollar(s)
    ensures [s[0]] + Imported(s[1..]) == s
  {
    var rest := s[1..];
    FindBraceFinds(s[2..]);
    FindDoubleFinds(rest);
    assert forall k :: 0 < k < |rest| ==> rest[k] == s[2..][k - 1];
    assert forall k :: 0 <= k < |rest| ==> rest[k] != '}';
    UnclosedTextIsPlain(rest);
  }

  // --- families of texts

  lemma SafeKeysStep(t: Token, rest: seq<Token>)
    ensures SafeKeys([t] + rest) <==> (t.Variable? ==> SafeKey(t.key)) && SafeKeys(rest)
  {
    if SafeKeys([t] + rest) {
      assert ([t] + rest)[0] == t;
      assert forall i :: 0 <= i < |rest| ==> rest[i] == ([t] + rest)[i + 1];
    }
  }

  lemma {:induction false} WithoutRegionsOnlyKeysMatter(s: string)
    requires !Contains(s, '$', '{')
    ensures ImportSafe(s) <==> SafeKeys(PostmanTokens(s))
    decreases |s|
  {
    if s == [] {
    } else {
      assert s[0..] == s;
      var n := if IsDouble(s) then 2 + FindDouble(s[2..]) + 2 else 1;
      if Contains(s[n..], '$', '{') { ContainsLater(s, n, '$', '{'); }
      WithoutRegionsOnlyKeysMatter(s[n..]);
      SafeKeysStep(if IsDouble(s) then Variable(DoubleKey(s)) else Literal(s[0]), PostmanTokens(s[n..]));
    }
  }

  /** For a text without "${", only the keys matter. */
  lemma RewriteKeepsTokens(s: string)
    requires !Contains(s, '$', '{')
    ensures Tokenise(Imported(s)) == Tokenise(s) <==> SafeKeys(PostmanTokens(s))
  {
    ImportKeepsTokensExactlyWhenSafe(s);
    WithoutRegionsOnlyKeysMatter(s);
  }

  /** So a safe import leaves every session's text, or the variable it fails on, unchanged. */
  lemma SafeImportInterpolatesAlike(s: string, vars: map<string, Value>)
    requires ImportSafe(s)
    ensures Render(Tokenise(Imported(s)), vars) == Render(Tokenise(s), vars)
  {
    ImportKeepsTokensExactlyWhenSafe(s);
  }

  /** No text with a dollar sign before a variable is safe: in "${{key}}" the original starts with a variable
      and the rewriting, like Postman, with a plain dollar sign. */
  lemma DollarBeforeVariable(key: string)
    ensures var s := "${{" + key + "}}";
      && !ImportSafe(s)
      && Tokenise(s) != [] && Tokenise(s)[0].Variable?
      && Tokenise(Imported(s)) != [] && Tokenise(Imported(s))[0] == Literal('$')
  {
    var s, rest := "${{" + key + "}}", "{{" + key + "}}";
    OriginalStartsWithVariable(key, s);
    assert s[1..] == rest;
    PrintedVariableFirst(key, rest);
    DollarThenText(s);
    DollarStaysLiteral(Imported(rest));
    ImportKeepsTokensExactlyWhenSafe(s);
  }

  lemma OriginalStartsWithVariable(key: string, s: string)
    requires s == "${{" + key + "}}"
    ensures Tokenise(s) != [] && Tokenise(s)[0].Variable?
  {
    VariableReadsBack("{" + key, "}");
    assert s == "${" + ("{" + key) + "}" + "}";
  }

  lemma DollarThenText(s: string)
    requires s != [] && s[0] == '$'
    ensures Print(PostmanTokens(s)) == "$" + Print(PostmanTokens(s[1..]))
  {
  }

  lemma PrintedVariableFirst(key: string, rest: string)
    requires rest == "{{" + key + "}}"
    ensures PostmanTokens(rest) != [] && Print(PostmanTokens(rest)) != [] && Print(PostmanTokens(rest))[0] == '$'
  {
    assert rest[2..] == key + "}}";
    ClosedAfter(key, rest[2..]);
  }

  lemma DollarStaysLiteral(tail: string)
    requires tail != [] && tail[0] == '$'
    ensures Tokenise("$" + tail) != [] && Tokenise("$" + tail)[0] == Literal('$')
  {
  }

  lemma ClosedAfter(key: string, s: string)
    requires s == key + "}}"
    ensures FindDouble(s) >= 0
  {
    FindDoubleFinds(s);
    assert DoubleAt(s, |key|);
  }

  // --- folders

  /** A collection entry: a request, or a folder of entries. */
  datatype Item = Item(name: string, isRequest: bool, items: seq<Item>)

  /** The requests of a collection, depth first, in the order they appear. */
  function Flatten(items: seq<Item>): seq<Item> {
    if items == [] then []
    else (if items[0].isRequest then [items[0]] else Flatten(items[0].items)) + Flatten(items[1..])
  }

  method FlattenPostmanItems(items: seq<Item>, out: seq<Item>) returns (flat: seq<Item>)
    ensures flat == out + Flatten(items)
    decreases items
  {
    flat := out;
    for i := 0 to |items|
      invariant flat + Flatten(items[i..]) == out + Flatten(items)
    {
      var item := items[i];
      assert items[i..][1..] == items[i + 1..];
      if item.isRequest {
        assert flat + ([item] + Flatten(items[i + 1..])) == flat + [item] + Flatten(items[i + 1..]);
        flat := flat + [item];
        continue;
      }
      assert flat + (Flatten(item.items) + Flatten(items[i + 1..]))
          == flat + Flatten(item.items) + Flatten(items[i + 1..]);
      if |item.items| > 0 {
        flat := FlattenPostmanItems(item.items, flat);
      } else {
        assert flat + Flatten(item.items) == flat;
      }
    }
    assert flat + Flatten(items[|items|..]) == flat;
  }

  lemma {:induction false} FlattenJoins(a: seq<Item>, b: seq<Item>)
    ensures Flatten(a + b) == Flatten(a) + Flatten(b)
  {
    if a == [] {
      assert a + b == b;
    } else {
      assert (a + b)[1..] == a[1..] + b;
      FlattenJoins(a[1..], b);
    }
  }

  /** Nothing but requests comes out, and a collection of requests stays as it is: with the transparency of
      folders this settles every collection. */
  lemma {:induction false} RequestsStay(items: seq<Item>)
    ensures forall item :: item in Flatten(items) ==> item.isRequest
    ensures (forall item :: item in items ==> item.isRequest) ==> Flatten(items) == items
  {
    if items == [] {
    } else {
      if !items[0].isRequest { RequestsStay(items[0].items); }
      RequestsStay(items[1..]);
      assert items == [items[0]] + items[1..];
    }
  }

  /** Folders only group: putting neighbouring entries into a folder, anywhere, changes nothing. */
  lemma FoldersAreTransparent(before: seq<Item>, inside: seq<Item>, after: seq<Item>, name: string)
    ensures Flatten(before + [Item(name, false, inside)] + after) == Flatten(before + inside + after)
  {
    var folder := [Item(name, false, inside)];
    FlattenJoins(before + folder, after);
    FlattenJoins(before, folder);
    FlattenJoins(before + inside, after);
    FlattenJoins(before, inside);
    assert Flatten(folder) == Flatten(inside) + Flatten(folder[1..]);
  }
}
