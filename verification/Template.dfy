/** Template interpolation of session variables (pkg/vusession/state.go): a single-pass scanner, and the
    tokeniser and printer that say what it means. */
module Template {
  import opened Text

  datatype Token = Literal(c: char) | Variable(key: string)
  datatype Value = Nil | Rendered(text: string)
  datatype Outcome = Text(text: string) | Missing(key: string)

  // --- searching

  /** Position of the first closing brace, or -1. */
  function FindBrace(s: string): (r: int)
    ensures -1 <= r < |s|
  {
    if s == [] then -1
    else if s[0] == '}' then 0
    else
      var r := FindBrace(s[1..]);
      if r < 0 then -1 else r + 1
  }

  lemma {:induction false} FindBraceFinds(s: string)
    ensures var r := FindBrace(s);
      && (r >= 0 ==> s[r] == '}')
      && forall k :: 0 <= k < (if r < 0 then |s| else r) ==> s[k] != '}'
  {
    if s == [] || s[0] == '}' {
    } else {
      FindBraceFinds(s[1..]);
      assert forall k :: 0 < k < |s| ==> s[k] == s[1..][k - 1];
    }
  }

  predicate DoubleAt(s: string, k: int) {
    0 <= k && k + 1 < |s| && s[k] == '}' && s[k + 1] == '}'
  }

  /** Position of the first pair of closing braces, or -1. */
  function FindDouble(s: string): (r: int)
    ensures -1 <= r && (r < 0 || r + 1 < |s|)
  {
    if |s| < 2 then -1
    else if s[0] == '}' && s[1] == '}' then 0
    else
      var r := FindDouble(s[1..]);
      if r < 0 then -1 else r + 1
  }

  lemma {:induction false} FindDoubleFinds(s: string)
    ensures var r := FindDouble(s);
      && (r >= 0 ==> DoubleAt(s, r))
      && forall k :: 0 <= k < (if r < 0 then |s| else r) ==> !DoubleAt(s, k)
  {
    if |s| < 2 || DoubleAt(s, 0) {
    } else {
      FindDoubleFinds(s[1..]);
      assert forall k :: 0 < k < |s| && DoubleAt(s, k) ==> DoubleAt(s[1..], k - 1);
    }
  }

  predicate Starts(s: string, a: char, b: char) {
    |s| >= 2 && s[0] == a && s[1] == b
  }

  /** Whether the two characters occur next to each other anywhere in the text. */
  ghost predicate Contains(s: string, a: char, b: char) {
    exists i :: 0 <= i <= |s| && Starts(s[i..], a, b)
  }

  // --- meaning

  function DropDot(key: string): string {
    if key != [] && key[0] == '.' then key[1..] else key
  }

  /** The variable named between double braces. */
  function DottedKey(raw: string): string {
    TrimSpace(DropDot(TrimSpace(raw)))
  }

  predicate IsDollar(s: string) {
    Starts(s, '$', '{') && FindBrace(s[2..]) >= 0
  }

  predicate IsDouble(s: string) {
    Starts(s, '{', '{') && FindDouble(s[2..]) >= 0
  }

  function DollarKey(s: string): string
    requires IsDollar(s)
  {
    TrimSpace(s[2..2 + FindBrace(s[2..])])
  }

  function DoubleKey(s: string): string
    requires IsDouble(s)
  {
    TrimSpace(s[2..2 + FindDouble(s[2..])])
  }

  /** `${key}`, `{{key}}` and `{{.key}}` are variables; every other character stands for itself. */
  function Tokenise(s: string): seq<Token>
    decreases |s|
  {
    if s == [] then []
    else if IsDollar(s) then [Variable(DollarKey(s))] + Tokenise(s[2 + FindBrace(s[2..]) + 1..])
    else if IsDouble(s) then [Variable(TrimSpace(DropDot(DoubleKey(s))))] + Tokenise(s[2 + FindDouble(s[2..]) + 2..])
    else [Literal(s[0])] + Tokenise(s[1..])
  }

  function TextOf(v: Value): string {
    match v
    case Nil => ""
    case Rendered(text) => text
  }

  function Prepend(head: string, tail: Outcome): Outcome {
    match tail
    case Text(text) => Text(head + text)
    case Missing(_) => tail
  }

  /** Substitution, failing on the first variable that is not set. */
  function Render(tokens: seq<Token>, vars: map<string, Value>): Outcome {
    if tokens == [] then Text("") else
      match tokens[0]
      case Literal(c) => Prepend([c], Render(tokens[1..], vars))
      case Variable(key) =>
        if key in vars then Prepend(TextOf(vars[key]), Render(tokens[1..], vars)) else Missing(key)
  }

  /** Writing tokens back as a template. */
  function Print(tokens: seq<Token>): string {
    if tokens == [] then "" else PrintToken(tokens[0]) + Print(tokens[1..])
  }

  function PrintToken(t: Token): string {
    match t
    case Literal(c) => [c]
    case Variable(key) => "${" + key + "}"
  }

  // --- the round trip

  /** Exactly the token lists the scanner can read back: keys are trimmed and closed by their own brace,
      and no literal is taken for the start of a variable. */
  predicate Printable(tokens: seq<Token>) {
    tokens == [] || (
      Printable(tokens[1..]) &&
      match tokens[0]
      case Literal(c) => !IsDollar([c] + Print(tokens[1..])) && !IsDouble([c] + Print(tokens[1..]))
      case Variable(key) => Trimmed(key) && '}' !in key
    )
  }

  lemma {:induction false} PrintReadsBack(tokens: seq<Token>)
    ensures Printable(tokens) <==> Tokenise(Print(tokens)) == tokens
  {
    if tokens == [] {
    } else {
      var rest := tokens[1..];
      PrintReadsBack(rest);
      match tokens[0]
      case Literal(c) =>
        LiteralReadsBack(c, Print(rest));
      case Variable(key) =>
        VariableReadsBack(key, Print(rest));
    }
  }

  lemma LiteralReadsBack(c: char, tail: string)
    ensures var s := [c] + tail;
      && Tokenise(s) != []
      && (IsDollar(s) || IsDouble(s) ==> Tokenise(s)[0].Variable?)
      && (!IsDollar(s) && !IsDouble(s) ==> Tokenise(s) == [Literal(c)] + Tokenise(tail))
  {
    var s := [c] + tail;
    assert s[1..] == tail;
  }

  /** What the scanner makes of a printed variable. */
  lemma VariableReadsBack(key: string, tail: string)
    ensures var s := "${" + key + "}" + tail;
      && IsDollar(s) && '}' !in DollarKey(s) && Trimmed(DollarKey(s))
      && Tokenise(s) != [] && Tokenise(s)[0] == Variable(DollarKey(s))
      && ('}' !in key ==> DollarKey(s) == TrimSpace(key) && Tokenise(s) == [Variable(TrimSpace(key))] + Tokenise(tail))
      && (Trimmed(key) && '}' !in key ==> Tokenise(s) == [Variable(key)] + Tokenise(tail))
  {
    var s := "${" + key + "}" + tail;
    var body := s[2..];
    assert body == key + "}" + tail;
    assert body[|key|] == '}';
    var end := FindBrace(body);
    FindBraceFinds(body);
    assert 0 <= end <= |key|;
    TrimKeeps(body[..end], '}');
    TrimSpaceTrims(body[..end]);
    assert s[2..2 + end] == body[..end];
    if '}' !in key {
      assert forall k :: 0 <= k < |key| ==> body[k] == key[k];
      assert end == |key|;
      assert body[..end] == key;
      assert s[2 + end + 1..] == tail;
    }
    if Trimmed(key) { TrimmedIsFixed(key); }
  }

  // --- tokens are the whole meaning

  ghost predicate Defined(tokens: seq<Token>, keys: set<string>) {
    forall t :: t in tokens && t.Variable? ==> t.key in keys
  }

  lemma {:induction false} DefinedRenders(tokens: seq<Token>, vars: map<string, Value>)
    requires Defined(tokens, vars.Keys)
    ensures Render(tokens, vars).Text?
  {
    if tokens == [] {
    } else {
      DefinedRenders(tokens[1..], vars);
    }
  }

  function Piece(t: Token, vars: map<string, Value>): string {
    match t
    case Literal(c) => [c]
    case Variable(key) => if key in vars then TextOf(vars[key]) else ""
  }

  lemma HeadShows(tokens: seq<Token>, vars: map<string, Value>)
    requires tokens != [] && Render(tokens, vars).Text?
    ensures Piece(tokens[0], vars) <= Render(tokens, vars).text
  {
  }

  lemma HeadsTellApart(a: seq<Token>, b: seq<Token>, keys: set<string>) returns (vars: map<string, Value>)
    requires a != [] && (b == [] || a[0] != b[0]) && Defined(a, keys) && Defined(b, keys)
    ensures vars.Keys == keys && Render(a, vars) != Render(b, vars)
  {
    var c := if a[0] == Literal('x') || (b != [] && b[0] == Literal('x')) then 'y' else 'x';
    vars := map k | k in keys :: Rendered([c, if a[0] == Variable(k) then '1' else '2']);
    DefinedRenders(a, vars);
    DefinedRenders(b, vars);
    HeadShows(a, vars);
    if b != [] {
      HeadShows(b, vars);
      assert a[0] in a && b[0] in b;
      assert Render(a, vars).text != Render(b, vars).text by {
        var x, y := Piece(a[0], vars), Piece(b[0], vars);
        assert x[0] != y[0] || (|x| == |y| == 2 && x[1] != y[1]);
      }
    } else {
      assert a[0] in a;
    }
  }

  lemma PrependSame(head: string, x: Outcome, y: Outcome)
    ensures Prepend(head, x) == Prepend(head, y) <==> x == y
  {
    if x.Text? && y.Text? {
      assert (head + x.text)[|head|..] == x.text && (head + y.text)[|head|..] == y.text;
    }
  }

  /** Different token lists are told apart by some session's variables. */
  lemma {:induction false} SomeVarsTellApart(a: seq<Token>, b: seq<Token>, keys: set<string>)
    returns (vars: map<string, Value>)
    requires a != b && Defined(a, keys) && Defined(b, keys)
    ensures vars.Keys == keys && Render(a, vars) != Render(b, vars)
  {
    if a == [] || (b != [] && a[0] != b[0]) {
      vars := HeadsTellApart(b, a, keys);
    } else if b == [] {
      vars := HeadsTellApart(a, b, keys);
    } else {
      assert a == [a[0]] + a[1..] && b == [b[0]] + b[1..];
      vars := SomeVarsTellApart(a[1..], b[1..], keys);
      assert a[0] in a;
      PrependSame(Piece(a[0], vars), Render(a[1..], vars), Render(b[1..], vars));
    }
  }

  // --- the early exit

  /** Text without either opening marker means itself, so returning it unscanned is only a shortcut. */
  lemma {:induction false} PlainTextMeansItself(s: string, vars: map<string, Value>)
    requires !Contains(s, '$', '{') && !Contains(s, '{', '{')
    ensures Render(Tokenise(s), vars) == Text(s)
  {
    if s == [] {
    } else {
      assert s[0..] == s;
      forall a, b | Contains(s[1..], a, b)
        ensures Contains(s, a, b)
      {
        ContainsLater(s, 1, a, b);
      }
      PlainTextMeansItself(s[1..], vars);
      assert [s[0]] + s[1..] == s;
    }
  }

  lemma ContainsLater(s: string, n: nat, a: char, b: char)
    requires n <= |s| && Contains(s[n..], a, b)
    ensures Contains(s, a, b)
  {
  }

  lemma RenderStep(t: Token, rest: seq<Token>, vars: map<string, Value>)
    ensures t.Literal? ==> Render([t] + rest, vars) == Prepend([t.c], Render(rest, vars))
    ensures t.Variable? && t.key in vars ==>
      Render([t] + rest, vars) == Prepend(TextOf(vars[t.key]), Render(rest, vars))
    ensures t.Variable? && t.key !in vars ==> Render([t] + rest, vars) == Missing(t.key)
  {
  }

  lemma PrependTwice(a: string, b: string, tail: Outcome)
    ensures Prepend(a, Prepend(b, tail)) == Prepend(a + b, tail)
  {
  }

  // --- what a session gets, text by text

  ghost predicate Plain(s: string) {
    !Contains(s, '$', '{') && !Contains(s, '{', '{')
  }

  /** No marker opens inside p, seen in front of s. */
  ghost predicate NothingOpens(p: string, s: string) {
    forall i :: 0 <= i < |p| ==> !Starts((p + s)[i..], '$', '{') && !Starts((p + s)[i..], '{', '{')
  }

  lemma {:induction false} TextThenRest(p: string, s: string, vars: map<string, Value>)
    requires NothingOpens(p, s)
    ensures Render(Tokenise(p + s), vars) == Prepend(p, Render(Tokenise(s), vars))
  {
    if p == [] {
      assert p + s == s;
    } else {
      var all, rest := p + s, p[1..] + s;
      assert all[1..] == rest && all[0..] == all;
      assert forall i :: 0 <= i < |p| - 1 ==> rest[i..] == all[i + 1..];
      TextThenRest(p[1..], s, vars);
      PrependTwice([p[0]], p[1..], Render(Tokenise(s), vars));
      assert [p[0]] + p[1..] == p;
    }
  }

  lemma PlainOpensNothing(p: string, s: string)
    requires Plain(p) && s != ""
    requires p == "" || !(p[|p| - 1] in "${" && s[0] == '{')
    ensures NothingOpens(p, s)
  {
    forall i | 0 <= i < |p|
      ensures !Starts((p + s)[i..], '$', '{') && !Starts((p + s)[i..], '{', '{')
    {
      assert !Starts(p[i..], '$', '{') && !Starts(p[i..], '{', '{');
      if i + 1 < |p| {
        assert (p + s)[i..][0] == p[i..][0] && (p + s)[i..][1] == p[i..][1];
      } else {
        assert (p + s)[i..][0] == p[i] && (p + s)[i..][1] == s[0];
      }
    }
  }

  /** What the scanner makes of a variable between double braces. */
  lemma DoubleReadsBack(raw: string, tail: string)
    requires '}' !in raw
    ensures Tokenise("{{" + raw + "}}" + tail) == [Variable(DottedKey(raw))] + Tokenise(tail)
  {
    var s := "{{" + raw + "}}" + tail;
    var body := s[2..];
    assert body == raw + "}}" + tail;
    FindDoubleFinds(body);
    assert DoubleAt(body, |raw|);
    assert forall k :: 0 <= k < |raw| ==> body[k] == raw[k];
    assert FindDouble(body) == |raw|;
    assert s[2..2 + |raw|] == raw;
    assert s[2 + |raw| + 2..] == tail;
  }

  lemma DottedKeyIs(key: string)
    requires Trimmed(key) && (key == "" || key[0] != '.')
    ensures DottedKey(key) == key && DottedKey("." + key) == key
  {
    TrimmedIsFixed(key);
    TrimmedIsFixed("." + key);
    assert ("." + key)[1..] == key;
  }

  /** The three ways of writing a variable. */
  predicate Names(form: string, key: string) {
    || form == "${" + key + "}"
    || ((key == "" || key[0] != '.') && (form == "{{" + key + "}}" || form == "{{." + key + "}}"))
  }

  lemma FormReadsBack(form: string, key: string, tail: string)
    requires Names(form, key) && Trimmed(key) && '}' !in key
    ensures Tokenise(form + tail) == [Variable(key)] + Tokenise(tail)
  {
    if form == "${" + key + "}" {
      DollarReadsBack(form, key, tail);
    } else if form == "{{" + key + "}}" {
      DottedKeyIs(key);
      BracesReadBack(form, key, key, tail);
    } else {
      DottedKeyIs(key);
      assert form == "{{" + ("." + key) + "}}";
      BracesReadBack(form, "." + key, key, tail);
    }
  }

  lemma BracesReadBack(form: string, raw: string, key: string, tail: string)
    requires '}' !in raw && form == "{{" + raw + "}}" && DottedKey(raw) == key
    ensures Tokenise(form + tail) == [Variable(key)] + Tokenise(tail)
  {
    DoubleReadsBack(raw, tail);
  }

  lemma DollarReadsBack(form: string, key: string, tail: string)
    requires Trimmed(key) && '}' !in key && form == "${" + key + "}"
    ensures Tokenise(form + tail) == [Variable(key)] + Tokenise(tail)
  {
    VariableReadsBack(key, tail);
  }

  /** The text p, then the variable's value (nothing for nil), then what follows; unless the variable is not set,
      or what follows fails. */
  ghost predicate GoesIn(whole: Outcome, p: string, key: string, rest: Outcome, vars: map<string, Value>) {
    && (key !in vars ==> whole == Missing(key))
    && (key in vars && rest.Missing? ==> whole == rest)
    && (key in vars && vars[key].Nil? && rest.Text? ==> whole == Text(p + rest.text))
    && (key in vars && vars[key].Rendered? && rest.Text? ==> whole == Text(p + vars[key].text + rest.text))
  }

  lemma VariableThenRest(input: string, p: string, s: string, key: string, q: string, vars: map<string, Value>)
    requires input == p + s && NothingOpens(p, s) && Tokenise(s) == [Variable(key)] + Tokenise(q)
    ensures GoesIn(Render(Tokenise(input), vars), p, key, Render(Tokenise(q), vars), vars)
  {
    TextThenRest(p, s, vars);
    RenderStep(Variable(key), Tokenise(q), vars);
    PutTogether(Render(Tokenise(input), vars), p, key, Render(Tokenise(s), vars), Render(Tokenise(q), vars), vars);
  }

  lemma PutTogether(whole: Outcome, p: string, key: string, tail: Outcome, rest: Outcome, vars: map<string, Value>)
    requires whole == Prepend(p, tail)
    requires tail == if key in vars then Prepend(TextOf(vars[key]), rest) else Missing(key)
    ensures GoesIn(whole, p, key, rest, vars)
  {
  }

  /** In any text, a variable after text without markers is replaced by its value, and the rest is treated on its
      own. */
  lemma ValuesGoIn(input: string, p: string, form: string, key: string, q: string, vars: map<string, Value>)
    requires input == p + form + q && Plain(p) && Names(form, key) && Trimmed(key) && '}' !in key
    requires p == "" || form[0] == '$' || p[|p| - 1] !in "${"
    ensures GoesIn(Render(Tokenise(input), vars), p, key, Render(Tokenise(q), vars), vars)
  {
    var s := form + q;
    assert input == p + s;
    FormOpensNothing(p, form, q);
    FormReadsBack(form, key, q);
    VariableThenRest(input, p, s, key, q, vars);
  }

  lemma FormOpensNothing(p: string, form: string, q: string)
    requires Plain(p) && form != "" && (p == "" || form[0] == '$' || p[|p| - 1] !in "${")
    ensures NothingOpens(p, form + q)
  {
    assert (form + q)[0] == form[0];
    PlainOpensNothing(p, form + q);
  }

  /** So one variable in plain text becomes its value. */
  lemma OneValueGoesIn(input: string, p: string, form: string, key: string, q: string, vars: map<string, Value>)
    requires input == p + form + q && Plain(p) && Plain(q) && Names(form, key) && Trimmed(key) && '}' !in key
    requires p == "" || form[0] == '$' || p[|p| - 1] !in "${"
    requires key in vars && vars[key].Rendered?
    ensures Render(Tokenise(input), vars) == Text(p + vars[key].text + q)
  {
    ValuesGoIn(input, p, form, key, q, vars);
    PlainTextMeansItself(q, vars);
  }

  // --- scanning

  method ContainsPair(s: string, a: char, b: char) returns (found: bool)
    ensures found <==> Contains(s, a, b)
  {
    found := false;
    for i := 0 to |s|
      invariant found <==> exists k :: 0 <= k < i && Starts(s[k..], a, b)
    {
      if i + 1 < |s| && s[i] == a && s[i + 1] == b {
        assert Starts(s[i..], a, b);
        found := true;
      }
    }
  }

  /** The scanning loop. */
  method Scan(input: string, vars: map<string, Value>) returns (out: Outcome)
    ensures out == Render(Tokenise(input), vars)
  {
    var sb := "";
    var i := 0;
    assert input[0..] == input;
    while i < |input|
      invariant 0 <= i <= |input|
      invariant Rest(input, 0, vars) == Prepend(sb, Rest(input, i, vars))
    {
      var found, text, next := ScanOne(input, i, vars);
      if !found {
        return Missing(text);
      }
      PrependTwice(sb, text, Rest(input, next, vars));
      sb, i := sb + text, next;
    }
    assert input[i..] == [];
    return Text(sb);
  }

  /** From position i the input means `text` and then what it means from position `next`, or it stops at a
      variable that is not set. */
  ghost predicate Scans(input: string, i: nat, vars: map<string, Value>, found: bool, text: string, next: nat) {
    i < next <= |input| &&
    Rest(input, i, vars) == if found then Prepend(text, Rest(input, next, vars)) else Missing(text)
  }

  /** One round of the loop: the text to write and where to go on, or the key that is not set. */
  method ScanOne(input: string, i: nat, vars: map<string, Value>) returns (found: bool, text: string, next: nat)
    requires i < |input|
    ensures Scans(input, i, vars, found, text, next)
  {
    if i + 1 < |input| && input[i] == '$' && input[i + 1] == '{' {
      var end := FindBrace(input[i + 2..]);
      if end >= 0 {
        found, text, next := DollarBrace(input, i, end, vars);
        return;
      }
    }
    if i + 1 < |input| && input[i] == '{' && input[i + 1] == '{' {
      var end := FindDouble(input[i + 2..]);
      if end >= 0 {
        found, text, next := DoubleBrace(input, i, end, vars);
        return;
      }
    }
    return true, [input[i]], i + 1;
  }

  method DollarBrace(input: string, i: nat, end: nat, vars: map<string, Value>)
    returns (found: bool, text: string, next: nat)
    requires i + 1 < |input| && input[i] == '$' && input[i + 1] == '{'
    requires end == FindBrace(input[i + 2..])
    ensures Scans(input, i, vars, found, text, next)
  {
    var varKey := TrimSpace(input[i + 2..i + 2 + end]);
    DollarAt(input, i, end, varKey, vars);
    found, text, next := varKey in vars, varKey, i + 2 + end + 1;
    if found {
      text := TextOf(vars[varKey]);
    }
  }

  method DoubleBrace(input: string, i: nat, end: nat, vars: map<string, Value>)
    returns (found: bool, text: string, next: nat)
    requires i + 1 < |input| && input[i] == '{' && input[i + 1] == '{'
    requires end == FindDouble(input[i + 2..])
    ensures Scans(input, i, vars, found, text, next)
  {
    var varKey := DottedKey(input[i + 2..i + 2 + end]);
    DoubleBraceAt(input, i, end, varKey, vars);
    found, text, next := varKey in vars, varKey, i + 2 + end + 2;
    if found {
      text := TextOf(vars[varKey]);
    }
  }

  ghost function Rest(input: string, i: nat, vars: map<string, Value>): Outcome
    requires i <= |input|
  {
    Render(Tokenise(input[i..]), vars)
  }

  /** One token of the rest of the input, in terms of positions in the whole input. */
  lemma DollarAt(input: string, i: nat, end: int, key: string, vars: map<string, Value>)
    requires i + 1 < |input| && input[i] == '$' && input[i + 1] == '{'
    requires end == FindBrace(input[i + 2..]) >= 0
    requires key == TrimSpace(input[i + 2..i + 2 + end])
    ensures Rest(input, i, vars) ==
      if key in vars then Prepend(TextOf(vars[key]), Rest(input, i + 2 + end + 1, vars)) else Missing(key)
  {
    var rest := input[i..];
    assert rest[2..] == input[i + 2..];
    assert rest[2..2 + end] == input[i + 2..i + 2 + end];
    assert rest[2 + end + 1..] == input[i + 2 + end + 1..];
    RenderStep(Variable(key), Tokenise(input[i + 2 + end + 1..]), vars);
  }

  lemma DoubleBraceAt(input: string, i: nat, end: int, key: string, vars: map<string, Value>)
    requires i + 1 < |input| && input[i] == '{' && input[i + 1] == '{'
    requires end == FindDouble(input[i + 2..]) >= 0
    requires key == DottedKey(input[i + 2..i + 2 + end])
    ensures Rest(input, i, vars) ==
      if key in vars then Prepend(TextOf(vars[key]), Rest(input, i + 2 + end + 2, vars)) else Missing(key)
  {
    var rest := input[i..];
    assert rest[2..] == input[i + 2..];
    assert rest[2..2 + end] == input[i + 2..i + 2 + end];
    assert rest[2 + end + 2..] == input[i + 2 + end + 2..];
    RenderStep(Variable(key), Tokenise(input[i + 2 + end + 2..]), vars);
  }

  // --- the session state

  class SessionState {
    var vars: map<string, Value>

    constructor ()
      ensures vars == map[]
    {
      vars := map[];
    }

    method Set(key: string, val: Value)
      modifies this
      ensures vars == old(vars)[key := val]
    {
      vars := vars[key := val];
    }

    method SetMultiple(items: map<string, Value>)
      modifies this
      ensures vars == old(vars) + items
    {
      var keys := items.Keys;
      while keys != {}
        invariant keys <= items.Keys
        invariant vars == old(vars) + (map k | k in items.Keys - keys :: items[k])
        decreases keys
      {
        var k :| k in keys;
        vars := vars[k := items[k]];
        keys := keys - {k};
      }
      assert (map k | k in items.Keys - keys :: items[k]) == items;
    }

    method Delete(key: string)
      modifies this
      ensures vars == old(vars) - {key}
    {
      vars := vars - {key};
    }

    /** The scanner substitutes exactly the tokens of its input, in one pass: substituted text is never
        scanned again. */
    method Interpolate(input: string) returns (out: Outcome)
      ensures out == Render(Tokenise(input), vars)
    {
      var hasDollar := ContainsPair(input, '$', '{');
      var hasDouble := ContainsPair(input, '{', '{');
      if !hasDollar && !hasDouble {
        PlainTextMeansItself(input, vars);
        return Text(input);
      }
      out := Scan(input, vars);
    }
  }
}
