/** Custom presets beside the read-only built-in ones (pkg/presets/store.go). */
module PresetStore {
  import opened Options
  import opened Text
  import Sorting

  datatype ShapeStage = ShapeStage(durationPercent: int, vuMultiplier: real)

  datatype Preset = Preset(
    id: string, name: string, peakMultiplier: int, suggestedTotalSeconds: int, shape: seq<ShapeStage>, custom: bool)

  datatype Problem = NameMissing | PeakTooLow | DurationTooLow | NegativeStage | SharesNotHundred | BuiltIn | NotFound

  datatype Result = Ok(preset: Preset) | Err(problem: Problem)

  const REGISTRY: seq<Preset> := [
    Preset("harbolnas_1212", "Harbolnas 12.12 Flash Sale", 12, 300, [], false),
    Preset("gajian_25", "Gajian Tanggal 25 (Payday Rush)", 6, 240, [], false),
    Preset("lebaran_mudik", "Lebaran Mudik Exodus", 5, 360, [], false),
    Preset("selebgram_viral", "Endorse Selebgram Viral", 20, 180, [], false)]

  predicate IsBuiltIn(id: string) {
    exists i :: 0 <= i < |REGISTRY| && REGISTRY[i].id == id
  }

  method FindBuiltIn(id: string) returns (p: Option<Preset>)
    ensures p.Some? <==> IsBuiltIn(id)
    ensures p.Some? ==> p.value in REGISTRY && p.value.id == id
  {
    for i := 0 to |REGISTRY|
      invariant forall k :: 0 <= k < i ==> REGISTRY[k].id != id
    {
      if REGISTRY[i].id == id {
        return Some(REGISTRY[i]);
      }
    }
    return None;
  }

  // --- slugs

  predicate IsSlugLetter(c: char) {
    'a' <= c <= 'z' || '0' <= c <= '9'
  }

  /** Lower-case letters and digits in groups joined by single underscores: safe in a URL path. */
  predicate IsSlug(s: string) {
    && (forall i :: 0 <= i < |s| ==> IsSlugLetter(s[i]) || s[i] == '_')
    && (s != "" ==> s[0] != '_' && s[|s| - 1] != '_')
    && forall i :: 0 < i < |s| ==> !(s[i - 1] == '_' && s[i] == '_')
  }

  /** The loop's effect on what has been written so far. */
  function Append(b: string, c: char): string {
    if IsSlugLetter(c) then b + [c]
    else if b == "" || b[|b| - 1] == '_' then b
    else b + "_"
  }

  function Squeeze(s: string): string {
    if s == "" then "" else Append(Squeeze(s[..|s| - 1]), s[|s| - 1])
  }

  function DropUnderscores(s: string): string {
    if s != "" && s[|s| - 1] == '_' then DropUnderscores(s[..|s| - 1]) else s
  }

  function Slug(s: string): string {
    DropUnderscores(Squeeze(ToLower(TrimSpace(s))))
  }

  method Slugify(input: string) returns (slug: string)
    ensures slug == Slug(input)
  {
    var s := ToLower(TrimSpace(input));
    var b := "";
    var lastUnderscore := false;
    for i := 0 to |s|
      invariant b == Squeeze(s[..i])
      invariant lastUnderscore <==> b != "" && b[|b| - 1] == '_'
    {
      assert s[..i + 1][..i] == s[..i];
      var r := s[i];
      if 'a' <= r <= 'z' || '0' <= r <= '9' {
        b := b + [r];
        lastUnderscore := false;
      } else if !lastUnderscore && |b| > 0 {
        b := b + "_";
        lastUnderscore := true;
      }
    }
    assert s[..|s|] == s;
    slug := DropUnderscores(b);
  }

  /** A slug but for a possible underscore at the end. */
  predicate IsSqueezed(s: string) {
    && (forall i :: 0 <= i < |s| ==> IsSlugLetter(s[i]) || s[i] == '_')
    && (s != "" ==> s[0] != '_')
    && forall i :: 0 < i < |s| ==> !(s[i - 1] == '_' && s[i] == '_')
  }

  lemma {:induction false} SqueezeSqueezes(s: string)
    ensures IsSqueezed(Squeeze(s))
  {
    if s == "" {
    } else {
      SqueezeSqueezes(s[..|s| - 1]);
    }
  }

  lemma DropMakesSlug(s: string)
    requires IsSqueezed(s)
    ensures IsSlug(DropUnderscores(s))
  {
  }

  lemma SlugIsSlug(s: string)
    ensures IsSlug(Slug(s))
  {
    SqueezeSqueezes(ToLower(TrimSpace(s)));
    DropMakesSlug(Squeeze(ToLower(TrimSpace(s))));
  }

  lemma {:induction false} SqueezedIsFixed(s: string)
    requires IsSqueezed(s)
    ensures Squeeze(s) == s
  {
    if s == "" {
    } else {
      LastIsAppended(s);
      SqueezedIsFixed(s[..|s| - 1]);
    }
  }

  lemma LastIsAppended(s: string)
    requires IsSqueezed(s) && s != ""
    ensures IsSqueezed(s[..|s| - 1]) && Append(s[..|s| - 1], s[|s| - 1]) == s
  {
    assert s == s[..|s| - 1] + [s[|s| - 1]];
  }

  /** The slugs are exactly the texts that slugifying leaves alone. */
  lemma SlugsAreFixedPoints(s: string)
    ensures IsSlug(s) <==> Slug(s) == s
  {
    SlugIsSlug(s);
    if IsSlug(s) {
      SlugHasNoSpace(s);
      TrimmedIsFixed(s);
      LowerIsFixed(s);
      SqueezedIsFixed(s);
    }
  }

  lemma SlugHasNoSpace(s: string)
    requires IsSlug(s)
    ensures Trimmed(s)
  {
  }

  lemma LowerIsFixed(s: string)
    requires forall i :: 0 <= i < |s| ==> IsSlugLetter(s[i]) || s[i] == '_'
    ensures ToLower(s) == s
  {
  }

  // --- the words of a slug

  /** ASCII letters in lower case. */
  ghost function Folded(c: char): char {
    if 'A' <= c <= 'Z' then (c as int + 32) as char else c
  }

  ghost predicate IsWordLetter(c: char) {
    'a' <= Folded(c) <= 'z' || '0' <= c <= '9'
  }

  ghost predicate HasSlugLetters(w: string) {
    forall c :: c in w ==> IsSlugLetter(c)
  }

  /** The words of a text: its unbroken runs of letters and digits, in lower case, with an empty one after a final
      break. */
  ghost function Groups(s: string): (g: seq<string>)
    ensures g != []
    ensures forall i :: 0 <= i < |g| ==> HasSlugLetters(g[i])
    ensures forall i :: 0 <= i < |g| - 1 ==> g[i] != ""
  {
    if s == "" then [""] else WithNext(Groups(s[..|s| - 1]), s[|s| - 1])
  }

  ghost function WithNext(g: seq<string>, c: char): seq<string>
    requires g != []
  {
    var last := g[|g| - 1];
    if IsWordLetter(c) then g[..|g| - 1] + [last + [Folded(c)]]
    else if last == "" then g
    else g + [""]
  }

  ghost function WithoutEmptyEnd(g: seq<string>): seq<string>
    requires g != []
  {
    if g[|g| - 1] == "" then g[..|g| - 1] else g
  }

  ghost function Words(s: string): seq<string> {
    WithoutEmptyEnd(Groups(s))
  }

  ghost function Join(words: seq<string>): string {
    if words == [] then ""
    else if |words| == 1 then words[0]
    else Join(words[..|words| - 1]) + "_" + words[|words| - 1]
  }

  /** What stands before the next word. */
  ghost function Before(words: seq<string>): string {
    if words == [] then "" else Join(words) + "_"
  }

  lemma JoinSnoc(g: seq<string>, w: string)
    ensures Join(g + [w]) == Before(g) + w
  {
    assert (g + [w])[..|g|] == g;
  }

  lemma {:induction false} SqueezeJoins(s: string)
    ensures Squeeze(ToLower(s)) == Join(Groups(s))
  {
    if s == "" {
    } else {
      var front, c := s[..|s| - 1], s[|s| - 1];
      SqueezeJoins(front);
      assert ToLower(s)[..|s| - 1] == ToLower(front);
      var g := Groups(front);
      assert g == g[..|g| - 1] + [g[|g| - 1]];
      AppendJoins(g[..|g| - 1], g[|g| - 1], c);
    }
  }

  lemma AppendJoins(front: seq<string>, last: string, c: char)
    requires HasSlugLetters(last)
    ensures Append(Join(front + [last]), Lower(c)) ==
      if IsWordLetter(c) then Join(front + [last + [Folded(c)]])
      else if last == "" then Join(front + [last])
      else Join(front + [last] + [""])
  {
    JoinSnoc(front, last);
    JoinSnoc(front, last + [Folded(c)]);
    JoinSnoc(front + [last], "");
    AppendParts(Before(front), last, c, Join(front + [last]));
  }

  lemma AppendParts(before: string, last: string, c: char, joined: string)
    requires joined == before + last && HasSlugLetters(last)
    requires before == "" || before[|before| - 1] == '_'
    ensures Append(joined, Lower(c)) ==
      if IsWordLetter(c) then before + (last + [Folded(c)]) else if last == "" then joined else joined + "_" + ""
  {
    AppendTo(before, last, Lower(c));
    LowerIsFolded(c);
  }

  lemma LowerIsFolded(c: char)
    ensures Lower(c) == Folded(c) && (IsSlugLetter(Lower(c)) <==> IsWordLetter(c))
  {
  }

  lemma AppendTo(before: string, last: string, c: char)
    requires before == "" || before[|before| - 1] == '_'
    requires HasSlugLetters(last)
    ensures Append(before + last, c) ==
      if IsSlugLetter(c) then before + (last + [c]) else if last == "" then before + last else before + last + "_"
  {
    var b := before + last;
    assert last != "" ==> b[|b| - 1] == last[|last| - 1] && last[|last| - 1] in last;
  }

  lemma DropJoins(s: string)
    ensures DropUnderscores(Join(Groups(s))) == Join(Words(s))
  {
    var g := Groups(s);
    var front, last := g[..|g| - 1], g[|g| - 1];
    assert g == front + [last];
    if last != "" {
      DropNone(front, last);
    } else if front != [] {
      var n := |front| - 1;
      assert front == front[..n] + [front[n]] && front[n] == g[n];
      DropOne(front[..n], front[n]);
    }
  }

  lemma DropNone(front: seq<string>, last: string)
    requires last != "" && HasSlugLetters(last)
    ensures DropUnderscores(Join(front + [last])) == Join(front + [last])
  {
    JoinSnoc(front, last);
    NothingToDrop(Before(front), last);
  }

  lemma DropOne(front: seq<string>, last: string)
    requires last != "" && HasSlugLetters(last)
    ensures DropUnderscores(Join(front + [last] + [""])) == Join(front + [last])
  {
    DropNone(front, last);
    JoinSnoc(front + [last], "");
    DropLast(Join(front + [last]));
  }

  lemma DropLast(s: string)
    ensures DropUnderscores(s + "_" + "") == DropUnderscores(s)
  {
    assert (s + "_" + "")[..|s|] == s;
  }

  lemma NothingToDrop(before: string, last: string)
    requires last != "" && HasSlugLetters(last)
    ensures DropUnderscores(before + last) == before + last
  {
    var b := before + last;
    assert b[|b| - 1] == last[|last| - 1] && last[|last| - 1] in last;
  }

  lemma {:induction false} LeadingBreak(c: char, s: string)
    requires !IsWordLetter(c)
    ensures Groups([c] + s) == Groups(s)
  {
    if s == "" {
      assert [c][..0] == "" && [c] + s == [c];
    } else {
      var n := |s| - 1;
      LeadingBreak(c, s[..n]);
      assert ([c] + s)[..n + 1] == [c] + s[..n];
      assert Groups([c] + s) == WithNext(Groups([c] + s[..n]), s[n]);
    }
  }

  lemma {:induction false} TrimLeftKeepsWords(s: string)
    ensures Groups(TrimLeft(s)) == Groups(s)
  {
    if s == "" || !IsSpace(s[0]) {
    } else {
      assert s == [s[0]] + s[1..];
      LeadingBreak(s[0], s[1..]);
      TrimLeftKeepsWords(s[1..]);
    }
  }

  lemma {:induction false} TrimRightKeepsWords(s: string)
    ensures Words(TrimRight(s)) == Words(s)
  {
    if s == "" || !IsSpace(s[|s| - 1]) {
    } else {
      TrimRightKeepsWords(s[..|s| - 1]);
    }
  }

  /** A slug is the words of the text, in lower case, joined by underscores. */
  lemma SlugJoinsWords(s: string)
    ensures Slug(s) == Join(Words(s))
  {
    SqueezeJoins(TrimSpace(s));
    DropJoins(TrimSpace(s));
    TrimRightKeepsWords(TrimLeft(s));
    TrimLeftKeepsWords(s);
  }

  /** The ids of the built-in presets. */
  lemma BuiltInIds(id: string)
    ensures IsBuiltIn(id) <==> id in ["harbolnas_1212", "gajian_25", "lebaran_mudik", "selebgram_viral"]
  {
    assert REGISTRY[0].id == "harbolnas_1212" && REGISTRY[1].id == "gajian_25";
    assert REGISTRY[2].id == "lebaran_mudik" && REGISTRY[3].id == "selebgram_viral";
  }

  lemma SlugifyIsIdempotent(s: string)
    ensures Slug(Slug(s)) == Slug(s)
  {
    SlugIsSlug(s);
    SlugsAreFixedPoints(Slug(s));
  }

  // --- numbered candidates

  function Candidate(base: string, n: nat): string {
    if n == 0 then base else base + "_" + Itoa(n)
  }

  lemma CandidatesDistinct(base: string, m: nat, n: nat)
    requires Candidate(base, m) == Candidate(base, n)
    ensures m == n
  {
    var x := Candidate(base, m);
    if m > 0 { assert x[|base| + 1..] == Itoa(m); }
    if n > 0 { assert x[|base| + 1..] == Itoa(n); }
    if m > 0 && n > 0 { ItoaInjective(m, n); }
  }

  lemma CandidateIsSlug(base: string, n: nat)
    requires IsSlug(base) && base != ""
    ensures IsSlug(Candidate(base, n)) && Candidate(base, n) != ""
  {
  }

  ghost function Candidates(base: string, n: nat): set<string> {
    set k: nat | k < n :: Candidate(base, k)
  }

  lemma {:induction false} CandidateCount(base: string, n: nat)
    ensures |Candidates(base, n)| == n
  {
    if n == 0 {
    } else {
      CandidateCount(base, n - 1);
      OneMoreCandidate(base, n - 1);
    }
  }

  lemma OneMoreCandidate(base: string, n: nat)
    ensures Candidates(base, n + 1) == Candidates(base, n) + {Candidate(base, n)}
    ensures Candidate(base, n) !in Candidates(base, n)
  {
    if Candidate(base, n) in Candidates(base, n) {
      var k: nat :| k < n && Candidate(base, k) == Candidate(base, n);
      CandidatesDistinct(base, k, n);
    }
  }

  lemma CustomPresetIsSlug()
    ensures IsSlug("custom_preset")
  {
  }

  /** A finite set of taken ids cannot hold more distinct candidates than it has elements. */
  lemma Pigeonhole(base: string, n: nat, taken: set<string>)
    requires AllTaken(base, n, taken)
    ensures n <= |taken|
  {
    CandidateCount(base, n);
    Sorting.SubsetSize(Candidates(base, n), taken);
  }

  ghost predicate AllTaken(base: string, n: nat, taken: set<string>) {
    forall k: nat :: k < n ==> Candidate(base, k) in taken
  }

  lemma OneMoreTaken(base: string, n: nat, taken: set<string>)
    requires AllTaken(base, n, taken) && Candidate(base, n) in taken
    ensures AllTaken(base, n + 1, taken) && n + 1 <= |taken|
  {
    Pigeonhole(base, n + 1, taken);
  }

  // --- validation

  function ShareSum(shape: seq<ShapeStage>): int {
    if shape == [] then 0 else ShareSum(shape[..|shape| - 1]) + shape[|shape| - 1].durationPercent
  }

  predicate IsValid(p: Preset) {
    && TrimSpace(p.name) != "" && p.peakMultiplier >= 1 && p.suggestedTotalSeconds >= 1
    && (p.shape != [] ==>
          && (forall i :: 0 <= i < |p.shape| ==> p.shape[i].durationPercent >= 0 && p.shape[i].vuMultiplier >= 0.0)
          && ShareSum(p.shape) == 100)
  }

  method ValidatePreset(p: Preset) returns (problem: Option<Problem>)
    ensures problem.None? <==> IsValid(p)
  {
    if TrimSpace(p.name) == "" {
      return Some(NameMissing);
    }
    if p.peakMultiplier < 1 {
      return Some(PeakTooLow);
    }
    if p.suggestedTotalSeconds < 1 {
      return Some(DurationTooLow);
    }
    if |p.shape| > 0 {
      var sum := 0;
      for i := 0 to |p.shape|
        invariant sum == ShareSum(p.shape[..i])
        invariant forall k :: 0 <= k < i ==> p.shape[k].durationPercent >= 0 && p.shape[k].vuMultiplier >= 0.0
      {
        var st := p.shape[i];
        if st.durationPercent < 0 || st.vuMultiplier < 0.0 {
          return Some(NegativeStage);
        }
        assert p.shape[..i + 1][..i] == p.shape[..i];
        sum := sum + st.durationPercent;
      }
      assert p.shape[..|p.shape|] == p.shape;
      if sum != 100 {
        return Some(SharesNotHundred);
      }
    }
    return None;
  }

  // --- the id of a new preset

  ghost function TakenIds(custom: map<string, Preset>): (ids: set<string>)
    ensures forall id :: id in ids <==> IsBuiltIn(id) || id in custom
  {
    custom.Keys + set i | 0 <= i < |REGISTRY| :: REGISTRY[i].id
  }

  predicate IsTaken(custom: map<string, Preset>, id: string) {
    IsBuiltIn(id) || id in custom
  }

  /** The first of the numbered candidates that nothing has taken. */
  ghost predicate IsFirstFree(custom: map<string, Preset>, base: string, n: nat, id: string) {
    id == Candidate(base, n) && !IsTaken(custom, id) && forall k: nat :: k < n ==> IsTaken(custom, Candidate(base, k))
  }

  /** What candidates are derived from: the requested id if it is usable, else the name, else a default. */
  function BaseId(custom: map<string, Preset>, p: Preset): string {
    if Slug(p.id) != "" && !IsTaken(custom, Slug(p.id)) then Slug(p.id)
    else if Slug(p.name) != "" then Slug(p.name)
    else "custom_preset"
  }

  ghost predicate IsChosenId(custom: map<string, Preset>, p: Preset, id: string) {
    exists n: nat :: IsFirstFree(custom, BaseId(custom, p), n, id)
  }

  lemma BaseIdIsSlug(custom: map<string, Preset>, p: Preset)
    ensures IsSlug(BaseId(custom, p)) && BaseId(custom, p) != ""
  {
    SlugIsSlug(p.id);
    SlugIsSlug(p.name);
    CustomPresetIsSlug();
  }

  // --- the entries

  ghost predicate GoodEntry(id: string, p: Preset) {
    id != "" && IsSlug(id) && !IsBuiltIn(id) && p.id == id && p.custom && IsValid(p)
  }

  ghost function CustomListing(custom: map<string, Preset>, order: seq<string>): seq<Preset>
    requires forall id :: id in order ==> id in custom
  {
    seq(|order|, i requires 0 <= i < |order| => assert order[i] in order; custom[order[i]])
  }

  lemma OneMoreListed(custom: map<string, Preset>, order: seq<string>, p: Preset)
    requires p.id !in custom && forall id :: id in order ==> id in custom
    ensures CustomListing(custom[p.id := p], order + [p.id]) == CustomListing(custom, order) + [p]
  {
  }

  /** One place in the order for each custom preset, and nothing else in it. */
  ghost predicate ValidEntries(custom: map<string, Preset>, order: seq<string>) {
    && (forall id :: id in order <==> id in custom)
    && (forall i, j :: 0 <= i < j < |order| ==> order[i] != order[j])
    && (forall id :: id in custom ==> GoodEntry(id, custom[id]))
  }

  lemma EntryAdded(custom: map<string, Preset>, order: seq<string>, p: Preset)
    requires ValidEntries(custom, order) && p.id !in custom && GoodEntry(p.id, p)
    ensures ValidEntries(custom[p.id := p], order + [p.id])
    ensures CustomListing(custom[p.id := p], order + [p.id]) == CustomListing(custom, order) + [p]
  {
    OneMoreListed(custom, order, p);
    EachOnce(custom, order, p.id);
  }

  lemma EachOnce(custom: map<string, Preset>, order: seq<string>, id: string)
    requires ValidEntries(custom, order) && id !in custom
    ensures forall i, j :: 0 <= i < j < |order + [id]| ==> (order + [id])[i] != (order + [id])[j]
  {
    assert forall i :: 0 <= i < |order| ==> order[i] in order;
  }

  lemma EntryReplaced(custom: map<string, Preset>, order: seq<string>, p: Preset)
    requires ValidEntries(custom, order) && p.id in custom && GoodEntry(p.id, p)
    ensures ValidEntries(custom[p.id := p], order)
  {
  }

  lemma ListedNext(custom: map<string, Preset>, order: seq<string>, i: nat)
    requires i < |order| && forall id :: id in order ==> id in custom
    ensures order[i] in custom
    ensures CustomListing(custom, order)[..i + 1] == CustomListing(custom, order)[..i] + [custom[order[i]]]
  {
    assert order[i] in order;
  }

  // --- the store

  class Store {
    var custom: map<string, Preset>
    var order: seq<string>

    /** The creation order lists every custom preset exactly once; none of them hides a built-in; every id is a
        usable slug; and every stored preset passed validation. */
    ghost predicate Valid()
      reads this
    {
      ValidEntries(custom, order)
    }

    /** What a caller sees: built-ins first, then custom presets in order of creation. */
    ghost function Listing(): seq<Preset>
      reads this
      requires Valid()
    {
      REGISTRY + CustomListing(custom, order)
    }

    constructor ()
      ensures Valid() && order == [] && Listing() == REGISTRY
    {
      custom, order := map[], [];
    }

    method List() returns (out: seq<Preset>)
      requires Valid()
      ensures out == Listing()
    {
      out := REGISTRY;
      for i := 0 to |order|
        invariant out == REGISTRY + CustomListing(custom, order)[..i]
      {
        ListedNext(custom, order, i);
        out := out + [custom[order[i]]];
      }
    }

    method Find(id: string) returns (p: Option<Preset>)
      requires Valid()
      ensures p.Some? <==> IsBuiltIn(id) || id in custom
      ensures p.Some? ==> p.value.id == id && p.value in Listing()
    {
      p := FindBuiltIn(id);
      if p.Some? {
        return;
      }
      if id in custom {
        assert id in order;
        var i :| 0 <= i < |order| && order[i] == id;
        assert CustomListing(custom, order)[i] == custom[id];
        assert custom[id] in CustomListing(custom, order);
        return Some(custom[id]);
      }
      return None;
    }

    method IdTaken(id: string) returns (taken: bool)
      ensures taken <==> IsBuiltIn(id) || id in custom
    {
      var builtIn := FindBuiltIn(id);
      taken := builtIn.Some? || id in custom;
    }

    method Create(p: Preset) returns (r: Result)
      requires Valid()
      modifies this
      ensures Valid()
      ensures r.Ok? <==> IsValid(p)
      ensures r.Err? ==> custom == old(custom) && order == old(order)
      ensures r.Ok? ==> !IsBuiltIn(r.preset.id) && r.preset.id !in old(custom)
      ensures r.Ok? ==> r.preset.id != "" && IsSlug(r.preset.id)
      ensures r.Ok? ==> r.preset == p.(id := r.preset.id, custom := true)
      ensures r.Ok? ==> custom == old(custom)[r.preset.id := r.preset] && Listing() == old(Listing()) + [r.preset]
      ensures r.Ok? ==> IsChosenId(old(custom), p, r.preset.id)
      ensures r.Ok? && Slug(p.id) != "" && !IsBuiltIn(Slug(p.id)) && Slug(p.id) !in old(custom) ==>
          r.preset.id == Slug(p.id)
    {
      var problem := ValidatePreset(p);
      if problem.Some? {
        return Err(problem.value);
      }
      var id := ChooseId(p);
      var made := p.(id := id, custom := true);
      EntryAdded(custom, order, made);
      custom := custom[id := made];
      order := order + [id];
      return Ok(made);
    }

    /** The requested id if it is free, else one derived from the name, else a default; numbered when taken. */
    method ChooseId(p: Preset) returns (id: string)
      ensures !IsBuiltIn(id) && id !in custom && id != "" && IsSlug(id)
      ensures Slug(p.id) != "" && !IsBuiltIn(Slug(p.id)) && Slug(p.id) !in custom ==> id == Slug(p.id)
      ensures IsChosenId(custom, p, id)
    {
      BaseIdIsSlug(custom, p);
      id := Slugify(p.id);
      var taken := IdTaken(id);
      if id == "" || taken {
        id := Slugify(p.name);
      }
      if id == "" {
        id := "custom_preset";
      }
      id := Dedupe(id);
    }

    /** Counts up until a candidate is free; there are more candidates than taken ids. */
    method Dedupe(base: string) returns (id: string)
      requires IsSlug(base) && base != ""
      ensures !IsBuiltIn(id) && id !in custom && id != "" && IsSlug(id)
      ensures !IsBuiltIn(base) && base !in custom ==> id == base
      ensures exists n: nat :: IsFirstFree(custom, base, n, id)
    {
      id := base;
      var n: nat := 0;
      var taken := IdTaken(id);
      ghost var ids := TakenIds(custom);
      while taken
        invariant id == Candidate(base, n)
        invariant taken <==> id in ids
        invariant n > 0 ==> base in ids
        invariant AllTaken(base, n, ids)
        decreases |ids| + 1 - n
      {
        OneMoreTaken(base, n, ids);
        n := n + 1;
        id := base + "_" + Itoa(n);
        taken := IdTaken(id);
      }
      CandidateIsSlug(base, n);
      assert IsFirstFree(custom, base, n, id);
    }

    method Update(id: string, p: Preset) returns (r: Result)
      requires Valid()
      modifies this
      ensures Valid() && order == old(order)
      ensures r.Ok? <==> !IsBuiltIn(id) && IsValid(p) && id in old(custom)
      ensures r.Err? ==> custom == old(custom)
      ensures r.Ok? ==> r.preset == p.(id := id, custom := true) && custom == old(custom)[id := r.preset]
    {
      var builtIn := FindBuiltIn(id);
      if builtIn.Some? {
        return Err(BuiltIn);
      }
      var problem := ValidatePreset(p);
      if problem.Some? {
        return Err(problem.value);
      }
      if id !in custom {
        return Err(NotFound);
      }
      var made := p.(id := id, custom := true);
      EntryReplaced(custom, order, made);
      custom := custom[id := made];
      return Ok(made);
    }

    method Delete(id: string) returns (problem: Option<Problem>)
      requires Valid()
      modifies this
      ensures Valid()
      ensures problem.None? <==> !IsBuiltIn(id) && id in old(custom)
      ensures problem.Some? ==> custom == old(custom) && order == old(order)
      ensures problem.None? ==> custom == old(custom) - {id}
      ensures problem.None? ==>
        exists i :: 0 <= i < |old(order)| && old(order)[i] == id && order == old(order)[..i] + old(order)[i + 1..]
    {
      var builtIn := FindBuiltIn(id);
      if builtIn.Some? {
        return Some(BuiltIn);
      }
      if id !in custom {
        return Some(NotFound);
      }
      custom := custom - {id};
      assert id in order;
      var i := 0;
      while order[i] != id
        invariant 0 <= i < |order| && id !in order[..i]
        decreases |order| - i
      {
        assert order[i + 1..] == order[i..][1..];
        i := i + 1;
      }
      order := order[..i] + order[i + 1..];
      return None;
    }
  }
}
