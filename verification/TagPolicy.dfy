// Tag selection: internal/policy/policy.go, Select and the rules behind it.
module TagPolicy {
  import opened Text
  import opened NaturalOrder
  import opened StableSort
  import opened Winners

  // The regular-expression and semantic-version libraries, as the functions the rules
  // call. V is the parsed version.
  datatype Engines<!V> = Engines(
    compiles: string -> bool,
    matches: (string, string) -> bool,
    expand: (string, string, string) -> string,
    rangeParses: string -> bool,
    versionOf: string -> Option<V>,
    satisfies: (string, V) -> bool,
    newer: (V, V) -> bool)

  // Section 11 of Semantic Versioning 2.0.0: precedence is a total preorder.
  ghost predicate Lawful<V(!new)>(e: Engines<V>) { StrictWeakOrder(e.newer) }

  datatype RegexRule = RegexRule(pattern: string, extract: string, numeric: bool, order: string)

  // The first rule present, in this order, is the one that counts.
  datatype Rules = Rules(semver: Option<string>, regex: Option<RegexRule>,
                         numerical: Option<string>, alphabetical: Option<string>)

  datatype Spec = Spec(filterTags: Option<string>, rules: Rules)

  datatype SelectError = BadFilter | BadRange | BadPattern | NoRule

  datatype Result = Ok(tag: string) | Err(error: SelectError)

  const ASC := "asc"

  // ---- What a specification means -----------------------------------------------

  function Malformed<V>(e: Engines<V>, spec: Spec): Option<SelectError>
  {
    if spec.filterTags.Some? && !e.compiles(spec.filterTags.value) then Some(BadFilter)
    else if spec.rules.semver.Some? then
      (if e.rangeParses(spec.rules.semver.value) then None else Some(BadRange))
    else if spec.rules.regex.Some? then
      (if e.compiles(spec.rules.regex.value.pattern) then None else Some(BadPattern))
    else if spec.rules.numerical.Some? || spec.rules.alphabetical.Some? then None
    else Some(NoRule)
  }

  // strings.TrimPrefix(t, "v")
  function TrimV(t: string): string { if t != "" && t[0] == 'v' then t[1..] else t }

  predicate PassesFilter<V>(e: Engines<V>, spec: Spec, t: string)
  {
    spec.filterTags.Some? ==> e.matches(spec.filterTags.value, t)
  }

  predicate PassesRule<V>(e: Engines<V>, rules: Rules, t: string)
  {
    if rules.semver.Some? then
      e.versionOf(TrimV(t)).Some? && e.satisfies(rules.semver.value, e.versionOf(TrimV(t)).value)
    else rules.regex.Some? ==> e.matches(rules.regex.value.pattern, t)
  }

  // The text a rule other than semver orders a tag by.
  function KeyOf<V>(e: Engines<V>, rules: Rules, t: string): string
  {
    if rules.regex.Some? && rules.regex.value.extract != "" then
      e.expand(rules.regex.value.pattern, rules.regex.value.extract, t)
    else t
  }

  predicate NumericRule(rules: Rules)
  {
    if rules.regex.Some? then rules.regex.value.numeric else rules.numerical.Some?
  }

  predicate Ascending(rules: Rules)
  {
    if rules.regex.Some? then rules.regex.value.order == ASC
    else if rules.numerical.Some? then rules.numerical.value == ASC
    else rules.alphabetical.Some? && rules.alphabetical.value == ASC
  }

  predicate KeyLess(numeric: bool, a: string, b: string)
  {
    if numeric then Compare(a, b) < 0 else LexCompare(a, b) < 0
  }

  predicate TagLess<V>(e: Engines<V>, rules: Rules, a: string, b: string)
  {
    KeyLess(NumericRule(rules), KeyOf(e, rules, a), KeyOf(e, rules, b))
  }

  // Whether version-shaped tag y is strictly newer than x.
  predicate NewerTag<V>(e: Engines<V>, y: string, x: string)
  {
    var vy, vx := e.versionOf(TrimV(y)), e.versionOf(TrimV(x));
    vy.Some? && (vx.None? || e.newer(vy.value, vx.value))
  }

  // Whether y, seen after x, takes the win from it.
  predicate Takes<V>(e: Engines<V>, rules: Rules, y: string, x: string)
  {
    if rules.semver.Some? then NewerTag(e, y, x)
    else if Ascending(rules) then TagLess(e, rules, y, x)
    else !TagLess(e, rules, y, x)
  }

  function Takeover<V>(e: Engines<V>, rules: Rules): (string, string) -> bool
  {
    (y, x) => Takes(e, rules, y, x)
  }

  function FilterTest<V>(e: Engines<V>, spec: Spec): string -> bool { t => PassesFilter(e, spec, t) }

  function RuleTest<V>(e: Engines<V>, rules: Rules): string -> bool { t => PassesRule(e, rules, t) }

  // The tags a specification considers, and the winner among them.
  function Candidates<V>(e: Engines<V>, tags: seq<string>, spec: Spec): seq<string>
  {
    Keep(Keep(tags, FilterTest(e, spec)), RuleTest(e, spec.rules))
  }

  function Pick<V>(e: Engines<V>, tags: seq<string>, spec: Spec): Option<string>
  {
    Scan(Candidates(e, tags, spec), Takeover(e, spec.rules))
  }

  // "" stands for "nothing matched".
  function OrEmpty(w: Option<string>): string { if w.Some? then w.value else "" }

  function Selected<V>(e: Engines<V>, tags: seq<string>, spec: Spec): Result
  {
    if Malformed(e, spec).Some? then Err(Malformed(e, spec).value)
    else Ok(OrEmpty(Pick(e, tags, spec)))
  }

  // ---- The code -----------------------------------------------------------------

  method Filter<V>(e: Engines<V>, tags: seq<string>, spec: Spec) returns (out: seq<string>)
    requires spec.filterTags.Some?
    ensures out == Keep(tags, FilterTest(e, spec))
  {
    out := [];
    for i := 0 to |tags|
      invariant out == Keep(tags[..i], FilterTest(e, spec))
    {
      if e.matches(spec.filterTags.value, tags[i]) {
        out := out + [tags[i]];
      }
      assert tags[..i + 1][..i] == tags[..i];
    }
    assert tags[..|tags|] == tags;
  }

  method SelectSemver<V>(e: Engines<V>, tags: seq<string>, rules: Rules) returns (r: Result)
    requires rules.semver.Some?
    ensures r == if !e.rangeParses(rules.semver.value) then Err(BadRange)
                 else Ok(OrEmpty(Scan(Keep(tags, RuleTest(e, rules)), Takeover(e, rules))))
  {
    var constraint := rules.semver.value;
    if !e.rangeParses(constraint) {
      return Err(BadRange);
    }
    var best: Option<V> := None;
    var bestTag := "";
    for i := 0 to |tags|
      invariant Scan(Keep(tags[..i], RuleTest(e, rules)), Takeover(e, rules))
             == if best.Some? then Some(bestTag) else None
      invariant if best.Some? then e.versionOf(TrimV(bestTag)) == best else bestTag == ""
    {
      var t := tags[i];
      assert tags[..i + 1] == tags[..i] + [t];
      ScanStep(tags[..i], t, RuleTest(e, rules), Takeover(e, rules));
      var v := e.versionOf(TrimV(t));
      if v.Some? && e.satisfies(constraint, v.value) {
        if best.None? || e.newer(v.value, best.value) {
          best := v;
          bestTag := t;
        }
      }
    }
    assert tags[..|tags|] == tags;
    return Ok(bestTag);
  }

  datatype Pair = Pair(original: string, key: string)

  function PairOf<V>(e: Engines<V>, rules: Rules, t: string): Pair { Pair(t, KeyOf(e, rules, t)) }

  function PairsOf<V>(e: Engines<V>, rules: Rules, s: seq<string>): (r: seq<Pair>)
    ensures |r| == |s|
    ensures forall i | 0 <= i < |s| :: r[i] == PairOf(e, rules, s[i])
  {
    seq(|s|, i requires 0 <= i < |s| => PairOf(e, rules, s[i]))
  }

  function PairLess(numeric: bool): (Pair, Pair) -> bool { (p: Pair, q: Pair) => KeyLess(numeric, p.key, q.key) }

  lemma KeyOrder(numeric: bool, a: string, b: string, c: string)
    ensures !KeyLess(numeric, a, a)
    ensures KeyLess(numeric, a, b) && KeyLess(numeric, b, c) ==> KeyLess(numeric, a, c)
    ensures KeyLess(numeric, a, c) ==> KeyLess(numeric, a, b) || KeyLess(numeric, b, c)
  {
    if numeric {
      TotalPreorder(a, b, c);
      TotalPreorder(c, b, a);
      TotalPreorder(a, c, b);
    } else {
      LexAntisymmetric(a, b);
      LexAntisymmetric(b, c);
      LexAntisymmetric(a, c);
      if LexCompare(a, b) <= 0 && LexCompare(b, c) <= 0 { LexTransitive(a, b, c); }
      if LexCompare(c, b) <= 0 && LexCompare(b, a) <= 0 { LexTransitive(c, b, a); }
    }
  }

  // sort.SliceStable is called within its contract, numeric or not.
  lemma PairLessIsOrder(numeric: bool)
    ensures StrictWeakOrder(PairLess(numeric))
  {
    forall p: Pair, q: Pair, r: Pair
      ensures !PairLess(numeric)(p, p)
      ensures PairLess(numeric)(p, q) && PairLess(numeric)(q, r) ==> PairLess(numeric)(p, r)
      ensures PairLess(numeric)(p, r) ==> PairLess(numeric)(p, q) || PairLess(numeric)(q, r)
    {
      KeyOrder(numeric, p.key, q.key, r.key);
    }
  }

  // Sorting pairs and taking an end is scanning the tags themselves.
  lemma {:induction false} ScanPairs<V>(e: Engines<V>, rules: Rules, s: seq<string>, beats: (Pair, Pair) -> bool)
    requires forall x, y :: beats(PairOf(e, rules, y), PairOf(e, rules, x)) == Takes(e, rules, y, x)
    ensures s == [] ==> Scan(s, Takeover(e, rules)) == None
    ensures s != [] ==>
      && Scan(PairsOf(e, rules, s), beats).Some?
      && Scan(s, Takeover(e, rules)) == Some(Scan(PairsOf(e, rules, s), beats).value.original)
    ensures s != [] ==> exists t :: Scan(PairsOf(e, rules, s), beats) == Some(PairOf(e, rules, t))
  {
    hide KeyOf, Takes;
    if s != [] {
      var init := s[..|s| - 1];
      ScanPairs(e, rules, init, beats);
      assert PairsOf(e, rules, s)[..|s| - 1] == PairsOf(e, rules, init);
    }
  }

  // Each end of the sorted pairs holds the winner of the scan in its direction.
  lemma FirstPairWins<V>(e: Engines<V>, rules: Rules, tags: seq<string>, less: (Pair, Pair) -> bool)
    requires rules.semver.None? && tags != [] && Ascending(rules)
    requires StrictWeakOrder(less)
    requires forall x, y :: less(PairOf(e, rules, x), PairOf(e, rules, y)) == TagLess(e, rules, x, y)
    ensures |Sort(PairsOf(e, rules, tags), less)| == |tags|
    ensures Some(Sort(PairsOf(e, rules, tags), less)[0].original) == Scan(tags, Takeover(e, rules))
  {
    SortEnds(PairsOf(e, rules, tags), less);
    ScanPairs(e, rules, tags, less);
  }

  lemma LastPairWins<V>(e: Engines<V>, rules: Rules, tags: seq<string>, less: (Pair, Pair) -> bool)
    requires rules.semver.None? && tags != [] && !Ascending(rules)
    requires StrictWeakOrder(less)
    requires forall x, y :: less(PairOf(e, rules, x), PairOf(e, rules, y)) == TagLess(e, rules, x, y)
    ensures |Sort(PairsOf(e, rules, tags), less)| == |tags|
    ensures Some(Sort(PairsOf(e, rules, tags), less)[|tags| - 1].original) == Scan(tags, Takeover(e, rules))
  {
    SortEnds(PairsOf(e, rules, tags), less);
    ScanPairs(e, rules, tags, NotBefore(less));
  }

  // Sorts the pairs in place and returns the original tag at the end the order asks for.
  method TakeEnd<V>(e: Engines<V>, rules: Rules, tags: seq<string>) returns (r: string)
    requires rules.semver.None? && tags != []
    ensures Some(r) == Scan(tags, Takeover(e, rules))
  {
    var pairs := PairsOf(e, rules, tags);
    var a := new Pair[|pairs|](i requires 0 <= i < |pairs| => pairs[i]);
    assert a[..] == pairs;
    var less := PairLess(NumericRule(rules));
    SliceStable(a, less);
    PairLessIsOrder(NumericRule(rules));
    assert |a[..]| == a.Length;
    if Ascending(rules) {
      FirstPairWins(e, rules, tags, less);
      return a[0].original;
    }
    LastPairWins(e, rules, tags, less);
    return a[a.Length - 1].original;
  }

  method SelectRegex<V>(e: Engines<V>, tags: seq<string>, rules: Rules) returns (r: Result)
    requires rules.semver.None? && rules.regex.Some?
    ensures r == if !e.compiles(rules.regex.value.pattern) then Err(BadPattern)
                 else Ok(OrEmpty(Scan(Keep(tags, RuleTest(e, rules)), Takeover(e, rules))))
  {
    if !e.compiles(rules.regex.value.pattern) {
      return Err(BadPattern);
    }
    var kept := [];
    for i := 0 to |tags|
      invariant kept == Keep(tags[..i], RuleTest(e, rules))
    {
      if e.matches(rules.regex.value.pattern, tags[i]) {
        kept := kept + [tags[i]];
      }
      assert tags[..i + 1][..i] == tags[..i];
    }
    assert tags[..|tags|] == tags;
    if kept == [] {
      return Ok("");
    }
    var w := TakeEnd(e, rules, kept);
    return Ok(w);
  }

  method SelectOrdered<V>(e: Engines<V>, tags: seq<string>, rules: Rules) returns (r: Result)
    requires rules.semver.None? && rules.regex.None?
    ensures r == Ok(OrEmpty(Scan(Keep(tags, RuleTest(e, rules)), Takeover(e, rules))))
  {
    KeepAll(tags, RuleTest(e, rules));
    if tags == [] {
      return Ok("");
    }
    var w := TakeEnd(e, rules, tags);
    return Ok(w);
  }

  method Select<V>(e: Engines<V>, tags: seq<string>, spec: Spec) returns (r: Result)
    ensures r == Selected(e, tags, spec)
  {
    var candidates := tags;
    if spec.filterTags.Some? {
      if !e.compiles(spec.filterTags.value) {
        return Err(BadFilter);
      }
      candidates := Filter(e, candidates, spec);
    } else {
      KeepAll(tags, FilterTest(e, spec));
    }
    if spec.rules.semver.Some? {
      r := SelectSemver(e, candidates, spec.rules);
    } else if spec.rules.regex.Some? {
      r := SelectRegex(e, candidates, spec.rules);
    } else if spec.rules.numerical.Some? || spec.rules.alphabetical.Some? {
      r := SelectOrdered(e, candidates, spec.rules);
    } else {
      r := Err(NoRule);
    }
  }

  // ---- Selection over a concatenation -------------------------------------------

  lemma TakeoverIsCoherent<V(!new)>(e: Engines<V>, rules: Rules)
    requires Lawful(e)
    ensures Coherent(Takeover(e, rules))
  {
    forall x, y, z
      ensures Takes(e, rules, z, y) && Takes(e, rules, y, x) ==> Takes(e, rules, z, x)
      ensures !Takes(e, rules, z, y) && !Takes(e, rules, y, x) ==> !Takes(e, rules, z, x)
    {
      if rules.semver.None? {
        KeyOrder(NumericRule(rules), KeyOf(e, rules, z), KeyOf(e, rules, y), KeyOf(e, rules, x));
      }
    }
  }

  lemma CandidatesConcat<V>(e: Engines<V>, xs: seq<string>, ys: seq<string>, spec: Spec)
    ensures Candidates(e, xs + ys, spec) == Candidates(e, xs, spec) + Candidates(e, ys, spec)
  {
    var f, g := FilterTest(e, spec), RuleTest(e, spec.rules);
    KeepConcat(xs, ys, f);
    KeepConcat(Keep(xs, f), Keep(ys, f), g);
  }

  lemma PickConcat<V(!new)>(e: Engines<V>, xs: seq<string>, ys: seq<string>, spec: Spec)
    requires Lawful(e)
    ensures Pick(e, xs + ys, spec)
         == Winner(Pick(e, xs, spec), Pick(e, ys, spec), Takeover(e, spec.rules))
  {
    TakeoverIsCoherent(e, spec.rules);
    CandidatesConcat(e, xs, ys, spec);
    ScanConcat(Candidates(e, xs, spec), Candidates(e, ys, spec), Takeover(e, spec.rules));
  }

  // The winner, when there is one, as a one-element tag list.
  function WinnerList<V>(e: Engines<V>, xs: seq<string>, spec: Spec): seq<string>
  {
    if Selected(e, xs, spec).Ok? && Selected(e, xs, spec).tag != "" then [Selected(e, xs, spec).tag] else []
  }

  lemma PickIsCandidate<V>(e: Engines<V>, xs: seq<string>, spec: Spec)
    requires Pick(e, xs, spec).Some?
    ensures var w := Pick(e, xs, spec).value;
            w in xs && PassesFilter(e, spec, w) && PassesRule(e, spec.rules, w)
  {
    var w := Pick(e, xs, spec).value;
    assert w in Candidates(e, xs, spec);
    assert w in Keep(xs, FilterTest(e, spec));
  }

  // A list of one tag, or none.
  lemma PickOne<V>(e: Engines<V>, w: string, spec: Spec)
    ensures Pick(e, [], spec) == None
    ensures PassesFilter(e, spec, w) && PassesRule(e, spec.rules, w) ==> Pick(e, [w], spec) == Some(w)
  {
    hide PassesFilter, PassesRule, Takes;
    assert Keep([], FilterTest(e, spec)) == [] && Keep([], RuleTest(e, spec.rules)) == [];
    if PassesFilter(e, spec, w) && PassesRule(e, spec.rules, w) {
      KeepAll([w], FilterTest(e, spec));
      KeepAll([w], RuleTest(e, spec.rules));
    }
  }

  lemma PickWinnerList<V>(e: Engines<V>, xs: seq<string>, spec: Spec)
    requires Malformed(e, spec).None? && "" !in xs
    ensures Pick(e, WinnerList(e, xs, spec), spec) == Pick(e, xs, spec)
  {
    hide Pick, PassesFilter, PassesRule;
    var w := Pick(e, xs, spec);
    if w.Some? { PickIsCandidate(e, xs, spec); }
    PickOne(e, if w.Some? then w.value else "", spec);
  }

  // Select is a homomorphism: selecting from two lists is selecting from their winners.
  lemma SelectConcat<V(!new)>(e: Engines<V>, xs: seq<string>, ys: seq<string>, spec: Spec)
    requires Lawful(e) && "" !in xs + ys
    ensures Selected(e, xs + ys, spec)
         == Selected(e, WinnerList(e, xs, spec) + WinnerList(e, ys, spec), spec)
  {
    if Malformed(e, spec).None? {
      assert forall t :: t in xs || t in ys ==> t in xs + ys;
      PickConcat(e, xs, ys, spec);
      PickConcat(e, WinnerList(e, xs, spec), WinnerList(e, ys, spec), spec);
      PickWinnerList(e, xs, spec);
      PickWinnerList(e, ys, spec);
    }
  }

  // Removing a tag that does not win leaves the winner as it was.
  lemma DropLoser<V(!new)>(e: Engines<V>, xs: seq<string>, t: string, ys: seq<string>, spec: Spec)
    requires Lawful(e)
    requires Pick(e, xs + [t] + ys, spec) != Some(t)
    ensures Pick(e, xs + ys, spec) == Pick(e, xs + [t] + ys, spec)
  {
    TakeoverIsCoherent(e, spec.rules);
    PickConcat(e, xs + [t], ys, spec);
    PickConcat(e, xs, [t], spec);
    PickConcat(e, xs, ys, spec);
    if Pick(e, [t], spec).Some? { PickIsCandidate(e, [t], spec); }
    var b := Takeover(e, spec.rules);
    assert forall x, y, z :: b(z, y) && b(y, x) ==> b(z, x);
  }

  lemma OneWay<V(!new)>(less: (V, V) -> bool, x: V, y: V)
    requires StrictWeakOrder(less)
    ensures !(less(x, y) && less(y, x))
  {
    assert !less(x, x);
  }

  // A tag that takes over under a highest-first rule is no lower than the one it replaces.
  lemma TakingIsNotLower<V(!new)>(e: Engines<V>, rules: Rules, was: string, now: string)
    requires Lawful(e)
    requires rules.semver.Some? || !Ascending(rules)
    requires now == was || Takes(e, rules, now, was)
    ensures if rules.semver.Some? then !NewerTag(e, was, now) else !TagLess(e, rules, now, was)
  {
    if rules.semver.Some? {
      var w, n := e.versionOf(TrimV(was)), e.versionOf(TrimV(now));
      if w.Some? && n.Some? {
        OneWay(e.newer, w.value, n.value);
      }
    } else {
      var k := KeyOf(e, rules, was);
      KeyOrder(NumericRule(rules), k, k, k);
    }
  }

  // More tags never move a highest-first winner down.
  lemma NewTagsNeverLower<V(!new)>(e: Engines<V>, xs: seq<string>, ys: seq<string>, spec: Spec)
    requires Lawful(e) && Pick(e, xs, spec).Some?
    requires spec.rules.semver.Some? || !Ascending(spec.rules)
    ensures Pick(e, xs + ys, spec).Some?
    ensures var was, now := Pick(e, xs, spec).value, Pick(e, xs + ys, spec).value;
            if spec.rules.semver.Some? then !NewerTag(e, was, now)
            else !TagLess(e, spec.rules, now, was)
  {
    PickConcat(e, xs, ys, spec);
    TakingIsNotLower(e, spec.rules, Pick(e, xs, spec).value, Pick(e, xs + ys, spec).value);
  }

  // ---- Who wins, without sorting or scanning ------------------------------------

  predicate Admitted<V>(e: Engines<V>, spec: Spec, t: string)
  {
    PassesFilter(e, spec, t) && PassesRule(e, spec.rules, t)
  }

  function Admission<V>(e: Engines<V>, spec: Spec): string -> bool { t => Admitted(e, spec, t) }

  ghost predicate Wins<V>(e: Engines<V>, tags: seq<string>, spec: Spec, i: int)
  {
    WinsAt(tags, Admission(e, spec), Takeover(e, spec.rules), i)
  }

  // The selected tag is the tag of the one winning position: for semver the first of the
  // newest admitted versions, for asc the first of the least keys, otherwise the last of
  // the greatest keys. It is empty exactly when no tag is admitted.
  lemma SelectedIsTheWinner<V(!new)>(e: Engines<V>, tags: seq<string>, spec: Spec)
    requires Lawful(e) && Malformed(e, spec).None? && "" !in tags
    ensures forall w :: w != "" ==>
      (Selected(e, tags, spec) == Ok(w) <==> exists i :: Wins(e, tags, spec, i) && tags[i] == w)
    ensures Selected(e, tags, spec) == Ok("") <==> forall t | t in tags :: !Admitted(e, spec, t)
  {
    var p, b := Admission(e, spec), Takeover(e, spec.rules);
    TakeoverIsCoherent(e, spec.rules);
    KeepTwice(tags, FilterTest(e, spec), RuleTest(e, spec.rules), p);
    ScanHasPosition(tags, p, b);
    forall i | Wins(e, tags, spec, i)
      ensures Pick(e, tags, spec) == Some(tags[i])
    {
      WinsAtIsScan(tags, p, b, i);
    }
  }

  // The three readings of a winning position, in terms of keys and versions.
  lemma WinningPosition<V(!new)>(e: Engines<V>, tags: seq<string>, spec: Spec, i: nat)
    requires Lawful(e) && i < |tags| && Admitted(e, spec, tags[i])
    ensures spec.rules.semver.Some? ==>
      (Wins(e, tags, spec, i)
       <==> && (forall j | 0 <= j < |tags| && Admitted(e, spec, tags[j]) :: !NewerTag(e, tags[j], tags[i]))
            && (forall j | 0 <= j < i && Admitted(e, spec, tags[j]) :: NewerTag(e, tags[i], tags[j])))
    ensures spec.rules.semver.None? && Ascending(spec.rules) ==>
      (Wins(e, tags, spec, i)
       <==> && (forall j | 0 <= j < |tags| && Admitted(e, spec, tags[j]) :: !TagLess(e, spec.rules, tags[j], tags[i]))
            && (forall j | 0 <= j < i && Admitted(e, spec, tags[j]) :: TagLess(e, spec.rules, tags[i], tags[j])))
    ensures spec.rules.semver.None? && !Ascending(spec.rules) ==>
      (Wins(e, tags, spec, i)
       <==> && (forall j | 0 <= j < |tags| && Admitted(e, spec, tags[j]) :: !TagLess(e, spec.rules, tags[i], tags[j]))
            && (forall j | i < j < |tags| && Admitted(e, spec, tags[j]) :: TagLess(e, spec.rules, tags[j], tags[i])))
  {
    forall j | 0 <= j < |tags|
      ensures spec.rules.semver.None? ==> !(TagLess(e, spec.rules, tags[j], tags[i]) && TagLess(e, spec.rules, tags[i], tags[j]))
      ensures j == i && spec.rules.semver.None? ==> !TagLess(e, spec.rules, tags[j], tags[i])
    {
      KeyOrder(NumericRule(spec.rules), KeyOf(e, spec.rules, tags[j]), KeyOf(e, spec.rules, tags[i]), KeyOf(e, spec.rules, tags[j]));
    }
  }
}
