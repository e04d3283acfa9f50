// What a numerical policy does with tags that are no numbers: internal/policy/policy.go:53-54,
// 148-218. The program's README.md:448 says it ignores them.
module NumericTags {
  import opened Text
  import opened NaturalOrder
  import opened Winners
  import opened TagPolicy

  // ---- A tag against a number ---------------------------------------------------

  // The run of digits a tag starts with.
  function LeadingRun(t: string): (r: string)
    ensures OnlyDigits(r)
  {
    t[..RunLength(t, true)]
  }

  lemma NumberChunks(d: string)
    requires AllDigits(d)
    ensures Chunks(d) == [d]
  {
    assert RunLength(d, true) == |d|;
    assert d[..|d|] == d && d[|d|..] == [];
  }

  lemma FirstChunk(t: string)
    requires t != []
    ensures Chunks(t) != [] && t[0] == Chunks(t)[0][0]
    ensures IsDigit(t[0]) ==> AllDigits(Chunks(t)[0]) && Chunks(t)[0] == LeadingRun(t)
    ensures !IsDigit(t[0]) ==> NoDigits(Chunks(t)[0])
    ensures IsDigit(t[0]) && !AllDigits(t) ==> |Chunks(t)| > 1
  {
    FirstRun(t);
    var n := RunLength(t, IsDigit(t[0]));
    if IsDigit(t[0]) && !AllDigits(t) {
      assert n < |t|;
      assert t[n..] != [];
    }
  }

  // Two numbers compare by value.
  lemma NumberAgainstNumber(c: string, d: string)
    requires AllDigits(c) && AllDigits(d)
    ensures Compare(c, d) < 0 <==> Value(c) < Value(d)
    ensures Compare(c, d) == 0 <==> Value(c) == Value(d)
  {
    NumberChunks(c);
    NumberChunks(d);
    DigitRunsByValue(c, d);
    ChunksRange(Chunks(c), Chunks(d));
    assert [c][1..] == [] && [d][1..] == [];
  }

  // Any other tag is above a number exactly when it starts above '9', or with a run of
  // digits of at least that value; otherwise it is below. It never ties.
  lemma TagAgainstNumber(t: string, d: string)
    requires AllDigits(d) && !AllDigits(t)
    ensures Compare(t, d)
         == if t != "" && (t[0] > '9' || (IsDigit(t[0]) && Value(LeadingRun(t)) >= Value(d))) then 1 else -1
  {
    NumberChunks(d);
    if t != "" {
      FirstChunk(t);
      var x := Chunks(t)[0];
      ChunksRange(Chunks(t), Chunks(d));
      if IsDigit(t[0]) {
        DigitRunsByValue(x, d);
      } else {
        MixedChunks(d, x);
      }
    }
  }

  // ---- The whole list -----------------------------------------------------------

  predicate IsNumber(t: string) { AllDigits(t) }

  function Numbers(tags: seq<string>): seq<string> { Keep(tags, IsNumber) }

  // A rule that orders all tags by number.
  predicate Numerical(spec: Spec)
  {
    spec.rules.semver.None? && spec.rules.regex.None? && spec.rules.numerical.Some?
  }

  // m is the value of some admitted number, and bound(v, m) holds of every admitted value v.
  ghost predicate Extreme<V>(e: Engines<V>, spec: Spec, tags: seq<string>, m: nat)
  {
    && (exists d :: d in tags && PassesFilter(e, spec, d) && AllDigits(d) && Value(d) == m)
    && forall d | d in tags && PassesFilter(e, spec, d) && AllDigits(d) ::
         if Ascending(spec.rules) then m <= Value(d) else Value(d) <= m
  }

  // A tag that outdoes every number: for desc it is above the greatest, for asc below the
  // least.
  predicate Outdoes(rules: Rules, t: string, m: nat)
  {
    !AllDigits(t)
    && if Ascending(rules) then t == "" || t[0] < '0' || (IsDigit(t[0]) && Value(LeadingRun(t)) < m)
       else t != "" && (t[0] > '9' || (IsDigit(t[0]) && Value(LeadingRun(t)) >= m))
  }

  lemma OutdoesMeans<V>(e: Engines<V>, spec: Spec, t: string, d: string, m: nat)
    requires Numerical(spec) && !AllDigits(t) && AllDigits(d)
    requires if Ascending(spec.rules) then m <= Value(d) else Value(d) <= m
    ensures Outdoes(spec.rules, t, m) ==> Takes(e, spec.rules, t, d) && !Takes(e, spec.rules, d, t)
    ensures !Outdoes(spec.rules, t, m) && Value(d) == m ==> !Takes(e, spec.rules, t, d) && Takes(e, spec.rules, d, t)
  {
    TagAgainstNumber(t, d);
    TotalPreorder(t, d, t);
    hide Compare, Value, LeadingRun;
  }

  // Elements that lose to the winner among the rest, whichever of the two comes first, can
  // be dropped.
  lemma DropLosers<T(!new)>(s: seq<T>, p: T -> bool, beats: (T, T) -> bool)
    requires Coherent(beats) && Scan(Keep(s, p), beats).Some?
    requires var w := Scan(Keep(s, p), beats).value;
             forall t | t in s && !p(t) :: !beats(t, w) && beats(w, t)
    ensures Scan(s, beats) == Scan(Keep(s, p), beats)
  {
    ScanHasPosition(s, p, beats);
    var w := Scan(Keep(s, p), beats).value;
    var i :| WinsAt(s, p, beats, i) && s[i] == w;
    var all := (t: T) => true;
    assert WinsAt(s, all, beats, i);
    WinsAtIsScan(s, all, beats, i);
    KeepAll(s, all);
  }

  // One element that wins against every element of the rest keeps them all from winning.
  lemma NeverWins<T(!new)>(s: seq<T>, p: T -> bool, beats: (T, T) -> bool, t: T)
    requires Coherent(beats) && t in s && !p(t)
    requires forall d | d in s && p(d) :: beats(t, d) && !beats(d, t)
    ensures Scan(s, beats).Some? && !p(Scan(s, beats).value)
  {
    var all := (x: T) => true;
    KeepAll(s, all);
    ScanHasPosition(s, all, beats);
    var i :| WinsAt(s, all, beats, i) && s[i] == Scan(s, beats).value;
    var j :| 0 <= j < |s| && s[j] == t;
  }

  lemma NumericalCandidates<V>(e: Engines<V>, tags: seq<string>, spec: Spec)
    requires Numerical(spec)
    ensures Malformed(e, spec).None? || Malformed(e, spec) == Some(BadFilter)
    ensures Candidates(e, tags, spec) == Keep(tags, FilterTest(e, spec))
    ensures Candidates(e, Numbers(tags), spec) == Keep(Keep(tags, FilterTest(e, spec)), IsNumber)
  {
    var f, both := FilterTest(e, spec), (t: string) => PassesFilter(e, spec, t) && AllDigits(t);
    KeepAll(Keep(tags, f), RuleTest(e, spec.rules));
    KeepAll(Keep(Numbers(tags), f), RuleTest(e, spec.rules));
    KeepTwice(tags, f, IsNumber, both);
    KeepTwice(tags, IsNumber, f, both);
  }

  // With at least one number among the admitted tags: the policy selects what it selects
  // among the numbers alone exactly when no other admitted tag outdoes them all.
  lemma NumbersDecideIff<V(!new)>(e: Engines<V>, tags: seq<string>, spec: Spec, m: nat)
    requires Lawful(e) && Numerical(spec) && Malformed(e, spec).None? && Extreme(e, spec, tags, m)
    ensures Selected(e, tags, spec) == Selected(e, Numbers(tags), spec)
       <==> forall t | t in tags && PassesFilter(e, spec, t) :: !Outdoes(spec.rules, t, m)
  {
    var f, beats := FilterTest(e, spec), Takeover(e, spec.rules);
    var s := Keep(tags, f);
    NumericalCandidates(e, tags, spec);
    TakeoverIsCoherent(e, spec.rules);
    MembersKept(tags, f);
    WinningNumber(e, tags, spec, m);
    var w := Scan(Keep(s, IsNumber), beats).value;
    if t :| t in tags && PassesFilter(e, spec, t) && Outdoes(spec.rules, t, m) {
      assert t in s;
      forall d | d in s && IsNumber(d)
        ensures beats(t, d) && !beats(d, t)
      {
        OutdoesMeans(e, spec, t, d, m);
      }
      NeverWins(s, IsNumber, beats, t);
    } else {
      forall t | t in s && !IsNumber(t)
        ensures !beats(t, w) && beats(w, t)
      {
        OutdoesMeans(e, spec, t, w, m);
      }
      DropLosers(s, IsNumber, beats);
    }
  }

  lemma {:induction false} MembersKept<T>(s: seq<T>, p: T -> bool)
    ensures forall t :: t in Keep(s, p) <==> t in s && p(t)
    decreases |s|
  {
    if s != [] {
      var init, last := s[..|s| - 1], s[|s| - 1];
      assert s == init + [last];
      MembersKept(init, p);
    }
  }

  // A number that is not outdone by one of the extreme value has that value itself.
  lemma NotOutdone<V>(e: Engines<V>, spec: Spec, w: string, d: string)
    requires Numerical(spec) && AllDigits(w) && AllDigits(d)
    requires if Ascending(spec.rules) then Value(d) <= Value(w) else Value(w) <= Value(d)
    requires w == d || !Takes(e, spec.rules, d, w) || Takes(e, spec.rules, w, d)
    ensures Value(w) == Value(d)
  {
    NumberAgainstNumber(d, w);
    NumberAgainstNumber(w, d);
    hide Compare, Value, AllDigits;
  }

  // The winner among the numbers has the extreme value.
  lemma WinningNumber<V(!new)>(e: Engines<V>, tags: seq<string>, spec: Spec, m: nat)
    requires Lawful(e) && Numerical(spec) && Extreme(e, spec, tags, m)
    ensures var w := Scan(Keep(Keep(tags, FilterTest(e, spec)), IsNumber), Takeover(e, spec.rules));
            w.Some? && AllDigits(w.value) && Value(w.value) == m
  {
    var f, beats := FilterTest(e, spec), Takeover(e, spec.rules);
    var s := Keep(tags, f);
    TakeoverIsCoherent(e, spec.rules);
    MembersKept(tags, f);
    MembersKept(s, IsNumber);
    var d :| d in tags && PassesFilter(e, spec, d) && AllDigits(d) && Value(d) == m;
    assert d in Keep(s, IsNumber);
    hide Scan, Keep, Takes, Value, PassesFilter, AllDigits, Coherent;
    WinnerAgainst(s, IsNumber, beats, d);
    var w := Scan(Keep(s, IsNumber), beats).value;
    assert w in Keep(s, IsNumber);
    NotOutdone(e, spec, w, d);
  }

  // What the winner owes to any other admitted element.
  lemma WinnerAgainst<T(!new)>(s: seq<T>, p: T -> bool, beats: (T, T) -> bool, d: T)
    requires Coherent(beats) && d in s && p(d)
    ensures var w := Scan(Keep(s, p), beats);
            w.Some? && (w.value == d || !beats(d, w.value) || beats(w.value, d))
  {
    hide Scan, Keep, Coherent;
    ScanHasPosition(s, p, beats);
    var i :| WinsAt(s, p, beats, i) && s[i] == Scan(Keep(s, p), beats).value;
    var j :| 0 <= j < |s| && s[j] == d;
  }

  // ---- The smallest case against the documentation ------------------------------

  const HIGHEST := Spec(None, Rules(None, None, Some("desc"), None))

  lemma WordAbove(n: string, w: string)
    requires n != "" && IsDigit(n[0]) && w != "" && w[0] > '9'
    ensures Compare(n, w) == -1
  {
    FirstChunk(n);
    FirstChunk(w);
    MixedChunks(Chunks(n)[0], Chunks(w)[0]);
  }

  // One tag or two, with nothing filtered out.
  lemma HighestOfTwo<V(!new)>(e: Engines<V>, n: string, w: string)
    requires Lawful(e)
    ensures Selected(e, [n], HIGHEST) == Ok(n)
    ensures Selected(e, [n, w], HIGHEST) == Ok(if Compare(w, n) < 0 then n else w)
  {
    HighestAdmits(e, n, w);
    HighestAdmits(e, w, n);
    hide Pick, Compare, PassesFilter, PassesRule, Takes, Malformed;
    PickOne(e, n, HIGHEST);
    PickOne(e, w, HIGHEST);
    PickConcat(e, [n], [w], HIGHEST);
    assert [n] + [w] == [n, w];
  }

  lemma HighestAdmits<V>(e: Engines<V>, t: string, u: string)
    ensures Malformed(e, HIGHEST).None? && PassesFilter(e, HIGHEST, t) && PassesRule(e, HIGHEST.rules, t)
    ensures Takes(e, HIGHEST.rules, t, u) == !(Compare(t, u) < 0)
  {
    hide Compare;
  }

  lemma KeepFirst<T>(a: T, b: T, p: T -> bool)
    requires p(a) && !p(b)
    ensures Keep([a, b], p) == [a]
  {
    assert [a, b] == [a] + [b];
    KeepConcat([a], [b], p);
    KeepAll([a], p);
    assert Keep([b], p) == [];
  }

  // A number and a word, highest first: the word wins.
  lemma WordBeatsNumber<V(!new)>(e: Engines<V>, n: string, w: string)
    requires Lawful(e) && n != "" && IsDigit(n[0]) && w != "" && w[0] > '9'
    ensures Selected(e, [n, w], HIGHEST) == Ok(w)
    ensures AllDigits(n) ==> Numbers([n, w]) == [n] && Selected(e, Numbers([n, w]), HIGHEST) == Ok(n)
  {
    WordAbove(n, w);
    TotalPreorder(w, n, w);
    HighestOfTwo(e, n, w);
    if AllDigits(n) { KeepFirst(n, w, IsNumber); }
  }
}
