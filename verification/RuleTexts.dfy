// What each rule selects, told by the texts of the rule and the bytes of the tags:
// internal/policy/policy.go:37-240.
module RuleTexts {
  import opened Text
  import opened NaturalOrder
  import opened TagPolicy

  // ---- Two orders on texts ------------------------------------------------------

  // They agree up to k, where a ends or has the smaller byte.
  predicate PrecedesAt(a: string, b: string, k: nat)
  {
    k <= |a| && k < |b| && a[..k] == b[..k] && (k == |a| || (a[k] as int) < (b[k] as int))
  }

  ghost predicate Precedes(a: string, b: string) { exists k: nat :: PrecedesAt(a, b, k) }

  lemma {:induction false} BytesDecide(a: string, b: string)
    ensures LexCompare(a, b) < 0 <==> Precedes(a, b)
  {
    if a == [] {
      if b != [] { assert PrecedesAt(a, b, 0); }
    } else if b != [] {
      if a[0] != b[0] {
        if a[0] < b[0] { assert PrecedesAt(a, b, 0); }
      } else {
        BytesDecide(a[1..], b[1..]);
        FirstByteShared(a, b);
      }
    }
  }

  lemma FirstByteShared(a: string, b: string)
    requires a != [] && b != [] && a[0] == b[0]
    ensures Precedes(a, b) <==> Precedes(a[1..], b[1..])
  {
    if k: nat :| PrecedesAt(a, b, k) {
      assert a[1..][..k - 1] == a[..k][1..] && b[1..][..k - 1] == b[..k][1..];
      assert PrecedesAt(a[1..], b[1..], k - 1);
    }
    if k: nat :| PrecedesAt(a[1..], b[1..], k) {
      assert a[..k + 1] == [a[0]] + a[1..][..k] && b[..k + 1] == [b[0]] + b[1..][..k];
      assert PrecedesAt(a, b, k + 1);
    }
  }

  // Two chunks: runs of digits by value, anything else by bytes.
  ghost predicate ChunkPrecedes(x: string, y: string)
  {
    if AllDigits(x) && AllDigits(y) then Value(x) < Value(y) else Precedes(x, y)
  }

  ghost predicate ChunkTies(x: string, y: string)
  {
    if AllDigits(x) && AllDigits(y) then Value(x) == Value(y) else x == y
  }

  // The lists tie up to k, where the first ends or has the lesser chunk.
  ghost predicate ChunksPrecedeAt(ca: seq<string>, cb: seq<string>, k: nat)
  {
    k <= |ca| && k < |cb| && (forall i | 0 <= i < k :: ChunkTies(ca[i], cb[i]))
    && (k == |ca| || ChunkPrecedes(ca[k], cb[k]))
  }

  lemma ChunkInTexts(x: string, y: string)
    ensures CompareChunk(x, y) < 0 <==> ChunkPrecedes(x, y)
    ensures CompareChunk(x, y) == 0 <==> ChunkTies(x, y)
  {
    if AllDigits(x) && AllDigits(y) { DigitRunsByValue(x, y); }
    hide LexCompare, Precedes, CompareTrimmed;
    BytesDecide(x, y);
  }

  lemma {:induction false} ChunksInTexts(ca: seq<string>, cb: seq<string>)
    ensures CompareChunks(ca, cb) < 0 <==> exists k: nat :: ChunksPrecedeAt(ca, cb, k)
  {
    hide CompareChunk, ChunkPrecedes, ChunkTies;
    if ca == [] {
      if cb != [] { assert ChunksPrecedeAt(ca, cb, 0); }
    } else if cb != [] {
      ChunkInTexts(ca[0], cb[0]);
      if CompareChunk(ca[0], cb[0]) == 0 {
        ChunksInTexts(ca[1..], cb[1..]);
        FirstChunkTied(ca, cb);
      } else if CompareChunk(ca[0], cb[0]) < 0 {
        assert ChunksPrecedeAt(ca, cb, 0);
      }
    }
  }

  lemma FirstChunkTied(ca: seq<string>, cb: seq<string>)
    requires ca != [] && cb != [] && ChunkTies(ca[0], cb[0]) && !ChunkPrecedes(ca[0], cb[0])
    ensures (exists k: nat :: ChunksPrecedeAt(ca, cb, k)) <==> exists k: nat :: ChunksPrecedeAt(ca[1..], cb[1..], k)
  {
    hide ChunkPrecedes, ChunkTies;
    if k: nat :| ChunksPrecedeAt(ca, cb, k) {
      assert forall i | 0 <= i < k - 1 :: ca[1..][i] == ca[i + 1] && cb[1..][i] == cb[i + 1];
      assert ChunksPrecedeAt(ca[1..], cb[1..], k - 1);
    }
    if k: nat :| ChunksPrecedeAt(ca[1..], cb[1..], k) {
      assert forall i | 1 <= i < k + 1 :: ca[i] == ca[1..][i - 1] && cb[i] == cb[1..][i - 1];
      assert ChunksPrecedeAt(ca, cb, k + 1);
    }
  }

  // naturalCompare, on the only way to write each tag as alternating runs.
  lemma NaturalInTexts(ca: seq<string>, cb: seq<string>)
    requires Alternating(ca) && Alternating(cb)
    ensures Compare(Concat(ca), Concat(cb)) < 0 <==> exists k: nat :: ChunksPrecedeAt(ca, cb, k)
  {
    hide *;
    ChunksOfConcat(ca);
    ChunksOfConcat(cb);
    ChunksInTexts(ca, cb);
    CompareIs(Concat(ca), Concat(cb));
  }

  lemma CompareIs(a: string, b: string)
    ensures Compare(a, b) == CompareChunks(Chunks(a), Chunks(b))
  {}

  // ---- The ends of an order -----------------------------------------------------

  // An admitted tag that no admitted tag comes before, and one that comes before none.
  ghost predicate Least(tags: seq<string>, p: string -> bool, before: (string, string) -> bool, i: nat)
  {
    i < |tags| && p(tags[i]) && forall j | 0 <= j < |tags| && p(tags[j]) :: !before(tags[j], tags[i])
  }

  ghost predicate Greatest(tags: seq<string>, p: string -> bool, before: (string, string) -> bool, i: nat)
  {
    i < |tags| && p(tags[i]) && forall j | 0 <= j < |tags| && p(tags[j]) :: !before(tags[i], tags[j])
  }

  // The text w stands at the first of the least places, or at the last of the greatest.
  ghost predicate AtFirstLeast(tags: seq<string>, p: string -> bool, before: (string, string) -> bool, w: string)
  {
    exists i: nat :: Least(tags, p, before, i) && tags[i] == w && forall j: nat | j < i :: !Least(tags, p, before, j)
  }

  ghost predicate AtLastGreatest(tags: seq<string>, p: string -> bool, before: (string, string) -> bool, w: string)
  {
    exists i: nat :: Greatest(tags, p, before, i) && tags[i] == w && forall j: nat | i < j :: !Greatest(tags, p, before, j)
  }

  // Among admitted tags, what comes before one comes before or after any other.
  ghost predicate Ordered(p: string -> bool, before: (string, string) -> bool)
  {
    && (forall x | p(x) :: !before(x, x))
    && (forall x, y, z | p(x) && p(y) && p(z) :: before(x, z) ==> before(x, y) || before(y, z))
  }

  lemma FirstLeastIs(tags: seq<string>, p: string -> bool, before: (string, string) -> bool, i: nat)
    requires Ordered(p, before) && i < |tags| && p(tags[i])
    ensures Least(tags, p, before, i) && (forall j: nat | j < i :: !Least(tags, p, before, j))
       <==> && (forall j | 0 <= j < |tags| && p(tags[j]) :: !before(tags[j], tags[i]))
            && (forall j | 0 <= j < i && p(tags[j]) :: before(tags[i], tags[j]))
  {
    if Least(tags, p, before, i) && forall j: nat | j < i :: !Least(tags, p, before, j) {
      forall j | 0 <= j < i && p(tags[j])
        ensures before(tags[i], tags[j])
      {
        assert !Least(tags, p, before, j);
        var m :| 0 <= m < |tags| && p(tags[m]) && before(tags[m], tags[j]);
        assert !before(tags[m], tags[i]);
      }
    }
  }

  lemma LastGreatestIs(tags: seq<string>, p: string -> bool, before: (string, string) -> bool, i: nat)
    requires Ordered(p, before) && i < |tags| && p(tags[i])
    ensures Greatest(tags, p, before, i) && (forall j: nat | i < j :: !Greatest(tags, p, before, j))
       <==> && (forall j | 0 <= j < |tags| && p(tags[j]) :: !before(tags[i], tags[j]))
            && (forall j | i < j < |tags| && p(tags[j]) :: before(tags[j], tags[i]))
  {
    if Greatest(tags, p, before, i) && forall j: nat | i < j :: !Greatest(tags, p, before, j) {
      forall j | i < j < |tags| && p(tags[j])
        ensures before(tags[j], tags[i])
      {
        assert !Greatest(tags, p, before, j);
        var m :| 0 <= m < |tags| && p(tags[m]) && before(tags[j], tags[m]);
        assert !before(tags[i], tags[m]);
      }
    }
  }

  lemma WinsAdmitted<V>(e: Engines<V>, tags: seq<string>, spec: Spec, i: int)
    requires Wins(e, tags, spec, i)
    ensures 0 <= i < |tags| && Admitted(e, spec, tags[i])
  {}

  lemma TagsOrdered<V>(e: Engines<V>, rules: Rules, p: string -> bool, before: (string, string) -> bool)
    requires forall x, y :: before(x, y) == TagLess(e, rules, x, y)
    ensures Ordered(p, before)
  {
    forall x, y, z
      ensures before(x, z) ==> before(x, y) || before(y, z)
      ensures !before(x, x)
    {
      KeyOrder(NumericRule(rules), KeyOf(e, rules, x), KeyOf(e, rules, y), KeyOf(e, rules, z));
      KeyOrder(NumericRule(rules), KeyOf(e, rules, x), KeyOf(e, rules, x), KeyOf(e, rules, x));
    }
  }

  // One winning position, for any rule but semver.
  lemma PositionInTexts<V(!new)>(e: Engines<V>, tags: seq<string>, spec: Spec, ascending: bool,
                                 p: string -> bool, before: (string, string) -> bool, i: nat)
    requires Lawful(e) && spec.rules.semver.None? && ascending == Ascending(spec.rules)
    requires forall t :: p(t) == Admitted(e, spec, t)
    requires forall x, y :: before(x, y) == TagLess(e, spec.rules, x, y)
    ensures Wins(e, tags, spec, i)
       <==> if ascending then Least(tags, p, before, i) && forall j: nat | j < i :: !Least(tags, p, before, j)
            else Greatest(tags, p, before, i) && forall j: nat | i < j :: !Greatest(tags, p, before, j)
  {
    TagsOrdered(e, spec.rules, p, before);
    hide Ascending, TagLess, Admitted, Wins, Ordered, Malformed;
    if Wins(e, tags, spec, i) { WinsAdmitted(e, tags, spec, i); }
    if i < |tags| && p(tags[i]) {
      WinningPosition(e, tags, spec, i);
      FirstLeastIs(tags, p, before, i);
      LastGreatestIs(tags, p, before, i);
    }
  }

  lemma RuleDecides<V(!new)>(e: Engines<V>, tags: seq<string>, spec: Spec, ascending: bool,
                             p: string -> bool, before: (string, string) -> bool, w: string)
    requires Lawful(e) && spec.rules.semver.None? && ascending == Ascending(spec.rules)
    requires Malformed(e, spec).None? && "" !in tags && w != ""
    requires forall t :: p(t) == Admitted(e, spec, t)
    requires forall x, y :: before(x, y) == TagLess(e, spec.rules, x, y)
    ensures Selected(e, tags, spec) == Ok(w)
       <==> if ascending then AtFirstLeast(tags, p, before, w) else AtLastGreatest(tags, p, before, w)
  {
    hide Ascending, TagLess, Admitted, Wins, Malformed, Selected, Least, Greatest;
    SelectedIsTheWinner(e, tags, spec);
    forall i: nat
      ensures Wins(e, tags, spec, i)
         <==> if ascending then Least(tags, p, before, i) && forall j: nat | j < i :: !Least(tags, p, before, j)
              else Greatest(tags, p, before, i) && forall j: nat | i < j :: !Greatest(tags, p, before, j)
    {
      PositionInTexts(e, tags, spec, ascending, p, before, i);
    }
    forall i | Wins(e, tags, spec, i)
      ensures 0 <= i < |tags|
    {
      WinsAdmitted(e, tags, spec, i);
    }
  }

  // ---- Rule by rule -------------------------------------------------------------

  // What a filter lets through, and what a pattern matches besides.
  ghost function Filtered<V>(e: Engines<V>, filter: Option<string>): string -> bool
  {
    t => filter.Some? ==> e.matches(filter.value, t)
  }

  ghost function Matching<V>(e: Engines<V>, filter: Option<string>, pattern: string): string -> bool
  {
    t => (filter.Some? ==> e.matches(filter.value, t)) && e.matches(pattern, t)
  }

  ghost function ByBytes(): (string, string) -> bool { (x, y) => Precedes(x, y) }

  ghost function ByNumbers(): (string, string) -> bool { (x, y) => Compare(x, y) < 0 }

  // The same on what a template extracts from each tag, where there is one.
  ghost function OnExtract<V>(e: Engines<V>, pattern: string, extract: string,
                              before: (string, string) -> bool): (string, string) -> bool
  {
    (x, y) => if extract == "" then before(x, y) else before(e.expand(pattern, extract, x), e.expand(pattern, extract, y))
  }

  predicate Compiles<V>(e: Engines<V>, filter: Option<string>) { filter.Some? ==> e.compiles(filter.value) }

  // alphabetical "asc" gives the first of the byte-wise least tags; with any other order the
  // last of the greatest.
  lemma AlphabeticalInTexts<V(!new)>(e: Engines<V>, tags: seq<string>, filter: Option<string>, order: string, w: string)
    requires Lawful(e) && Compiles(e, filter) && "" !in tags && w != ""
    ensures Selected(e, tags, Spec(filter, Rules(None, None, None, Some(order)))) == Ok(w)
       <==> if order == "asc" then AtFirstLeast(tags, Filtered(e, filter), ByBytes(), w)
            else AtLastGreatest(tags, Filtered(e, filter), ByBytes(), w)
  {
    var spec := Spec(filter, Rules(None, None, None, Some(order)));
    hide Selected, AtFirstLeast, AtLastGreatest, LexCompare, Precedes, Lawful;
    forall x, y
      ensures ByBytes()(x, y) == TagLess(e, spec.rules, x, y)
    {
      BytesDecide(x, y);
    }
    RuleDecides(e, tags, spec, order == "asc", Filtered(e, filter), ByBytes(), w);
  }

  // numerical orders by naturalCompare instead, whatever an alphabetical rule beside it says.
  lemma NumericalInTexts<V(!new)>(e: Engines<V>, tags: seq<string>, filter: Option<string>, order: string,
                                  alphabetical: Option<string>, w: string)
    requires Lawful(e) && Compiles(e, filter) && "" !in tags && w != ""
    ensures Selected(e, tags, Spec(filter, Rules(None, None, Some(order), alphabetical))) == Ok(w)
       <==> if order == "asc" then AtFirstLeast(tags, Filtered(e, filter), ByNumbers(), w)
            else AtLastGreatest(tags, Filtered(e, filter), ByNumbers(), w)
  {
    var spec := Spec(filter, Rules(None, None, Some(order), alphabetical));
    hide Selected, AtFirstLeast, AtLastGreatest, Compare, Lawful;
    RuleDecides(e, tags, spec, order == "asc", Filtered(e, filter), ByNumbers(), w);
  }

  // regex admits what its pattern matches, and orders what its template extracts, by
  // naturalCompare when numeric is set and by bytes when it is not.
  lemma RegexInTexts<V(!new)>(e: Engines<V>, tags: seq<string>, filter: Option<string>, rule: RegexRule,
                              numerical: Option<string>, alphabetical: Option<string>, w: string)
    requires Lawful(e) && Compiles(e, filter) && e.compiles(rule.pattern) && "" !in tags && w != ""
    ensures var before := OnExtract(e, rule.pattern, rule.extract, if rule.numeric then ByNumbers() else ByBytes());
            Selected(e, tags, Spec(filter, Rules(None, Some(rule), numerical, alphabetical))) == Ok(w)
            <==> if rule.order == "asc" then AtFirstLeast(tags, Matching(e, filter, rule.pattern), before, w)
                 else AtLastGreatest(tags, Matching(e, filter, rule.pattern), before, w)
  {
    var spec := Spec(filter, Rules(None, Some(rule), numerical, alphabetical));
    var before := OnExtract(e, rule.pattern, rule.extract, if rule.numeric then ByNumbers() else ByBytes());
    hide Selected, AtFirstLeast, AtLastGreatest, Compare, LexCompare, Precedes, Lawful;
    forall x, y
      ensures before(x, y) == TagLess(e, spec.rules, x, y)
    {
      BytesDecide(KeyOf(e, spec.rules, x), KeyOf(e, spec.rules, y));
    }
    RuleDecides(e, tags, spec, rule.order == "asc", Matching(e, filter, rule.pattern), before, w);
  }

  // ---- Versions -----------------------------------------------------------------

  // The tag is this version, with or without one leading v.
  ghost predicate IsVersion<V>(e: Engines<V>, t: string, v: V)
  {
    if t != "" && t[0] == 'v' then exists s :: t == "v" + s && e.versionOf(s) == Some(v) else e.versionOf(t) == Some(v)
  }

  lemma VersionInTexts<V>(e: Engines<V>, t: string, v: V)
    ensures e.versionOf(TrimV(t)) == Some(v) <==> IsVersion(e, t, v)
  {
    if t != "" && t[0] == 'v' {
      assert t == "v" + t[1..];
      assert forall s | t == "v" + s :: s == t[1..];
    }
  }

  ghost function InRange<V(!new)>(e: Engines<V>, filter: Option<string>, range: string): string -> bool
  {
    t => (filter.Some? ==> e.matches(filter.value, t)) && exists v :: IsVersion(e, t, v) && e.satisfies(range, v)
  }

  ghost function ByVersions<V(!new)>(e: Engines<V>): (string, string) -> bool
  {
    (x, y) => exists v, u :: IsVersion(e, x, v) && IsVersion(e, y, u) && e.newer(v, u)
  }

  lemma RangeInTexts<V(!new)>(e: Engines<V>, spec: Spec, t: string)
    requires spec.rules.semver.Some?
    ensures InRange(e, spec.filterTags, spec.rules.semver.value)(t) == Admitted(e, spec, t)
  {
    hide TrimV, IsVersion;
    forall v
      ensures e.versionOf(TrimV(t)) == Some(v) <==> IsVersion(e, t, v)
    {
      VersionInTexts(e, t, v);
    }
    if e.versionOf(TrimV(t)).Some? { assert IsVersion(e, t, e.versionOf(TrimV(t)).value); }
  }

  lemma NewerInTexts<V(!new)>(e: Engines<V>, spec: Spec, x: string, y: string)
    requires spec.rules.semver.Some? && Admitted(e, spec, x) && Admitted(e, spec, y)
    ensures ByVersions(e)(x, y) == NewerTag(e, x, y)
  {
    hide TrimV, IsVersion;
    forall t, v
      ensures e.versionOf(TrimV(t)) == Some(v) <==> IsVersion(e, t, v)
    {
      VersionInTexts(e, t, v);
    }
    assert IsVersion(e, x, e.versionOf(TrimV(x)).value) && IsVersion(e, y, e.versionOf(TrimV(y)).value);
  }

  lemma VersionsOrdered<V(!new)>(e: Engines<V>, spec: Spec, p: string -> bool, before: (string, string) -> bool)
    requires Lawful(e) && spec.rules.semver.Some? && forall t :: p(t) == Admitted(e, spec, t)
    requires forall x, y | p(x) && p(y) :: before(x, y) == NewerTag(e, x, y)
    ensures Ordered(p, before)
  {
    hide TrimV;
  }

  lemma VersionPosition<V(!new)>(e: Engines<V>, tags: seq<string>, spec: Spec, p: string -> bool,
                                 before: (string, string) -> bool, i: nat)
    requires Lawful(e) && spec.rules.semver.Some? && forall t :: p(t) == Admitted(e, spec, t)
    requires Ordered(p, before) && forall x, y | p(x) && p(y) :: before(x, y) == NewerTag(e, x, y)
    ensures Wins(e, tags, spec, i) <==> Least(tags, p, before, i) && forall j: nat | j < i :: !Least(tags, p, before, j)
  {
    hide Admitted, NewerTag, Wins, Ordered, Lawful;
    if Wins(e, tags, spec, i) { WinsAdmitted(e, tags, spec, i); }
    if i < |tags| && p(tags[i]) {
      WinningPosition(e, tags, spec, i);
      FirstLeastIs(tags, p, before, i);
    }
  }

  lemma FirstLeastMeans(tags: seq<string>, p: string -> bool, before: (string, string) -> bool, w: string)
    ensures AtFirstLeast(tags, p, before, w)
       <==> exists i: nat :: i < |tags| && tags[i] == w && Least(tags, p, before, i)
                             && forall j: nat | j < i :: !Least(tags, p, before, j)
  {}

  // semver gives the first of the newest versions in the range, whatever other rules are set.
  lemma SemverInTexts<V(!new)>(e: Engines<V>, tags: seq<string>, filter: Option<string>, range: string,
                               regex: Option<RegexRule>, numerical: Option<string>, alphabetical: Option<string>, w: string)
    requires Lawful(e) && Compiles(e, filter) && e.rangeParses(range) && "" !in tags && w != ""
    ensures Selected(e, tags, Spec(filter, Rules(Some(range), regex, numerical, alphabetical))) == Ok(w)
       <==> AtFirstLeast(tags, InRange(e, filter, range), ByVersions(e), w)
  {
    var spec := Spec(filter, Rules(Some(range), regex, numerical, alphabetical));
    var p, before := InRange(e, filter, range), ByVersions(e);
    assert Malformed(e, spec).None?;
    forall t
      ensures p(t) == Admitted(e, spec, t)
    {
      RangeInTexts(e, spec, t);
    }
    forall x, y | p(x) && p(y)
      ensures before(x, y) == NewerTag(e, x, y)
    {
      NewerInTexts(e, spec, x, y);
    }
    VersionsOrdered(e, spec, p, before);
    hide *;
    SelectedIsTheWinner(e, tags, spec);
    forall i: nat
      ensures Wins(e, tags, spec, i) <==> Least(tags, p, before, i) && forall j: nat | j < i :: !Least(tags, p, before, j)
    {
      VersionPosition(e, tags, spec, p, before, i);
    }
    forall i | Wins(e, tags, spec, i)
      ensures 0 <= i < |tags|
    {
      WinsAdmitted(e, tags, spec, i);
    }
    FirstLeastMeans(tags, p, before, w);
  }
}
