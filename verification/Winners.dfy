// One pass over a list that keeps the element nothing later takes over from.
module Winners {
  import opened Text

  // Keep the current winner unless the next element beats it.
  function Scan<T>(s: seq<T>, beats: (T, T) -> bool): (r: Option<T>)
    ensures r == None <==> s == []
    ensures r.Some? ==> r.value in s
  {
    if s == [] then None
    else
      var rest := Scan(s[..|s| - 1], beats);
      if rest.Some? && !beats(s[|s| - 1], rest.value) then rest else Some(s[|s| - 1])
  }

  // Ties go to the later element.
  function NotBefore<T>(less: (T, T) -> bool): (T, T) -> bool { (x, y) => !less(x, y) }

  function Keep<T>(s: seq<T>, p: T -> bool): (r: seq<T>)
    ensures forall t | t in r :: t in s && p(t)
  {
    if s == [] then []
    else Keep(s[..|s| - 1], p) + (if p(s[|s| - 1]) then [s[|s| - 1]] else [])
  }

  // Beating and not beating are both transitive; every strict weak order, and the
  // complement of every strict weak order, is like this.
  ghost predicate Coherent<T(!new)>(beats: (T, T) -> bool)
  {
    && (forall x, y, z :: beats(z, y) && beats(y, x) ==> beats(z, x))
    && (forall x, y, z :: !beats(z, y) && !beats(y, x) ==> !beats(z, x))
  }

  function Winner<T>(a: Option<T>, b: Option<T>, beats: (T, T) -> bool): Option<T>
  {
    if a.None? then b
    else if b.None? || !beats(b.value, a.value) then a
    else b
  }

  lemma {:induction false} ScanConcat<T(!new)>(s: seq<T>, t: seq<T>, beats: (T, T) -> bool)
    requires Coherent(beats)
    ensures Scan(s + t, beats) == Winner(Scan(s, beats), Scan(t, beats), beats)
  {
    if t == [] {
      assert s + t == s;
    } else {
      var init := t[..|t| - 1];
      assert (s + t)[..|s + t| - 1] == s + init;
      ScanConcat(s, init, beats);
    }
  }

  lemma {:induction false} KeepConcat<T>(s: seq<T>, t: seq<T>, p: T -> bool)
    ensures Keep(s + t, p) == Keep(s, p) + Keep(t, p)
  {
    if t == [] {
      assert s + t == s;
    } else {
      var init, last := t[..|t| - 1], t[|t| - 1];
      var tail := if p(last) then [last] else [];
      assert (s + t)[..|s + t| - 1] == s + init && (s + t)[|s + t| - 1] == last;
      KeepConcat(s, init, p);
      assert Keep(s + t, p) == Keep(s, p) + Keep(init, p) + tail;
    }
  }

  lemma {:induction false} KeepAll<T>(s: seq<T>, p: T -> bool)
    requires forall t | t in s :: p(t)
    ensures Keep(s, p) == s
  {
    if s != [] {
      var init := s[..|s| - 1];
      KeepAll(init, p);
      assert s == init + [s[|s| - 1]];
    }
  }

  lemma {:induction false} KeepTwice<T>(s: seq<T>, f: T -> bool, g: T -> bool, both: T -> bool)
    requires forall t | t in s :: both(t) == (f(t) && g(t))
    ensures Keep(Keep(s, f), g) == Keep(s, both)
  {
    if s != [] {
      var init, last := s[..|s| - 1], s[|s| - 1];
      KeepTwice(init, f, g, both);
      KeepConcat(Keep(init, f), if f(last) then [last] else [], g);
      assert Keep([last], g) == if g(last) then [last] else [];
    }
  }

  // The winner after one more element.
  lemma ScanStep<T>(s: seq<T>, t: T, p: T -> bool, beats: (T, T) -> bool)
    ensures var was := Scan(Keep(s, p), beats);
            Scan(Keep(s + [t], p), beats)
            == if p(t) && (was.None? || beats(t, was.value)) then Some(t) else was
  {
    assert (s + [t])[..|s|] == s && (s + [t])[|s|] == t;
    var kept := Keep(s, p);
    assert (kept + [t])[..|kept|] == kept && kept + [] == kept;
  }

  // Position i holds the winner: nothing admitted after it takes over, and it takes over
  // everything admitted before it.
  ghost predicate WinsAt<T>(s: seq<T>, p: T -> bool, beats: (T, T) -> bool, i: int)
  {
    && 0 <= i < |s| && p(s[i])
    && (forall j | i < j < |s| && p(s[j]) :: !beats(s[j], s[i]))
    && (forall j | 0 <= j < i && p(s[j]) :: beats(s[i], s[j]))
  }

  // The prefix of a list still has its winner at i, or i was the last place.
  lemma WinsInit<T(!new)>(s: seq<T>, p: T -> bool, beats: (T, T) -> bool, i: int)
    requires WinsAt(s, p, beats, i)
    ensures var n := |s| - 1;
            && (i < n ==> WinsAt(s[..n], p, beats, i) && !(p(s[n]) && beats(s[n], s[i])))
            && (i == n ==> forall t | t in s[..n] && p(t) :: beats(s[n], t))
  {}

  lemma {:induction false} WinsAtIsScan<T(!new)>(s: seq<T>, p: T -> bool, beats: (T, T) -> bool, i: int)
    requires WinsAt(s, p, beats, i)
    ensures Scan(Keep(s, p), beats) == Some(s[i])
  {
    var n := |s|;
    var init, last := s[..n - 1], s[n - 1];
    assert s == init + [last];
    assert p(s[i]);
    WinsInit(s, p, beats, i);
    hide Scan, Keep, WinsAt;
    ScanStep(init, last, p, beats);
    if i < n - 1 {
      WinsAtIsScan(init, p, beats, i);
    }
  }

  lemma WinsExtend<T(!new)>(s: seq<T>, t: T, p: T -> bool, beats: (T, T) -> bool, i: int)
    requires Coherent(beats) && WinsAt(s, p, beats, i)
    ensures WinsAt(s + [t], p, beats, if p(t) && beats(t, s[i]) then |s| else i)
  {
    var s' := s + [t];
    assert forall j | 0 <= j < |s| :: s'[j] == s[j];
    if p(t) && beats(t, s[i]) {
      forall j | 0 <= j < |s| && p(s'[j])
        ensures beats(t, s[j])
      {
        assert j > i ==> !beats(s[j], s[i]);
        assert beats(t, s[i]);
      }
    }
  }

  // The first admitted element wins where nothing was admitted before it.
  lemma WinsAlone<T(!new)>(s: seq<T>, t: T, p: T -> bool, beats: (T, T) -> bool)
    requires p(t) && forall x | x in s :: !p(x)
    ensures WinsAt(s + [t], p, beats, |s|)
  {
    var s' := s + [t];
    assert forall j | 0 <= j < |s| :: s'[j] in s;
  }

  lemma {:induction false} ScanHasPosition<T(!new)>(s: seq<T>, p: T -> bool, beats: (T, T) -> bool)
    requires Coherent(beats)
    ensures var w := Scan(Keep(s, p), beats);
            if w.None? then forall t | t in s :: !p(t)
            else exists i :: WinsAt(s, p, beats, i) && 0 <= i < |s| && s[i] == w.value
  {
    if s != [] {
      var init, last := s[..|s| - 1], s[|s| - 1];
      assert s == init + [last];
      hide Scan, Keep, Coherent, WinsAt;
      ScanHasPosition(init, p, beats);
      ScanStep(init, last, p, beats);
      var was := Scan(Keep(init, p), beats);
      if was.Some? {
        var i :| WinsAt(init, p, beats, i) && 0 <= i < |init| && init[i] == was.value;
        WinsExtend(init, last, p, beats, i);
        var k := if p(last) && beats(last, init[i]) then |init| else i;
        assert WinsAt(s, p, beats, k) && s[k] == Scan(Keep(s, p), beats).value;
      } else if p(last) {
        WinsAlone(init, last, p, beats);
        assert s[|init|] == last;
      } else {
        assert forall t | t in s :: t in init || t == last;
      }
    }
  }
}
