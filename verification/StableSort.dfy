// Go's sort.SliceStable, and what its two ends mean.
module StableSort {
  import opened Text
  import opened Winners

  // A strict weak order: what sort.SliceStable demands of its less function.
  ghost predicate StrictWeakOrder<T(!new)>(less: (T, T) -> bool)
  {
    && (forall x :: !less(x, x))
    && (forall x, y, z :: less(x, y) && less(y, z) ==> less(x, z))
    && (forall x, y, z :: less(x, z) ==> less(x, y) || less(y, z))
  }

  ghost predicate Sorted<T>(s: seq<T>, less: (T, T) -> bool)
  {
    forall i, j | 0 <= i < j < |s| :: !less(s[j], s[i])
  }

  // ---- Insertion sort as a function ---------------------------------------------

  // x goes after every element it does not precede.
  function Insert<T>(s: seq<T>, x: T, less: (T, T) -> bool): seq<T>
  {
    if s == [] || !less(x, s[|s| - 1]) then s + [x]
    else Insert(s[..|s| - 1], x, less) + [s[|s| - 1]]
  }

  function Sort<T>(s: seq<T>, less: (T, T) -> bool): seq<T>
  {
    if s == [] then [] else Insert(Sort(s[..|s| - 1], less), s[|s| - 1], less)
  }

  lemma {:induction false} InsertAt<T>(s: seq<T>, x: T, j: nat, less: (T, T) -> bool)
    requires j <= |s|
    requires forall k | j <= k < |s| :: less(x, s[k])
    requires j > 0 ==> !less(x, s[j - 1])
    ensures Insert(s, x, less) == s[..j] + [x] + s[j..]
  {
    if j == |s| {
      assert s[..j] == s && s[j..] == [];
    } else {
      var init := s[..|s| - 1];
      InsertAt(init, x, j, less);
      assert init[..j] == s[..j] && s[j..] == init[j..] + [s[|s| - 1]];
    }
  }

  lemma InsertPlaced<T>(t: seq<T>, s: seq<T>, x: T, j: nat, less: (T, T) -> bool)
    requires j <= |s| && |t| == |s| + 1 && t[j] == x
    requires forall k | 0 <= k < j :: t[k] == s[k]
    requires forall k | j <= k < |s| :: t[k + 1] == s[k] && less(x, s[k])
    requires j > 0 ==> !less(x, s[j - 1])
    ensures t == Insert(s, x, less)
  {
    hide Insert;
    InsertAt(s, x, j, less);
    assert t == s[..j] + [x] + s[j..];
  }

  // Moves a[i] left past the greater elements of the sorted prefix before it.
  method Sink<T>(a: array<T>, i: nat, less: (T, T) -> bool)
    requires i < a.Length
    modifies a
    ensures a[..i + 1] == Insert(old(a[..i]), old(a[i]), less)
    ensures a[i + 1..] == old(a[i + 1..])
  {
    ghost var s := a[..i];
    var x := a[i];
    var j := i;
    while j > 0 && less(a[j], a[j - 1])
      invariant 0 <= j <= i
      invariant a[j] == x
      invariant forall k | 0 <= k < j :: a[k] == s[k]
      invariant forall k | j <= k < i :: a[k + 1] == s[k]
      invariant forall k | i < k < a.Length :: a[k] == old(a[k])
      invariant forall k | j <= k < i :: less(x, s[k])
    {
      a[j], a[j - 1] := a[j - 1], a[j];
      j := j - 1;
    }
    InsertPlaced(a[..i + 1], s, x, j, less);
  }

  // In place, one element after the other.
  method SliceStable<T>(a: array<T>, less: (T, T) -> bool)
    modifies a
    ensures a[..] == Sort(old(a[..]), less)
  {
    ghost var was := a[..];
    for i := 0 to a.Length
      invariant a[..i] == Sort(was[..i], less)
      invariant a[i..] == was[i..]
    {
      assert a[i] == a[i..][0] == was[i..][0] == was[i];
      assert was[..i + 1][..i] == was[..i];
      Sink(a, i, less);
      assert was[i + 1..] == was[i..][1..];
    }
    assert a[..a.Length] == a[..] && was[..a.Length] == was;
  }

  // ---- Sorting is determined by its contract ------------------------------------

  function Ties<T>(s: seq<T>, x: T, less: (T, T) -> bool): (r: seq<T>)
    ensures forall y | y in r :: y in s && !less(x, y) && !less(y, x)
  {
    if s == [] then []
    else if !less(x, s[0]) && !less(s[0], x) then [s[0]] + Ties(s[1..], x, less)
    else Ties(s[1..], x, less)
  }

  // Sorted, and the elements tied with any x appear in their input order.
  ghost predicate IsStableSort<T(!new)>(s: seq<T>, out: seq<T>, less: (T, T) -> bool)
  {
    Sorted(out, less) && forall x :: Ties(out, x, less) == Ties(s, x, less)
  }

  lemma {:induction false} TiesConcat<T>(s: seq<T>, t: seq<T>, x: T, less: (T, T) -> bool)
    ensures Ties(s + t, x, less) == Ties(s, x, less) + Ties(t, x, less)
  {
    if s == [] {
      assert s + t == t;
    } else {
      assert (s + t)[0] == s[0] && (s + t)[1..] == s[1..] + t;
      TiesConcat(s[1..], t, x, less);
    }
  }

  lemma {:induction false} InsertMembers<T>(s: seq<T>, x: T, less: (T, T) -> bool)
    ensures forall y | y in Insert(s, x, less) :: y in s || y == x
  {
    if s != [] && less(x, s[|s| - 1]) {
      InsertMembers(s[..|s| - 1], x, less);
    }
  }

  lemma {:induction false} InsertSorted<T(!new)>(s: seq<T>, x: T, less: (T, T) -> bool)
    requires StrictWeakOrder(less) && Sorted(s, less)
    ensures Sorted(Insert(s, x, less), less)
  {
    if s == [] || !less(x, s[|s| - 1]) {
      forall i | 0 <= i < |s|
        ensures !less(x, s[i])
      {
        if i < |s| - 1 { assert !less(s[|s| - 1], s[i]); }
      }
    } else {
      var init, last := s[..|s| - 1], s[|s| - 1];
      InsertSorted(init, x, less);
      InsertMembers(init, x, less);
      var r := Insert(init, x, less);
      assert !less(last, x);
      forall k | 0 <= k < |r|
        ensures !less(last, r[k])
      {
        assert r[k] in r;
      }
    }
  }

  // Elements that are not tied with each other are not both tied with y.
  lemma TiesSwap<T(!new)>(s: seq<T>, x: T, last: T, y: T, less: (T, T) -> bool)
    requires StrictWeakOrder(less) && less(x, last)
    ensures Ties(s + [x] + [last], y, less) == Ties(s + [last] + [x], y, less)
  {
    TiesConcat(s + [x], [last], y, less);
    TiesConcat(s, [x], y, less);
    TiesConcat(s + [last], [x], y, less);
    TiesConcat(s, [last], y, less);
    assert Ties([x], y, less) == [] || Ties([last], y, less) == [];
  }

  lemma {:induction false} InsertTies<T(!new)>(s: seq<T>, x: T, y: T, less: (T, T) -> bool)
    requires StrictWeakOrder(less)
    ensures Ties(Insert(s, x, less), y, less) == Ties(s + [x], y, less)
  {
    var n := |s|;
    if s != [] && less(x, s[n - 1]) {
      var init, last := s[..n - 1], s[n - 1];
      InsertTies(init, x, y, less);
      TiesConcat(Insert(init, x, less), [last], y, less);
      TiesConcat(init + [x], [last], y, less);
      TiesSwap(init, x, last, y, less);
      assert s == init + [last];
    }
  }

  lemma {:induction false} SortIsStable<T(!new)>(s: seq<T>, less: (T, T) -> bool)
    requires StrictWeakOrder(less)
    ensures IsStableSort(s, Sort(s, less), less)
  {
    if s != [] {
      var init, last := s[..|s| - 1], s[|s| - 1];
      SortIsStable(init, less);
      InsertSorted(Sort(init, less), last, less);
      forall y
        ensures Ties(Sort(s, less), y, less) == Ties(s, y, less)
      {
        InsertTies(Sort(init, less), last, y, less);
        TiesConcat(Sort(init, less), [last], y, less);
        TiesConcat(init, [last], y, less);
        assert s == init + [last];
      }
    }
  }

  // The first element of a sorted sequence is the first of its own class.
  lemma HeadLeadsItsClass<T(!new)>(a: seq<T>, b: seq<T>, less: (T, T) -> bool)
    requires StrictWeakOrder(less) && Sorted(a, less) && Sorted(b, less)
    requires forall x :: Ties(a, x, less) == Ties(b, x, less)
    requires a != []
    ensures b != [] && b[0] == a[0]
  {
    assert Ties(a, a[0], less)[0] == a[0];
    var y := Ties(b, a[0], less)[0];
    assert y in Ties(b, a[0], less);
    var z := Ties(a, b[0], less)[0];
    assert Ties(b, b[0], less)[0] == b[0];
    assert z in Ties(a, b[0], less);
    assert !less(y, b[0]) && !less(z, a[0]);
    assert Ties(b, a[0], less)[0] == b[0];
  }

  // Any stable sort returns exactly this sequence, whatever algorithm it uses.
  lemma {:induction false} StableSortIsUnique<T(!new)>(a: seq<T>, b: seq<T>, less: (T, T) -> bool)
    requires StrictWeakOrder(less) && Sorted(a, less) && Sorted(b, less)
    requires forall x :: Ties(a, x, less) == Ties(b, x, less)
    ensures a == b
  {
    if a == [] {
      if b != [] {
        HeadLeadsItsClass(b, a, less);
      }
    } else {
      HeadLeadsItsClass(a, b, less);
      forall x
        ensures Ties(a[1..], x, less) == Ties(b[1..], x, less)
      {
        assert Ties(a, x, less) == Ties(b, x, less);
        if !less(x, a[0]) && !less(a[0], x) {
          assert Ties(a[1..], x, less) == Ties(a, x, less)[1..];
          assert Ties(b[1..], x, less) == Ties(b, x, less)[1..];
        }
      }
      StableSortIsUnique(a[1..], b[1..], less);
      assert a == [a[0]] + a[1..] && b == [b[0]] + b[1..];
    }
  }

  // ---- The ends of a stable sort as one linear scan -----------------------------

  // asc takes the first element of the stable sort: the first minimal input.
  // desc takes the last: the last maximal input.
  lemma {:induction false} SortEnds<T(!new)>(s: seq<T>, less: (T, T) -> bool)
    requires StrictWeakOrder(less) && s != []
    ensures |Sort(s, less)| == |s|
    ensures Some(Sort(s, less)[0]) == Scan(s, less)
    ensures Some(Sort(s, less)[|s| - 1]) == Scan(s, NotBefore(less))
  {
    var init, last := s[..|s| - 1], s[|s| - 1];
    if init != [] {
      SortEnds(init, less);
      SortIsStable(init, less);
    }
    InsertEnds(Sort(init, less), last, less);
  }

  lemma {:induction false} InsertEnds<T(!new)>(s: seq<T>, x: T, less: (T, T) -> bool)
    requires StrictWeakOrder(less) && Sorted(s, less)
    ensures |Insert(s, x, less)| == |s| + 1
    ensures Insert(s, x, less)[0] == if s == [] || less(x, s[0]) then x else s[0]
    ensures Insert(s, x, less)[|s|] == if s == [] || !less(x, s[|s| - 1]) then x else s[|s| - 1]
  {
    if s != [] && less(x, s[|s| - 1]) && |s| > 1 {
      InsertEnds(s[..|s| - 1], x, less);
    }
  }
}
