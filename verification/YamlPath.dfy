// What setByPath does to a tree, and the laws it obeys:
// internal/gitwriteback/edit.go:235-325.
module YamlPath {
  import opened Text
  import opened YamlTree

  datatype PathError = EmptyPath | OutOfRange | NotAContainer

  datatype PutResult = Done(tree: Tree, changed: bool) | Failed(error: PathError)

  // An existing leaf: upsertScalar under a mapping keeps its kind and content, setScalar
  // in a list turns it into a plain scalar.
  function WriteLeaf(parent: Kind, leaf: Tree, v: string): Tree
  {
    if parent == Mapping then (if leaf.value == v then leaf else leaf.(value := v, tag := STR))
    else if leaf.kind == Scalar && leaf.value == v then leaf
    else Str(v)
  }

  predicate LeafChanges(parent: Kind, leaf: Tree, v: string)
  {
    if parent == Mapping then leaf.value != v else leaf.kind != Scalar || leaf.value != v
  }

  // The new child under the first segment of a path.
  function PutBelow(t: Tree, path: seq<string>, v: string): PutResult
    requires path != []
    decreases |path|, 0
  {
    if |path| > 1 then Put(Child(t, path[0]), path[1..], v)
    else if Step(t, path[0]).None? then Done(Str(v), true)
    else Done(WriteLeaf(t.kind, Child(t, path[0]), v), LeafChanges(t.kind, Child(t, path[0]), v))
  }

  function Put(t: Tree, path: seq<string>, v: string): PutResult
    decreases |path|, 1
  {
    if path == [] then Failed(EmptyPath)
    else if !CanStep(t, path[0]) then Failed(if t.kind == Sequence then OutOfRange else NotAContainer)
    else
      match PutBelow(t, path, v)
      case Failed(e) => Failed(e)
      case Done(u, changed) => Done(PutChild(t, path[0], u), changed)
  }

  // The node a path resolves to, if all of it exists.
  function Get(t: Tree, path: seq<string>): Option<Tree>
    decreases |path|
  {
    if path == [] then Some(t)
    else if Step(t, path[0]).None? then None
    else Get(Child(t, path[0]), path[1..])
  }

  // Whether the node written at the end of the path will be a scalar: always in a list,
  // under a mapping only when the leaf is absent or a scalar already.
  predicate WritesScalar(t: Tree, path: seq<string>)
    requires path != []
    decreases |path|
  {
    if |path| > 1 then WritesScalar(Child(t, path[0]), path[1..])
    else t.kind == Sequence || Step(t, path[0]).None? || Child(t, path[0]).kind == Scalar
  }

  // ---- Lens laws ----------------------------------------------------------------

  lemma {:induction false} PutKeepsWf(t: Tree, path: seq<string>, v: string)
    requires Wf(t) && Put(t, path, v).Done?
    ensures Wf(Put(t, path, v).tree)
    ensures path != [] && Put(t, path, v).tree.kind == t.kind
    ensures Wf(PutBelow(t, path, v).tree)
    decreases |path|
  {
    hide Step, CanStep, Apart;
    PutChildWf(t, path[0], EMPTY_MAP);
    if |path| > 1 {
      PutKeepsWf(Child(t, path[0]), path[1..], v);
    }
    PutChildWf(t, path[0], PutBelow(t, path, v).tree);
    hide PutChild;
    PutChildStep(t, path[0], PutBelow(t, path, v).tree, path[0]);
  }

  lemma {:induction false} FreshNeverFails(path: seq<string>, v: string)
    requires path != []
    ensures Put(EMPTY_MAP, path, v).Done? && Put(EMPTY_MAP, path, v).changed
    ensures WritesScalar(EMPTY_MAP, path)
    decreases |path|
  {
    assert KeyFrom(EMPTY_MAP.content, path[0], 0) == None;
    assert Child(EMPTY_MAP, path[0]) == EMPTY_MAP;
    if |path| > 1 { FreshNeverFails(path[1..], v); }
  }

  // Reading back: the value is there, as a scalar exactly when the guard held.
  lemma {:induction false} PutThenGet(t: Tree, path: seq<string>, v: string)
    requires Wf(t) && Put(t, path, v).Done?
    ensures path != []
    ensures var leaf := Get(Put(t, path, v).tree, path);
            leaf.Some? && leaf.value.value == v && (leaf.value.kind == Scalar <==> WritesScalar(t, path))
            && (Put(t, path, v).changed ==> leaf.value.tag == STR)
    decreases |path|
  {
    hide Step, CanStep, Child, PutChild, Apart, Wf;
    var u := PutBelow(t, path, v).tree;
    PutChildStep(t, path[0], u, path[0]);
    NeverApart(t, path[0]);
    if |path| > 1 {
      PutChildWf(t, path[0], EMPTY_MAP);
      PutThenGet(Child(t, path[0]), path[1..], v);
    } else {
      KindOfStep(t, path[0]);
    }
  }

  // What the leaf becomes when the guard does not hold: it keeps the kind it had.
  lemma {:induction false} PutKeepsKind(t: Tree, path: seq<string>, v: string)
    requires Wf(t) && Put(t, path, v).Done? && !WritesScalar(t, path)
    ensures var was, now := Get(t, path), Get(Put(t, path, v).tree, path);
            was.Some? && now.Some? && now.value.kind == was.value.kind != Scalar
    decreases |path|
  {
    hide CanStep, Child, PutChild, Apart, Wf, Lookup;
    var u := PutBelow(t, path, v).tree;
    PutChildStep(t, path[0], u, path[0]);
    NeverApart(t, path[0]);
    if |path| > 1 {
      PutChildWf(t, path[0], EMPTY_MAP);
      PutKeepsKind(Child(t, path[0]), path[1..], v);
      if Step(t, path[0]).None? {
        AbsentChild(t, path[0], path[1..], v);
        FreshNeverFails(path[1..], v);
      }
    } else {
      KindOfStep(t, path[0]);
    }
  }

  // The leaf is an alias afterwards exactly when an alias under a mapping was written over:
  // the new text takes the place of its anchor's name.
  lemma AliasRenamedIff(t: Tree, path: seq<string>, v: string)
    requires Wf(t) && Put(t, path, v).Done?
    ensures var was, now := Get(t, path), Get(Put(t, path, v).tree, path);
            && now.Some? && now.value.value == v
            && (now.value.kind == Alias <==> was.Some? && was.value.kind == Alias && !WritesScalar(t, path))
  {
    PutThenGet(t, path, v);
    if !WritesScalar(t, path) { PutKeepsKind(t, path, v); }
  }

  // An unchanged write reads back too.
  lemma UnchangedReads(t: Tree, path: seq<string>, v: string)
    requires Wf(t) && Put(t, path, v).Done? && !Put(t, path, v).changed
    ensures Get(t, path).Some? && Get(t, path).value.value == v
  {
    ChangedIffDifferent(t, path, v);
    PutThenGet(t, path, v);
  }

  lemma NeverApart(t: Tree, a: string)
    ensures !Apart(t, a, a)
  {}

  lemma KindOfStep(t: Tree, a: string)
    requires CanStep(t, a)
    ensures t.kind == Mapping || (t.kind == Sequence && Step(t, a).Some?)
  {}

  // The flag is true exactly when the tree differs.
  lemma {:induction false} ChangedIffDifferent(t: Tree, path: seq<string>, v: string)
    requires Put(t, path, v).Done?
    ensures Put(t, path, v).changed <==> Put(t, path, v).tree != t
    decreases |path|
  {
    hide CanStep, PutChild, Apart, Wf;
    PutChildChanges(t, path[0], PutBelow(t, path, v).tree);
    if |path| > 1 {
      ChangedIffDifferent(Child(t, path[0]), path[1..], v);
      if Step(t, path[0]).None? { FreshNeverFails(path[1..], v); }
    } else {
      KindOfStep(t, path[0]);
    }
  }

  // The path leads to this text; in a list, to a scalar with this text.
  predicate Reads(t: Tree, path: seq<string>, v: string)
    requires path != []
  {
    var leaf, holder := Get(t, path), Get(t, path[..|path| - 1]);
    leaf.Some? && leaf.value.value == v && (holder.Some? && holder.value.kind == Sequence ==> leaf.value.kind == Scalar)
  }

  lemma ReadsBelow(t: Tree, path: seq<string>, v: string)
    requires |path| > 1
    ensures Reads(t, path, v) <==> Step(t, path[0]).Some? && Reads(Child(t, path[0]), path[1..], v)
  {
    var n := |path| - 1;
    assert path[..n][1..] == path[1..][..n - 1];
  }

  // A write reports no change exactly when its text is there already.
  lemma {:induction false} UnchangedIffReads(t: Tree, path: seq<string>, v: string)
    requires path != []
    ensures Put(t, path, v).Done? && !Put(t, path, v).changed <==> Reads(t, path, v)
    decreases |path|
  {
    hide CanStep, Child, PutChild, Apart, Wf, Lookup;
    StepIsCanStep(t, path[0]);
    if |path| > 1 {
      ReadsBelow(t, path, v);
      UnchangedIffReads(Child(t, path[0]), path[1..], v);
      if Step(t, path[0]).None? {
        AbsentChild(t, path[0], path[1..], v);
        FreshNeverFails(path[1..], v);
      }
    } else {
      assert path[..0] == [] && path[1..] == [];
      if CanStep(t, path[0]) { KindOfStep(t, path[0]); }
      assert Get(t, path) == if Step(t, path[0]).Some? then Some(Child(t, path[0])) else None;
    }
  }

  lemma StepIsCanStep(t: Tree, a: string)
    ensures Step(t, a).Some? ==> CanStep(t, a)
  {}

  // A second identical call finds nothing to do.
  lemma {:induction false} PutTwice(t: Tree, path: seq<string>, v: string)
    requires Wf(t) && Put(t, path, v).Done?
    ensures Put(Put(t, path, v).tree, path, v) == Done(Put(t, path, v).tree, false)
    decreases |path|
  {
    hide Step, CanStep, Child, PutChild, Apart, Wf;
    var u := PutBelow(t, path, v).tree;
    var t' := PutChild(t, path[0], u);
    PutChildStep(t, path[0], u, path[0]);
    NeverApart(t, path[0]);
    PutChildTwice(t, path[0], u, u);
    if |path| > 1 {
      PutChildWf(t, path[0], EMPTY_MAP);
      PutTwice(Child(t, path[0]), path[1..], v);
    } else {
      KindOfStep(t, path[0]);
    }
  }

  // ---- Paths that do not interfere ----------------------------------------------

  // The paths part ways at some container. Stated on resolved children, so "0" and "+0"
  // do not part in a list; missing mappings count as the empty mappings to be created.
  predicate Diverge(t: Tree, p: seq<string>, q: seq<string>)
    decreases |p|
  {
    && p != [] && q != []
    && (Apart(t, p[0], q[0])
        || (CanStep(t, p[0]) && !Apart(t, p[0], q[0]) && Diverge(Child(t, p[0]), p[1..], q[1..])))
  }

  predicate SameOutcome(r: PutResult, s: PutResult)
  {
    match (r, s)
    case (Done(_, c), Done(_, d)) => c == d
    case (Failed(e), Failed(f)) => e == f
    case _ => false
  }

  // Writing one path does not show on a diverging one: same node read, same success or
  // error, same flag, same guard when writing there.
  lemma {:induction false} DivergingUnaffected(t: Tree, p: seq<string>, v: string, q: seq<string>, w: string)
    requires Wf(t) && Put(t, p, v).Done? && Diverge(t, p, q)
    ensures var t' := Put(t, p, v).tree;
            && Get(t', q) == Get(t, q)
            && SameOutcome(Put(t', q, w), Put(t, q, w))
            && WritesScalar(t', q) == WritesScalar(t, q)
    decreases |p|
  {
    hide Step, CanStep, Child, PutChild, Apart, Wf;
    var u := PutBelow(t, p, v).tree;
    PutChildStep(t, p[0], u, q[0]);
    if !Apart(t, p[0], q[0]) {
      PutChildWf(t, p[0], EMPTY_MAP);
      var c := Child(t, p[0]);
      assert Child(t, q[0]) == c by { SameChild(t, p[0], q[0]); }
      DivergingUnaffected(c, p[1..], v, q[1..], w);
      if Step(t, q[0]).None? {
        AbsentChild(t, q[0], q[1..], w);
      }
    }
  }

  lemma SameChild(t: Tree, a: string, b: string)
    requires !Apart(t, a, b) && CanStep(t, a)
    ensures Child(t, a) == Child(t, b)
  {}

  lemma AbsentChild(t: Tree, a: string, rest: seq<string>, w: string)
    requires Step(t, a).None?
    ensures Child(t, a) == EMPTY_MAP
    ensures rest != [] ==> Get(EMPTY_MAP, rest) == None && Put(EMPTY_MAP, rest, w).Done?
  {
    if rest != [] { FreshNeverFails(rest, w); }
  }

  // Three segments: two that lead to the same child are apart from the same others.
  lemma ApartTransfers(t: Tree, a: string, b: string, c: string)
    requires CanStep(t, a) && !Apart(t, a, b)
    ensures Apart(t, a, c) == Apart(t, b, c) && Apart(t, a, c) == Apart(t, c, b)
    ensures CanStep(t, b)
  {}

  // Writing a path neither creates nor removes interference among the others, nor with it.
  lemma {:induction false} DivergenceStable(t: Tree, p: seq<string>, v: string, a: seq<string>, b: seq<string>)
    requires Wf(t) && Put(t, p, v).Done? && Diverge(t, p, a) && Diverge(t, p, b)
    ensures Diverge(Put(t, p, v).tree, a, b) == Diverge(t, a, b)
    ensures Diverge(Put(t, p, v).tree, p, a)
    decreases |p|
  {
    hide Step, CanStep, Child, PutChild, Apart, Wf;
    var u := PutBelow(t, p, v).tree;
    var t' := PutChild(t, p[0], u);
    PutChildStep(t, p[0], u, a[0]);
    PutChildStep(t, p[0], u, b[0]);
    PutChildStep(t, p[0], u, p[0]);
    NeverApart(t, p[0]);
    PutChildApart(t, p[0], u, a[0], b[0]);
    PutChildApart(t, p[0], u, p[0], a[0]);
    if !Apart(t, p[0], a[0]) {
      ApartTransfers(t, p[0], a[0], b[0]);
      SameChild(t, p[0], a[0]);
      PutChildWf(t, p[0], EMPTY_MAP);
      if !Apart(t, p[0], b[0]) {
        DivergenceStable(Child(t, p[0]), p[1..], v, a[1..], b[1..]);
      } else {
        DivergenceStable(Child(t, p[0]), p[1..], v, a[1..], a[1..]);
      }
    } else if !Apart(t, p[0], b[0]) {
      ApartTransfers(t, p[0], b[0], a[0]);
    }
  }

  // Whether a path meets another does not depend on having been written.
  lemma {:induction false} DivergeSelf(t: Tree, p: seq<string>, v: string, q: seq<string>)
    requires Wf(t) && Put(t, p, v).Done?
    ensures Diverge(Put(t, p, v).tree, p, q) == Diverge(t, p, q)
    decreases |p|
  {
    hide Step, CanStep, Child, PutChild, Apart, Wf;
    if q != [] {
      var u := PutBelow(t, p, v).tree;
      PutChildStep(t, p[0], u, p[0]);
      NeverApart(t, p[0]);
      PutChildApart(t, p[0], u, p[0], q[0]);
      if |p| > 1 {
        PutChildWf(t, p[0], EMPTY_MAP);
        DivergeSelf(Child(t, p[0]), p[1..], v, q[1..]);
      }
    }
  }

  // Two paths that end on scalars or aliases with different texts part ways.
  lemma {:induction false} LeavesDiverge(t: Tree, p: seq<string>, q: seq<string>)
    requires Wf(t) && Get(t, p).Some? && Get(t, q).Some?
    requires Get(t, p).value.content == [] && Get(t, q).value.content == []
    requires Get(t, p).value.value != Get(t, q).value.value
    ensures Diverge(t, p, q)
    decreases |p|
  {
    hide Lookup, Atoi;
    if p != [] && q != [] && !Apart(t, p[0], q[0]) {
      SameChild(t, p[0], q[0]);
      PutChildWf(t, p[0], EMPTY_MAP);
      LeavesDiverge(Child(t, p[0]), p[1..], q[1..]);
    }
  }

  lemma {:induction false} DivergeSymmetric(t: Tree, p: seq<string>, q: seq<string>)
    ensures Diverge(t, p, q) == Diverge(t, q, p)
    decreases |p|
  {
    if p != [] && q != [] && !Apart(t, p[0], q[0]) {
      if CanStep(t, p[0]) {
        ApartTransfers(t, p[0], q[0], q[0]);
        SameChild(t, p[0], q[0]);
        DivergeSymmetric(Child(t, p[0]), p[1..], q[1..]);
      }
    }
  }

  // ---- Order of writing ---------------------------------------------------------

  // Both writes succeed one after the other.
  function PutBoth(t: Tree, p: seq<string>, v: string, q: seq<string>, w: string): Option<Tree>
  {
    match Put(t, p, v)
    case Failed(_) => None
    case Done(t1, _) => match Put(t1, q, w) case Failed(_) => None case Done(t2, _) => Some(t2)
  }

  // Two writes that part ways at this very container.
  lemma PutBothApart(t: Tree, p: seq<string>, v: string, q: seq<string>, w: string)
    requires Wf(t) && p != [] && q != [] && Apart(t, p[0], q[0])
    requires CanStep(t, p[0]) && CanStep(t, q[0])
    requires PutBelow(t, p, v).Done? && PutBelow(t, q, w).Done?
    ensures var u, x := PutBelow(t, p, v).tree, PutBelow(t, q, w).tree;
            && CanStep(PutChild(t, p[0], u), q[0])
            && PutBoth(t, p, v, q, w) == Some(PutChild(PutChild(t, p[0], u), q[0], x))
  {
    hide Step, Child, Apart, Wf, PutChild, CanStep;
    var t1 := PutChild(t, p[0], PutBelow(t, p, v).tree);
    PutChildStep(t, p[0], PutBelow(t, p, v).tree, q[0]);
    assert Put(t, p, v).Done? && Put(t, p, v).tree == t1;
    assert PutBelow(t1, q, w) == PutBelow(t, q, w);
  }

  // Two writes that both go below the same child.
  lemma PutBothBelow(t: Tree, p: seq<string>, v: string, q: seq<string>, w: string)
    requires Wf(t) && |p| > 1 && |q| > 1 && CanStep(t, p[0]) && !Apart(t, p[0], q[0])
    requires Put(Child(t, p[0]), p[1..], v).Done?
    ensures PutBoth(t, p, v, q, w)
         == var below := PutBoth(Child(t, p[0]), p[1..], v, q[1..], w);
            if below.None? then None else Some(PutChild(t, p[0], below.value))
  {
    hide Step, Child, Apart, Wf, PutChild, CanStep;
    var u := PutBelow(t, p, v).tree;
    var t1 := PutChild(t, p[0], u);
    PutChildStep(t, p[0], u, q[0]);
    assert Put(t, p, v).Done? && Put(t, p, v).tree == t1;
    assert PutBelow(t1, q, w) == Put(u, q[1..], w);
    if Put(u, q[1..], w).Done? {
      var x := Put(u, q[1..], w).tree;
      PutChildTwice(t, q[0], u, x);
      PutChildStep(t, p[0], x, q[0]);
    }
  }

  // Writes to existing, diverging places commute exactly.
  lemma {:induction false} PutsCommute(t: Tree, p: seq<string>, v: string, q: seq<string>, w: string)
    requires Wf(t) && Diverge(t, p, q) && Get(t, p).Some? && Get(t, q).Some?
    ensures PutBoth(t, p, v, q, w).Some? && PutBoth(t, p, v, q, w) == PutBoth(t, q, w, p, v)
    decreases |p|
  {
    hide Child, Apart, Wf, PutChild;
    ExistingPut(t, p, v);
    ExistingPut(t, q, w);
    if Apart(t, p[0], q[0]) {
      ApartSymmetric(t, p[0], q[0]);
      PutBothApart(t, p, v, q, w);
      PutBothApart(t, q, w, p, v);
      PutChildCommute(t, p[0], PutBelow(t, p, v).tree, q[0], PutBelow(t, q, w).tree);
    } else {
      ApartSymmetric(t, p[0], q[0]);
      SameChild(t, p[0], q[0]);
      var c := Child(t, p[0]);
      PutChildWf(t, p[0], c) by { PutChildWf(t, p[0], EMPTY_MAP); }
      PutsCommute(c, p[1..], v, q[1..], w);
      PutBothBelow(t, p, v, q, w);
      PutBothBelow(t, q, w, p, v);
      PutChildStep(t, p[0], PutBoth(c, p[1..], v, q[1..], w).value, q[0]);
    }
  }

  lemma ApartSymmetric(t: Tree, a: string, b: string)
    ensures Apart(t, a, b) == Apart(t, b, a)
  {}

  // Writing where a node exists succeeds.
  lemma {:induction false} ExistingPut(t: Tree, path: seq<string>, v: string)
    requires path != [] && Get(t, path).Some?
    ensures Put(t, path, v).Done? && CanStep(t, path[0]) && PutBelow(t, path, v).Done?
    decreases |path|
  {
    if |path| > 1 { ExistingPut(Child(t, path[0]), path[1..], v); }
  }

  // What any path shows of a tree: kind, tag and text of the node it resolves to.
  function Look(t: Tree, path: seq<string>): Option<(Kind, string, string)>
  {
    var n := Get(t, path);
    if n.None? then None else Some((n.value.kind, n.value.tag, n.value.value))
  }

  // After a child was put, a path either goes through it or sees what it saw before.
  lemma LookAfter(t: Tree, a: string, u: Tree, r: seq<string>)
    requires Wf(t) && CanStep(t, a)
    ensures Look(PutChild(t, a, u), r)
         == if r != [] && !Apart(t, a, r[0]) then Look(u, r[1..]) else Look(t, r)
  {
    hide Step, CanStep, Child, PutChild, Apart, Wf;
    PutChildStep(t, a, u, if r == [] then a else r[0]);
  }

  // Two diverging writes that succeed, existing places or not: either order shows the same
  // at every path. The trees differ at most in where appended keys stand.
  lemma {:induction false} OrderDoesNotShow(t: Tree, p: seq<string>, v: string, q: seq<string>, w: string, r: seq<string>)
    requires Wf(t) && Diverge(t, p, q)
    requires Put(t, p, v).Done? && Put(t, q, w).Done?
    ensures PutBoth(t, p, v, q, w).Some? && PutBoth(t, q, w, p, v).Some?
    ensures Look(PutBoth(t, p, v, q, w).value, r) == Look(PutBoth(t, q, w, p, v).value, r)
    decreases |p|
  {
    hide Step, CanStep, Child, PutChild, Apart, Wf;
    var u, x := PutBelow(t, p, v).tree, PutBelow(t, q, w).tree;
    PutKeepsWf(t, p, v);
    PutKeepsWf(t, q, w);
    ApartSymmetric(t, p[0], q[0]);
    if Apart(t, p[0], q[0]) {
      PutBothApart(t, p, v, q, w);
      PutBothApart(t, q, w, p, v);
      LookAfter(t, p[0], u, r);
      LookAfter(t, q[0], x, r);
      LookAfter(PutChild(t, p[0], u), q[0], x, r);
      LookAfter(PutChild(t, q[0], x), p[0], u, r);
      if r != [] {
        PutChildApart(t, p[0], u, q[0], r[0]);
        PutChildApart(t, q[0], x, p[0], r[0]);
        if !Apart(t, p[0], r[0]) { ApartTransfers(t, p[0], r[0], q[0]); }
      }
    } else {
      var c := Child(t, p[0]);
      SameChild(t, p[0], q[0]);
      PutChildWf(t, p[0], EMPTY_MAP);
      var tail := if r == [] then [] else r[1..];
      OrderDoesNotShow(c, p[1..], v, q[1..], w, tail);
      PutBothBelow(t, p, v, q, w);
      PutBothBelow(t, q, w, p, v);
      var m, n := PutBoth(c, p[1..], v, q[1..], w).value, PutBoth(c, q[1..], w, p[1..], v).value;
      LookAfter(t, p[0], m, r);
      LookAfter(t, q[0], n, r);
      if r != [] { ApartTransfers(t, p[0], q[0], r[0]); }
    }
  }

  // ---- Locations ----------------------------------------------------------------

  // A location is the list of child positions from the root.
  predicate Within(t: Tree, loc: seq<nat>)
    decreases |loc|
  {
    loc == [] || (loc[0] < |t.content| && Within(t.content[loc[0]], loc[1..]))
  }

  function NodeAt(t: Tree, loc: seq<nat>): Tree
    requires Within(t, loc)
    decreases |loc|
  {
    if loc == [] then t else NodeAt(t.content[loc[0]], loc[1..])
  }

  // The location a path resolves to.
  function Locate(t: Tree, path: seq<string>): Option<seq<nat>>
    decreases |path|
  {
    if path == [] then Some([])
    else if Step(t, path[0]).None? then None
    else
      var below := Locate(Child(t, path[0]), path[1..]);
      if below.None? then None else Some([Step(t, path[0]).value] + below.value)
  }

  lemma {:induction false} LocateFindsGet(t: Tree, path: seq<string>)
    ensures Locate(t, path).Some? <==> Get(t, path).Some?
    ensures Get(t, path).Some? ==>
      Within(t, Locate(t, path).value) && NodeAt(t, Locate(t, path).value) == Get(t, path).value
    decreases |path|
  {
    if path != [] && Step(t, path[0]).Some? {
      LocateFindsGet(Child(t, path[0]), path[1..]);
      if Locate(Child(t, path[0]), path[1..]).Some? {
        assert Locate(t, path).value[1..] == Locate(Child(t, path[0]), path[1..]).value;
      }
    }
  }

  lemma ConsPrefix(i: nat, m: seq<nat>, j: nat, n: seq<nat>)
    ensures [i] + m <= [j] + n <==> i == j && m <= n
  {
    var a, b := [i] + m, [j] + n;
    assert a[1..] == m && b[1..] == n;
    if |m| <= |n| {
      assert a == b[..|a|] <==> a[0] == b[0] && m == n[..|m|] by {
        assert b[..|a|] == [j] + n[..|m|];
      }
    }
  }

  // Paths to existing nodes diverge exactly when neither location is at or below the other.
  lemma {:induction false} DivergeByLocation(t: Tree, p: seq<string>, q: seq<string>)
    requires Locate(t, p).Some? && Locate(t, q).Some?
    ensures Diverge(t, p, q)
       <==> !(Locate(t, p).value <= Locate(t, q).value) && !(Locate(t, q).value <= Locate(t, p).value)
    decreases |p|
  {
    if p != [] && q != [] {
      var i, j := Step(t, p[0]).value, Step(t, q[0]).value;
      var m, n := Locate(Child(t, p[0]), p[1..]).value, Locate(Child(t, q[0]), q[1..]).value;
      if i == j {
        if t.kind == Mapping && p[0] != q[0] { DifferentKeys(t, p[0], q[0]); }
        DivergeByLocation(Child(t, p[0]), p[1..], q[1..]);
      }
      ConsPrefix(i, m, j, n);
      ConsPrefix(j, n, i, m);
    }
  }

  // Frame: a node whose location is not at or below the written one keeps kind, tag and
  // text; its content may only have grown, and a leaf is kept whole.
  lemma {:induction false} PutFrame(t: Tree, path: seq<string>, v: string, loc: seq<nat>)
    requires Wf(t) && Put(t, path, v).Done? && Within(t, loc)
    requires Locate(Put(t, path, v).tree, path).Some?
    requires !(Locate(Put(t, path, v).tree, path).value <= loc)
    ensures var t' := Put(t, path, v).tree;
            && Within(t', loc)
            && var m, n := NodeAt(t, loc), NodeAt(t', loc);
               && m.kind == n.kind && m.tag == n.tag && m.value == n.value
               && |m.content| <= |n.content|
               && (m.kind == Scalar || m.kind == Alias ==> m == n)
    decreases |path|
  {
    hide KeyFrom, Atoi;
    var u := PutBelow(t, path, v).tree;
    var t' := PutChild(t, path[0], u);
    PutChildPosition(t, path[0], u);
    if loc != [] && loc[0] == Step(t', path[0]).value {
      var w := Locate(u, path[1..]).value;
      assert Locate(t', path).value == [loc[0]] + w;
      ConsPrefix(loc[0], w, loc[0], loc[1..]);
      assert loc == [loc[0]] + loc[1..];
      if |path| > 1 {
        PutFrame(Child(t, path[0]), path[1..], v, loc[1..]);
      }
    }
  }

  // The written location exists afterwards, so the frame applies to every write.
  lemma PutIsLocated(t: Tree, path: seq<string>, v: string)
    requires Wf(t) && Put(t, path, v).Done?
    ensures Locate(Put(t, path, v).tree, path).Some?
  {
    PutThenGet(t, path, v);
    LocateFindsGet(Put(t, path, v).tree, path);
  }
}
