// Where things stand in a Helm values file, whatever the order of the pending containers:
// internal/gitwriteback/edit.go:235-325, internal/controller/workload_controller.go:101-133,241-259.
module HelmLayout {
  import opened Text
  import opened YamlTree
  import opened YamlPath
  import opened YamlWrites
  import opened YamlFile
  import opened HelmTarget
  import opened HelmOrder

  // ---- What writes keep of a tree -----------------------------------------------

  predicate IsKey(t: Tree, i: nat) { t.kind == Mapping && i % 2 == 0 }

  predicate IsText(t: Tree) { t == Str(t.value) }

  // Some path segment leads to this child; to a repeated key's value, none does.
  ghost predicate Reached(t: Tree, i: nat) { exists a :: Step(t, a) == Some(i) }

  // The tree b with writes made to it: its key nodes and what no path reaches are as they
  // were, and where they were; what was added are plain keys, none of them repeated.
  ghost predicate Grown(b: Tree, t: Tree)
    decreases t, 1
  {
    && t.kind == b.kind && |b.content| <= |t.content| && (t.kind != Mapping ==> |t.content| == |b.content|)
    && (forall i | 0 <= i < |b.content| :: InPlace(b, t, i))
    && (forall i | |b.content| <= i < |t.content| :: Added(t, i))
  }

  ghost predicate InPlace(b: Tree, t: Tree, i: nat)
    requires i < |b.content| <= |t.content|
    decreases t, 0
  {
    t.content[i] == b.content[i]
    || (!IsKey(b, i) && Reached(b, i) && (IsText(t.content[i]) || Grown(b.content[i], t.content[i])))
  }

  ghost predicate Added(t: Tree, i: nat)
    requires i < |t.content|
    decreases t, 0
  {
    if IsKey(t, i) then IsText(t.content[i]) && Lookup(t, t.content[i].value) == Some(i + 1)
    else IsText(t.content[i]) || Grown(EMPTY_MAP, t.content[i])
  }

  lemma GrownSelf(t: Tree)
    ensures Grown(t, t)
  {}

  lemma {:induction false} KeyPrefix(c: seq<Tree>, d: seq<Tree>, key: string, i: nat)
    requires i <= |c| <= |d| && (|c| - i) % 2 == 0
    requires forall j | i <= j < |c| && (j - i) % 2 == 0 :: c[j].value == d[j].value
    ensures KeyFrom(c, key, i).Some? ==> KeyFrom(d, key, i) == KeyFrom(c, key, i)
    ensures KeyFrom(d, key, i).Some? && KeyFrom(d, key, i).value < |c| ==> KeyFrom(c, key, i) == KeyFrom(d, key, i)
    decreases |c| - i
  {
    if i < |c| { KeyPrefix(c, d, key, i + 2); }
  }

  // Segments that led to a child still lead to it.
  lemma GrownStep(b: Tree, t: Tree, a: string)
    requires Wf(b) && Grown(b, t)
    ensures Step(b, a).Some? ==> Step(t, a) == Step(b, a)
    ensures Step(t, a).Some? && Step(t, a).value < |b.content| ==> Step(b, a) == Step(t, a)
  {
    hide Atoi;
    if b.kind == Mapping {
      forall j | 0 <= j < |b.content| && (j - 0) % 2 == 0
        ensures b.content[j].value == t.content[j].value
      {
        assert InPlace(b, t, j);
      }
      KeyPrefix(b.content, t.content, a, 0);
    }
  }

  lemma GrownLeaf(parent: Kind, b: Tree, x: Tree, v: string)
    ensures Grown(b, x) ==> IsText(WriteLeaf(parent, x, v)) || Grown(b, WriteLeaf(parent, x, v))
    ensures IsText(x) ==> IsText(WriteLeaf(parent, x, v))
  {
    var y := x.(value := v, tag := STR);
    if Grown(b, x) {
      forall i | 0 <= i < |b.content|
        ensures InPlace(b, y, i)
      {
        assert InPlace(b, x, i);
      }
      forall i | |b.content| <= i < |y.content|
        ensures Added(y, i)
      {
        assert Added(x, i);
      }
    }
  }

  // A text has nothing below it.
  lemma TextEnds(t: Tree, p: seq<string>, v: string)
    requires IsText(t)
    ensures Put(t, p, v).Failed?
  {}

  // What the child at i grew from: what was there, or nothing.
  function Base(b: Tree, i: nat): Tree { if i < |b.content| then b.content[i] else EMPTY_MAP }

  lemma ReachedChild(b: Tree, t: Tree, a: string)
    requires Wf(b) && Grown(b, t) && Step(t, a).Some?
    ensures var i := Step(t, a).value;
            && (i < |b.content| ==> Reached(b, i)) && !IsKey(t, i)
            && (IsText(t.content[i]) || Grown(Base(b, i), t.content[i]))
  {
    hide Atoi, KeyFrom;
    var i := Step(t, a).value;
    GrownStep(b, t, a);
    if i < |b.content| {
      assert Reached(b, i) && InPlace(b, t, i);
      GrownSelf(b.content[i]);
    } else {
      assert Added(t, i);
    }
  }

  lemma InPlaceSame(b: Tree, t: Tree, u: Tree, j: nat)
    requires j < |b.content| <= |t.content| && |b.content| <= |u.content| && u.content[j] == t.content[j] && InPlace(b, t, j)
    ensures InPlace(b, u, j)
  {
    hide Reached, Grown;
  }

  lemma AddedSame(t: Tree, u: Tree, j: nat)
    requires j < |t.content| <= |u.content| && u.kind == t.kind && u.content[j] == t.content[j] && Added(t, j)
    requires IsKey(t, j) && Lookup(t, t.content[j].value).Some? ==>
      Lookup(u, t.content[j].value) == Lookup(t, t.content[j].value)
    ensures Added(u, j)
  {
    hide Grown, Lookup;
  }

  lemma GrownAt(b: Tree, t: Tree, i: nat, u: Tree)
    requires Wf(t) && Grown(b, t) && i < |t.content| && !IsKey(t, i)
    requires (i < |b.content| ==> Reached(b, i)) && (IsText(u) || Grown(Base(b, i), u))
    ensures Grown(b, WithChild(t, i, u))
  {
    hide Step, Reached, KeyFrom, InPlace, Added;
    var t' := WithChild(t, i, u);
    forall j | 0 <= j < |b.content|
      ensures InPlace(b, t', j)
    {
      if j == i { NewInPlace(b, t', j); } else { InPlaceSame(b, t, t', j); }
    }
    forall j | |b.content| <= j < |t'.content|
      ensures Added(t', j)
    {
      if j == i {
        NewAdded(t', j);
      } else {
        if IsKey(t, j) { KeyFromSet(t.content, t.content[j].value, 0, i, u); }
        AddedSame(t, t', j);
      }
    }
  }

  lemma NewInPlace(b: Tree, t: Tree, i: nat)
    requires i < |b.content| <= |t.content| && t.kind == b.kind && !IsKey(t, i) && Reached(b, i)
    requires IsText(t.content[i]) || Grown(b.content[i], t.content[i])
    ensures InPlace(b, t, i)
  {
    hide Reached, Grown;
  }

  lemma NewAdded(t: Tree, i: nat)
    requires i < |t.content| && !IsKey(t, i) && (IsText(t.content[i]) || Grown(EMPTY_MAP, t.content[i]))
    ensures Added(t, i)
  {
    hide Grown;
  }

  lemma GrownByPair(b: Tree, t: Tree, a: string, u: Tree)
    requires Wf(b) && Wf(t) && Grown(b, t) && t.kind == Mapping && Step(t, a).None?
    requires IsText(u) || Grown(EMPTY_MAP, u)
    ensures Grown(b, PutChild(t, a, u))
  {
    hide Reached, KeyFrom, InPlace, Added;
    var n := |t.content|;
    var t' := PutChild(t, a, u);
    assert t'.content == t.content + [Str(a), u];
    forall j | 0 <= j < |b.content|
      ensures InPlace(b, t', j)
    {
      InPlaceSame(b, t, t', j);
    }
    forall j | |b.content| <= j < n + 2
      ensures Added(t', j)
    {
      if j < n {
        KeyFromAppend(t.content, t.content[j].value, 0, a, u);
        AddedSame(t, t', j);
      } else if j == n {
        KeyFromAppend(t.content, a, 0, a, u);
        NewKey(t', n);
      } else {
        NewAdded(t', j);
      }
    }
  }

  lemma NewKey(t: Tree, i: nat)
    requires i < |t.content| && IsKey(t, i) && IsText(t.content[i]) && Lookup(t, t.content[i].value) == Some(i + 1)
    ensures Added(t, i)
  {}

  lemma {:induction false} PutGrows(b: Tree, t: Tree, p: seq<string>, v: string)
    requires Wf(b) && Wf(t) && Grown(b, t) && Put(t, p, v).Done?
    ensures Grown(b, Put(t, p, v).tree)
    decreases |p|
  {
    hide Grown, Wf, Reached, KeyFrom, Atoi;
    var u := PutBelow(t, p, v).tree;
    if Step(t, p[0]).None? {
      GrownSelf(EMPTY_MAP);
      ChildrenWf(EMPTY_MAP);
      if |p| > 1 { PutGrows(EMPTY_MAP, EMPTY_MAP, p[1..], v); }
      GrownByPair(b, t, p[0], u);
    } else {
      var i := Step(t, p[0]).value;
      ReachedChild(b, t, p[0]);
      ChildrenWf(b);
      ChildrenWf(t);
      ChildrenWf(EMPTY_MAP);
      if |p| > 1 {
        if IsText(t.content[i]) { TextEnds(t.content[i], p[1..], v); }
        PutGrows(Base(b, i), t.content[i], p[1..], v);
      } else {
        GrownLeaf(t.kind, Base(b, i), t.content[i], v);
      }
      GrownAt(b, t, i, u);
    }
  }

  lemma ChildrenWf(t: Tree)
    requires Wf(t) || t == EMPTY_MAP
    ensures Wf(t) && forall i | 0 <= i < |t.content| :: Wf(t.content[i])
  {}

  lemma {:induction false} PutAllGrows(b: Tree, t: Tree, ws: seq<Write>)
    requires Wf(b) && Wf(t) && Grown(b, t) && PutAll(t, ws).Done?
    ensures Wf(PutAll(t, ws).tree) && Grown(b, PutAll(t, ws).tree)
    decreases |ws|
  {
    hide Grown, Wf, Put;
    if ws != [] {
      PutGrows(b, t, ws[0].path, ws[0].value);
      PutKeepsWf(t, ws[0].path, ws[0].value);
      PutAllGrows(b, Put(t, ws[0].path, ws[0].value).tree, ws[1..]);
    }
  }

  lemma {:induction false} StaysGrown(b: Tree, t: Tree, edits: seq<seq<Write>>)
    requires Wf(b) && Wf(t) && Grown(b, t)
    ensures Grown(b, RunEdits(t, edits)) && Wf(RunEdits(t, edits))
    decreases |edits|
  {
    hide Grown, Wf, PutAll;
    if edits != [] {
      if PutAll(t, edits[0]).Done? { PutAllGrows(b, t, edits[0]); }
      StaysGrown(b, AfterWrites(t, edits[0]), edits[1..]);
    }
  }

  // However many edits are run, failing ones included.
  lemma RunGrows(t: Tree, edits: seq<seq<Write>>)
    requires Wf(t)
    ensures Wf(RunEdits(t, edits)) && Grown(t, RunEdits(t, edits))
  {
    hide *;
    GrownSelf(t);
    StaysGrown(t, t, edits);
  }

  // ---- Equal up to the order of what was added ----------------------------------

  // Two trees grown from b: the same nodes in the same places, except that the added pairs
  // of a mapping may stand in different orders.
  ghost predicate Reordered(b: Tree, t: Tree, u: Tree)
    decreases t, 2
  {
    && t.kind == u.kind && t.tag == u.tag && t.value == u.value
    && |b.content| <= |t.content| && |b.content| <= |u.content|
    && (t.kind != Mapping ==> |t.content| == |u.content| == |b.content|)
    && (forall i | 0 <= i < |b.content| ::
          t.content[i] == u.content[i] || (!IsKey(t, i) && Reordered(b.content[i], t.content[i], u.content[i])))
    && (forall i | |b.content| < i < |t.content| && !IsKey(t, i) ::
          exists j :: |b.content| < j < |u.content| && SamePair(t, i, u, j))
    && (forall j | |b.content| < j < |u.content| && !IsKey(t, j) ::
          exists i :: |b.content| < i < |t.content| && SamePair(t, i, u, j))
  }

  ghost predicate SamePair(t: Tree, i: nat, u: Tree, j: nat)
    requires 0 < i < |t.content| && 0 < j < |u.content|
    decreases t, 1
  {
    t.content[i - 1] == u.content[j - 1]
    && (t.content[i] == u.content[j] || Reordered(EMPTY_MAP, t.content[i], u.content[j]))
  }

  // The pair of u that carries the key t added at i.
  lemma Partner(b: Tree, t: Tree, u: Tree, i: nat) returns (j: nat)
    requires Wf(b) && Grown(b, t) && Grown(b, u) && Alike(t, u)
    requires |b.content| < i < |t.content| && !IsKey(t, i) && t.kind == Mapping
    ensures |b.content| < j < |u.content| && !IsKey(u, j)
    ensures t.content[i - 1] == u.content[j - 1] && Alike(t.content[i], u.content[j])
    ensures IsText(t.content[i]) || Grown(EMPTY_MAP, t.content[i])
    ensures IsText(u.content[j]) || Grown(EMPTY_MAP, u.content[j])
  {
    hide Alike, KeyFrom;
    AlikeRoots(t, u);
    assert Added(t, i - 1) && Added(t, i);
    var k := t.content[i - 1].value;
    AlikeStep(t, u, k);
    j := Step(u, k).value;
    GrownStep(b, t, k);
    GrownStep(b, u, k);
    assert Added(u, j - 1) && Added(u, j);
  }

  lemma {:induction false} ChildAgrees(b: Tree, x: Tree, y: Tree)
    requires Wf(b) && Wf(x) && Wf(y) && Alike(x, y)
    requires (IsText(x) || Grown(b, x)) && (IsText(y) || Grown(b, y))
    ensures x == y || Reordered(b, x, y)
    decreases x, 1
  {
    AlikeRoots(x, y);
    if !IsText(x) && !IsText(y) {
      hide *;
      AlikeIsReordered(b, x, y);
    }
  }

  // Trees grown from one tree that no path can tell apart are equal up to that order.
  lemma {:induction false} AlikeIsReordered(b: Tree, t: Tree, u: Tree)
    requires Wf(b) && Wf(t) && Wf(u) && Grown(b, t) && Grown(b, u) && Alike(t, u)
    ensures Reordered(b, t, u)
    decreases t, 0
  {
    hide Alike, Wf, Step, KeyFrom;
    AlikeRoots(t, u);
    AlikeChain(t, u, u) by { AlikeSelf(u); }
    ChildrenWf(b);
    ChildrenWf(t);
    ChildrenWf(u);
    ChildrenWf(EMPTY_MAP);
    forall i | 0 <= i < |b.content| && t.content[i] != u.content[i]
      ensures !IsKey(t, i) && Reordered(b.content[i], t.content[i], u.content[i])
    {
      assert InPlace(b, t, i) && InPlace(b, u, i);
      var a :| Step(b, a) == Some(i);
      GrownStep(b, t, a);
      GrownStep(b, u, a);
      AlikeStep(t, u, a);
      ReachedChild(b, t, a);
      ReachedChild(b, u, a);
      ChildAgrees(b.content[i], t.content[i], u.content[i]);
    }
    forall i | |b.content| < i < |t.content| && !IsKey(t, i)
      ensures exists j :: |b.content| < j < |u.content| && SamePair(t, i, u, j)
    {
      var j := Partner(b, t, u, i);
      ChildAgrees(EMPTY_MAP, t.content[i], u.content[j]);
      assert SamePair(t, i, u, j);
    }
    forall j | |b.content| < j < |u.content| && !IsKey(t, j)
      ensures exists i :: |b.content| < i < |t.content| && SamePair(t, i, u, j)
    {
      var i := Partner(b, u, t, j);
      AlikeChain(u.content[j], t.content[i], t.content[i]) by { AlikeSelf(t.content[i]); }
      ChildAgrees(EMPTY_MAP, t.content[i], u.content[j]);
      assert SamePair(t, i, u, j);
    }
  }

  // Whatever order the pending containers come in, all that differs in the values file is
  // in which order keys were added; what was there, keys and repeats too, stands as it was.
  lemma OnlyAddedPairsMove(f: File, es: seq<HelmEdit>, fs: seq<HelmEdit>)
    requires HelmSafe(f, es) && multiset(es) == multiset(fs) && ParseDoc(f).Parsed?
    ensures ParseDoc(HelmRun(f, es)).Parsed? && ParseDoc(HelmRun(f, fs)).Parsed?
    ensures var root, t, u := ParseDoc(f).root, ParseDoc(HelmRun(f, es)).root, ParseDoc(HelmRun(f, fs)).root;
            Grown(root, t) && Grown(root, u) && Reordered(root, t, u)
  {
    hide *;
    var root := ParseDoc(f).root;
    SafeRootWf(f, es);
    RunsOnRoot(f, es, fs);
    HelmOrderDoesNotShow(f, es, fs);
    RunGrows(root, AllWrites(es));
    RunGrows(root, AllWrites(fs));
    AlikeIsReordered(root, RunEdits(root, AllWrites(es)), RunEdits(root, AllWrites(fs)));
  }

  lemma SafeRootWf(f: File, es: seq<HelmEdit>)
    requires HelmSafe(f, es) && ParseDoc(f).Parsed?
    ensures Wf(ParseDoc(f).root)
  {
    hide ConflictFree, Guarded, ParseDoc, Wf, Canon;
    RootIsCanon(f);
    CanonKeeps(ParseDoc(f).root);
  }

  lemma RunsOnRoot(f: File, es: seq<HelmEdit>, fs: seq<HelmEdit>)
    requires HelmSafe(f, es) && multiset(es) == multiset(fs) && ParseDoc(f).Parsed?
    ensures ParseDoc(HelmRun(f, es)) == Parsed(RunEdits(ParseDoc(f).root, AllWrites(es)))
    ensures ParseDoc(HelmRun(f, fs)) == Parsed(RunEdits(ParseDoc(f).root, AllWrites(fs)))
  {
    hide ParseDoc, HelmRun, RunEdits, HelmSafe;
    assert forall e | e in fs :: e in multiset(es);
    HelmRunIs(f, es, es);
    HelmRunIs(f, es, fs);
  }
}
