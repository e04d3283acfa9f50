// The order in which pending containers are met does not show in a Helm values file:
// internal/controller/workload_controller.go:101-133,241-259, internal/gitwriteback/edit.go:70-92.
module HelmOrder {
  import opened Text
  import opened YamlTree
  import opened YamlPath
  import opened YamlWrites
  import opened YamlFile
  import opened HelmTarget

  // ---- Trees that show the same -------------------------------------------------

  // Two trees no path can tell apart. What no path reads, such as key nodes and repeated
  // keys, is the subject of HelmLayout.
  ghost predicate Alike(t: Tree, u: Tree) { forall r :: Look(t, r) == Look(u, r) }

  lemma AlikeRoots(t: Tree, u: Tree)
    requires Alike(t, u)
    ensures t.kind == u.kind && t.tag == u.tag && t.value == u.value
  {
    assert Look(t, []) == Look(u, []);
  }

  lemma LookBelow(t: Tree, a: string, r: seq<string>)
    ensures Look(t, [a] + r) == if Step(t, a).Some? then Look(Child(t, a), r) else None
  {
    assert ([a] + r)[1..] == r;
  }

  lemma AlikeStep(t: Tree, u: Tree, a: string)
    requires Alike(t, u)
    ensures Step(t, a).Some? == Step(u, a).Some? && CanStep(t, a) == CanStep(u, a)
    ensures Alike(Child(t, a), Child(u, a))
  {
    hide Step, Look;
    AlikeRoots(t, u);
    LookBelow(t, a, []);
    LookBelow(u, a, []);
    LookRoot(Child(t, a));
    LookRoot(Child(u, a));
    assert Step(t, a).Some? == Step(u, a).Some?;
    forall r
      ensures Look(Child(t, a), r) == Look(Child(u, a), r)
    {
      LookBelow(t, a, r);
      LookBelow(u, a, r);
      assert Look(t, [a] + r) == Look(u, [a] + r);
    }
  }

  lemma LookRoot(t: Tree)
    ensures Look(t, []) == Some((t.kind, t.tag, t.value))
  {}

  lemma AlikeApart(t: Tree, u: Tree, a: string, b: string)
    requires Alike(t, u)
    ensures Apart(t, a, b) == Apart(u, a, b)
  {
    hide Alike, Lookup, Atoi;
    AlikeRoots(t, u);
    AlikeStep(t, u, a);
    AlikeStep(t, u, b);
  }

  lemma AlikePutChild(t: Tree, u: Tree, a: string, x: Tree, y: Tree)
    requires Wf(t) && Wf(u) && Alike(t, u) && Alike(x, y) && CanStep(t, a)
    ensures CanStep(u, a) && Alike(PutChild(t, a, x), PutChild(u, a, y))
  {
    AlikeStep(t, u, a);
    hide CanStep, PutChild, Apart, Wf, Look;
    forall r
      ensures Look(PutChild(t, a, x), r) == Look(PutChild(u, a, y), r)
    {
      LookAfter(t, a, x, r);
      LookAfter(u, a, y, r);
      if r != [] { AlikeApart(t, u, a, r[0]); }
    }
  }

  lemma AlikeLeaf(parent: Kind, x: Tree, y: Tree, v: string)
    requires Alike(x, y)
    ensures Alike(WriteLeaf(parent, x, v), WriteLeaf(parent, y, v))
    ensures LeafChanges(parent, x, v) == LeafChanges(parent, y, v)
  {
    AlikeRoots(x, y);
    var x', y' := x.(value := v, tag := STR), y.(value := v, tag := STR);
    forall r
      ensures Look(x', r) == Look(y', r)
    {
      Relabelled(x, v, r);
      Relabelled(y, v, r);
      assert Look(x, r) == Look(y, r);
    }
  }

  lemma Relabelled(x: Tree, v: string, r: seq<string>)
    ensures Look(x.(value := v, tag := STR), r) == if r == [] then Some((x.kind, STR, v)) else Look(x, r)
  {
    var x' := x.(value := v, tag := STR);
    if r != [] {
      assert Step(x', r[0]) == Step(x, r[0]);
    }
  }

  // A write cannot tell such trees apart either.
  lemma {:induction false} AlikePut(t: Tree, u: Tree, p: seq<string>, v: string)
    requires Wf(t) && Wf(u) && Alike(t, u)
    ensures SameOutcome(Put(t, p, v), Put(u, p, v))
    ensures Put(t, p, v).Done? ==>
      Wf(Put(t, p, v).tree) && Wf(Put(u, p, v).tree) && Alike(Put(t, p, v).tree, Put(u, p, v).tree)
    decreases |p|
  {
    if p != [] {
      hide Alike, Step, CanStep, Child, PutChild, Apart, Wf, WriteLeaf, LeafChanges;
      AlikeRoots(t, u);
      AlikeStep(t, u, p[0]);
      if CanStep(t, p[0]) {
        PutChildWf(t, p[0], EMPTY_MAP);
        PutChildWf(u, p[0], EMPTY_MAP);
        if |p| > 1 {
          AlikePut(Child(t, p[0]), Child(u, p[0]), p[1..], v);
        } else {
          AlikeLeaf(t.kind, Child(t, p[0]), Child(u, p[0]), v);
          AlikeSelf(Str(v));
        }
        if PutBelow(t, p, v).Done? {
          AlikePutChild(t, u, p[0], PutBelow(t, p, v).tree, PutBelow(u, p, v).tree);
          PutKeepsWf(t, p, v);
          PutKeepsWf(u, p, v);
        }
      }
    }
  }

  lemma AlikeSelf(t: Tree)
    ensures Alike(t, t)
  {}

  lemma AlikeChain(t: Tree, u: Tree, x: Tree)
    requires Alike(t, u) && Alike(u, x)
    ensures Alike(t, x) && Alike(u, t)
  {}

  lemma {:induction false} AlikePutAll(t: Tree, u: Tree, ws: seq<Write>)
    requires Wf(t) && Wf(u) && Alike(t, u)
    ensures SameOutcome(PutAll(t, ws), PutAll(u, ws))
    ensures PutAll(t, ws).Done? ==>
      Wf(PutAll(t, ws).tree) && Wf(PutAll(u, ws).tree) && Alike(PutAll(t, ws).tree, PutAll(u, ws).tree)
    decreases |ws|
  {
    hide Alike, Put, Wf;
    if ws != [] {
      AlikePut(t, u, ws[0].path, ws[0].value);
      if Put(t, ws[0].path, ws[0].value).Done? {
        AlikePutAll(Put(t, ws[0].path, ws[0].value).tree, Put(u, ws[0].path, ws[0].value).tree, ws[1..]);
      }
    }
  }

  // ---- Two edits in either order ------------------------------------------------

  // What fits an edit fits the rest of it after its first write.
  lemma RestFits(t: Tree, ws: seq<Write>, w: Write)
    requires Wf(t) && ws != [] && Independent(t, ws) && Put(t, ws[0].path, ws[0].value).Done? && Fits(t, w, ws)
    ensures Fits(Put(t, ws[0].path, ws[0].value).tree, w, ws[1..])
    ensures w != ws[0] ==> Diverge(t, ws[0].path, w.path)
  {
    hide Put, Diverge, Wf;
    RestIndependent(t, ws);
    if w !in ws { RestApart(t, ws, w.path); }
  }

  // One write before or after a whole edit that it fits.
  lemma {:induction false} WritePastEdit(t: Tree, p: seq<string>, v: string, ws: seq<Write>)
    requires Wf(t) && Independent(t, ws) && Fits(t, Write(p, v), ws)
    requires Put(t, p, v).Done? && PutAll(t, ws).Done?
    ensures Put(PutAll(t, ws).tree, p, v).Done? && PutAll(Put(t, p, v).tree, ws).Done?
    ensures Alike(Put(PutAll(t, ws).tree, p, v).tree, PutAll(Put(t, p, v).tree, ws).tree)
    decreases |ws|
  {
    hide Alike, Put, Wf, Diverge;
    if ws == [] {
      AlikeSelf(Put(t, p, v).tree);
    } else if ws[0] == Write(p, v) {
      PutTwice(t, p, v);
      PutAllSettles(t, ws);
      AlikeSelf(PutAll(t, ws).tree);
    } else {
      var q, w := ws[0].path, ws[0].value;
      var tp, tq := Put(t, p, v).tree, Put(t, q, w).tree;
      PutKeepsWf(t, p, v);
      PutKeepsWf(t, q, w);
      RestFits(t, ws, Write(p, v));
      DivergeSymmetric(t, p, q);
      TwoOrders(t, p, v, q, w);
      RestIndependent(t, ws);
      WritePastEdit(tq, p, v, ws[1..]);
      PutKeepsWf(tq, p, v);
      PutKeepsWf(tp, q, w);
      AlikePutAll(Put(tq, p, v).tree, Put(tp, q, w).tree, ws[1..]);
      AlikeChain(Put(PutAll(tq, ws[1..]).tree, p, v).tree, PutAll(Put(tq, p, v).tree, ws[1..]).tree,
                 PutAll(Put(tp, q, w).tree, ws[1..]).tree);
    }
  }

  lemma TwoOrders(t: Tree, p: seq<string>, v: string, q: seq<string>, w: string)
    requires Wf(t) && Diverge(t, p, q) && Put(t, p, v).Done? && Put(t, q, w).Done?
    ensures Put(Put(t, p, v).tree, q, w).Done? && Put(Put(t, q, w).tree, p, v).Done?
    ensures Alike(Put(Put(t, q, w).tree, p, v).tree, Put(Put(t, p, v).tree, q, w).tree)
  {
    hide Put, Wf, Diverge, Look;
    OrderDoesNotShow(t, p, v, q, w, []);
    forall r
      ensures Look(PutBoth(t, p, v, q, w).value, r) == Look(PutBoth(t, q, w, p, v).value, r)
    {
      OrderDoesNotShow(t, p, v, q, w, r);
    }
  }

  // The tree an edit leaves: as it was when the edit fails.
  function AfterWrites(t: Tree, ws: seq<Write>): Tree { if PutAll(t, ws).Done? then PutAll(t, ws).tree else t }

  lemma SeparateSymmetric(t: Tree, ws: seq<Write>, vs: seq<Write>)
    requires Independent(t, ws) && Separate(t, ws, vs)
    ensures Separate(t, vs, ws)
  {
    hide Diverge;
    forall i, j | 0 <= i < |ws| && 0 <= j < |vs| && ws[i] !in vs
      ensures Diverge(t, vs[j].path, ws[i].path)
    {
      assert Fits(t, vs[j], ws);
      DivergeSymmetric(t, ws[i].path, vs[j].path);
    }
  }

  lemma {:induction false} EditsSwap(t: Tree, ws: seq<Write>, vs: seq<Write>)
    requires Wf(t) && Independent(t, ws) && Independent(t, vs) && Separate(t, ws, vs)
    requires PutAll(t, ws).Done? && PutAll(t, vs).Done?
    ensures PutAll(PutAll(t, ws).tree, vs).Done? && PutAll(PutAll(t, vs).tree, ws).Done?
    ensures Alike(PutAll(PutAll(t, ws).tree, vs).tree, PutAll(PutAll(t, vs).tree, ws).tree)
    decreases |ws|
  {
    hide Alike, Put, Wf, Diverge, Independent, Separate, AllApart, Fits;
    FateKept(t, ws, vs);
    SeparateSymmetric(t, ws, vs);
    FateKept(t, vs, ws);
    if ws == [] {
      AlikeSelf(PutAll(t, vs).tree);
    } else {
      var p, v := ws[0].path, ws[0].value;
      var tp := Put(t, p, v).tree;
      var tv := PutAll(t, vs).tree;
      FirstFits(t, ws, vs);
      RestIndependent(t, ws);
      RestSeparate(t, ws, vs);
      WritePastEdit(t, p, v, vs);
      EditsSwap(tp, ws[1..], vs);
      PutKeepsWf(tv, p, v);
      PutAllSettles(tp, vs);
      AlikePutAll(Put(tv, p, v).tree, PutAll(tp, vs).tree, ws[1..]);
      var end := PutAll(PutAll(t, ws).tree, vs).tree;
      var mid := PutAll(PutAll(tp, vs).tree, ws[1..]).tree;
      var other := PutAll(tv, ws).tree;
      assert Alike(other, mid);
      AlikeSelf(mid);
      AlikeChain(other, mid, mid);
      AlikeChain(end, mid, other);
    }
  }

  lemma FirstFits(t: Tree, ws: seq<Write>, vs: seq<Write>)
    requires ws != [] && Separate(t, vs, ws)
    ensures Fits(t, ws[0], vs)
  {}

  lemma RestSeparate(t: Tree, ws: seq<Write>, vs: seq<Write>)
    requires Wf(t) && ws != [] && Independent(t, ws) && Independent(t, vs)
    requires Separate(t, ws, vs) && Put(t, ws[0].path, ws[0].value).Done?
    ensures Separate(Put(t, ws[0].path, ws[0].value).tree, ws[1..], vs)
    ensures Independent(Put(t, ws[0].path, ws[0].value).tree, vs)
  {
    hide Put, Wf, Diverge, Fits;
    var p, v := ws[0].path, ws[0].value;
    forall i | 0 <= i < |vs|
      ensures Fits(Put(t, p, v).tree, vs[i], ws[1..])
      ensures vs[i] != ws[0] ==> Diverge(t, p, vs[i].path)
    {
      RestFits(t, ws, vs[i]);
    }
    forall i, j | 0 <= i < j < |vs|
      ensures Diverge(Put(t, p, v).tree, vs[i].path, vs[j].path)
    {
      var a, b := vs[i].path, vs[j].path;
      NotFromItself(t, p);
      DivergeSymmetric(Put(t, p, v).tree, a, b);
      if vs[i] != ws[0] { DivergenceStable(t, p, v, a, if vs[j] == ws[0] then a else b); }
      else { DivergenceStable(t, p, v, b, b); }
    }
  }

  // Failing edits included.
  lemma TwoEdits(t: Tree, ws: seq<Write>, vs: seq<Write>)
    requires Wf(t) && Independent(t, ws) && Independent(t, vs) && Separate(t, ws, vs)
    ensures Alike(AfterWrites(AfterWrites(t, ws), vs), AfterWrites(AfterWrites(t, vs), ws))
  {
    hide Alike, Wf, Independent, Separate, PutAll;
    SeparateSymmetric(t, ws, vs);
    if PutAll(t, ws).Done? { FateKept(t, ws, vs); }
    if PutAll(t, vs).Done? { FateKept(t, vs, ws); }
    if PutAll(t, ws).Done? && PutAll(t, vs).Done? { EditsSwap(t, ws, vs); }
    else { AlikeSelf(AfterWrites(AfterWrites(t, ws), vs)); }
  }

  // ---- Any number of edits in any order -----------------------------------------

  lemma AlikeAfter(t: Tree, u: Tree, ws: seq<Write>)
    requires Wf(t) && Wf(u) && Alike(t, u)
    ensures Wf(AfterWrites(t, ws)) && Wf(AfterWrites(u, ws)) && Alike(AfterWrites(t, ws), AfterWrites(u, ws))
  {
    hide Alike, Wf, PutAll;
    AlikePutAll(t, u, ws);
  }

  lemma {:induction false} AlikeRun(t: Tree, u: Tree, edits: seq<seq<Write>>)
    requires Wf(t) && Wf(u) && Alike(t, u)
    ensures Wf(RunEdits(t, edits)) && Alike(RunEdits(t, edits), RunEdits(u, edits))
    decreases |edits|
  {
    hide Alike, Wf, PutAll;
    if edits != [] {
      AlikeAfter(t, u, edits[0]);
      AlikeRun(AfterWrites(t, edits[0]), AfterWrites(u, edits[0]), edits[1..]);
    }
  }

  lemma ConflictFreeAfter(t: Tree, edits: seq<seq<Write>>, m: nat)
    requires Wf(t) && ConflictFree(t, edits) && m < |edits|
    ensures Wf(AfterWrites(t, edits[m])) && ConflictFree(AfterWrites(t, edits[m]), edits)
  {
    hide ConflictFree, Wf, PutAll;
    if PutAll(t, edits[m]).Done? { ConflictFreeKept(t, edits, m); }
  }

  lemma Without(t: Tree, edits: seq<seq<Write>>, k: nat)
    requires ConflictFree(t, edits) && k < |edits|
    ensures ConflictFree(t, edits[..k] + edits[k + 1..])
  {
    hide Independent, AllApart;
    var rest := edits[..k] + edits[k + 1..];
    assert forall i | 0 <= i < |rest| :: rest[i] == edits[if i < k then i else i + 1];
  }

  lemma PairOfEdits(t: Tree, edits: seq<seq<Write>>, k: nat, l: nat)
    requires ConflictFree(t, edits) && k < |edits| && l < |edits| && k != l
    ensures Independent(t, edits[k]) && Independent(t, edits[l]) && Separate(t, edits[k], edits[l])
  {
    hide Independent, AllApart;
  }

  lemma {:induction false} MoveToFront(t: Tree, edits: seq<seq<Write>>, k: nat)
    requires Wf(t) && ConflictFree(t, edits) && k < |edits|
    ensures Alike(RunEdits(t, edits), RunEdits(AfterWrites(t, edits[k]), edits[..k] + edits[k + 1..]))
    decreases k
  {
    hide Alike, Wf, PutAll, ConflictFree, Independent, Separate;
    if k == 0 {
      assert edits[..0] + edits[1..] == edits[1..];
      AlikeSelf(RunEdits(t, edits));
    } else {
      var rest := edits[1..];
      ConflictFreeAfter(t, edits, 0);
      Without(AfterWrites(t, edits[0]), edits, 0);
      assert edits[..0] + edits[1..] == rest;
      MoveToFront(AfterWrites(t, edits[0]), rest, k - 1);
      PairOfEdits(t, edits, 0, k);
      TwoEdits(t, edits[0], edits[k]);
      var others := edits[..k] + edits[k + 1..];
      assert others[0] == edits[0] && others[1..] == rest[..k - 1] + rest[k..];
      ConflictFreeAfter(t, edits, k);
      ConflictFreeAfter(AfterWrites(t, edits[0]), edits, k);
      ConflictFreeAfter(AfterWrites(t, edits[k]), edits, 0);
      var here, there := AfterWrites(AfterWrites(t, edits[0]), edits[k]), AfterWrites(AfterWrites(t, edits[k]), edits[0]);
      AlikeRun(here, there, others[1..]);
      AlikeChain(RunEdits(t, edits), RunEdits(here, others[1..]), RunEdits(there, others[1..]));
    }
  }

  // For conflict-free edits, each all-or-nothing, any order shows the same at every path.
  lemma {:induction false} AnyOrderShowsTheSame(t: Tree, es: seq<seq<Write>>, fs: seq<seq<Write>>)
    requires Wf(t) && ConflictFree(t, es) && multiset(es) == multiset(fs)
    ensures Wf(RunEdits(t, es)) && Alike(RunEdits(t, es), RunEdits(t, fs))
    decreases |es|
  {
    hide Alike, Wf, PutAll, ConflictFree;
    AlikeSelf(t);
    AlikeRun(t, t, es);
    if fs == [] {
      assert |multiset(es)| == 0;
    } else {
      assert fs[0] in multiset(es);
      var k :| 0 <= k < |es| && es[k] == fs[0];
      var rest := es[..k] + es[k + 1..];
      RemoveOne(fs, es, k);
      SameLength(es, fs);
      MoveToFront(t, es, k);
      ConflictFreeAfter(t, es, k);
      Without(AfterWrites(t, fs[0]), es, k);
      AnyOrderShowsTheSame(AfterWrites(t, fs[0]), rest, fs[1..]);
      AlikeChain(RunEdits(t, es), RunEdits(AfterWrites(t, fs[0]), rest), RunEdits(AfterWrites(t, fs[0]), fs[1..]));
    }
  }

  // ---- The values file ----------------------------------------------------------

  function HelmRun(f: File, es: seq<HelmEdit>): File
    decreases |es|
  {
    if es == [] then f else HelmRun(FileAfter(f, HelmOf(f, es[0])), es[1..])
  }

  // Running safe edits on the file is running their writes on its root.
  lemma {:induction false} HelmRunIs(f: File, all: seq<HelmEdit>, es: seq<HelmEdit>)
    requires HelmSafe(f, all) && ParseDoc(f).Parsed? && forall e | e in es :: e in all
    ensures ParseDoc(HelmRun(f, es)) == Parsed(RunEdits(ParseDoc(f).root, AllWrites(es)))
    decreases |es|
  {
    hide ParseDoc, HelmOf, WritesOf, HelmSafe, PutAll, ConflictFree;
    if es != [] {
      assert es[0] in all;
      var m :| 0 <= m < |all| && all[m] == es[0];
      SafeRoot(f, all, m);
      HelmStep(f, all, m);
      var g := FileAfter(f, HelmOf(f, es[0]));
      HelmRunIs(g, all, es[1..]);
      assert AllWrites(es)[0] == WritesOf(es[0]) && AllWrites(es)[1..] == AllWrites(es[1..]);
    }
  }

  lemma SafeRoot(f: File, all: seq<HelmEdit>, m: nat)
    requires HelmSafe(f, all) && ParseDoc(f).Parsed? && m < |all|
    ensures ParseDoc(FileAfter(f, HelmOf(f, all[m]))) == Parsed(AfterWrites(ParseDoc(f).root, WritesOf(all[m])))
  {
    hide ParseDoc, HelmOf, WritesOf, PutAll, Independent, Guarded, CanonFile;
    assert AllWrites(all)[m] == WritesOf(all[m]);
    HelmRoot(f, all[m]);
  }

  lemma SameWrites(es: seq<HelmEdit>, fs: seq<HelmEdit>)
    requires multiset(es) == multiset(fs)
    ensures multiset(AllWrites(es)) == multiset(AllWrites(fs))
  {
    var f := (e: HelmEdit) => WritesOf(e);
    SameMapped(es, fs, f);
    assert AllWrites(es) == Mapped(es, f) && AllWrites(fs) == Mapped(fs, f);
  }

  // Whatever order the pending containers come in, the values file shows the same at every
  // path, provided the edits are safe.
  lemma HelmOrderDoesNotShow(f: File, es: seq<HelmEdit>, fs: seq<HelmEdit>)
    requires HelmSafe(f, es) && multiset(es) == multiset(fs)
    ensures ParseDoc(HelmRun(f, es)).Parsed? == ParseDoc(f).Parsed? == ParseDoc(HelmRun(f, fs)).Parsed?
    ensures ParseDoc(f).Parsed? ==> Alike(ParseDoc(HelmRun(f, es)).root, ParseDoc(HelmRun(f, fs)).root)
  {
    hide ParseDoc, HelmOf, WritesOf, PutAll, ConflictFree, Guarded, Alike, Canon, IsCanon, Wf, RunEdits;
    if ParseDoc(f).Parsed? {
      RootIsCanon(f);
      CanonKeeps(ParseDoc(f).root);
      assert forall e | e in fs :: e in multiset(es);
      HelmRunIs(f, es, es);
      HelmRunIs(f, es, fs);
      SameWrites(es, fs);
      AnyOrderShowsTheSame(ParseDoc(f).root, AllWrites(es), AllWrites(fs));
    } else {
      UnreadableRun(f, es);
      UnreadableRun(f, fs);
    }
  }

  lemma {:induction false} UnreadableRun(f: File, es: seq<HelmEdit>)
    requires ParseDoc(f).Unreadable?
    ensures HelmRun(f, es) == f
    decreases |es|
  {
    hide ParseDoc, HelmOf;
    if es != [] {
      UnreadableQuiet(f, es);
      UnreadableRun(f, es[1..]);
    }
  }
}
