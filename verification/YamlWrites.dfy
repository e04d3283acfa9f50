// Several path writes one after the other, as EditHelmValues and the write-back loop make
// them: internal/gitwriteback/edit.go:70-92, internal/controller/workload_controller.go:241-259.
module YamlWrites {
  import opened YamlTree
  import opened YamlPath

  datatype Write = Write(path: seq<string>, value: string)

  // All writes or none: the first error discards the tree.
  function PutAll(t: Tree, ws: seq<Write>): PutResult
    decreases |ws|
  {
    if ws == [] then Done(t, false)
    else
      var first := Put(t, ws[0].path, ws[0].value);
      if first.Failed? then first
      else
        var rest := PutAll(first.tree, ws[1..]);
        if rest.Failed? then rest else Done(rest.tree, first.changed || rest.changed)
  }

  // No two of the writes meet.
  ghost predicate Independent(t: Tree, ws: seq<Write>)
  {
    forall i, j | 0 <= i < j < |ws| :: Diverge(t, ws[i].path, ws[j].path)
  }

  ghost predicate AllApart(t: Tree, ws: seq<Write>, q: seq<string>)
  {
    forall i | 0 <= i < |ws| :: Diverge(t, ws[i].path, q)
  }

  lemma RestIndependent(t: Tree, ws: seq<Write>)
    requires Wf(t) && ws != [] && Independent(t, ws) && Put(t, ws[0].path, ws[0].value).Done?
    ensures var t1 := Put(t, ws[0].path, ws[0].value).tree;
            Wf(t1) && Independent(t1, ws[1..]) && AllApart(t1, ws[1..], ws[0].path)
  {
    hide Put, Diverge, Wf;
    var p, v := ws[0].path, ws[0].value;
    var t1 := Put(t, p, v).tree;
    PutKeepsWf(t, p, v);
    forall i, j | 1 <= i < |ws| && 1 <= j < |ws|
      ensures i < j ==> Diverge(t1, ws[i].path, ws[j].path)
      ensures Diverge(t1, ws[i].path, p)
    {
      DivergenceStable(t, p, v, ws[i].path, ws[j].path);
      DivergeSymmetric(t1, p, ws[i].path);
    }
    assert forall i | 0 <= i < |ws[1..]| :: ws[1..][i] == ws[i + 1];
  }

  lemma RestApart(t: Tree, ws: seq<Write>, q: seq<string>)
    requires Wf(t) && ws != [] && Independent(t, ws) && Put(t, ws[0].path, ws[0].value).Done?
    requires AllApart(t, ws, q)
    ensures AllApart(Put(t, ws[0].path, ws[0].value).tree, ws[1..], q)
    ensures Diverge(Put(t, ws[0].path, ws[0].value).tree, ws[0].path, q)
  {
    hide Put, Diverge, Wf;
    var p, v := ws[0].path, ws[0].value;
    DivergenceStable(t, p, v, q, q);
    forall i | 1 <= i < |ws|
      ensures Diverge(Put(t, p, v).tree, ws[i].path, q)
    {
      DivergenceStable(t, p, v, ws[i].path, q);
    }
  }

  // A path apart from every write keeps what it reads and what writing there would do, and
  // stays apart; interference between two such paths does not change either.
  lemma {:induction false} PutAllKeeps(t: Tree, ws: seq<Write>, a: seq<string>, b: seq<string>, w: string)
    requires Wf(t) && Independent(t, ws) && PutAll(t, ws).Done?
    requires AllApart(t, ws, a) && AllApart(t, ws, b)
    ensures var t' := PutAll(t, ws).tree;
            && Wf(t') && AllApart(t', ws, a)
            && Diverge(t', a, b) == Diverge(t, a, b)
            && Get(t', a) == Get(t, a) && SameOutcome(Put(t', a, w), Put(t, a, w))
            && (a != [] ==> WritesScalar(t', a) == WritesScalar(t, a))
    decreases |ws|
  {
    if ws != [] {
      hide Put, Get, Diverge, Wf, WritesScalar;
      var p, v := ws[0].path, ws[0].value;
      var t1 := Put(t, p, v).tree;
      var t' := PutAll(t, ws).tree;
      RestIndependent(t, ws);
      RestApart(t, ws, a);
      RestApart(t, ws, b);
      DivergenceStable(t, p, v, a, b);
      DivergingUnaffected(t, p, v, a, w);
      DivergeNonEmpty(t, p, a);
      PutAllKeeps(t1, ws[1..], a, b, w);
      PutAllKeeps(t1, ws[1..], p, a, w);
      assert forall i | 1 <= i < |ws| :: ws[i] == ws[1..][i - 1];
    }
  }

  lemma DivergeNonEmpty(t: Tree, p: seq<string>, q: seq<string>)
    requires Diverge(t, p, q)
    ensures p != [] && q != []
  {}

  // The writes stay independent, and each finds nothing to do afterwards.
  lemma {:induction false} PutAllSettles(t: Tree, ws: seq<Write>)
    requires Wf(t) && Independent(t, ws) && PutAll(t, ws).Done?
    ensures var t' := PutAll(t, ws).tree;
            && Wf(t') && Independent(t', ws)
            && forall i | 0 <= i < |ws| :: Put(t', ws[i].path, ws[i].value) == Done(t', false)
    decreases |ws|
  {
    if ws != [] {
      hide Put, Diverge, Wf;
      var p, v := ws[0].path, ws[0].value;
      var t1 := Put(t, p, v).tree;
      var t' := PutAll(t, ws).tree;
      RestIndependent(t, ws);
      PutAllSettles(t1, ws[1..]);
      PutTwice(t, p, v);
      PutAllKeeps(t1, ws[1..], p, p, v);
      UnchangedKeeps(t', p, v);
      forall i | 1 <= i < |ws|
        ensures ws[i] == ws[1..][i - 1]
        ensures Diverge(t', p, ws[i].path)
      {
        DivergeSymmetric(t', p, ws[i].path);
      }
    }
  }

  lemma UnchangedKeeps(t: Tree, p: seq<string>, v: string)
    requires Put(t, p, v).Done? && !Put(t, p, v).changed
    ensures Put(t, p, v).tree == t
  {
    ChangedIffDifferent(t, p, v);
  }

  // For independent writes, each one's fate can be read off the tree before all of them.
  lemma {:induction false} PutAllOutcome(t: Tree, ws: seq<Write>)
    requires Wf(t) && Independent(t, ws)
    ensures PutAll(t, ws).Failed? <==> exists i :: 0 <= i < |ws| && Put(t, ws[i].path, ws[i].value).Failed?
    ensures PutAll(t, ws).Done? ==>
      (PutAll(t, ws).changed <==> exists i :: 0 <= i < |ws| && Put(t, ws[i].path, ws[i].value).changed)
    decreases |ws|
  {
    if ws != [] && Put(t, ws[0].path, ws[0].value).Done? {
      hide Put, Diverge, Wf;
      var p, v := ws[0].path, ws[0].value;
      var t1 := Put(t, p, v).tree;
      RestIndependent(t, ws);
      PutAllOutcome(t1, ws[1..]);
      forall i | 1 <= i < |ws|
        ensures SameOutcome(Put(t1, ws[i].path, ws[i].value), Put(t, ws[i].path, ws[i].value))
        ensures ws[i] == ws[1..][i - 1]
      {
        DivergingUnaffected(t, p, v, ws[i].path, ws[i].value);
      }
    }
  }

  lemma {:induction false} PutAllUnchanged(t: Tree, ws: seq<Write>)
    requires PutAll(t, ws).Done? && !PutAll(t, ws).changed
    ensures PutAll(t, ws).tree == t
    decreases |ws|
  {
    if ws != [] {
      UnchangedKeeps(t, ws[0].path, ws[0].value);
      PutAllUnchanged(t, ws[1..]);
    }
  }

  // ---- A run of edits -----------------------------------------------------------

  // An edit that fails leaves the tree to the next one.
  function RunEdits(t: Tree, edits: seq<seq<Write>>): Tree
    decreases |edits|
  {
    if edits == [] then t
    else RunEdits(if PutAll(t, edits[0]).Done? then PutAll(t, edits[0]).tree else t, edits[1..])
  }

  // Running the edit again would fail again or change nothing.
  predicate Quiet(t: Tree, ws: seq<Write>)
  {
    PutAll(t, ws).Done? ==> !PutAll(t, ws).changed
  }

  // The write meets no write of the edit, unless it is one of them.
  ghost predicate Fits(t: Tree, w: Write, ws: seq<Write>) { w in ws || AllApart(t, ws, w.path) }

  // The second edit fits the first in all it writes.
  ghost predicate Separate(t: Tree, ws: seq<Write>, vs: seq<Write>)
  {
    forall i | 0 <= i < |vs| :: Fits(t, vs[i], ws)
  }

  // No two writes meet, except that two edits may write the same text to the same path.
  ghost predicate ConflictFree(t: Tree, edits: seq<seq<Write>>)
  {
    && (forall k | 0 <= k < |edits| :: Independent(t, edits[k]))
    && (forall k, l | 0 <= k < |edits| && 0 <= l < |edits| && k != l :: Separate(t, edits[k], edits[l]))
  }

  lemma {:induction false} NotFromItself(t: Tree, p: seq<string>)
    ensures !Diverge(t, p, p)
    decreases |p|
  {
    if p != [] { NotFromItself(Child(t, p[0]), p[1..]); }
  }

  // What part ways before an edit that both fit, part ways after it.
  lemma StillDiverge(t: Tree, ws: seq<Write>, a: Write, b: Write)
    requires Wf(t) && Independent(t, ws) && PutAll(t, ws).Done?
    requires Fits(t, a, ws) && Fits(t, b, ws) && Diverge(t, a.path, b.path)
    ensures Diverge(PutAll(t, ws).tree, a.path, b.path)
  {
    hide Put, Diverge, Wf, PutAll;
    var t' := PutAll(t, ws).tree;
    PutAllSettles(t, ws);
    DivergeSymmetric(t', a.path, b.path);
    NotFromItself(t, a.path);
    if a !in ws { PutAllKeeps(t, ws, a.path, if b in ws then a.path else b.path, ""); }
    else if b !in ws { PutAllKeeps(t, ws, b.path, b.path, ""); }
  }

  // A write that fits an edit comes to the same before and after it, or is done with it.
  lemma FitsOutcome(t: Tree, ws: seq<Write>, w: Write)
    requires Wf(t) && Independent(t, ws) && PutAll(t, ws).Done? && Fits(t, w, ws)
    ensures var t' := PutAll(t, ws).tree;
            if w in ws then Put(t, w.path, w.value).Done? && Put(t', w.path, w.value) == Done(t', false)
            else SameOutcome(Put(t', w.path, w.value), Put(t, w.path, w.value))
  {
    hide Put, Diverge, Wf, PutAll;
    if w in ws {
      PutAllSettles(t, ws);
      PutAllOutcome(t, ws);
    } else {
      PutAllKeeps(t, ws, w.path, w.path, w.value);
    }
  }

  // An edit leaves the fate of a separate one as it was, and what it has done already the
  // other has no need to do.
  lemma FateKept(t: Tree, ws: seq<Write>, vs: seq<Write>)
    requires Wf(t) && Independent(t, ws) && Independent(t, vs) && Separate(t, ws, vs) && PutAll(t, ws).Done?
    ensures var t' := PutAll(t, ws).tree;
            && Wf(t') && Independent(t', vs)
            && PutAll(t', vs).Done? == PutAll(t, vs).Done?
            && (Quiet(t, vs) ==> Quiet(t', vs))
            && ((forall w | w in vs :: w !in ws) ==> Quiet(t', vs) == Quiet(t, vs))
  {
    hide Put, Diverge, Wf, PutAll, AllApart, Fits;
    var t' := PutAll(t, ws).tree;
    PutAllSettles(t, ws);
    forall i, j | 0 <= i < j < |vs|
      ensures Diverge(t', vs[i].path, vs[j].path)
    {
      StillDiverge(t, ws, vs[i], vs[j]);
    }
    forall i | 0 <= i < |vs|
      ensures Put(t', vs[i].path, vs[i].value).Done? == Put(t, vs[i].path, vs[i].value).Done?
      ensures Put(t', vs[i].path, vs[i].value).Done? && !Put(t, vs[i].path, vs[i].value).changed ==>
                !Put(t', vs[i].path, vs[i].value).changed
      ensures vs[i] !in ws ==> SameOutcome(Put(t', vs[i].path, vs[i].value), Put(t, vs[i].path, vs[i].value))
    {
      FitsOutcome(t, ws, vs[i]);
    }
    PutAllOutcome(t, vs);
    PutAllOutcome(t', vs);
  }

  lemma QuietAfter(t: Tree, ws: seq<Write>)
    requires Wf(t) && Independent(t, ws) && PutAll(t, ws).Done?
    ensures Quiet(PutAll(t, ws).tree, ws)
  {
    hide Put, Diverge, Wf;
    PutAllSettles(t, ws);
    PutAllOutcome(PutAll(t, ws).tree, ws);
  }

  // One edit keeps the whole set free of conflicts.
  lemma ConflictFreeKept(t: Tree, edits: seq<seq<Write>>, m: nat)
    requires Wf(t) && ConflictFree(t, edits) && m < |edits| && PutAll(t, edits[m]).Done?
    ensures Wf(PutAll(t, edits[m]).tree) && ConflictFree(PutAll(t, edits[m]).tree, edits)
  {
    hide Put, Diverge, Wf, PutAll, Fits;
    var t' := PutAll(t, edits[m]).tree;
    PutAllSettles(t, edits[m]);
    forall k | 0 <= k < |edits|
      ensures Independent(t', edits[k])
    {
      if k != m { FateKept(t, edits[m], edits[k]); }
    }
    forall k, l | 0 <= k < |edits| && 0 <= l < |edits| && k != l
      ensures Separate(t', edits[k], edits[l])
    {
      forall i | 0 <= i < |edits[l]|
        ensures Fits(t', edits[l][i], edits[k])
      {
        FitsAfter(t, edits, m, k, l, i);
      }
    }
  }

  lemma FitsAfter(t: Tree, edits: seq<seq<Write>>, m: nat, k: nat, l: nat, i: nat)
    requires Wf(t) && ConflictFree(t, edits) && m < |edits| && PutAll(t, edits[m]).Done?
    requires k < |edits| && l < |edits| && k != l && i < |edits[l]|
    ensures Fits(PutAll(t, edits[m]).tree, edits[l][i], edits[k])
  {
    hide Put, Diverge, Wf, PutAll;
    var w := edits[l][i];
    assert Separate(t, edits[k], edits[l]);
    assert Fits(t, w, edits[k]);
    FitsMember(t, edits, m, l, i);
    if w !in edits[k] {
      forall j | 0 <= j < |edits[k]|
        ensures Diverge(PutAll(t, edits[m]).tree, edits[k][j].path, w.path)
      {
        FitsMember(t, edits, m, k, j);
        StillDiverge(t, edits[m], edits[k][j], w);
      }
    }
  }

  lemma FitsMember(t: Tree, edits: seq<seq<Write>>, m: nat, k: nat, j: nat)
    requires ConflictFree(t, edits) && m < |edits| && k < |edits| && j < |edits[k]|
    ensures Fits(t, edits[k][j], edits[m])
  {
    hide AllApart, Independent;
    if k != m { assert Separate(t, edits[m], edits[k]); }
  }

  // After one pass over conflict-free edits, a second pass has nothing to do.
  lemma {:induction false} RunSettles(t: Tree, edits: seq<seq<Write>>, all: seq<seq<Write>>, done: nat)
    requires Wf(t) && ConflictFree(t, all) && done <= |all| && edits == all[done..]
    requires forall k | 0 <= k < done :: Quiet(t, all[k])
    ensures Wf(RunEdits(t, edits)) && ConflictFree(RunEdits(t, edits), all)
    ensures forall k | 0 <= k < |all| :: Quiet(RunEdits(t, edits), all[k])
    decreases |edits|
  {
    if edits != [] {
      hide Put, Diverge, Wf, PutAll, Quiet;
      assert edits[0] == all[done] && edits[1..] == all[done + 1..];
      var t1 := if PutAll(t, edits[0]).Done? then PutAll(t, edits[0]).tree else t;
      if PutAll(t, edits[0]).Done? {
        ConflictFreeKept(t, all, done);
        QuietAfter(t, all[done]);
        forall k | 0 <= k < done
          ensures Quiet(t1, all[k])
        {
          assert Separate(t, all[done], all[k]);
          FateKept(t, all[done], all[k]);
        }
      } else {
        FailedIsQuiet(t, all[done]);
      }
      RunSettles(t1, edits[1..], all, done + 1);
    }
  }

  lemma FailedIsQuiet(t: Tree, ws: seq<Write>)
    requires PutAll(t, ws).Failed?
    ensures Quiet(t, ws)
  {}

  // ---- Guards -------------------------------------------------------------------

  ghost predicate Guarded(t: Tree, ws: seq<Write>)
  {
    forall i | 0 <= i < |ws| :: ws[i].path != [] && WritesScalar(t, ws[i].path)
  }

  // A written leaf that is a scalar can be written again.
  lemma {:induction false} WrittenIsGuarded(t: Tree, p: seq<string>, v: string)
    requires Wf(t) && Put(t, p, v).Done? && WritesScalar(t, p)
    ensures WritesScalar(Put(t, p, v).tree, p)
    decreases |p|
  {
    hide Step, CanStep, Child, PutChild, Apart, Wf;
    var u := PutBelow(t, p, v).tree;
    PutChildStep(t, p[0], u, p[0]);
    NeverApart(t, p[0]);
    if |p| > 1 {
      PutChildWf(t, p[0], EMPTY_MAP);
      WrittenIsGuarded(Child(t, p[0]), p[1..], v);
    } else {
      KindOfStep(t, p[0]);
    }
  }

  // Guards of the writes themselves hold again afterwards.
  lemma {:induction false} PutAllGuarded(t: Tree, ws: seq<Write>)
    requires Wf(t) && Independent(t, ws) && Guarded(t, ws) && PutAll(t, ws).Done?
    ensures Guarded(PutAll(t, ws).tree, ws)
    decreases |ws|
  {
    if ws != [] {
      hide Put, Diverge, Wf, WritesScalar;
      var p, v := ws[0].path, ws[0].value;
      var t1 := Put(t, p, v).tree;
      RestIndependent(t, ws);
      WrittenIsGuarded(t, p, v);
      forall i | 1 <= i < |ws|
        ensures WritesScalar(t1, ws[i].path) && ws[i] == ws[1..][i - 1]
      {
        DivergingUnaffected(t, p, v, ws[i].path, v);
      }
      PutAllGuarded(t1, ws[1..]);
      PutAllKeeps(t1, ws[1..], p, p, v);
    }
  }
}
