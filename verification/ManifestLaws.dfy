// What EditManifest guarantees: internal/gitwriteback/edit.go:122-175.
module ManifestLaws {
  import opened Text
  import opened ImageRef
  import opened YamlTree
  import opened YamlPath
  import opened YamlFile
  import opened HelmTarget
  import opened ManifestTarget

  // ---- Exactly the targets change -----------------------------------------------

  // The node at loc is the image value of a mapping the edit is about: a scalar directly
  // under the mapping's first "image" key, whose repository matches, and, when the edit is
  // scoped, whose mapping carries the container's name.
  predicate IsTargetAt(t: Tree, e: ManifestEdit, loc: seq<nat>)
    requires Within(t, loc)
    decreases |loc|
  {
    loc != []
    && if |loc| == 1 then ImagePlace(t, e) == Some(loc[0]) else IsTargetAt(t.content[loc[0]], e, loc[1..])
  }

  // The rewritten tree has the same locations; at each, kind and number of children are
  // kept, a target reads repository:tag, and any other node keeps tag and text.
  lemma {:induction false} RewriteExactly(t: Tree, e: ManifestEdit, loc: seq<nat>)
    ensures Within(Rewrite(t, e), loc) == Within(t, loc)
    ensures Within(t, loc) ==>
      var m, n := NodeAt(t, loc), NodeAt(Rewrite(t, e), loc);
      && n.kind == m.kind && |n.content| == |m.content|
      && if IsTargetAt(t, e, loc) then
           n.value == Desired(e) && n.tag == (if m.value == Desired(e) then m.tag else STR)
         else n.value == m.value && n.tag == m.tag
    decreases |loc|
  {
    if loc != [] && loc[0] < |t.content| {
      RewriteExactly(t.content[loc[0]], e, loc[1..]);
    }
  }

  // The flag: some node changed, that is, the trees differ.
  lemma {:induction false} ChangesIffDifferent(t: Tree, e: ManifestEdit)
    ensures Changes(t, e) <==> Rewrite(t, e) != t
  {
    forall i | 0 <= i < |t.content|
      ensures Changes(t.content[i], e) <==> Rewrite(t.content[i], e) != t.content[i]
      ensures Rewrite(t.content[i], e).value == t.content[i].value
    {
      ChangesIffDifferent(t.content[i], e);
    }
    if !Changes(t, e) {
      assert Rewrite(t, e).content == t.content;
    } else if Hits(t, e) {
      assert Rewrite(t, e).content[ImagePlace(t, e).value].value == Desired(e);
    } else {
      var i :| 0 <= i < |t.content| && Changes(t.content[i], e);
      assert Rewrite(t, e).content[i] == Rewrite(t.content[i], e);
    }
  }

  // For a well-formed edit, no image changes its repository.
  lemma RepositoriesKept(t: Tree, e: ManifestEdit, loc: seq<nat>)
    requires '@' !in e.repository && ':' !in BeforeDigest(e.tag) && '/' !in BeforeDigest(e.tag)
    requires Within(t, loc)
    ensures Within(Rewrite(t, e), loc)
    ensures RepoOf(NodeAt(Rewrite(t, e), loc).value) == RepoOf(NodeAt(t, loc).value)
  {
    hide RepoOf, BeforeDigest;
    RewriteExactly(t, e, loc);
    JoinThenRepo(e.repository, e.tag);
    if IsTargetAt(t, e, loc) { TargetRepository(t, e, loc); }
  }

  lemma {:induction false} TargetRepository(t: Tree, e: ManifestEdit, loc: seq<nat>)
    requires Within(t, loc) && IsTargetAt(t, e, loc)
    ensures RepoOf(NodeAt(t, loc).value) == e.repository
    decreases |loc|
  {
    hide RepoOf;
    if |loc| > 1 { TargetRepository(t.content[loc[0]], e, loc[1..]); }
  }

  // ---- Again, and in any order --------------------------------------------------

  lemma {:induction false} SameKeysFrom(c: seq<Tree>, d: seq<Tree>, key: string, i: nat)
    requires |c| == |d| && i % 2 == 0
    requires forall k | 0 <= k < |c| && k % 2 == 0 :: c[k].value == d[k].value
    ensures KeyFrom(c, key, i) == KeyFrom(d, key, i)
    decreases |c| - i
  {
    if i + 1 < |c| { SameKeysFrom(c, d, key, i + 2); }
  }

  // Rewriting moves no key and renames no container.
  lemma RewriteKeepsKeys(t: Tree, e: ManifestEdit, key: string)
    ensures Lookup(Rewrite(t, e), key) == Lookup(t, key)
    ensures Lookup(t, key).Some? ==>
      var j := Lookup(t, key).value;
      && Rewrite(t, e).content[j].kind == t.content[j].kind
      && (Some(j) != ImagePlace(t, e) ==> Rewrite(t, e).content[j].value == t.content[j].value)
      && (Some(j) == ImagePlace(t, e) ==> Rewrite(t, e).content[j].value == Desired(e))
      && (key != IMAGE ==> Some(j) != ImagePlace(t, e))
  {
    var t' := Rewrite(t, e);
    if t.kind == Mapping {
      forall k | 0 <= k < |t.content| && k % 2 == 0
        ensures t'.content[k].value == t.content[k].value
      {
        assert ImagePlace(t, e) != Some(k);
        assert t'.content[k] == Rewrite(t.content[k], e);
      }
      SameKeysFrom(t'.content, t.content, key, 0);
    }
  }

  lemma TargetAgain(t: Tree, e: ManifestEdit)
    ensures ImagePlace(Rewrite(t, e), e).Some? ==> ImagePlace(Rewrite(t, e), e) == ImagePlace(t, e)
  {
    hide RepoOf, KeyFrom;
    RewriteKeepsKeys(t, e, IMAGE);
    RewriteKeepsKeys(t, e, NAME);
  }

  lemma {:induction false} RewriteTwice(t: Tree, e: ManifestEdit)
    ensures Rewrite(Rewrite(t, e), e) == Rewrite(t, e)
    ensures !Changes(Rewrite(t, e), e)
  {
    hide ImagePlace;
    var t' := Rewrite(t, e);
    TargetAgain(t, e);
    forall i | 0 <= i < |t.content|
      ensures Rewrite(t'.content[i], e) == t'.content[i]
      ensures ImagePlace(t, e) == Some(i) ==> t'.content[i].value == Desired(e)
    {
      RewriteTwice(t.content[i], e);
      if ImagePlace(t, e) == Some(i) {
        TargetIsScalar(t, e);
        RewriteOfSet(Rewrite(t.content[i], e), e, Desired(e));
      }
    }
    assert Rewrite(t', e).content == t'.content;
    ChangesIffDifferent(t', e);
  }

  lemma TargetIsScalar(t: Tree, e: ManifestEdit)
    requires ImagePlace(t, e).Some?
    ensures t.content[ImagePlace(t, e).value].kind == Scalar
  {}

  // Edits scoped to two different containers.
  ghost predicate Scoped(e: ManifestEdit, o: ManifestEdit)
  {
    e.container != "" && o.container != "" && e.container != o.container
  }

  lemma TargetOther(t: Tree, e: ManifestEdit, o: ManifestEdit)
    requires Scoped(e, o)
    ensures ImagePlace(Rewrite(t, e), o) == ImagePlace(t, o)
    ensures ImagePlace(t, e).None? || ImagePlace(t, o).None?
    ensures ImagePlace(t, o).Some? ==> Rewrite(t, e).content[ImagePlace(t, o).value].value == t.content[ImagePlace(t, o).value].value
  {
    hide RepoOf, KeyFrom;
    RewriteKeepsKeys(t, e, IMAGE);
    RewriteKeepsKeys(t, e, NAME);
  }

  lemma RewrittenChild(t: Tree, e: ManifestEdit, i: nat)
    requires i < |t.content|
    ensures var c := Rewrite(t.content[i], e);
            Rewrite(t, e).content[i] == if ImagePlace(t, e) == Some(i) then SetImage(c, Desired(e)) else c
    ensures ImagePlace(t, e) == Some(i) ==> t.content[i].kind == Scalar && Rewrite(t.content[i], e).kind == Scalar
  {
    hide ImagePlace;
    if ImagePlace(t, e) == Some(i) { TargetIsScalar(t, e); }
  }

  // One child, when it is not the target of the second edit.
  lemma ChildCommutes(t: Tree, e: ManifestEdit, o: ManifestEdit, i: nat)
    requires Scoped(e, o) && i < |t.content| && ImagePlace(t, o) != Some(i)
    requires Rewrite(Rewrite(t.content[i], e), o) == Rewrite(Rewrite(t.content[i], o), e)
    ensures Rewrite(Rewrite(t, e), o).content[i] == Rewrite(Rewrite(t, o), e).content[i]
  {
    hide Rewrite, ImagePlace, Changes, SetImage;
    TargetOther(t, e, o);
    TargetOther(t, o, e);
    SameLengthOf(t, e);
    SameLengthOf(t, o);
    RewrittenChild(t, e, i);
    RewrittenChild(t, o, i);
    RewrittenChild(Rewrite(t, e), o, i);
    RewrittenChild(Rewrite(t, o), e, i);
    if ImagePlace(t, e) == Some(i) { RewriteOfSet(Rewrite(t.content[i], e), o, Desired(e)); }
  }

  lemma SameLengthOf(t: Tree, e: ManifestEdit)
    ensures var u := Rewrite(t, e);
            u.kind == t.kind && u.tag == t.tag && u.value == t.value && |u.content| == |t.content|
  {}

  lemma ChildChanges(t: Tree, e: ManifestEdit, o: ManifestEdit, i: nat)
    requires i < |t.content| && Changes(Rewrite(t.content[i], e), o) == Changes(t.content[i], o)
    ensures Changes(Rewrite(t, e).content[i], o) == Changes(t.content[i], o)
  {
    hide Rewrite, ImagePlace, Changes, SetImage;
    SameLengthOf(t, e);
    RewrittenChild(t, e, i);
    if ImagePlace(t, e) == Some(i) { RewriteOfSet(Rewrite(t.content[i], e), o, Desired(e)); }
  }

  lemma SameContent(t: Tree, u: Tree)
    requires t.kind == u.kind && t.tag == u.tag && t.value == u.value && |t.content| == |u.content|
    requires forall i | 0 <= i < |t.content| :: t.content[i] == u.content[i]
    ensures t == u
  {
    assert t.content == u.content;
  }

  // Edits of different containers commute exactly, on every tree.
  lemma {:induction false} RewritesCommute(t: Tree, e: ManifestEdit, o: ManifestEdit)
    requires Scoped(e, o)
    ensures Rewrite(Rewrite(t, e), o) == Rewrite(Rewrite(t, o), e)
    ensures Changes(Rewrite(t, e), o) == Changes(t, o)
  {
    hide ImagePlace, Rewrite;
    var te, to := Rewrite(t, e), Rewrite(t, o);
    SameLengthOf(t, e);
    SameLengthOf(t, o);
    SameLengthOf(te, o);
    SameLengthOf(to, e);
    TargetOther(t, e, o);
    forall i | 0 <= i < |t.content|
      ensures Rewrite(te, o).content[i] == Rewrite(to, e).content[i]
      ensures Changes(te.content[i], o) == Changes(t.content[i], o)
    {
      hide Changes;
      RewritesCommute(t.content[i], e, o);
      ChildChanges(t, e, o, i);
      if ImagePlace(t, o) != Some(i) { ChildCommutes(t, e, o, i); } else { ChildCommutes(t, o, e, i); }
    }
    SameContent(Rewrite(te, o), Rewrite(to, e));
  }

  function RewriteRun(t: Tree, es: seq<ManifestEdit>): Tree
    decreases |es|
  {
    if es == [] then t else RewriteRun(Rewrite(t, es[0]), es[1..])
  }

  ghost predicate AllScoped(es: seq<ManifestEdit>)
  {
    forall i, j | 0 <= i < j < |es| :: Scoped(es[i], es[j])
  }

  lemma {:induction false} MoveToFront(t: Tree, es: seq<ManifestEdit>, k: nat)
    requires AllScoped(es) && k < |es|
    ensures RewriteRun(t, es) == RewriteRun(Rewrite(t, es[k]), es[..k] + es[k + 1..])
    decreases k
  {
    hide Rewrite;
    if k == 0 {
      assert es[..0] + es[1..] == es[1..];
    } else {
      var rest := es[1..];
      MoveToFront(Rewrite(t, es[0]), rest, k - 1);
      RewritesCommute(t, es[0], es[k]);
      var others := es[..k] + es[k + 1..];
      assert others[0] == es[0] && others[1..] == rest[..k - 1] + rest[k..];
    }
  }

  // The pending containers may be visited in any order: the tree is the same.
  lemma {:induction false} AnyOrder(t: Tree, es: seq<ManifestEdit>, fs: seq<ManifestEdit>)
    requires AllScoped(es) && AllScoped(fs) && multiset(es) == multiset(fs)
    ensures RewriteRun(t, es) == RewriteRun(t, fs)
    decreases |es|
  {
    if es == [] {
      assert |multiset(fs)| == 0;
      assert fs == [];
    } else {
      assert es[0] in multiset(fs);
      var k :| 0 <= k < |fs| && fs[k] == es[0];
      RemoveOne(es, fs, k);
      ScopedParts(fs, k);
      ScopedTail(es);
      hide Rewrite, AllScoped;
      MoveToFront(t, fs, k);
      AnyOrder(Rewrite(t, es[0]), es[1..], fs[..k] + fs[k + 1..]);
    }
  }

  lemma ScopedTail(es: seq<ManifestEdit>)
    requires es != [] && AllScoped(es)
    ensures AllScoped(es[1..])
  {}

  lemma ScopedParts(fs: seq<ManifestEdit>, k: nat)
    requires AllScoped(fs) && k < |fs|
    ensures AllScoped(fs[..k] + fs[k + 1..])
  {
    var rest := fs[..k] + fs[k + 1..];
    assert forall i | 0 <= i < |rest| :: rest[i] == fs[if i < k then i else i + 1];
  }

  // ---- What a manifest says -----------------------------------------------------

  // Every image the edit is about reads repository:tag.
  ghost predicate TreeShows(t: Tree, e: ManifestEdit)
  {
    forall loc | Within(t, loc) && IsTargetAt(t, e, loc) :: NodeAt(t, loc).value == Desired(e)
  }

  ghost predicate ManifestShows(f: File, e: ManifestEdit)
  {
    !f.broken && forall i | 0 <= i < |f.docs| :: TreeShows(f.docs[i], e)
  }

  // Where a tree does not yet say so.
  lemma {:induction false} ChangedTarget(t: Tree, e: ManifestEdit) returns (loc: seq<nat>)
    requires Changes(t, e)
    ensures Within(t, loc) && IsTargetAt(t, e, loc) && NodeAt(t, loc).value != Desired(e)
  {
    if Hits(t, e) {
      loc := [ImagePlace(t, e).value];
      assert loc[1..] == [];
    } else {
      var i :| 0 <= i < |t.content| && Changes(t.content[i], e);
      var below := ChangedTarget(t.content[i], e);
      loc := [i] + below;
      assert loc[1..] == below;
    }
  }

  // On every tree: nothing to do means that the tree says so.
  lemma ShowsIffUnchanged(t: Tree, e: ManifestEdit)
    ensures TreeShows(t, e) <==> !Changes(t, e)
  {
    hide ImagePlace, Changes, Rewrite;
    if Changes(t, e) {
      var loc := ChangedTarget(t, e);
      assert !TreeShows(t, e);
    } else {
      ChangesIffDifferent(t, e);
      forall loc | Within(t, loc) && IsTargetAt(t, e, loc)
        ensures NodeAt(t, loc).value == Desired(e)
      {
        RewriteExactly(t, e, loc);
      }
    }
  }

  ghost predicate HasTarget(t: Tree, e: ManifestEdit)
  {
    exists loc :: Within(t, loc) && IsTargetAt(t, e, loc)
  }

  // For a well-formed reference the targets stay the targets.
  lemma {:induction false} TargetsStay(t: Tree, e: ManifestEdit, loc: seq<nat>)
    requires '@' !in e.repository && ':' !in BeforeDigest(e.tag) && '/' !in BeforeDigest(e.tag)
    requires Within(t, loc)
    ensures Within(Rewrite(t, e), loc) && IsTargetAt(Rewrite(t, e), e, loc) == IsTargetAt(t, e, loc)
    decreases |loc|
  {
    hide RepoOf, BeforeDigest, ImagePlace;
    if loc != [] {
      RewriteExactly(t, e, loc);
      SamePlace(t, e);
      var c := t.content[loc[0]];
      if |loc| > 1 {
        TargetsStay(c, e, loc[1..]);
        if ImagePlace(t, e) == Some(loc[0]) {
          TargetIsScalar(t, e);
          TargetOfSet(Rewrite(c, e), e, loc[1..]);
        }
      }
    }
  }

  lemma SamePlace(t: Tree, e: ManifestEdit)
    requires '@' !in e.repository && ':' !in BeforeDigest(e.tag) && '/' !in BeforeDigest(e.tag)
    ensures ImagePlace(Rewrite(t, e), e) == ImagePlace(t, e)
  {
    hide RepoOf, KeyFrom, BeforeDigest;
    RewriteKeepsKeys(t, e, IMAGE);
    RewriteKeepsKeys(t, e, NAME);
    JoinThenRepo(e.repository, e.tag);
  }

  lemma TargetOfSet(c: Tree, e: ManifestEdit, loc: seq<nat>)
    requires c.kind == Scalar && Within(c, loc)
    ensures Within(SetImage(c, Desired(e)), loc)
    ensures IsTargetAt(SetImage(c, Desired(e)), e, loc) == IsTargetAt(c, e, loc)
  {
    assert ImagePlace(c, e).None? && ImagePlace(SetImage(c, Desired(e)), e).None?;
  }

  // After an edit, some image it is about reads repository:tag exactly in the documents that
  // had one to set.
  lemma EndsWithImageIff(t: Tree, e: ManifestEdit)
    requires '@' !in e.repository && ':' !in BeforeDigest(e.tag) && '/' !in BeforeDigest(e.tag)
    ensures HasTarget(t, e)
       <==> exists loc :: Within(Rewrite(t, e), loc) && IsTargetAt(Rewrite(t, e), e, loc)
                          && NodeAt(Rewrite(t, e), loc).value == Desired(e)
  {
    hide Rewrite, BeforeDigest, ImagePlace;
    var after := Rewrite(t, e);
    if HasTarget(t, e) {
      var loc :| Within(t, loc) && IsTargetAt(t, e, loc);
      TargetsStay(t, e, loc);
      RewriteExactly(t, e, loc);
      assert Within(after, loc) && IsTargetAt(after, e, loc) && NodeAt(after, loc).value == Desired(e);
    }
    if loc :| Within(after, loc) && IsTargetAt(after, e, loc) {
      RewriteExactly(t, e, loc);
      TargetsStay(t, e, loc);
    }
  }

  lemma ManifestUnchangedIffShows(f: File, e: ManifestEdit)
    ensures Manifest(f, e).Edited? && !Manifest(f, e).changed <==> ManifestShows(f, e)
  {
    hide Changes, TreeShows, Rewrite;
    forall i | 0 <= i < |f.docs|
      ensures TreeShows(f.docs[i], e) <==> !Changes(f.docs[i], e)
    {
      ShowsIffUnchanged(f.docs[i], e);
    }
  }

  // The walk's own comment asks for a name beside the image. It gets one exactly when the
  // edit names its container, or when no image can match at all.
  lemma NamedIffScoped(e: ManifestEdit)
    ensures (forall t: Tree :: ImagePlace(t, e).Some? ==> Lookup(t, NAME).Some?)
       <==> e.container != "" || '@' in e.repository
  {
    hide RepoOf;
    if '@' in e.repository {
      forall t: Tree
        ensures ImagePlace(t, e).None?
      {
        var j := Lookup(t, IMAGE);
        if j.Some? { NoDigestInRepo(t.content[j.value].value); }
      }
    } else if e.container == "" {
      var image := JoinImage(e.repository, "");
      JoinThenRepo(e.repository, "");
      var t := Tree(Mapping, MAP, "", [Str(IMAGE), Str(image)]);
      assert KeyFrom(t.content, IMAGE, 0) == Some(1);
      assert KeyFrom(t.content, NAME, 0) == None;
      assert ImagePlace(t, e).Some? && Lookup(t, NAME).None?;
    }
  }

  // ---- Several edits of one file ------------------------------------------------

  lemma {:induction false} RewriteCanon(t: Tree, e: ManifestEdit)
    requires IsCanon(t)
    ensures IsCanon(Rewrite(t, e)) && Canon(Rewrite(t, e)) == Rewrite(t, e)
  {
    var t' := Rewrite(t, e);
    forall i | 0 <= i < |t.content|
      ensures IsCanon(t'.content[i])
    {
      RewriteCanon(t.content[i], e);
    }
    CanonKeeps(t');
  }

  ghost predicate ManifestSafe(f: File, es: seq<ManifestEdit>)
  {
    CanonFile(f) && AllScoped(es)
  }

  lemma ManifestFile(f: File, e: ManifestEdit)
    requires CanonFile(f)
    ensures var g := FileAfter(f, Manifest(f, e));
            && CanonFile(g) && g.broken == f.broken
            && (!f.broken ==> g.docs == RewriteDocs(f.docs, e))
            && QuietResult(Manifest(f, e)) == (f.broken || !ChangesAny(f.docs, e))
            && Manifest(f, e).EditFailed? == f.broken
  {
    hide Rewrite, Changes, Canon, IsCanon;
    forall i | 0 <= i < |f.docs|
      ensures IsCanon(Rewrite(f.docs[i], e)) && Canon(Rewrite(f.docs[i], e)) == Rewrite(f.docs[i], e)
      ensures Changes(f.docs[i], e) <==> Rewrite(f.docs[i], e) != f.docs[i]
    {
      RewriteCanon(f.docs[i], e);
      ChangesIffDifferent(f.docs[i], e);
    }
    assert CanonDocs(RewriteDocs(f.docs, e)) == RewriteDocs(f.docs, e);
    if !ChangesAny(f.docs, e) { assert RewriteDocs(f.docs, e) == f.docs; }
  }

  // One edit of a scoped set: the edit itself has nothing left to do, and every other
  // edit has as much left to do as before.
  lemma ManifestStep(f: File, es: seq<ManifestEdit>, m: nat)
    requires ManifestSafe(f, es) && m < |es|
    ensures var g := FileAfter(f, Manifest(f, es[m]));
            && ManifestSafe(g, es)
            && QuietResult(Manifest(g, es[m]))
            && (forall k | 0 <= k < |es| && k != m :: QuietResult(Manifest(g, es[k])) == QuietResult(Manifest(f, es[k])))
            && (forall k | 0 <= k < |es| :: Manifest(g, es[k]).EditFailed? == Manifest(f, es[k]).EditFailed?)
  {
    hide Rewrite, Changes, Canon, IsCanon, Manifest, QuietResult;
    var g := FileAfter(f, Manifest(f, es[m]));
    ManifestFile(f, es[m]);
    forall k | 0 <= k < |es|
      ensures QuietResult(Manifest(f, es[k])) == (f.broken || !ChangesAny(f.docs, es[k]))
      ensures QuietResult(Manifest(g, es[k])) == (g.broken || !ChangesAny(g.docs, es[k]))
      ensures Manifest(g, es[k]).EditFailed? == Manifest(f, es[k]).EditFailed?
    {
      ManifestFile(f, es[k]);
      ManifestFile(g, es[k]);
    }
    forall k, i | 0 <= k < |es| && 0 <= i < |f.docs|
      ensures k == m ==> !Changes(Rewrite(f.docs[i], es[m]), es[m])
      ensures k != m ==> Changes(Rewrite(f.docs[i], es[m]), es[k]) == Changes(f.docs[i], es[k])
    {
      RewriteTwice(f.docs[i], es[m]);
      if k != m { RewritesCommute(f.docs[i], es[m], es[k]); }
    }
  }
}
