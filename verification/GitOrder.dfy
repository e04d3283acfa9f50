// The pending containers come out of a map in no fixed order, and what is committed does
// not show it: internal/controller/workload_controller.go:101-133,241-259.
module GitOrder {
  import opened Text
  import opened WorkloadReconcile
  import opened WorkloadLaws
  import opened YamlTree
  import opened YamlWrites
  import opened YamlFile
  import opened HelmTarget
  import opened ManifestLaws
  import opened KustomizeLaws
  import KustomizeTarget
  import ManifestTarget
  import opened HelmOrder
  import opened KustomizeOrder
  import opened GitWriteBack

  // ---- Two walks over one map ---------------------------------------------------

  ghost predicate Distinct(s: seq<Edit>) { forall i, j | 0 <= i < j < |s| :: s[i] != s[j] }

  lemma {:induction false} CountDistinct(s: seq<Edit>, x: Edit)
    requires Distinct(s)
    ensures multiset(s)[x] == if x in s then 1 else 0
    decreases |s|
  {
    if s != [] {
      var n := |s| - 1;
      assert s == s[..n] + [s[n]];
      CountDistinct(s[..n], x);
    }
  }

  lemma SameElements(s: seq<Edit>, t: seq<Edit>)
    requires Distinct(s) && Distinct(t) && forall x :: x in s <==> x in t
    ensures multiset(s) == multiset(t)
  {
    hide Distinct;
    forall x
      ensures multiset(s)[x] == multiset(t)[x]
    {
      CountDistinct(s, x);
      CountDistinct(t, x);
    }
  }

  lemma EditListHolds(pod: Pod, policies: Policies, mutable: bool, t: Target, es: seq<Edit>, fs: seq<Edit>, i: nat)
    requires IsEditList(pod, policies, mutable, t, es) && IsEditList(pod, policies, mutable, t, fs) && i < |es|
    ensures es[i] in fs
  {
    hide Wants, EditFor;
    assert Wants(pod, policies, mutable, es[i].container).Some?;
    var k :| 0 <= k < |fs| && fs[k].container == es[i].container;
  }

  // Two edit lists of one workload differ in their order only.
  lemma SameEdits(pod: Pod, policies: Policies, mutable: bool, t: Target, es: seq<Edit>, fs: seq<Edit>)
    requires IsEditList(pod, policies, mutable, t, es) && IsEditList(pod, policies, mutable, t, fs)
    ensures multiset(es) == multiset(fs)
  {
    assert Distinct(es) && Distinct(fs);
    hide IsEditList, Distinct;
    forall e
      ensures e in es <==> e in fs
    {
      if e in es { var i :| 0 <= i < |es| && es[i] == e; EditListHolds(pod, policies, mutable, t, es, fs, i); }
      if e in fs { var i :| 0 <= i < |fs| && fs[i] == e; EditListHolds(pod, policies, mutable, t, fs, es, i); }
    }
    SameElements(es, fs);
  }

  // ---- One manifest, in either order --------------------------------------------

  function ToManifestEdit(e: Edit): ManifestTarget.ManifestEdit
  {
    ManifestTarget.ManifestEdit(e.repository, e.tag, e.container)
  }

  // What the three kinds of target see of two such lists.
  lemma SameSeen(es: seq<Edit>, fs: seq<Edit>)
    requires multiset(es) == multiset(fs)
    ensures multiset(ManifestEdits(es)) == multiset(ManifestEdits(fs))
    ensures multiset(HelmEdits(es)) == multiset(HelmEdits(fs))
    ensures multiset(ImageEdits(es)) == multiset(ImageEdits(fs))
  {
    var m := (e: Edit) => ToManifestEdit(e);
    var h := (e: Edit) => HelmEdit(e.repository, e.tag, e.helmNameKey, e.helmTagKey);
    var k := (e: Edit) => ImageEdit(e.repository, e.tag);
    SameMapped(es, fs, m);
    SameMapped(es, fs, h);
    SameMapped(es, fs, k);
    assert ManifestEdits(es) == Mapped(es, m) && ManifestEdits(fs) == Mapped(fs, m);
    assert HelmEdits(es) == Mapped(es, h) && HelmEdits(fs) == Mapped(fs, h);
    assert ImageEdits(es) == Mapped(es, k) && ImageEdits(fs) == Mapped(fs, k);
  }

  // Running manifest edits on a file runs them on every document.
  lemma {:induction false} FileRunIs(f: File, es: seq<Edit>)
    requires CanonFile(f) && !f.broken && forall i | 0 <= i < |es| :: es[i].target.kind == ToManifest
    ensures var g := FileRun(f, es);
            && !g.broken && |g.docs| == |f.docs|
            && forall i | 0 <= i < |f.docs| :: g.docs[i] == RewriteRun(f.docs[i], ManifestEdits(es))
    decreases |es|
  {
    hide ManifestTarget.Manifest, ManifestTarget.Rewrite, CanonFile;
    if es != [] {
      var e := ToManifestEdit(es[0]);
      assert EditFile(f, es[0]) == ManifestTarget.Manifest(f, e);
      ManifestFile(f, e);
      FileRunIs(FileAfter(f, EditFile(f, es[0])), es[1..]);
      assert ManifestEdits(es)[0] == e && ManifestEdits(es)[1..] == ManifestEdits(es[1..]);
    }
  }

  lemma {:induction false} BrokenRun(f: File, es: seq<Edit>)
    requires f.broken && forall i | 0 <= i < |es| :: es[i].target.kind == ToManifest
    ensures FileRun(f, es) == f
    decreases |es|
  {
    if es != [] { BrokenRun(f, es[1..]); }
  }

  lemma {:induction false} FileOrder(f: File, es: seq<Edit>, fs: seq<Edit>)
    requires CanonFile(f) && multiset(es) == multiset(fs)
    requires forall i | 0 <= i < |es| :: es[i].target.kind == ToManifest
    requires forall i | 0 <= i < |fs| :: fs[i].target.kind == ToManifest
    requires AllScoped(ManifestEdits(es)) && AllScoped(ManifestEdits(fs))
    ensures FileRun(f, es) == FileRun(f, fs)
  {
    hide FileRun, RewriteRun, CanonFile, AllScoped, ManifestEdits;
    if f.broken {
      BrokenRun(f, es);
      BrokenRun(f, fs);
    } else {
      FileRunIs(f, es);
      FileRunIs(f, fs);
      SameSeen(es, fs);
      forall i | 0 <= i < |f.docs|
        ensures RewriteRun(f.docs[i], ManifestEdits(es)) == RewriteRun(f.docs[i], ManifestEdits(fs))
      {
        ManifestLaws.AnyOrder(f.docs[i], ManifestEdits(es), ManifestEdits(fs));
      }
      assert FileRun(f, es).docs == FileRun(f, fs).docs;
      RunOwn(f, es);
      RunOwn(f, fs);
      assert forall e :: e in es <==> e in multiset(es);
      assert forall e :: e in fs <==> e in multiset(fs);
    }
  }

  lemma QuietKeepsFile(f: File, e: Edit)
    requires CanonFile(f)
    ensures var g := FileAfter(f, EditFile(f, e));
            && CanonFile(g)
            && if QuietEdit(f, e) then g == f else g.own
  {
    EditFileCanon(f, e);
    hide CanonFile, PutAll, KustomizeTarget.KustomizeTree, ManifestTarget.RewriteDocs, ManifestTarget.ChangesAny, Canon;
  }

  // The text becomes the encoder's own as soon as one edit of the run has something to do.
  lemma {:induction false} RunOwn(f: File, es: seq<Edit>)
    requires CanonFile(f)
    ensures FileRun(f, es).own <==> f.own || exists e :: e in es && !QuietEdit(f, e)
    decreases |es|
  {
    hide EditFile, QuietEdit, CanonFile;
    if es != [] {
      QuietKeepsFile(f, es[0]);
      RunOwn(FileAfter(f, EditFile(f, es[0])), es[1..]);
      assert forall e :: e in es <==> e == es[0] || e in es[1..];
    }
  }

  // ---- Helm and kustomize -------------------------------------------------------

  lemma {:induction false} HelmFileRun(f: File, es: seq<Edit>)
    requires forall i | 0 <= i < |es| :: es[i].target.kind == ToHelm
    ensures FileRun(f, es) == HelmRun(f, HelmEdits(es))
    decreases |es|
  {
    if es != [] {
      hide HelmTarget.Helm;
      HelmFileRun(FileAfter(f, EditFile(f, es[0])), es[1..]);
      assert HelmEdits(es)[1..] == HelmEdits(es[1..]);
    }
  }

  lemma {:induction false} KustomizeFileRun(f: File, es: seq<Edit>)
    requires forall i | 0 <= i < |es| :: es[i].target.kind == ToKustomize
    ensures FileRun(f, es) == KustomizeRun(f, ImageEdits(es))
    decreases |es|
  {
    if es != [] {
      hide KustomizeTarget.Kustomize;
      KustomizeFileRun(FileAfter(f, EditFile(f, es[0])), es[1..]);
      assert ImageEdits(es)[1..] == ImageEdits(es[1..]);
    }
  }

  // A file of one document, whose root is a mapping: what a Helm or kustomize edit writes.
  predicate Single(f: File) { ParseDoc(f).Parsed? && f == File([Doc(ParseDoc(f).root)], false, true) }

  // The same file; or, of two files that were both written, values that no path tells apart
  // or kustomizations that differ in the order of their image entries only.
  ghost predicate ReadAlike(kind: TargetKind, f: File, g: File)
  {
    f == g
    || (Single(f) && Single(g)
        && match kind
           case ToManifest => false
           case ToHelm => Alike(ParseDoc(f).root, ParseDoc(g).root)
           case ToKustomize => SameButImages(ParseDoc(f).root, ParseDoc(g).root))
  }

  lemma WrittenIsSingle(root: Tree)
    requires root.kind == Mapping
    ensures Single(WriteDoc(root))
  {
    WriteThenParse(root);
    CanonOfDoc(root);
  }

  // An edit that reports a change writes one document.
  lemma ChangedIsSingle(f: File, e: Edit)
    requires CanonFile(f) && e.target.kind != ToManifest
    ensures QuietEdit(f, e) ==> FileAfter(f, EditFile(f, e)) == f
    ensures !QuietEdit(f, e) ==> Single(EditFile(f, e).file)
  {
    hide PutAll, KustomizeTarget.UpsertEntry, KustomizeTarget.WithImages, Canon, IsCanon, Wf, Single, WriteDoc;
    if !QuietEdit(f, e) {
      var root := ParseDoc(f).root;
      RootIsCanon(f);
      if e.target.kind == ToHelm {
        var ws := HelmWrites(e.repository, e.tag, e.helmNameKey, e.helmTagKey);
        RootStaysMapping(root, ws);
        WrittenIsSingle(PutAll(root, ws).tree);
      } else {
        CanonKeeps(root);
        UpsertIsCorrect(root, e.repository, e.tag, KustomizeTarget.IMAGES);
        WrittenIsSingle(KustomizeTarget.KustomizeTree(root, e.repository, e.tag).tree);
      }
    }
  }

  // A run that nothing asks to change leaves the file; any other leaves one document.
  lemma {:induction false} RunIsSingle(f: File, es: seq<Edit>)
    requires CanonFile(f) && forall i | 0 <= i < |es| :: es[i].target.kind != ToManifest
    ensures (forall e | e in es :: QuietEdit(f, e)) ==> FileRun(f, es) == f
    ensures Single(f) || (exists e :: e in es && !QuietEdit(f, e)) ==> Single(FileRun(f, es))
    decreases |es|
  {
    hide EditFile, Single, CanonFile, QuietEdit;
    if es != [] {
      ChangedIsSingle(f, es[0]);
      EditFileCanon(f, es[0]);
      RunIsSingle(FileAfter(f, EditFile(f, es[0])), es[1..]);
      if QuietEdit(f, es[0]) {
        assert forall e | e in es[1..] :: e in es;
        assert forall e | e in es && e != es[0] :: e in es[1..];
      } else {
        LoudFile(f, es[0]);
      }
    }
  }

  lemma LoudFile(f: File, e: Edit)
    requires !QuietEdit(f, e)
    ensures FileAfter(f, EditFile(f, e)) == EditFile(f, e).file
  {
    hide EditFile;
  }

  lemma SafeFileOrder(kind: TargetKind, f: File, es: seq<Edit>, fs: seq<Edit>)
    requires Safe(kind, f, es) && multiset(es) == multiset(fs)
    requires forall i | 0 <= i < |fs| :: fs[i].target.kind == kind
    requires kind == ToManifest ==> AllScoped(ManifestEdits(fs))
    ensures ReadAlike(kind, FileRun(f, es), FileRun(f, fs))
  {
    SafeIsCanon(kind, f, es);
    hide FileRun, HelmRun, KustomizeRun, HelmSafe, KustomizeSafe, AllScoped, CanonFile, ManifestEdits, HelmEdits, ImageEdits,
         Alike, SameButImages, Single, EditFile, QuietEdit;
    SameSeen(es, fs);
    if kind == ToManifest {
      FileOrder(f, es, fs);
    } else {
      assert forall e :: e in es <==> e in multiset(es);
      assert forall e :: e in fs <==> e in multiset(fs);
      RunIsSingle(f, es);
      RunIsSingle(f, fs);
      if kind == ToHelm {
        HelmFileRun(f, es);
        HelmFileRun(f, fs);
        HelmOrderDoesNotShow(f, HelmEdits(es), HelmEdits(fs));
      } else {
        KustomizeFileRun(f, es);
        KustomizeFileRun(f, fs);
        KustomizeOrderDoesNotShow(f, ImageEdits(es), ImageEdits(fs));
      }
      if Single(FileRun(f, es)) { SingleParses(FileRun(f, es)); }
    }
  }

  lemma SingleParses(f: File)
    requires Single(f)
    ensures ParseDoc(f).Parsed?
  {}

  // Whether a run has anything to commit does not depend on its order, guard or no guard.
  lemma StagingOrder(paths: Paths, files: Files, es: seq<Edit>, fs: seq<Edit>)
    requires multiset(es) == multiset(fs)
    ensures Staged(paths, files, es) == {} <==> Staged(paths, files, fs) == {}
  {
    StagingOneWay(paths, files, es, fs);
    StagingOneWay(paths, files, fs, es);
  }

  lemma StagingOneWay(paths: Paths, files: Files, es: seq<Edit>, fs: seq<Edit>)
    requires multiset(es) == multiset(fs)
    ensures Staged(paths, files, es) == {} ==> Staged(paths, files, fs) == {}
  {
    hide ChangedPath, Staged;
    if Staged(paths, files, es) == {} {
      NothingStaged(paths, files, es);
      forall i | 0 <= i < |fs|
        ensures ChangedPath(paths, files, fs[i]).None?
      {
        assert fs[i] in multiset(es);
      }
      IdleRun(paths, files, fs);
    }
  }

  // For every kind of target: whatever the order in which a reconcile meets its containers,
  // it commits or does not commit alike, and it writes files that read alike, provided the
  // edits are safe on the files it cloned.
  lemma CommitOrderDoesNotShow(pod: Pod, policies: Policies, mutable: bool, t: Target, es: seq<Edit>, fs: seq<Edit>,
                               paths: Paths, files: Files)
    requires IsEditList(pod, policies, mutable, t, es) && IsEditList(pod, policies, mutable, t, fs)
    requires SafeEdits(paths, files, es, t)
    ensures Staged(paths, files, es) == {} <==> Staged(paths, files, fs) == {}
    ensures var a, b := AfterAll(paths, files, es), AfterAll(paths, files, fs);
            && a.Keys == b.Keys
            && forall p | p in a && p in b ::
                 if Some(p) == TargetFile(paths, files, t) then ReadAlike(t.kind, a[p], b[p]) else a[p] == b[p]
  {
    hide *;
    EditsShareTarget(pod, policies, mutable, t, es);
    EditsShareTarget(pod, policies, mutable, t, fs);
    SameEdits(pod, policies, mutable, t, es, fs);
    ManifestEditsAreScoped(pod, policies, mutable, t, fs);
    StagingOrder(paths, files, es, fs);
    SafeRunOrder(paths, files, t, es, fs);
  }

  lemma SafeRunOrder(paths: Paths, files: Files, t: Target, es: seq<Edit>, fs: seq<Edit>)
    requires SafeEdits(paths, files, es, t) && OneTarget(fs, t) && multiset(es) == multiset(fs)
    requires AllScoped(ManifestEdits(fs))
    ensures var a, b := AfterAll(paths, files, es), AfterAll(paths, files, fs);
            && a.Keys == b.Keys
            && forall p | p in a && p in b ::
                 if Some(p) == TargetFile(paths, files, t) then ReadAlike(t.kind, a[p], b[p]) else a[p] == b[p]
  {
    hide FileRun, AfterAll, TargetFile, CanonFile, AllScoped, ManifestEdits, Safe, ReadAlike;
    RunOnOneFile(paths, files, es, t);
    RunOnOneFile(paths, files, fs, t);
    var path := TargetFile(paths, files, t);
    if path.Some? && path.value in files { SafeFileOrder(t.kind, files[path.value], es, fs); }
    var a := AfterAll(paths, files, es);
    forall p | p in a
      ensures p in files
    {
      assert p in a.Keys;
    }
  }

  // For a manifest that is the very same files, and needs no guard.
  lemma ManifestOrderDoesNotShow(pod: Pod, policies: Policies, mutable: bool, t: Target, es: seq<Edit>, fs: seq<Edit>,
                                 paths: Paths, files: Files)
    requires IsEditList(pod, policies, mutable, t, es) && IsEditList(pod, policies, mutable, t, fs)
    requires t.kind == ToManifest && CanonFiles(files)
    ensures AfterAll(paths, files, es) == AfterAll(paths, files, fs)
  {
    hide IsEditList, AfterAll, TargetFile, SafeEdits, CanonFiles;
    ManifestEditsAreSafe(pod, policies, mutable, t, es, paths, files);
    CommitOrderDoesNotShow(pod, policies, mutable, t, es, fs, paths, files);
    assert AfterAll(paths, files, es) == AfterAll(paths, files, fs);
  }
}
