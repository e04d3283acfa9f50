// What EditKustomization guarantees: internal/gitwriteback/edit.go:94-120.
module KustomizeLaws {
  import opened Text
  import opened YamlTree
  import opened YamlPath
  import opened YamlFile
  import opened YamlWrites
  import opened HelmTarget
  import opened KustomizeTarget

  // The images node the upsert works on: an empty list when there is none.
  function Images(root: Tree): Tree
    requires root.kind == Mapping
  {
    if Lookup(root, IMAGES).Some? then Child(root, IMAGES) else EMPTY_SEQ
  }

  lemma ImagesOf(root: Tree, u: Tree)
    requires Wf(root) && root.kind == Mapping
    ensures CanStep(root, IMAGES) && Wf(Images(root))
    ensures var root1 := WithImages(root);
            Wf(root1) && CanStep(root1, IMAGES) && Child(root1, IMAGES) == Images(root)
            && PutChild(root1, IMAGES, u) == PutChild(root, IMAGES, u)
            && Child(PutChild(root, IMAGES, u), IMAGES) == u && Lookup(PutChild(root, IMAGES, u), IMAGES).Some?
  {
    hide KeyFrom, Wf;
    assert Wf(EMPTY_SEQ) by { EmptySeqWf(); }
    PutChildWf(root, IMAGES, EMPTY_SEQ);
    PutChildStep(root, IMAGES, EMPTY_SEQ, IMAGES);
    PutChildStep(root, IMAGES, u, IMAGES);
    PutChildTwice(root, IMAGES, EMPTY_SEQ, u);
  }

  lemma EmptySeqWf()
    ensures Wf(EMPTY_SEQ) && IsCanon(EMPTY_SEQ)
  {}

  // An entry after its tag was set: same names, the tag in place.
  lemma EntryUpserted(item: Tree, repository: string, tag: string, other: string)
    requires Wf(item) && Names(item, repository)
    ensures var r := Put(item, [NEW_TAG], tag);
            && r.Done? && Wf(r.tree) && r.changed == (r.tree != item)
            && Names(r.tree, other) == Names(item, other)
            && Lookup(r.tree, NEW_TAG).Some? && Child(r.tree, NEW_TAG).value == tag
            && Put(r.tree, [NEW_TAG], tag) == Done(r.tree, false)
  {
    hide KeyFrom, Wf;
    var r := Put(item, [NEW_TAG], tag);
    PutKeepsWf(item, [NEW_TAG], tag);
    ChangedIffDifferent(item, [NEW_TAG], tag);
    PutTwice(item, [NEW_TAG], tag);
    PutThenGet(item, [NEW_TAG], tag);
    PutChildStep(item, NEW_TAG, PutBelow(item, [NEW_TAG], tag).tree, NAME);
    PutChildStep(item, NEW_TAG, PutBelow(item, [NEW_TAG], tag).tree, NEW_TAG);
  }

  lemma FreshEntry(repository: string, tag: string, other: string)
    ensures var e := Entry(repository, tag);
            && Wf(e) && IsCanon(e) && (Names(e, other) <==> other == repository)
            && Lookup(e, NEW_TAG).Some? && Child(e, NEW_TAG).value == tag
            && Put(e, [NEW_TAG], tag) == Done(e, false)
  {
    var e := Entry(repository, tag);
    assert e.content == [Str(NAME), Str(repository), Str(NEW_TAG), Str(tag)];
    assert KeyFrom(e.content, NAME, 0) == Some(1);
    assert KeyFrom(e.content, NEW_TAG, 2) == Some(3);
    assert KeyFrom(e.content, NEW_TAG, 0) == Some(3);
    assert forall v :: IsCanon(Str(v)) && Wf(Str(v));
    assert e.content[3 := e.content[3]] == e.content;
  }

  lemma {:induction false} FindIs(items: seq<Tree>, repository: string, i: nat, k: nat)
    requires i <= k < |items| && Names(items[k], repository)
    requires forall m | i <= m < k :: !Names(items[m], repository)
    ensures FindEntry(items, repository, i) == Some(k)
    decreases k - i
  {
    if i < k { FindIs(items, repository, i + 1, k); }
  }

  // Where the entry named by the repository is after the upsert.
  function Place(images: Tree, repository: string): nat
  {
    if FindEntry(images.content, repository, 0).Some? then FindEntry(images.content, repository, 0).value
    else |images.content|
  }

  // On the list: the first entry of that name has the tag; an entry is added exactly when
  // none matched; every other entry keeps content and order, and other names are found
  // where they were.
  lemma UpsertEntryIsCorrect(images: Tree, repository: string, tag: string, other: string)
    requires Wf(images)
    ensures var r := UpsertEntry(images, repository, tag);
            && r.Done?
            && var k, after := Place(images, repository), r.tree;
               && after.kind == images.kind && after.tag == images.tag && after.value == images.value
               && |after.content| == (if k < |images.content| then |images.content| else |images.content| + 1)
               && (forall m | 0 <= m < |images.content| && m != k :: after.content[m] == images.content[m])
               && FindEntry(after.content, repository, 0) == Some(k)
               && Lookup(after.content[k], NEW_TAG).Some? && Child(after.content[k], NEW_TAG).value == tag
               && (other != repository ==> FindEntry(after.content, other, 0) == FindEntry(images.content, other, 0))
               && r.changed == (after != images)
               && UpsertEntry(after, repository, tag) == Done(after, false)
  {
    hide FindEntry, Names, Put, Lookup, Wf, IsCanon;
    var k := Place(images, repository);
    PlaceIsFirst(images.content, repository);
    PlaceIsFirst(images.content, other);
    if k < |images.content| {
      assert Wf(images.content[k]) by { WfAt(images, k); }
      EntryUpserted(images.content[k], repository, tag, repository);
      EntryUpserted(images.content[k], repository, tag, other);
      if Names(images.content[k], other) { OneName(images.content[k], repository, other); }
    }
    var after := UpsertEntry(images, repository, tag).tree;
    if k >= |images.content| {
      FreshEntry(repository, tag, repository);
      FreshEntry(repository, tag, other);
      assert after.content[k] == Entry(repository, tag);
      assert after.content != images.content;
    }
    FindIs(after.content, repository, 0, k);
    if other != repository { SameFind(images.content, after.content, other); }
    assert after.content[k := after.content[k]] == after.content;
  }

  lemma WfAt(t: Tree, k: nat)
    requires Wf(t) && k < |t.content|
    ensures Wf(t.content[k])
  {}

  lemma OneName(item: Tree, a: string, b: string)
    requires Names(item, a) && Names(item, b)
    ensures a == b
  {}

  lemma PlaceIsFirst(items: seq<Tree>, repository: string)
    ensures var r := FindEntry(items, repository, 0);
            && (r.Some? ==> r.value < |items| && Names(items[r.value], repository))
            && forall m | 0 <= m < |items| && (r.Some? ==> m < r.value) :: !Names(items[m], repository)
  {}

  lemma SameFind(before: seq<Tree>, after: seq<Tree>, other: string)
    requires |before| <= |after|
    requires forall m | 0 <= m < |before| :: Names(after[m], other) == Names(before[m], other)
    requires forall m | |before| <= m < |after| :: !Names(after[m], other)
    ensures FindEntry(after, other, 0) == FindEntry(before, other, 0)
  {
    hide Names;
    PlaceIsFirst(before, other);
    PlaceIsFirst(after, other);
  }

  // The whole document: the upsert on its images, every other key as it was.
  lemma UpsertIsCorrect(root: Tree, repository: string, tag: string, key: string)
    requires Wf(root) && root.kind == Mapping
    ensures var r, entry := KustomizeTree(root, repository, tag), UpsertEntry(Images(root), repository, tag);
            && entry.Done? && r == Done(PutChild(root, IMAGES, entry.tree), entry.changed)
            && Lookup(r.tree, IMAGES).Some? && Child(r.tree, IMAGES) == entry.tree
            && (key != IMAGES ==> Step(r.tree, key) == Step(root, key) && Child(r.tree, key) == Child(root, key))
            && r.changed == (r.tree != root)
            && KustomizeTree(r.tree, repository, tag) == Done(r.tree, false)
  {
    hide KeyFrom, Wf, UpsertEntry;
    UpsertEntryIsCorrect(Images(root), repository, tag, repository) by { ImagesOf(root, EMPTY_SEQ); }
    var entry := UpsertEntry(Images(root), repository, tag);
    ImagesOf(root, entry.tree);
    PutChildStep(root, IMAGES, entry.tree, key);
    PutChildChanges(root, IMAGES, entry.tree);
    if Lookup(root, IMAGES).None? { EmptyListChanges(repository, tag); }
    var t' := PutChild(root, IMAGES, entry.tree);
    PutChildTwice(root, IMAGES, entry.tree, entry.tree);
  }

  lemma EmptyListChanges(repository: string, tag: string)
    ensures UpsertEntry(EMPTY_SEQ, repository, tag).changed
  {}

  // ---- When an edit settles -----------------------------------------------------

  // The entry's newTag is absent or a scalar; without an entry, images is absent or a list.
  predicate Guard(root: Tree, repository: string)
    requires root.kind == Mapping
  {
    var k := Place(Images(root), repository);
    if k < |Images(root).content| then WritesScalar(Images(root).content[k], [NEW_TAG])
    else Images(root).kind == Sequence
  }

  ghost predicate NoAliasTag(root: Tree, repository: string)
    requires root.kind == Mapping
  {
    var images, k := Images(root), Place(Images(root), repository);
    images.kind != Document && (k < |images.content| ==> NoAlias(images.content[k], [NEW_TAG]))
  }

  lemma ImagesCanon(root: Tree, u: Tree)
    requires IsCanon(root) && root.kind == Mapping
    ensures IsCanon(Images(root)) && CanStep(root, IMAGES)
    ensures Canon(PutChild(root, IMAGES, u)) == PutChild(root, IMAGES, Canon(u))
    ensures PutChild(root, IMAGES, u).kind == Mapping
    ensures IsCanon(u) ==> IsCanon(PutChild(root, IMAGES, u))
    ensures Images(PutChild(root, IMAGES, u)) == u
  {
    hide KeyFrom, IsCanon, Wf, Canon;
    EmptySeqWf();
    CanonKeeps(root);
    CanonOfChild(root, IMAGES, u);
    ImagesOf(root, u);
    if IsCanon(u) { PutChildCanon(root, IMAGES, u); }
  }

  lemma OneKey(t: Tree, key: string, v: string)
    requires t.kind == Mapping
    ensures CanStep(t, key) && Put(t, [key], v).Done?
    ensures Put(t, [key], v).tree == PutChild(t, key, PutBelow(t, [key], v).tree)
    ensures Step(t, key).Some? ==> (Put(t, [key], v).changed <==> Child(t, key).value != v)
    ensures Step(t, key).None? ==> Put(t, [key], v).changed
    ensures PutBelow(t, [key], v).tree.value == v
    ensures WritesScalar(t, [key]) <==> PutBelow(t, [key], v).tree.kind == Scalar
    ensures !WritesScalar(t, [key]) ==> PutBelow(t, [key], v).tree.kind == Child(t, key).kind
    ensures NoAlias(t, [key]) && Step(t, key).Some? ==> Child(t, key).kind != Alias
  {
    hide Lookup, Atoi;
    assert [key][1..] == [];
    assert Get(Child(t, key), []) == Some(Child(t, key));
  }

  // What the entry is in the file once its tag was set.
  lemma EntryWritten(item: Tree, repository: string, tag: string)
    requires IsCanon(item) && Names(item, repository) && tag != "" && NoAlias(item, [NEW_TAG])
    ensures var e := Put(item, [NEW_TAG], tag);
            && e.Done? && Names(Canon(e.tree), repository)
            && (WritesScalar(item, [NEW_TAG]) ==> IsCanon(e.tree))
            && Put(Canon(e.tree), [NEW_TAG], tag).Done?
            && (Put(Canon(e.tree), [NEW_TAG], tag).changed <==> !WritesScalar(item, [NEW_TAG]))
  {
    OneKey(item, NEW_TAG, tag);
    WrittenLeaf(item, [NEW_TAG], tag);
    var u := PutBelow(item, [NEW_TAG], tag).tree;
    hide Lookup, Wf, IsCanon, KeysKept, NoAlias, Put, PutBelow, WritesScalar, Step, CanStep, Child, PutChild, Canon;
    CanonKeeps(item);
    CanonOfChild(item, NEW_TAG, u);
    PutChildStep(item, NEW_TAG, Canon(u), NAME);
    PutChildStep(item, NEW_TAG, Canon(u), NEW_TAG);
    CanonText(u);
    StillNamed(item, Canon(u), repository);
    OneKey(Canon(Put(item, [NEW_TAG], tag).tree), NEW_TAG, tag);
    if !WritesScalar(item, [NEW_TAG]) { PutKeepsKind(item, [NEW_TAG], tag); KindOfGet(item, NEW_TAG); }
  }

  lemma CanonText(u: Tree)
    ensures Canon(u).value == if Leaf(u.kind) then u.value else ""
  {}

  lemma KindOfGet(t: Tree, key: string)
    requires Get(t, [key]).Some?
    ensures Step(t, key).Some? && Get(t, [key]) == Some(Child(t, key))
  {
    assert [key][1..] == [];
  }

  lemma StillNamed(item: Tree, u: Tree, repository: string)
    requires Wf(item) && Names(item, repository)
    ensures CanStep(item, NEW_TAG) && Names(PutChild(item, NEW_TAG, u), repository)
  {
    hide KeyFrom, Wf;
    PutChildStep(item, NEW_TAG, u, NAME);
  }

  // EditKustomization, run again on the file it produced, reports no change exactly when
  // the guard held.
  lemma KustomizeSettlesIff(f: File, repository: string, tag: string)
    requires CanonFile(f) && ParseDoc(f).Parsed? && tag != "" && NoAliasTag(ParseDoc(f).root, repository)
    ensures var r := Kustomize(f, repository, tag);
            && r.Edited?
            && (Kustomize(r.file, repository, tag) == Edited(r.file, false) <==> Guard(ParseDoc(f).root, repository))
  {
    hide KeyFrom, Wf, IsCanon, Canon, UpsertEntry, FindEntry, Names, Put, Lookup, WithImages;
    var root := ParseDoc(f).root;
    RootIsPaired(f);
    CanonKeeps(root);
    UpsertIsCorrect(root, repository, tag, IMAGES);
    var after := UpsertEntry(Images(root), repository, tag).tree;
    ImagesCanon(root, after);
    ImagesCanon(root, Canon(after));
    CanonIsCanon(after);
    ListSettlesIff(Images(root), repository, tag);
    var t' := KustomizeTree(root, repository, tag).tree;
    if KustomizeTree(root, repository, tag).changed {
      WriteThenParse(t');
      CanonKeeps(Canon(after));
      CanonKeeps(Canon(t')) by { CanonIsCanon(t'); }
      UpsertIsCorrect(Canon(t'), repository, tag, IMAGES);
    } else {
      UnchangedList(Images(root), repository, tag);
      CanonKeeps(Images(root));
    }
  }

  lemma UnchangedList(images: Tree, repository: string, tag: string)
    requires Wf(images) || IsCanon(images)
    requires UpsertEntry(images, repository, tag).Done? && !UpsertEntry(images, repository, tag).changed
    ensures UpsertEntry(images, repository, tag).tree == images
  {
    if IsCanon(images) { CanonKeeps(images); }
    UpsertEntryIsCorrect(images, repository, tag, repository);
  }

  lemma ListSettlesIff(images: Tree, repository: string, tag: string)
    requires IsCanon(images) && images.kind != Document && tag != ""
    requires var k := Place(images, repository); k < |images.content| ==> NoAlias(images.content[k], [NEW_TAG])
    ensures UpsertEntry(images, repository, tag).Done?
    ensures var k, c := Place(images, repository), Canon(UpsertEntry(images, repository, tag).tree);
            (UpsertEntry(c, repository, tag).Done? && !UpsertEntry(c, repository, tag).changed)
            <==> if k < |images.content| then WritesScalar(images.content[k], [NEW_TAG]) else images.kind == Sequence
  {
    hide KeyFrom, Wf, IsCanon, FindEntry, Names, Put, Lookup, NoAlias, WritesScalar;
    CanonKeeps(images);
    UpsertEntryIsCorrect(images, repository, tag, repository);
    var k, after := Place(images, repository), UpsertEntry(images, repository, tag).tree;
    PlaceIsFirst(images.content, repository);
    if k < |images.content| {
      assert IsCanon(images.content[k]) by { CanonAt(images, k); }
      EntryWritten(images.content[k], repository, tag);
      CanonOfElement(images, k, Put(images.content[k], [NEW_TAG], tag).tree);
      FindIs(Canon(after).content, repository, 0, k);
    } else {
      CanonOfAppended(images, Entry(repository, tag)) by { FreshEntry(repository, tag, repository); }
    }
  }

  lemma CanonAt(t: Tree, k: nat)
    requires IsCanon(t) && k < |t.content|
    ensures IsCanon(t.content[k])
  {}

  lemma CanonOfElement(t: Tree, k: nat, u: Tree)
    requires IsCanon(t) && k < |t.content|
    ensures Canon(WithChild(t, k, u)) == WithChild(t, k, Canon(u))
  {
    forall i | 0 <= i < |t.content|
      ensures Canon(t.content[i]) == t.content[i]
    {
      CanonKeeps(t.content[i]);
    }
    assert Canon(WithChild(t, k, u)).content == WithChild(t, k, Canon(u)).content;
  }

  lemma WrittenOfAppended(k: Kind, n: nat)
    requires k != Document && (k == Mapping ==> n % 2 == 0) && (Leaf(k) ==> n == 0)
    ensures Written(k, n + 1) == if k == Sequence then n + 1 else n
    ensures Written(k, n) == n
  {}

  // Writing out a list with one more element.
  lemma CanonWithLast(k: Kind, tag: string, c: seq<Tree>, u: Tree)
    requires k == Sequence && Canon(u) == u && forall i | 0 <= i < |c| :: Canon(c[i]) == c[i]
    ensures Canon(Tree(k, tag, "", c + [u])) == Tree(k, tag, "", c + [u])
  {
    CanonAll(Tree(k, tag, "", c + [u]));
  }

  lemma CanonAll(t: Tree)
    requires t.kind == Sequence && t.value == "" && forall i | 0 <= i < |t.content| :: Canon(t.content[i]) == t.content[i]
    ensures Canon(t) == t
  {
    assert Canon(t).content == t.content;
  }

  // Writing out anything else: what does not belong there is dropped.
  lemma CanonDropsLast(t: Tree, u: Tree)
    requires t.kind != Sequence && t.kind != Document && (t.kind == Mapping ==> |t.content| % 2 == 0)
    requires if Leaf(t.kind) then t.content == [] else t.value == ""
    requires forall i | 0 <= i < |t.content| :: Canon(t.content[i]) == t.content[i]
    ensures Canon(t.(content := t.content + [u])) == t
  {
    var t' := t.(content := t.content + [u]);
    WrittenOfAppended(t.kind, |t.content|);
    assert forall i | 0 <= i < |t.content| :: t'.content[i] == t.content[i];
    assert Canon(t').content == t.content;
  }

  // An element appended to anything but a list is not written out.
  lemma CanonOfAppended(t: Tree, u: Tree)
    requires IsCanon(t) && t.kind != Document && IsCanon(u)
    ensures var t' := t.(content := t.content + [u]);
            Canon(t') == if t.kind == Sequence then t' else t
  {
    CanonParts(t);
    CanonKeeps(u);
    hide Canon, IsCanon, Written;
    if t.kind == Sequence {
      CanonWithLast(t.kind, t.tag, t.content, u);
    } else {
      CanonDropsLast(t, u);
    }
  }

  lemma CanonParts(t: Tree)
    requires IsCanon(t)
    ensures forall i | 0 <= i < |t.content| :: Canon(t.content[i]) == t.content[i]
    ensures t.kind == Mapping ==> |t.content| % 2 == 0
    ensures if Leaf(t.kind) then t.content == [] else t.value == ""
  {
    forall i | 0 <= i < |t.content|
      ensures Canon(t.content[i]) == t.content[i]
    {
      CanonKeeps(t.content[i]);
    }
  }

  // ---- Several edits of one file ------------------------------------------------

  datatype ImageEdit = ImageEdit(repository: string, tag: string)

  function KustomizeOf(f: File, e: ImageEdit): EditResult { Kustomize(f, e.repository, e.tag) }

  // No repository is asked to have two tags.
  ghost predicate OneTagEach(es: seq<ImageEdit>)
  {
    forall i, j | 0 <= i < j < |es| :: es[i].repository == es[j].repository ==> es[i] == es[j]
  }

  // Two edits of one repository are one and the same edit, and the guard of each holds.
  ghost predicate KustomizeSafe(f: File, es: seq<ImageEdit>)
  {
    && CanonFile(f)
    && OneTagEach(es)
    && (ParseDoc(f).Parsed? ==> forall i | 0 <= i < |es| :: Guard(ParseDoc(f).root, es[i].repository))
  }

  // Of one edit, safe means no more than that it settles.
  lemma SafeIffSettles(f: File, e: ImageEdit)
    requires (forall i | 0 <= i < |f.docs| :: IsCanon(f.docs[i])) && ParseDoc(f).Parsed?
    requires e.tag != "" && NoAliasTag(ParseDoc(f).root, e.repository)
    ensures var r := KustomizeOf(f, e);
            r.Edited? && (KustomizeSafe(f, [e]) <==> KustomizeOf(r.file, e) == Edited(r.file, false))
  {
    hide Kustomize, Guard, NoAliasTag, IsCanon;
    KustomizeSettlesIff(f, e.repository, e.tag);
    assert [e][0] == e;
  }

  lemma ListKept(images: Tree, e: ImageEdit)
    requires IsCanon(images)
    requires if Place(images, e.repository) < |images.content|
             then WritesScalar(images.content[Place(images, e.repository)], [NEW_TAG]) else images.kind == Sequence
    ensures var r := UpsertEntry(images, e.repository, e.tag);
            && r.Done? && IsCanon(r.tree)
            && Place(r.tree, e.repository) < |r.tree.content|
            && WritesScalar(r.tree.content[Place(r.tree, e.repository)], [NEW_TAG])
  {
    hide KeyFrom, Wf, IsCanon, FindEntry, Names, Put, Lookup, WritesScalar, Canon;
    CanonKeeps(images);
    UpsertEntryIsCorrect(images, e.repository, e.tag, e.repository);
    PlaceIsFirst(images.content, e.repository);
    var k, after := Place(images, e.repository), UpsertEntry(images, e.repository, e.tag).tree;
    CanonIsCanon(after);
    if k < |images.content| {
      var item, u := images.content[k], Put(images.content[k], [NEW_TAG], e.tag).tree;
      CanonAt(images, k);
      CanonKeeps(item);
      OneKeyDone(item, e);
      WrittenLeaf(item, [NEW_TAG], e.tag);
      WrittenIsGuarded(item, [NEW_TAG], e.tag);
      CanonOfElement(images, k, u);
      CanonKeeps(u);
    } else {
      FreshEntry(e.repository, e.tag, e.repository);
      CanonOfAppended(images, Entry(e.repository, e.tag));
      EntryGuard(e.repository, e.tag);
    }
  }

  lemma OneKeyDone(item: Tree, e: ImageEdit)
    requires Names(item, e.repository)
    ensures Put(item, [NEW_TAG], e.tag).Done?
  {
    OneKey(item, NEW_TAG, e.tag);
  }

  lemma EntryGuard(repository: string, tag: string)
    ensures WritesScalar(Entry(repository, tag), [NEW_TAG])
  {
    FreshEntry(repository, tag, repository);
  }

  // What one safe edit leaves in the file.
  lemma KustomizeRoot(f: File, e: ImageEdit)
    requires CanonFile(f) && ParseDoc(f).Parsed? && Guard(ParseDoc(f).root, e.repository)
    ensures var root, g := ParseDoc(f).root, FileAfter(f, KustomizeOf(f, e));
            var images := UpsertEntry(Images(root), e.repository, e.tag);
            && CanonFile(g) && ParseDoc(g).Parsed? && images.Done?
            && Images(ParseDoc(g).root) == images.tree
            && QuietResult(KustomizeOf(f, e)) == !images.changed
            && Place(images.tree, e.repository) < |images.tree.content|
            && WritesScalar(images.tree.content[Place(images.tree, e.repository)], [NEW_TAG])
  {
    hide KeyFrom, Wf, IsCanon, Canon, UpsertEntry, FindEntry, Names, Put, Lookup, WithImages, WritesScalar;
    var root := ParseDoc(f).root;
    RootIsPaired(f);
    CanonKeeps(root);
    UpsertIsCorrect(root, e.repository, e.tag, IMAGES);
    ImagesCanon(root, EMPTY_SEQ);
    ListKept(Images(root), e);
    var after := UpsertEntry(Images(root), e.repository, e.tag).tree;
    ImagesCanon(root, after);
    var t' := PutChild(root, IMAGES, after);
    CanonKeeps(t');
    WriteThenParse(t');
    if !UpsertEntry(Images(root), e.repository, e.tag).changed {
      UnchangedList(Images(root), e.repository, e.tag);
    }
  }

  // One edit of a safe set: the set stays safe, the edit itself has nothing left to do,
  // and every other edit has as much left to do as before.
  lemma KustomizeStep(f: File, es: seq<ImageEdit>, m: nat)
    requires KustomizeSafe(f, es) && m < |es|
    ensures var g := FileAfter(f, KustomizeOf(f, es[m]));
            && KustomizeSafe(g, es)
            && QuietResult(KustomizeOf(g, es[m]))
            && (forall k | 0 <= k < |es| && es[k] != es[m] ::
                  QuietResult(KustomizeOf(g, es[k])) == QuietResult(KustomizeOf(f, es[k])))
            && (forall k | 0 <= k < |es| :: KustomizeOf(g, es[k]).EditFailed? == KustomizeOf(f, es[k]).EditFailed?)
  {
    hide KeyFrom, Wf, IsCanon, Canon, UpsertEntry, FindEntry, Names, Put, Lookup, WithImages, WritesScalar, QuietResult;
    if ParseDoc(f).Parsed? {
      var g := FileAfter(f, KustomizeOf(f, es[m]));
      KustomizeRoot(f, es[m]);
      var images, after := Images(ParseDoc(f).root), Images(ParseDoc(g).root);
      assert Wf(images) by { RootIsPaired(f); CanonKeeps(ParseDoc(f).root); ImagesOf(ParseDoc(f).root, EMPTY_SEQ); }
      UpsertEntryIsCorrect(images, es[m].repository, es[m].tag, es[m].repository);
      forall k | 0 <= k < |es|
        ensures Guard(ParseDoc(g).root, es[k].repository)
        ensures es[k] != es[m] ==> UpsertEntry(after, es[k].repository, es[k].tag).Done? && UpsertEntry(images, es[k].repository, es[k].tag).Done?
        ensures es[k] != es[m] ==> UpsertEntry(after, es[k].repository, es[k].tag).changed == UpsertEntry(images, es[k].repository, es[k].tag).changed
      {
        if es[k] != es[m] { OtherEntry(images, es[m], es[k]); }
      }
      KustomizeRoot(g, es[m]);
      forall k | 0 <= k < |es| && es[k] != es[m]
        ensures QuietResult(KustomizeOf(g, es[k])) == QuietResult(KustomizeOf(f, es[k]))
      {
        KustomizeRoot(f, es[k]);
        KustomizeRoot(g, es[k]);
      }
      forall k | 0 <= k < |es|
        ensures KustomizeOf(g, es[k]).Edited? && KustomizeOf(f, es[k]).Edited?
      {
        KustomizeEdits(f, es[k]);
        KustomizeEdits(g, es[k]);
      }
    } else {
      UnreadableImages(f, es);
    }
  }

  lemma KustomizeEdits(f: File, e: ImageEdit)
    requires CanonFile(f) && ParseDoc(f).Parsed?
    ensures KustomizeOf(f, e).Edited?
  {
    hide KeyFrom, Wf, IsCanon, Canon, UpsertEntry, WithImages;
    RootIsPaired(f);
    CanonKeeps(ParseDoc(f).root);
    UpsertIsCorrect(ParseDoc(f).root, e.repository, e.tag, IMAGES);
  }

  // The kustomization says what the edit asks for: the first entry of the repository's name
  // has the tag.
  predicate KustomizeShows(f: File, e: ImageEdit)
  {
    ParseDoc(f).Parsed?
    && var images := Images(ParseDoc(f).root);
       var k := FindEntry(images.content, e.repository, 0);
       k.Some? && Lookup(images.content[k.value], NEW_TAG).Some? && Child(images.content[k.value], NEW_TAG).value == e.tag
  }

  lemma KustomizeUnchangedIffShows(f: File, e: ImageEdit)
    requires CanonFile(f)
    ensures KustomizeOf(f, e).Edited? && !KustomizeOf(f, e).changed <==> KustomizeShows(f, e)
  {
    hide KeyFrom, Wf, Canon, IsCanon, FindEntry, Put, WithImages;
    if ParseDoc(f).Parsed? {
      var root := ParseDoc(f).root;
      RootIsPaired(f);
      CanonKeeps(root);
      ImagesOf(root, EMPTY_SEQ);
      var k := FindEntry(Images(root).content, e.repository, 0);
      if k.Some? { OneKey(Images(root).content[k.value], NEW_TAG, e.tag); }
    }
  }

  lemma UnreadableImages(f: File, es: seq<ImageEdit>)
    requires ParseDoc(f).Unreadable?
    ensures forall k | 0 <= k < |es| :: KustomizeOf(f, es[k]).EditFailed? && QuietResult(KustomizeOf(f, es[k]))
  {}

  // An upsert is not seen by an edit of another repository.
  lemma OtherEntry(images: Tree, e: ImageEdit, o: ImageEdit)
    requires Wf(images) && e.repository != o.repository
    ensures UpsertEntry(images, e.repository, e.tag).Done?
    ensures var after := UpsertEntry(images, e.repository, e.tag).tree;
            && UpsertEntry(images, o.repository, o.tag).Done? && UpsertEntry(after, o.repository, o.tag).Done?
            && UpsertEntry(after, o.repository, o.tag).changed == UpsertEntry(images, o.repository, o.tag).changed
            && after.kind == images.kind
            && (Place(after, o.repository) < |after.content| <==> Place(images, o.repository) < |images.content|)
            && (Place(images, o.repository) < |images.content| ==>
                  after.content[Place(after, o.repository)] == images.content[Place(images, o.repository)])
  {
    hide KeyFrom, Wf, FindEntry, Names, Put, Lookup;
    UpsertEntryIsCorrect(images, e.repository, e.tag, o.repository);
    UpsertEntryIsCorrect(images, o.repository, o.tag, o.repository);
    PlaceIsFirst(images.content, e.repository);
    PlaceIsFirst(images.content, o.repository);
  }
}
