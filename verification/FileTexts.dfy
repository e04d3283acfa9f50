// Manifest and kustomization edits told by keys and texts: internal/gitwriteback/edit.go:94-175.
module FileTexts {
  import opened Text
  import opened ImageRef
  import opened YamlTree
  import opened YamlPath
  import opened YamlFile
  import opened ManifestTarget
  import opened ManifestLaws
  import opened KustomizeTarget
  import opened KustomizeLaws
  import opened PathTexts

  // ---- Image references ---------------------------------------------------------

  // A repository: no digest mark, and no colon but those before its last slash, as in a port.
  predicate Repository(r: string) { '@' !in r && forall i | 0 <= i < |r| && r[i] == ':' :: '/' in r[i + 1..] }

  predicate TagText(t: string) { ':' !in t && '/' !in t && '@' !in t }

  // With a tag, a digest, both or neither, the repository is what is left.
  lemma RepoOfReference(r: string, tag: string, digest: string)
    requires Repository(r) && TagText(tag)
    ensures RepoOf(r) == r && RepoOf(r + ":" + tag) == r
    ensures RepoOf(r + "@" + digest) == r && RepoOf(r + ":" + tag + "@" + digest) == r
  {
    hide RepoOf, BeforeDigest;
    NoTagCut(r);
    NoDigest(r);
    NoDigest(tag);
    JoinThenRepo(r, tag);
    assert JoinImage(r, tag) == r + ":" + tag;
    CutsDigest(r, digest);
    assert '@' !in r + ":" + tag;
    CutsDigest(r + ":" + tag, digest);
  }

  lemma NoDigest(s: string)
    requires '@' !in s
    ensures BeforeDigest(s) == s
  {
    hide LastIndexOf;
    assert IndexOf(s, '@') < 0;
  }

  lemma CutsDigest(s: string, digest: string)
    requires '@' !in s
    ensures RepoOf(s + "@" + digest) == RepoOf(s)
  {
    hide LastIndexOf;
    var image := s + "@" + digest;
    assert image[|s|] == '@' && image[..|s|] == s;
    assert forall k | 0 <= k < |s| :: image[k] == s[k];
    FirstIndexIs(image, '@', |s|);
    NoDigest(s);
  }

  lemma NoTagCut(r: string)
    requires Repository(r)
    ensures RepoOf(r) == r
  {
    hide LastIndexOf, IndexOf;
    NoDigest(r);
    LastIndexIsLast(r, ':');
    LastIndexIsLast(r, '/');
    var colon, slash := LastIndexOf(r, ':'), LastIndexOf(r, '/');
    if colon >= 0 {
      var k :| 0 <= k < |r[colon + 1..]| && r[colon + 1..][k] == '/';
      assert r[colon + 1 + k] == '/';
    }
  }

  // ---- Manifests ----------------------------------------------------------------

  // The child at i is an image the edit is about.
  ghost predicate ImageAt(t: Tree, i: nat, e: ManifestEdit)
  {
    t.kind == Mapping && Leads(t, "image", i) && t.content[i].kind == Scalar && RepoOf(t.content[i].value) == e.repository
    && (e.container == "" || exists j: nat :: Leads(t, "name", j) && t.content[j].value == e.container)
  }

  lemma ImageInTexts(t: Tree, i: nat, e: ManifestEdit)
    ensures ImagePlace(t, e) == Some(i) <==> ImageAt(t, i, e)
  {
    hide Leads, RepoOf, KeyFrom, Step;
    MappingStep(t, "image");
    MappingStep(t, "name");
    LeadsToStep(t, "image");
    LeadsToStep(t, "name");
  }

  lemma MappingStep(t: Tree, seg: string)
    ensures t.kind == Mapping ==> Step(t, seg) == Lookup(t, seg)
    ensures t.kind != Mapping ==> Lookup(t, seg).None?
  {}

  // Somewhere in the tree, at the end of this way.
  ghost predicate ImageOn(t: Tree, loc: seq<nat>, e: ManifestEdit)
    requires Within(t, loc)
    decreases |loc|
  {
    loc != [] && if |loc| == 1 then ImageAt(t, loc[0], e) else ImageOn(t.content[loc[0]], loc[1..], e)
  }

  lemma {:induction false} ImageOnInTexts(t: Tree, e: ManifestEdit, loc: seq<nat>)
    requires Within(t, loc)
    ensures IsTargetAt(t, e, loc) <==> ImageOn(t, loc, e)
    decreases |loc|
  {
    hide ImagePlace, ImageAt;
    if loc != [] {
      ImageInTexts(t, loc[0], e);
      if |loc| > 1 { ImageOnInTexts(t.content[loc[0]], e, loc[1..]); }
    }
  }

  // After an edit of a readable manifest: the same documents with the same nodes in the same
  // places, but that every image the edit is about reads repository:tag.
  lemma ManifestInTexts(f: File, e: ManifestEdit, d: nat, loc: seq<nat>)
    requires CanonFile(f) && !f.broken && d < |f.docs|
    ensures var r := Manifest(f, e);
            && r.Edited? && |r.file.docs| == |f.docs| && Within(r.file.docs[d], loc) == Within(f.docs[d], loc)
            && (Within(f.docs[d], loc) ==>
                  var m, n := NodeAt(f.docs[d], loc), NodeAt(r.file.docs[d], loc);
                  && n.kind == m.kind && |n.content| == |m.content|
                  && if ImageOn(f.docs[d], loc, e) then n.value == e.repository + ":" + e.tag
                                                         && n.tag == (if m.value == n.value then m.tag else "!!str")
                     else n.value == m.value && n.tag == m.tag)
  {
    hide Rewrite, Changes, Canon, IsCanon, ImageOn, RepoOf;
    var doc := f.docs[d];
    RewriteExactly(doc, e, loc);
    ChangesIffDifferent(doc, e);
    RewriteCanon(doc, e);
    if Within(doc, loc) { ImageOnInTexts(doc, e, loc); }
  }

  // ---- Kustomizations -----------------------------------------------------------

  // The first entry of the list that is a mapping named by the repository.
  ghost predicate EntryNamed(item: Tree, repository: string)
  {
    item.kind == Mapping && exists j: nat :: Leads(item, "name", j) && item.content[j].value == repository
  }

  ghost predicate FirstEntry(images: Tree, repository: string, k: nat)
  {
    k < |images.content| && EntryNamed(images.content[k], repository)
    && forall m | 0 <= m < k :: !EntryNamed(images.content[m], repository)
  }

  lemma NamedInTexts(item: Tree, repository: string)
    ensures Names(item, repository) <==> EntryNamed(item, repository)
  {
    hide Leads, KeyFrom, Step;
    MappingStep(item, "name");
    LeadsToStep(item, "name");
  }

  lemma EntryInTexts(images: Tree, repository: string, k: nat)
    ensures FindEntry(images.content, repository, 0) == Some(k) <==> FirstEntry(images, repository, k)
  {
    hide Names, EntryNamed, FindEntry;
    PlaceIsFirst(images.content, repository);
    forall m | 0 <= m < |images.content|
      ensures Names(images.content[m], repository) <==> EntryNamed(images.content[m], repository)
    {
      NamedInTexts(images.content[m], repository);
    }
    if FirstEntry(images, repository, k) { FindIs(images.content, repository, 0, k); }
  }

  // The list with the tag set in its first entry of that name, or with an entry added.
  ghost predicate ListUpserted(images: Tree, repository: string, tag: string, after: Tree)
  {
    (exists k: nat, entry: Tree :: FirstEntry(images, repository, k) && WrittenAt(images.content[k], ["newTag"], tag, entry)
                                   && after == images.(content := images.content[k := entry]))
    || ((forall k: nat :: !FirstEntry(images, repository, k))
        && after == images.(content := images.content
                                       + [Tree(Mapping, "!!map", "", [Plain("name"), Plain(repository),
                                                                      Plain("newTag"), Plain(tag)])]))
  }

  function Plain(v: string): Tree { Tree(Scalar, "!!str", v, []) }

  // The document with such a list under its first images key, or under one added to it.
  ghost predicate Upserted(root: Tree, repository: string, tag: string, after: Tree)
  {
    (exists i: nat, images: Tree :: Leads(root, "images", i) && ListUpserted(root.content[i], repository, tag, images)
                                    && after == root.(content := root.content[i := images]))
    || ((forall i: nat :: !Leads(root, "images", i))
        && exists images: Tree :: ListUpserted(Tree(Sequence, "!!seq", "", []), repository, tag, images)
                                  && after == root.(content := root.content + [Plain("images"), images]))
  }

  lemma ListInTexts(images: Tree, repository: string, tag: string, after: Tree)
    requires Wf(images)
    ensures UpsertEntry(images, repository, tag).Done?
    ensures UpsertEntry(images, repository, tag).tree == after <==> ListUpserted(images, repository, tag, after)
  {
    hide FindEntry, Put, WrittenAt, FirstEntry, Wf;
    UpsertEntryIsCorrect(images, repository, tag, repository);
    var found := FindEntry(images.content, repository, 0);
    forall k: nat
      ensures found == Some(k) <==> FirstEntry(images, repository, k)
    {
      EntryInTexts(images, repository, k);
    }
    if found.Some? {
      var item := images.content[found.value];
      forall entry
        ensures Put(item, ["newTag"], tag).Done? && Put(item, ["newTag"], tag).tree == entry
           <==> WrittenAt(item, ["newTag"], tag, entry)
      {
        PutInTexts(item, ["newTag"], tag, entry);
      }
      var r := Put(item, ["newTag"], tag);
      assert r.Done? ==> WrittenAt(item, ["newTag"], tag, r.tree);
      assert FirstEntry(images, repository, found.value);
    }
  }

  // EditKustomization, exactly.
  lemma KustomizeInTexts(root: Tree, repository: string, tag: string, after: Tree)
    requires Wf(root) && root.kind == Mapping
    ensures KustomizeTree(root, repository, tag).Done?
    ensures KustomizeTree(root, repository, tag).tree == after <==> Upserted(root, repository, tag, after)
  {
    hide FindEntry, Put, UpsertEntry, ListUpserted, Wf, KustomizeTree, Leads, Step;
    UpsertIsCorrect(root, repository, tag, "images");
    ImagesOf(root, EMPTY_SEQ);
    LeadsToStep(root, "images");
    MappingStep(root, "images");
    var images := UpsertEntry(Images(root), repository, tag).tree;
    forall list
      ensures images == list <==> ListUpserted(Images(root), repository, tag, list)
    {
      ListInTexts(Images(root), repository, tag, list);
    }
    assert ListUpserted(Images(root), repository, tag, images);
    if Step(root, "images").Some? { assert Leads(root, "images", Step(root, "images").value); }
  }

  // And on the file: untouched when that is the document it has.
  lemma KustomizeFileInTexts(f: File, repository: string, tag: string, after: Tree)
    requires CanonFile(f) && ParseDoc(f).Parsed? && Upserted(ParseDoc(f).root, repository, tag, after)
    ensures Kustomize(f, repository, tag) == if after == ParseDoc(f).root then Edited(f, false) else Edited(WriteDoc(after), true)
  {
    hide KustomizeTree, Upserted, IsCanon, Canon, Wf;
    RootIsPaired(f);
    CanonKeeps(ParseDoc(f).root);
    KustomizeInTexts(ParseDoc(f).root, repository, tag, after);
    UpsertIsCorrect(ParseDoc(f).root, repository, tag, "images");
  }

  // ---- Files that cannot be read ------------------------------------------------

  // A values file or a kustomization is read when its first document is a mapping; what
  // comes after it, readable or not, does not matter.
  lemma ReadableIff(f: File)
    ensures ParseDoc(f).Parsed? <==> f.docs != [] && f.docs[0].content != [] && f.docs[0].content[0].kind == Mapping
    ensures ParseDoc(f) == Unreadable(Unparsable) <==> f.docs == [] && f.broken
    ensures ParseDoc(f) == Unreadable(NotAMapping)
       <==> f.docs != [] && f.docs[0].content != [] && f.docs[0].content[0].kind != Mapping
    ensures ParseDoc(f).Parsed? ==> ParseDoc(f).root == f.docs[0].content[0]
  {}
}
