// Kustomization files: internal/gitwriteback/edit.go:94-120, EditKustomization.
module KustomizeTarget {
  import opened Text
  import opened YamlTree
  import opened YamlPath
  import opened YamlNodes
  import opened YamlEdit
  import opened YamlFile

  const EMPTY_SEQ := Tree(Sequence, SEQ, "", [])
  const IMAGES := "images"
  const NEW_TAG := "newTag"

  function Entry(repository: string, tag: string): Tree
  {
    Tree(Mapping, MAP, "", [Str(NAME), Str(repository), Str(NEW_TAG), Str(tag)])
  }

  // A list item that is a mapping whose name is the repository.
  predicate Names(item: Tree, repository: string)
  {
    item.kind == Mapping && Lookup(item, NAME).Some? && Child(item, NAME).value == repository
  }

  function FindEntry(items: seq<Tree>, repository: string, i: nat): (r: Option<nat>)
    decreases |items| - i
    ensures r.Some? ==> i <= r.value < |items| && Names(items[r.value], repository)
    ensures forall k | i <= k < |items| && (r.Some? ==> k < r.value) :: !Names(items[k], repository)
  {
    if i >= |items| then None
    else if Names(items[i], repository) then Some(i)
    else FindEntry(items, repository, i + 1)
  }

  function WithImages(root: Tree): Tree
    requires root.kind == Mapping
  {
    if Lookup(root, IMAGES).Some? then root else PutChild(root, IMAGES, EMPTY_SEQ)
  }

  // The images node after the upsert, and whether anything changed.
  function UpsertEntry(images: Tree, repository: string, tag: string): PutResult
  {
    var i := FindEntry(images.content, repository, 0);
    if i.None? then Done(images.(content := images.content + [Entry(repository, tag)]), true)
    else
      var entry := Put(images.content[i.value], [NEW_TAG], tag);
      if entry.Failed? then entry else Done(WithChild(images, i.value, entry.tree), entry.changed)
  }

  function KustomizeTree(root: Tree, repository: string, tag: string): PutResult
    requires root.kind == Mapping
  {
    var root1 := WithImages(root);
    var images := UpsertEntry(Child(root1, IMAGES), repository, tag);
    if images.Failed? then images else Done(PutChild(root1, IMAGES, images.tree), images.changed)
  }

  function Kustomize(f: File, repository: string, tag: string): EditResult
  {
    if ParseDoc(f).Unreadable? then EditFailed(BadFile(ParseDoc(f).error))
    else
      var r := KustomizeTree(ParseDoc(f).root, repository, tag);
      if r.Failed? then EditFailed(BadPath(r.error)) else MarshalIfChanged(f, r.tree, r.changed)
  }

  // ---- The code -----------------------------------------------------------------

  // The images node, created as an empty list when the key is missing.
  method EnterImages(root: Node, ghost s: Shape) returns (images: Node, ghost s': Shape, ghost j: nat)
    requires Valid(s) && s.node == root && View(s).kind == Mapping && |View(s).content| % 2 == 0
    modifies root
    ensures Valid(s') && s'.node == root && j < |s'.kids| && s'.kids[j].node == images
    ensures forall n | n in Footprint(s') :: n in Footprint(s) || fresh(n)
    ensures View(s') == WithImages(old(View(s))) && Step(View(s'), IMAGES) == Some(j)
  {
    hide *;
    ghost var t := View(s);
    Opened(s);
    ShapeAllocated(s);
    ImagesPlace(t);
    var found;
    found, j := MappingValue(root, s, IMAGES);
    if found != null {
      return found, s, j;
    }
    images := new Node(Sequence, SEQ, "", []);
    ghost var empty := Shape(images, []);
    LeafShape(empty);
    s' := SetMappingValue(root, s, IMAGES, images, empty);
    j := |s.kids| + 1;
  }

  lemma ImagesPlace(t: Tree)
    requires t.kind == Mapping && |t.content| % 2 == 0
    ensures CanStep(t, IMAGES) && EMPTY_SEQ == Tree(Sequence, SEQ, "", [])
    ensures Lookup(t, IMAGES).Some? ==> WithImages(t) == t && Step(t, IMAGES) == Lookup(t, IMAGES)
    ensures Lookup(t, IMAGES).None? ==>
      WithImages(t) == PutChild(t, IMAGES, EMPTY_SEQ) && Step(WithImages(t), IMAGES) == Some(|t.content| + 1)
  {
    hide KeyFrom;
    if Lookup(t, IMAGES).None? { KeyFromAppend(t.content, IMAGES, 0, IMAGES, EMPTY_SEQ); }
  }

  // Whether a list item is the entry looked for.
  method IsNamed(item: Node, ghost s: Shape, repository: string) returns (r: bool)
    requires Valid(s) && s.node == item
    ensures r == Names(View(s), repository)
  {
    hide *;
    Opened(s);
    ShapeAllocated(s);
    NamesMeaning(View(s), repository);
    if item.kind != Mapping {
      return false;
    }
    var name;
    ghost var j;
    name, j := MappingValue(item, s, NAME);
    if name == null {
      return false;
    }
    KidOpened(s, j);
    Opened(s.kids[j]);
    return name.value == repository;
  }

  lemma NamesMeaning(t: Tree, repository: string)
    ensures Names(t, repository)
       <==> t.kind == Mapping && Lookup(t, NAME).Some? && t.content[Lookup(t, NAME).value].value == repository
  {}

  // A fresh list entry with the repository and its tag.
  method NewEntry(repository: string, tag: string) returns (n: Node, ghost s: Shape)
    ensures s.node == n && Valid(s) && View(s) == Entry(repository, tag)
    ensures forall m | m in Footprint(s) :: fresh(m) && allocated(m)
  {
    hide *;
    n := new Node(Mapping, MAP, "", []);
    s := Shape(n, []);
    LeafShape(s);
    ghost var empty := View(s);
    var changed;
    changed, s := UpsertScalar(n, s, NAME, repository);
    ghost var named := View(s);
    Opened(s);
    EntryIs(empty, named, repository, tag);
    changed, s := UpsertScalar(n, s, NEW_TAG, tag);
    ShapeAllocated(s);
  }

  lemma EntryIs(empty: Tree, named: Tree, repository: string, tag: string)
    requires empty == Tree(Mapping, MAP, "", [])
    requires Put(empty, [NAME], repository).Done? && named == Put(empty, [NAME], repository).tree
    ensures named.kind == Mapping
    ensures Put(named, [NEW_TAG], tag) == Done(Entry(repository, tag), true)
  {
    assert KeyFrom(empty.content, NAME, 0) == None;
    assert named.content == [Str(NAME), Str(repository)];
    assert KeyFrom(named.content, NEW_TAG, 2) == None;
    assert KeyFrom(named.content, NEW_TAG, 0) == None;
    assert named.content + [Str(NEW_TAG), Str(tag)] == Entry(repository, tag).content;
  }

  lemma AppendOne(ks: seq<Shape>, u: Shape)
    requires ValidAll(ks) && Valid(u) && Footprint(u) !! FootprintAll(ks)
    ensures ValidAll(ks + [u]) && FootprintAll(ks + [u]) == FootprintAll(ks) + Footprint(u)
    ensures ViewAll(ks + [u]) == ViewAll(ks) + [View(u)]
    ensures NodesOf(ks + [u]) == NodesOf(ks) + [u.node]
  {
    AppendShapes(ks, [u]);
    One(u);
  }

  // The first entry named by the repository, or the length of the list.
  method FindImage(images: Node, ghost im: Shape, repository: string) returns (i: nat)
    requires Valid(im) && im.node == images
    ensures i <= |im.kids| == |View(im).content| && |images.content| == |im.kids|
    ensures FindEntry(View(im).content, repository, 0) == if i < |im.kids| then Some(i) else None
  {
    hide *;
    ghost var v := View(im);
    Opened(im);
    ShapeAllocated(im);
    i := 0;
    while i < |images.content|
      invariant Valid(im) && View(im) == v && images.content == NodesOf(im.kids) && i <= |im.kids|
      invariant FindEntry(v.content, repository, 0) == FindEntry(v.content, repository, i)
      decreases |images.content| - i
    {
      KidOpened(im, i);
      FindStep(v.content, repository, i);
      ShapeAllocated(im.kids[i]);
      var named := IsNamed(images.content[i], im.kids[i], repository);
      if named {
        return;
      }
      i := i + 1;
    }
    FindStep(v.content, repository, i);
  }

  method AppendEntry(images: Node, ghost im: Shape, repository: string, tag: string) returns (ghost im': Shape)
    requires Valid(im) && im.node == images
    modifies images
    ensures Valid(im') && im'.node == images
    ensures forall n | n in Footprint(im') :: n in Footprint(im) || fresh(n)
    ensures View(im') == old(View(im)).(content := old(View(im)).content + [Entry(repository, tag)])
  {
    hide *;
    Opened(im);
    ShapeAllocated(im);
    var entry;
    ghost var e;
    entry, e := NewEntry(repository, tag);
    images.content := images.content + [entry];
    im' := Shape(images, im.kids + [e]);
    AppendOne(im.kids, e);
    Closed(im');
  }

  // The upsert itself, on the node tree of a document root.
  method UpsertImage(root: Node, ghost s: Shape, repository: string, tag: string)
    returns (changed: bool, ghost s': Shape)
    requires Valid(s) && s.node == root && View(s).kind == Mapping && |View(s).content| % 2 == 0
    modifies Footprint(s)
    ensures Valid(s') && s'.node == root
    ensures forall n | n in Footprint(s') :: n in Footprint(s) || fresh(n)
    ensures KustomizeTree(old(View(s)), repository, tag) == Done(View(s'), changed)
  {
    hide *;
    ghost var t := View(s);
    Opened(s);
    ShapeAllocated(s);
    var images;
    ghost var r, j;
    images, r, j := EnterImages(root, s);
    ShapeAllocated(r);
    ghost var t1, im := View(r), r.kids[j];
    ghost var v, ctx := View(im), [] + [FrameOf(r, j)];
    NoContext(t1);
    Descend([], r, j);
    var i := FindImage(images, im, repository);
    if i < |images.content| {
      changed, s' := UpsertFound(images, im, i, ctx, t, t1, j, repository, tag);
      return;
    }
    AbsentEntry(t, j, repository, tag);
    ghost var u := v.(content := v.content + [Entry(repository, tag)]);
    Narrowed([], ctx, t1, j, u);
    NoContext(WithChild(t1, j, u));
    ghost var im' := AppendEntry(images, im, repository, tag);
    Rebuilt(ctx, im');
    return true, Rebuild(ctx, im');
  }

  // The entry that exists, with the rest of the document around it.
  method UpsertFound(images: Node, ghost im: Shape, i: nat, ghost ctx: seq<Frame>, ghost t: Tree, ghost t1: Tree,
                     ghost j: nat, repository: string, tag: string)
    returns (changed: bool, ghost s': Shape)
    requires Valid(im) && im.node == images && i < |images.content| == |im.kids| == |View(im).content|
    requires Around(ctx, images) && Footprint(im) !! Rim(ctx) && Narrows([], ctx, t1, j) && ctx != []
    requires t.kind == Mapping && t1 == WithImages(t) && Step(t1, IMAGES) == Some(j) && t1.content[j] == View(im)
    requires FindEntry(View(im).content, repository, 0) == Some(i)
    modifies Footprint(im)
    ensures Valid(s') && s'.node == ctx[0].node
    ensures forall n | n in Footprint(s') :: n in Footprint(im) + Rim(ctx) || fresh(n)
    ensures KustomizeTree(t, repository, tag) == Done(View(s'), changed)
  {
    hide *;
    ghost var v, inner := View(im), ctx + [FrameOf(im, i)];
    KidOpened(im, i);
    Opened(im.kids[i]);
    ContextAllocated(inner);
    ShapeAllocated(im);
    Descend(ctx, im, i);
    FoundIsNamed(v.content, repository, i);
    NamesMeaning(v.content[i], repository);
    UpsertMeaning(v.content[i], NEW_TAG, tag);
    PresentEntry(t, j, i, repository, tag);
    ghost var u := Put(v.content[i], [NEW_TAG], tag).tree;
    Narrowed(ctx, inner, v, i, u);
    Narrowed([], ctx, t1, j, WithChild(v, i, u));
    NoContext(WithChild(t1, j, WithChild(v, i, u)));
    ghost var done;
    changed, done := UpsertScalar(images.content[i], im.kids[i], NEW_TAG, tag);
    Rebuilt(inner, done);
    s' := Rebuild(inner, done);
  }

  lemma FoundIsNamed(items: seq<Tree>, repository: string, i: nat)
    requires FindEntry(items, repository, 0) == Some(i)
    ensures i < |items| && Names(items[i], repository)
  {}

  lemma AbsentEntry(t: Tree, j: nat, repository: string, tag: string)
    requires t.kind == Mapping && Step(WithImages(t), IMAGES) == Some(j)
    requires FindEntry(WithImages(t).content[j].content, repository, 0).None?
    ensures var images := WithImages(t).content[j];
            KustomizeTree(t, repository, tag)
            == Done(WithChild(WithImages(t), j, images.(content := images.content + [Entry(repository, tag)])), true)
  {
    hide FindEntry, Names, Lookup;
  }

  lemma PresentEntry(t: Tree, j: nat, i: nat, repository: string, tag: string)
    requires t.kind == Mapping && Step(WithImages(t), IMAGES) == Some(j)
    requires FindEntry(WithImages(t).content[j].content, repository, 0) == Some(i)
    requires Put(WithImages(t).content[j].content[i], [NEW_TAG], tag).Done?
    ensures var images := WithImages(t).content[j];
            var entry := Put(images.content[i], [NEW_TAG], tag);
            KustomizeTree(t, repository, tag)
            == Done(WithChild(WithImages(t), j, WithChild(images, i, entry.tree)), entry.changed)
  {
    hide FindEntry, Names, Lookup, Put;
  }

  lemma FindStep(items: seq<Tree>, repository: string, i: nat)
    ensures i >= |items| ==> FindEntry(items, repository, i) == None
    ensures i < |items| ==>
      FindEntry(items, repository, i)
      == if Names(items[i], repository) then Some(i) else FindEntry(items, repository, i + 1)
  {}

  method EditKustomization(f: File, repository: string, tag: string) returns (r: EditResult)
    requires CanonFile(f)
    ensures r == Kustomize(f, repository, tag)
  {
    hide Put, Valid, View, Footprint, ParseDoc, Canon, Doc, KustomizeTree;
    if ParseDoc(f).Unreadable? {
      return EditFailed(BadFile(ParseDoc(f).error));
    }
    RootIsPaired(f);
    var root;
    ghost var s;
    root, s := Build(ParseDoc(f).root);
    var changed;
    changed, s := UpsertImage(root, s, repository, tag);
    if !changed {
      return Edited(f, false);
    }
    CanonOfDoc(View(s));
    ShapeAllocated(s);
    var out := Encode(root, s);
    return Edited(File([Doc(out)], false, true), true);
  }

  lemma RootIsPaired(f: File)
    requires CanonFile(f) && ParseDoc(f).Parsed?
    ensures IsCanon(ParseDoc(f).root) && ParseDoc(f).root.kind == Mapping
    ensures |ParseDoc(f).root.content| % 2 == 0
  {}
}
