// Plain manifests: internal/gitwriteback/edit.go:122-175 and 327-341, EditManifest and
// walkContainers.
module ManifestTarget {
  import opened Text
  import opened ImageRef
  import opened YamlTree
  import opened YamlNodes
  import opened YamlEdit
  import opened YamlFile

  // container is empty when every container of the repository is meant.
  datatype ManifestEdit = ManifestEdit(repository: string, tag: string, container: string)

  const IMAGE := "image"

  function Desired(e: ManifestEdit): string { JoinImage(e.repository, e.tag) }

  // Position of the image value that the edit is about, under one mapping.
  function ImagePlace(t: Tree, e: ManifestEdit): (r: Option<nat>)
    ensures r.Some? ==> r.value < |t.content| && Lookup(t, IMAGE) == r && t.content[r.value].kind == Scalar
  {
    var j := Lookup(t, IMAGE);
    if j.Some? && t.content[j.value].kind == Scalar && RepoOf(t.content[j.value].value) == e.repository
       && (e.container != "" ==> Lookup(t, NAME).Some? && Child(t, NAME).value == e.container)
    then j else None
  }

  function SetImage(leaf: Tree, desired: string): Tree
  {
    if leaf.value == desired then leaf else leaf.(value := desired, tag := STR)
  }

  // The whole tree with every target set.
  function Rewrite(t: Tree, e: ManifestEdit): Tree
  {
    Tree(t.kind, t.tag, t.value, seq(|t.content|, i requires 0 <= i < |t.content| =>
      if ImagePlace(t, e) == Some(i) then SetImage(Rewrite(t.content[i], e), Desired(e)) else Rewrite(t.content[i], e)))
  }

  predicate Hits(t: Tree, e: ManifestEdit)
  {
    ImagePlace(t, e).Some? && t.content[ImagePlace(t, e).value].value != Desired(e)
  }

  // Some target is not yet what the edit wants.
  predicate Changes(t: Tree, e: ManifestEdit)
  {
    Hits(t, e) || exists i | 0 <= i < |t.content| :: Changes(t.content[i], e)
  }

  function RewriteDocs(docs: seq<Tree>, e: ManifestEdit): (r: seq<Tree>)
    ensures |r| == |docs|
    ensures forall i | 0 <= i < |docs| :: r[i] == Rewrite(docs[i], e)
  {
    seq(|docs|, i requires 0 <= i < |docs| => Rewrite(docs[i], e))
  }

  function CanonDocs(docs: seq<Tree>): (r: seq<Tree>)
    ensures |r| == |docs|
    ensures forall i | 0 <= i < |docs| :: r[i] == Canon(docs[i])
  {
    seq(|docs|, i requires 0 <= i < |docs| => Canon(docs[i]))
  }

  predicate ChangesAny(docs: seq<Tree>, e: ManifestEdit)
  {
    exists i | 0 <= i < |docs| :: Changes(docs[i], e)
  }

  function Manifest(f: File, e: ManifestEdit): EditResult
  {
    if f.broken then EditFailed(BadFile(Unparsable))
    else if !ChangesAny(f.docs, e) then Edited(f, false)
    else Edited(File(CanonDocs(RewriteDocs(f.docs, e)), false, true), true)
  }

  // ---- The code -----------------------------------------------------------------

  // One mapping after the callback saw it.
  function Visited(t: Tree, e: ManifestEdit): Tree
  {
    var j := ImagePlace(t, e);
    if j.None? then t else WithChild(t, j.value, SetImage(t.content[j.value], Desired(e)))
  }

  // The text of a scalar plays no part in rewriting what is below it.
  lemma RewriteOfSet(c: Tree, e: ManifestEdit, desired: string)
    requires c.kind == Scalar
    ensures Rewrite(SetImage(c, desired), e) == SetImage(Rewrite(c, e), desired)
    ensures Changes(SetImage(c, desired), e) == Changes(c, e)
  {
    assert ImagePlace(c, e).None? && ImagePlace(SetImage(c, desired), e).None?;
    assert Rewrite(SetImage(c, desired), e).content == Rewrite(c, e).content;
  }

  lemma VisitedAt(t: Tree, e: ManifestEdit, i: nat)
    requires i < |t.content|
    ensures |Visited(t, e).content| == |t.content|
    ensures Rewrite(Visited(t, e).content[i], e) == Rewrite(t, e).content[i]
    ensures Changes(Visited(t, e).content[i], e) == Changes(t.content[i], e)
  {
    hide Changes;
    if ImagePlace(t, e) == Some(i) { RewriteOfSet(t.content[i], e, Desired(e)); }
    hide ImagePlace, SetImage;
  }

  lemma VisitThenRewrite(t: Tree, e: ManifestEdit)
    ensures Rewrite(t, e).content == RewriteDocs(Visited(t, e).content, e)
    ensures |Visited(t, e).content| == |t.content|
    ensures Changes(t, e) <==> Hits(t, e) || ChangesAny(Visited(t, e).content, e)
  {
    var v := Visited(t, e);
    assert |v.content| == |t.content| == |Rewrite(t, e).content|;
    hide Visited, Rewrite, Hits, ImagePlace;
    forall i | 0 <= i < |t.content|
      ensures Rewrite(v.content[i], e) == Rewrite(t, e).content[i]
      ensures Changes(v.content[i], e) == Changes(t.content[i], e)
    {
      VisitedAt(t, e, i);
    }
    ChangesMeaning(t, e);
    hide Changes;
  }

  lemma ChangesMeaning(t: Tree, e: ManifestEdit)
    ensures Changes(t, e) <==> Hits(t, e) || exists i | 0 <= i < |t.content| :: Changes(t.content[i], e)
  {}

  // The closure EditManifest hands to walkContainers, with the flag it captures.
  class Editor {
    const edit: ManifestEdit
    var changed: bool

    constructor (edit: ManifestEdit)
      ensures this.edit == edit && !changed
    {
      this.edit, changed := edit, false;
    }

    method Visit(c: Node, ghost s: Shape)
      requires Valid(s) && s.node == c
      modifies this`changed, Footprint(s)
      ensures Valid(s) && View(s) == Visited(old(View(s)), edit)
      ensures changed == (old(changed) || Hits(old(View(s)), edit))
    {
      hide *;
      ghost var t := View(s);
      Opened(s);
      ShapeAllocated(s);
      TargetMeaning(t, edit);
      var image;
      ghost var j;
      image, j := MappingValue(c, s, IMAGE);
      if image == null {
        return;
      }
      KidOpened(s, j);
      Opened(s.kids[j]);
      KidInside(s, j);
      if image.kind != Scalar {
        return;
      }
      if RepoOf(image.value) != edit.repository {
        return;
      }
      if edit.container != "" {
        var name;
        ghost var k;
        name, k := MappingValue(c, s, NAME);
        if name == null {
          return;
        }
        KidOpened(s, k);
        Opened(s.kids[k]);
        if name.value != edit.container {
          return;
        }
      }
      if image.value != JoinImage(edit.repository, edit.tag) {
        WriteChild(image, s, j, JoinImage(edit.repository, edit.tag));
        changed := true;
      }
    }

    method Walk(node: Node, ghost s: Shape)
      requires Valid(s) && s.node == node
      modifies this`changed, Footprint(s)
      ensures Valid(s) && View(s) == Rewrite(old(View(s)), edit)
      ensures changed == (old(changed) || Changes(old(View(s)), edit))
      decreases s, 2
    {
      hide *;
      ghost var t := View(s);
      Opened(s);
      ShapeAllocated(s);
      VisitThenRewrite(t, edit);
      NotMapping(t, edit);
      Visit(node, s);
      Opened(s);
      WalkAll(node.content, s.kids);
      Closed(s);
      RewriteParts(t, edit);
    }

    method WalkAt(nodes: seq<Node>, ghost ks: seq<Shape>, i: nat)
      requires ValidAll(ks) && nodes == NodesOf(ks) && i < |nodes| == |ks|
      modifies this`changed, FootprintAll(ks)
      ensures ValidAll(ks) && i < |old(ViewAll(ks))|
      ensures ViewAll(ks) == old(ViewAll(ks))[i := Rewrite(old(ViewAll(ks))[i], edit)]
      ensures changed == (old(changed) || Changes(old(ViewAll(ks))[i], edit))
      decreases ks, 0
    {
      hide *;
      ghost var before, a, b := ViewAll(ks), ks[..i], ks[i + 1..];
      SplitShapes(ks, i);
      ViewAt(ks, i);
      ShapesAllocated(ks);
      Walk(nodes[i], ks[i]);
      SplitShapes(ks, i);
      assert ViewAll(ks) == before[i := View(ks[i])];
    }

    method WalkAll(nodes: seq<Node>, ghost ks: seq<Shape>)
      requires ValidAll(ks) && nodes == NodesOf(ks)
      modifies this`changed, FootprintAll(ks)
      ensures ValidAll(ks) && ViewAll(ks) == RewriteDocs(old(ViewAll(ks)), edit)
      ensures changed == (old(changed) || ChangesAny(old(ViewAll(ks)), edit))
      decreases ks, 1
    {
      hide *;
      ghost var before := ViewAll(ks);
      ghost var hit := false;
      SameLengths(ks);
      for i := 0 to |nodes|
        invariant ValidAll(ks) && |ViewAll(ks)| == |before| == |nodes| == |ks|
        invariant forall k | 0 <= k < i :: ViewAll(ks)[k] == Rewrite(before[k], edit)
        invariant forall k | i <= k < |nodes| :: ViewAll(ks)[k] == before[k]
        invariant hit <==> exists k | 0 <= k < i :: Changes(before[k], edit)
        invariant changed == (old(changed) || hit)
      {
        WalkAt(nodes, ks, i);
        hit := hit || Changes(before[i], edit);
      }
      AllRewritten(before, ViewAll(ks), edit);
    }
  }

  lemma SameLengths(ks: seq<Shape>)
    ensures |NodesOf(ks)| == |ks| == |ViewAll(ks)|
  {}

  lemma AllRewritten(before: seq<Tree>, after: seq<Tree>, e: ManifestEdit)
    requires |after| == |before| && forall k | 0 <= k < |before| :: after[k] == Rewrite(before[k], e)
    ensures after == RewriteDocs(before, e)
    ensures ChangesAny(before, e) <==> exists k | 0 <= k < |before| :: Changes(before[k], e)
  {}

  lemma TargetMeaning(t: Tree, e: ManifestEdit)
    ensures Desired(e) == JoinImage(e.repository, e.tag)
    ensures Lookup(t, IMAGE).None? ==> ImagePlace(t, e).None?
    ensures Lookup(t, IMAGE).Some? ==>
      var j := Lookup(t, IMAGE).value;
      ImagePlace(t, e)
      == if t.content[j].kind == Scalar && RepoOf(t.content[j].value) == e.repository
            && (e.container != "" ==>
                  Lookup(t, NAME).Some? && t.content[Lookup(t, NAME).value].value == e.container)
         then Some(j) else None
    ensures ImagePlace(t, e).None? ==> Visited(t, e) == t && !Hits(t, e)
    ensures ImagePlace(t, e).Some? ==>
      var j := ImagePlace(t, e).value;
      && Hits(t, e) == (t.content[j].value != Desired(e))
      && Visited(t, e)
         == if t.content[j].value == Desired(e) then t
            else WithChild(t, j, t.content[j].(value := Desired(e), tag := STR))
  {
    hide KeyFrom;
    if ImagePlace(t, e).Some? {
      var j := ImagePlace(t, e).value;
      assert WithChild(t, j, t.content[j]).content == t.content;
    }
  }

  lemma NotMapping(t: Tree, e: ManifestEdit)
    ensures t.kind != Mapping ==> Visited(t, e) == t && !Hits(t, e)
  {}

  lemma RewriteParts(t: Tree, e: ManifestEdit)
    ensures Rewrite(t, e) == Tree(t.kind, t.tag, t.value, Rewrite(t, e).content)
    ensures Visited(t, e).kind == t.kind && Visited(t, e).tag == t.tag && Visited(t, e).value == t.value
  {}

  method EncodeDocs(docs: seq<Node>, ghost ks: seq<Shape>) returns (out: seq<Tree>)
    requires ValidAll(ks) && docs == NodesOf(ks)
    ensures out == CanonDocs(ViewAll(ks))
  {
    hide *;
    out := [];
    ghost var v := ViewAll(ks);
    SameLengths(ks);
    ShapesAllocated(ks);
    for i := 0 to |docs|
      invariant ValidAll(ks) && ViewAll(ks) == v && |out| == i
      invariant forall k | 0 <= k < i :: out[k] == Canon(v[k])
    {
      SplitShapes(ks, i);
      ViewAt(ks, i);
      ShapeAllocated(ks[i]);
      var d := Encode(docs[i], ks[i]);
      out := out + [d];
    }
    AllCanon(v, out);
  }

  lemma AllCanon(before: seq<Tree>, after: seq<Tree>)
    requires |after| == |before| && forall k | 0 <= k < |before| :: after[k] == Canon(before[k])
    ensures after == CanonDocs(before)
  {}

  method EditManifest(f: File, e: ManifestEdit) returns (r: EditResult)
    ensures r == Manifest(f, e)
  {
    hide *;
    ManifestMeaning(f, e);
    if f.broken {
      return EditFailed(BadFile(Unparsable));
    }
    var docs;
    ghost var ks;
    docs, ks := BuildAll(f.docs);
    var editor := new Editor(e);
    editor.WalkAll(docs, ks);
    if !editor.changed {
      return Edited(f, false);
    }
    ShapesAllocated(ks);
    var out := EncodeDocs(docs, ks);
    return Edited(File(out, false, true), true);
  }

  lemma ManifestMeaning(f: File, e: ManifestEdit)
    ensures Manifest(f, e)
         == if f.broken then EditFailed(BadFile(Unparsable))
            else if !ChangesAny(f.docs, e) then Edited(f, false)
            else Edited(File(CanonDocs(RewriteDocs(f.docs, e)), false, true), true)
  {}
}
