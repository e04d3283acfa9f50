// How many documents an edit leaves in its file: internal/gitwriteback/edit.go:177-233.
module FileDocuments {
  import opened Text
  import opened YamlTree
  import opened YamlPath
  import opened YamlWrites
  import opened YamlFile
  import opened HelmTarget
  import opened KustomizeLaws
  import KustomizeTarget
  import opened ManifestTarget

  // Reading stops after the first document and writing writes one, so a Helm edit keeps the
  // documents exactly when it changes nothing or there is no second one.
  lemma HelmDocuments(f: File, e: HelmEdit)
    requires HelmOf(f, e).Edited?
    ensures |HelmOf(f, e).file.docs| == |f.docs| <==> !HelmOf(f, e).changed || |f.docs| == 1
  {
    hide PutAll;
  }

  lemma KustomizeDocuments(f: File, e: ImageEdit)
    requires KustomizeOf(f, e).Edited?
    ensures |KustomizeOf(f, e).file.docs| == |f.docs| <==> !KustomizeOf(f, e).changed || |f.docs| == 1
  {
    hide KustomizeTarget.KustomizeTree;
  }

  // A manifest keeps its documents, in their order.
  lemma ManifestDocuments(f: File, e: ManifestEdit)
    requires Manifest(f, e).Edited?
    ensures |Manifest(f, e).file.docs| == |f.docs|
  {
    hide Rewrite, Changes, Canon;
  }

  function Tagged(tag: string): Tree { Tree(Mapping, MAP, "", [Str("tag"), Str(tag)]) }

  // A values file with any second document: setting a key of the first loses the second.
  lemma SecondDocumentLost(second: Tree, own: bool, tag: string)
    ensures Helm(File([Doc(EMPTY_MAP), second], false, own), "r", tag, "", "tag")
         == Edited(File([Doc(Tagged(tag))], false, true), true)
  {
    assert SplitDots("tag") == ["tag"];
    assert HelmWrites("r", tag, "", "tag") == [Write(["tag"], tag)];
    TagPut(tag);
    TagCanon(tag);
    hide Put, PutAll, Canon, SplitDots, Tagged;
    PutAllStep(EMPTY_MAP, [Write(["tag"], tag)]);
    CanonOfDoc(Tagged(tag));
  }

  lemma TagPut(tag: string)
    ensures Put(EMPTY_MAP, ["tag"], tag) == Done(Tagged(tag), true)
  {
    assert KeyFrom(EMPTY_MAP.content, "tag", 0) == None;
  }

  lemma TagCanon(tag: string)
    ensures Canon(Tagged(tag)) == Tagged(tag)
  {
    assert IsCanon(Str("tag")) && IsCanon(Str(tag));
    CanonKeeps(Tagged(tag));
  }
}
