// What the files of a branch say, told by paths and keys: internal/gitwriteback/apply.go:42-101.
module GitTexts {
  import opened Text
  import opened YamlTree
  import opened YamlPath
  import opened YamlFile
  import opened HelmTarget
  import opened ManifestTarget
  import opened ManifestLaws
  import opened KustomizeTarget
  import opened KustomizeLaws
  import opened PathTexts
  import opened KeyTexts
  import opened FileTexts
  import opened GitWriteBack

  // ---- Which file, and what it says ---------------------------------------------

  // The file a target is about: for a kustomization the one of its two names that is there,
  // the long one first.
  ghost predicate FileOf(paths: Paths, files: Files, t: Target, file: string)
  {
    file in files
    && match t.kind
       case ToKustomize =>
         exists dir :: paths.clean(t.path) == Some(dir)
                       && (file == paths.join(dir, "kustomization.yaml")
                           || (file == paths.join(dir, "kustomization.yml") && paths.join(dir, "kustomization.yaml") !in files))
       case _ => paths.clean(t.path) == Some(file)
  }

  lemma FileInTexts(paths: Paths, files: Files, e: Edit, file: string)
    ensures Subject(paths, files, e) == Some(file) <==> FileOf(paths, files, e.target, file)
  {}

  // The path leads to the text; in a list, to a plain scalar with it.
  ghost predicate TextAt(root: Tree, path: seq<string>, v: string)
  {
    path != []
    && exists holder, leaf :: Arrives(root, path[..|path| - 1], holder) && Arrives(root, path, leaf)
                              && leaf.value == v && (holder.kind == Sequence ==> leaf.kind == Scalar)
  }

  lemma {:induction false} HolderThere(t: Tree, path: seq<string>)
    requires path != [] && Get(t, path).Some?
    ensures Get(t, path[..|path| - 1]).Some?
    decreases |path|
  {
    hide Step;
    if |path| > 1 {
      HolderThere(Child(t, path[0]), path[1..]);
      assert path[..|path| - 1][1..] == path[1..][..|path[1..]| - 1];
    }
  }

  lemma ReadsInTexts(root: Tree, path: seq<string>, v: string)
    requires path != []
    ensures Reads(root, path, v) <==> TextAt(root, path, v)
  {
    hide Get, Arrives;
    var init := path[..|path| - 1];
    forall u
      ensures Get(root, path) == Some(u) <==> Arrives(root, path, u)
      ensures Get(root, init) == Some(u) <==> Arrives(root, init, u)
    {
      GetInTexts(root, path, u);
      GetInTexts(root, init, u);
    }
    if Get(root, path).Some? {
      HolderThere(root, path);
      assert Arrives(root, path, Get(root, path).value) && Arrives(root, init, Get(root, init).value);
    }
  }

  ghost predicate HelmSays(f: File, e: Edit)
  {
    e.helmTagKey != "" && ParseDoc(f).Parsed?
    && (exists tags :: Parts(tags) && JoinDots(tags) == e.helmTagKey && TextAt(ParseDoc(f).root, tags, e.tag))
    && (e.helmNameKey != "" ==>
          exists names :: Parts(names) && JoinDots(names) == e.helmNameKey && TextAt(ParseDoc(f).root, names, e.repository))
  }

  lemma KeyInTexts(root: Tree, key: string, v: string)
    ensures Reads(root, SplitDots(key), v) <==> exists ps :: Parts(ps) && JoinDots(ps) == key && TextAt(root, ps, v)
  {
    hide Reads, TextAt, SplitDots, JoinDots, Parts;
    SplitThenJoin(key);
    ReadsInTexts(root, SplitDots(key), v);
    forall ps | Parts(ps) && JoinDots(ps) == key
      ensures ps == SplitDots(key)
    {
      JoinThenSplit(ps);
    }
  }

  ghost predicate KustomizeSays(f: File, e: Edit)
  {
    ParseDoc(f).Parsed?
    && exists i: nat, k: nat, m: nat ::
         && Leads(ParseDoc(f).root, "images", i) && FirstEntry(ParseDoc(f).root.content[i], e.repository, k)
         && Leads(ParseDoc(f).root.content[i].content[k], "newTag", m)
         && ParseDoc(f).root.content[i].content[k].content[m].value == e.tag
  }

  lemma KustomizeSaysIff(f: File, e: Edit)
    ensures KustomizeShows(f, ImageEdit(e.repository, e.tag)) <==> KustomizeSays(f, e)
  {
    hide FindEntry, FirstEntry, Leads, KeyFrom, Step, Canon;
    if ParseDoc(f).Parsed? {
      var root := ParseDoc(f).root;
      var images := Images(root);
      ParsedIsMapping(f);
      LeadsToStep(root, "images");
      MappingStep(root, "images");
      forall k: nat
        ensures FindEntry(images.content, e.repository, 0) == Some(k) <==> FirstEntry(images, e.repository, k)
      {
        EntryInTexts(images, e.repository, k);
      }
      var found := FindEntry(images.content, e.repository, 0);
      if found.Some? {
        var entry := images.content[found.value];
        LeadsToStep(entry, "newTag");
        MappingStep(entry, "newTag");
        assert FirstEntry(images, e.repository, found.value);
        FirstIsMapping(images, e.repository, found.value);
      }
    }
  }

  lemma FirstIsMapping(images: Tree, repository: string, k: nat)
    requires FirstEntry(images, repository, k)
    ensures images.content[k].kind == Mapping
  {}

  ghost predicate ManifestSays(f: File, e: Edit)
  {
    !f.broken
    && forall d: nat, loc | d < |f.docs| && Within(f.docs[d], loc)
                            && ImageOn(f.docs[d], loc, ManifestEdit(e.repository, e.tag, e.container)) ::
         NodeAt(f.docs[d], loc).value == e.repository + ":" + e.tag
  }

  lemma ManifestSaysIff(f: File, e: Edit)
    ensures ManifestShows(f, ManifestEdit(e.repository, e.tag, e.container)) <==> ManifestSays(f, e)
  {
    hide IsTargetAt, ImageOn, Within;
    var m := ManifestEdit(e.repository, e.tag, e.container);
    forall d: nat, loc | d < |f.docs| && Within(f.docs[d], loc)
      ensures IsTargetAt(f.docs[d], m, loc) <==> ImageOn(f.docs[d], loc, m)
    {
      ImageOnInTexts(f.docs[d], m, loc);
    }
    if ManifestSays(f, e) {
      forall d | 0 <= d < |f.docs|
        ensures TreeShows(f.docs[d], m)
      {
        forall loc | Within(f.docs[d], loc) && IsTargetAt(f.docs[d], m, loc)
          ensures NodeAt(f.docs[d], loc).value == Desired(m)
        {
          assert ImageOn(f.docs[d], loc, m);
        }
      }
    }
  }

  // The branch says what the edit asks for.
  ghost predicate HeadSays(paths: Paths, files: Files, e: Edit)
  {
    exists file :: FileOf(paths, files, e.target, file)
                   && match e.target.kind
                      case ToHelm => HelmSays(files[file], e)
                      case ToKustomize => KustomizeSays(files[file], e)
                      case ToManifest => ManifestSays(files[file], e)
  }

  lemma ShownInTexts(paths: Paths, files: Files, e: Edit)
    ensures ShownIn(paths, files, e) <==> HeadSays(paths, files, e)
  {
    hide FileOf, ManifestShows, ManifestSays, KustomizeShows, KustomizeSays, Reads, TextAt, ParseDoc, Parts, JoinDots,
         SplitDots;
    forall file
      ensures Subject(paths, files, e) == Some(file) <==> FileOf(paths, files, e.target, file)
    {
      FileInTexts(paths, files, e, file);
    }
    if Subject(paths, files, e).Some? {
      var file := Subject(paths, files, e).value;
      assert FileOf(paths, files, e.target, file);
      var f := files[file];
      KustomizeSaysIff(f, e);
      ManifestSaysIff(f, e);
      if ParseDoc(f).Parsed? {
        KeyInTexts(ParseDoc(f).root, e.helmTagKey, e.tag);
        KeyInTexts(ParseDoc(f).root, e.helmNameKey, e.repository);
      }
    }
  }
}
