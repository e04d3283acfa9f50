// The order in which pending containers are met shows in a kustomization only in where new
// entries stand: internal/controller/workload_controller.go:101-133,241-259,
// internal/gitwriteback/edit.go:96-120.
module KustomizeOrder {
  import opened Text
  import opened YamlTree
  import opened YamlPath
  import opened YamlFile
  import opened HelmTarget
  import opened KustomizeTarget
  import opened KustomizeLaws

  // The entry a repository name stands for.
  function Found(images: Tree, repository: string): Option<Tree>
  {
    var k := FindEntry(images.content, repository, 0);
    if k.Some? then Some(images.content[k.value]) else None
  }

  // Two images lists that hold the same entries, and the same one for every name.
  ghost predicate SameEntries(t: Tree, u: Tree)
  {
    && t.(content := []) == u.(content := [])
    && multiset(t.content) == multiset(u.content)
    && forall n :: Found(t, n) == Found(u, n)
  }

  function AfterUpsert(images: Tree, e: ImageEdit): Tree
  {
    var r := UpsertEntry(images, e.repository, e.tag);
    if r.Done? then r.tree else images
  }

  // What an entry becomes.
  function Updated(was: Option<Tree>, e: ImageEdit): Tree
  {
    if was.None? then Entry(e.repository, e.tag)
    else
      var r := Put(was.value, [NEW_TAG], e.tag);
      if r.Done? then r.tree else was.value
  }

  function Held(was: Option<Tree>): multiset<Tree> { if was.Some? then multiset{was.value} else multiset{} }

  lemma MultisetUpdate<T>(s: seq<T>, k: nat, x: T)
    requires k < |s|
    ensures multiset(s[k := x]) == multiset(s) - multiset{s[k]} + multiset{x}
  {}

  // The entries are there, or there is a list to add them to.
  predicate Ready(images: Tree, repository: string) { images.kind == Sequence || Found(images, repository).Some? }

  // An upsert by what it does to the entries as a whole: the one of its repository is
  // updated or added, every other is found as before.
  lemma UpsertEffect(images: Tree, e: ImageEdit)
    requires Wf(images) && Ready(images, e.repository)
    ensures var after, was := AfterUpsert(images, e), Found(images, e.repository);
            && Wf(after) && after.(content := []) == images.(content := [])
            && multiset(after.content) == multiset(images.content) - Held(was) + multiset{Updated(was, e)}
            && Found(after, e.repository) == Some(Updated(was, e))
            && (forall n | n != e.repository :: Found(after, n) == Found(images, n))
            && (was.Some? ==> was.value in multiset(images.content) && Names(was.value, e.repository))
  {
    hide KeyFrom, FindEntry, Names, Put, Lookup;
    UpsertEntryIsCorrect(images, e.repository, e.tag, e.repository);
    PlaceIsFirst(images.content, e.repository);
    UpsertedContent(images, e);
    UpsertedWf(images, e);
    hide Wf, AfterUpsert, Updated, UpsertEntry;
    forall n | n != e.repository
      ensures Found(AfterUpsert(images, e), n) == Found(images, n)
    {
      OtherFound(images, e, n);
    }
  }

  lemma OtherFound(images: Tree, e: ImageEdit, n: string)
    requires Wf(images) && n != e.repository
    ensures Found(AfterUpsert(images, e), n) == Found(images, n)
  {
    hide KeyFrom, Wf, FindEntry, Names, Put, Lookup;
    UpsertEntryIsCorrect(images, e.repository, e.tag, n);
    PlaceIsFirst(images.content, e.repository);
    PlaceIsFirst(images.content, n);
  }

  lemma UpsertedContent(images: Tree, e: ImageEdit)
    requires Wf(images)
    ensures var after, was := AfterUpsert(images, e), Found(images, e.repository);
            && multiset(after.content) == multiset(images.content) - Held(was) + multiset{Updated(was, e)}
            && Found(after, e.repository) == Some(Updated(was, e))
  {
    UpsertedPlace(images, e);
    hide Wf, FindEntry, Updated, UpsertEntry, AfterUpsert, Entry;
    var k, now := Place(images, e.repository), Updated(Found(images, e.repository), e);
    if k < |images.content| {
      MultisetUpdate(images.content, k, now);
    } else {
      assert multiset(AfterUpsert(images, e).content) == multiset(images.content) + multiset{now};
    }
  }

  // The upsert by position.
  lemma UpsertedPlace(images: Tree, e: ImageEdit)
    requires Wf(images)
    ensures var k, was := Place(images, e.repository), Found(images, e.repository);
            && (was.Some? <==> k < |images.content|) && (was.Some? ==> was.value == images.content[k])
            && k <= |images.content|
            && AfterUpsert(images, e).content
               == (if k < |images.content| then images.content[k := Updated(was, e)] else images.content + [Updated(was, e)])
            && Found(AfterUpsert(images, e), e.repository) == Some(Updated(was, e))
  {
    hide KeyFrom, Wf, FindEntry, Names, Put, Lookup;
    UpsertEntryIsCorrect(images, e.repository, e.tag, e.repository);
    PlaceIsFirst(images.content, e.repository);
  }

  lemma UpsertedWf(images: Tree, e: ImageEdit)
    requires Wf(images) && Ready(images, e.repository)
    ensures Wf(AfterUpsert(images, e))
  {
    hide KeyFrom, Names, Put, Lookup, Entry;
    PlaceIsFirst(images.content, e.repository);
    var i := FindEntry(images.content, e.repository, 0);
    FreshEntry(e.repository, e.tag, e.repository);
    if i.Some? { EntryUpserted(images.content[i.value], e.repository, e.tag, e.repository); }
  }

  lemma SameAfter(t: Tree, u: Tree, e: ImageEdit)
    requires Wf(t) && Wf(u) && SameEntries(t, u) && Ready(t, e.repository)
    ensures Wf(AfterUpsert(t, e)) && Wf(AfterUpsert(u, e)) && SameEntries(AfterUpsert(t, e), AfterUpsert(u, e))
  {
    hide Wf, Found, AfterUpsert, Updated, Names;
    UpsertEffect(t, e);
    UpsertEffect(u, e);
  }

  ghost predicate AllReady(images: Tree, es: seq<ImageEdit>) { forall e | e in es :: Ready(images, e.repository) }

  lemma StaysReady(images: Tree, e: ImageEdit, es: seq<ImageEdit>)
    requires Wf(images) && Ready(images, e.repository) && AllReady(images, es)
    ensures Wf(AfterUpsert(images, e)) && AllReady(AfterUpsert(images, e), es)
  {
    hide Wf, Found, AfterUpsert, Updated, Names;
    UpsertEffect(images, e);
  }

  lemma {:induction false} SameRun(t: Tree, u: Tree, es: seq<ImageEdit>)
    requires Wf(t) && Wf(u) && SameEntries(t, u) && AllReady(t, es)
    ensures Wf(RunUpserts(t, es)) && SameEntries(RunUpserts(t, es), RunUpserts(u, es))
    decreases |es|
  {
    hide Wf, SameEntries, AfterUpsert, Ready;
    if es != [] {
      SameAfter(t, u, es[0]);
      StaysReady(t, es[0], es[1..]);
      SameRun(AfterUpsert(t, es[0]), AfterUpsert(u, es[0]), es[1..]);
    }
  }

  lemma SameSelf(t: Tree)
    ensures SameEntries(t, t)
  {}

  lemma SameChain(t: Tree, u: Tree, x: Tree)
    requires SameEntries(t, u) && SameEntries(u, x)
    ensures SameEntries(t, x)
  {}

  lemma MultisetSwap(m: multiset<Tree>, a: multiset<Tree>, a': multiset<Tree>, b: multiset<Tree>, b': multiset<Tree>)
    requires a + b <= m
    ensures m - a + a' - b + b' == m - b + b' - a + a'
  {
    forall x
      ensures (m - a + a' - b + b')[x] == (m - b + b' - a + a')[x]
    {
      assert (a + b)[x] <= m[x];
    }
  }

  lemma BothHeld(m: multiset<Tree>, a: Option<Tree>, b: Option<Tree>)
    requires a.Some? ==> a.value in m
    requires b.Some? ==> b.value in m
    requires a.Some? && b.Some? ==> a != b
    ensures Held(a) + Held(b) <= m
  {}

  lemma SwapContents(images: Tree, e: ImageEdit, o: ImageEdit)
    requires Wf(images) && e.repository != o.repository && Ready(images, e.repository) && Ready(images, o.repository)
    ensures multiset(AfterUpsert(AfterUpsert(images, e), o).content) == multiset(AfterUpsert(AfterUpsert(images, o), e).content)
  {
    var m, we, wo := multiset(images.content), Found(images, e.repository), Found(images, o.repository);
    UpsertEffect(images, e);
    UpsertEffect(images, o);
    if we.Some? && we == wo { OneName(we.value, e.repository, o.repository); }
    hide *;
    BothHeld(m, we, wo);
    var ue, uo := Updated(we, e), Updated(wo, o);
    SecondContent(images, e, o);
    SecondContent(images, o, e);
    MultisetSwap(m, Held(we), multiset{ue}, Held(wo), multiset{uo});
  }

  lemma SecondContent(images: Tree, e: ImageEdit, o: ImageEdit)
    requires Wf(images) && e.repository != o.repository && Ready(images, e.repository) && Ready(images, o.repository)
    ensures var we, wo := Found(images, e.repository), Found(images, o.repository);
            multiset(AfterUpsert(AfterUpsert(images, e), o).content)
            == multiset(images.content) - Held(we) + multiset{Updated(we, e)} - Held(wo) + multiset{Updated(wo, o)}
  {
    hide Wf, Found, AfterUpsert, Updated, Names, Held;
    UpsertEffect(images, e);
    UpsertEffect(AfterUpsert(images, e), o);
  }

  // Upserts of two repositories, in either order.
  lemma UpsertsSwap(images: Tree, e: ImageEdit, o: ImageEdit)
    requires Wf(images) && e.repository != o.repository && Ready(images, e.repository) && Ready(images, o.repository)
    ensures SameEntries(AfterUpsert(AfterUpsert(images, e), o), AfterUpsert(AfterUpsert(images, o), e))
  {
    hide Wf, Found, AfterUpsert, Updated, Names, Held;
    UpsertEffect(images, e);
    UpsertEffect(images, o);
    UpsertEffect(AfterUpsert(images, e), o);
    UpsertEffect(AfterUpsert(images, o), e);
    SwapContents(images, e, o);
  }

  function RunUpserts(images: Tree, es: seq<ImageEdit>): Tree
    decreases |es|
  {
    if es == [] then images else RunUpserts(AfterUpsert(images, es[0]), es[1..])
  }

  lemma {:induction false} MoveToFront(images: Tree, es: seq<ImageEdit>, k: nat)
    requires Wf(images) && AllReady(images, es) && OneTagEach(es) && k < |es|
    ensures SameEntries(RunUpserts(images, es), RunUpserts(AfterUpsert(images, es[k]), es[..k] + es[k + 1..]))
    decreases k
  {
    hide Wf, SameEntries, AfterUpsert, Ready;
    if k == 0 {
      assert es[..0] + es[1..] == es[1..];
      SameSelf(RunUpserts(images, es));
    } else {
      var rest := es[1..];
      StaysReady(images, es[0], es);
      StaysReady(images, es[k], es);
      MoveToFront(AfterUpsert(images, es[0]), rest, k - 1);
      var others := es[..k] + es[k + 1..];
      assert others[0] == es[0] && others[1..] == rest[..k - 1] + rest[k..];
      var here, there := AfterUpsert(AfterUpsert(images, es[0]), es[k]), AfterUpsert(AfterUpsert(images, es[k]), es[0]);
      if es[0] == es[k] { SameSelf(here); } else { UpsertsSwap(images, es[0], es[k]); }
      StaysReady(AfterUpsert(images, es[0]), es[k], es);
      StaysReady(AfterUpsert(images, es[k]), es[0], es);
      SameRun(here, there, others[1..]);
      SameChain(RunUpserts(images, es), RunUpserts(here, others[1..]), RunUpserts(there, others[1..]));
    }
  }

  lemma AllReadyAt(images: Tree, es: seq<ImageEdit>)
    requires AllReady(images, es)
    ensures forall i | 0 <= i < |es| :: Ready(images, es[i].repository)
  {}

  lemma Without(images: Tree, es: seq<ImageEdit>, k: nat)
    requires AllReady(images, es) && OneTagEach(es) && k < |es|
    ensures AllReady(images, es[..k] + es[k + 1..]) && OneTagEach(es[..k] + es[k + 1..])
  {
    hide Ready;
    var rest := es[..k] + es[k + 1..];
    assert forall i | 0 <= i < |rest| :: rest[i] == es[if i < k then i else i + 1];
  }

  // Any order of the upserts gives the same entries, the same one for every name, and the
  // same list around them.
  lemma {:induction false} AnyOrder(images: Tree, es: seq<ImageEdit>, fs: seq<ImageEdit>)
    requires Wf(images) && AllReady(images, es) && OneTagEach(es) && multiset(es) == multiset(fs)
    ensures Wf(RunUpserts(images, es)) && SameEntries(RunUpserts(images, es), RunUpserts(images, fs))
    decreases |es|
  {
    hide Wf, SameEntries, AfterUpsert, Ready, OneTagEach, AllReady;
    AllReadyAt(images, es);
    SameSelf(images);
    SameRun(images, images, es);
    if fs == [] {
      assert |multiset(es)| == 0;
    } else {
      assert fs[0] in multiset(es);
      var k :| 0 <= k < |es| && es[k] == fs[0];
      var rest := es[..k] + es[k + 1..];
      RemoveOne(fs, es, k);
      SameLength(es, fs);
      Without(images, es, k);
      MoveToFront(images, es, k);
      StaysReady(images, fs[0], rest);
      AnyOrder(AfterUpsert(images, fs[0]), rest, fs[1..]);
      SameChain(RunUpserts(images, es), RunUpserts(AfterUpsert(images, fs[0]), rest), RunUpserts(AfterUpsert(images, fs[0]), fs[1..]));
    }
  }

  // ---- The kustomization file ---------------------------------------------------

  function KustomizeRun(f: File, es: seq<ImageEdit>): File
    decreases |es|
  {
    if es == [] then f else KustomizeRun(FileAfter(f, KustomizeOf(f, es[0])), es[1..])
  }

  // Two documents that are the same but for what their images nodes hold.
  ghost predicate SameButImages(t: Tree, u: Tree)
    requires t.kind == Mapping && u.kind == Mapping
  {
    && SameEntries(Images(t), Images(u))
    && Lookup(t, IMAGES) == Lookup(u, IMAGES)
    && t.(content := []) == u.(content := []) && |t.content| == |u.content|
    && forall i | 0 <= i < |t.content| && Some(i) != Lookup(t, IMAGES) :: t.content[i] == u.content[i]
  }

  // So every other key leads to the same place and the same value.
  lemma OtherKeysSame(t: Tree, u: Tree, key: string)
    requires t.kind == Mapping && u.kind == Mapping && Wf(t) && SameButImages(t, u) && key != IMAGES
    ensures Step(t, key) == Step(u, key) && Child(t, key) == Child(u, key)
  {
    hide SameEntries, Images, KeyFrom;
    SameKeyFrom(t.content, u.content, IMAGES, key, 0);
  }

  lemma {:induction false} SameKeyFrom(c: seq<Tree>, d: seq<Tree>, images: string, key: string, i: nat)
    requires |c| == |d| && i % 2 == 0 && key != images
    requires forall k | i <= k < |c| && Some(k) != KeyFrom(c, images, i) :: c[k] == d[k]
    ensures KeyFrom(c, key, i) == KeyFrom(d, key, i)
    ensures KeyFrom(c, key, i).Some? ==> c[KeyFrom(c, key, i).value] == d[KeyFrom(c, key, i).value]
    decreases |c| - i
  {
    if i + 1 < |c| {
      assert c[i] == d[i];
      if c[i].value == images {
        AfterImages(c, d, key, i + 2);
      } else {
        SameKeyFrom(c, d, images, key, i + 2);
      }
    }
  }

  lemma {:induction false} AfterImages(c: seq<Tree>, d: seq<Tree>, key: string, i: nat)
    requires |c| == |d| && forall k | i <= k < |c| :: c[k] == d[k]
    ensures KeyFrom(c, key, i) == KeyFrom(d, key, i)
    ensures KeyFrom(c, key, i).Some? ==> c[KeyFrom(c, key, i).value] == d[KeyFrom(c, key, i).value]
    decreases |c| - i
  {
    if i + 1 < |c| { AfterImages(c, d, key, i + 2); }
  }

  // What one safe edit does to the document around its images.
  lemma KustomizeAround(f: File, e: ImageEdit)
    requires CanonFile(f) && ParseDoc(f).Parsed? && Guard(ParseDoc(f).root, e.repository)
    ensures var g := FileAfter(f, KustomizeOf(f, e));
            && ParseDoc(g).Parsed?
            && ParseDoc(g).root == PutChild(ParseDoc(f).root, IMAGES, Images(ParseDoc(g).root))
  {
    hide KeyFrom, Wf, IsCanon, Canon, UpsertEntry, FindEntry, Names, Put, Lookup, WithImages, WritesScalar;
    var root := ParseDoc(f).root;
    RootIsPaired(f);
    CanonKeeps(root);
    UpsertIsCorrect(root, e.repository, e.tag, IMAGES);
    ImagesCanon(root, EMPTY_SEQ);
    ListKept(Images(root), e);
    var after := UpsertEntry(Images(root), e.repository, e.tag).tree;
    ImagesCanon(root, after);
    CanonKeeps(PutChild(root, IMAGES, after));
    WriteThenParse(PutChild(root, IMAGES, after));
    if !UpsertEntry(Images(root), e.repository, e.tag).changed {
      UnchangedList(Images(root), e.repository, e.tag);
    }
  }

  lemma {:induction false} KustomizeRunIs(f: File, all: seq<ImageEdit>, es: seq<ImageEdit>)
    requires KustomizeSafe(f, all) && ParseDoc(f).Parsed? && forall e | e in es :: e in all
    ensures var g := KustomizeRun(f, es);
            && ParseDoc(g).Parsed?
            && Images(ParseDoc(g).root) == RunUpserts(Images(ParseDoc(f).root), es)
            && (es != [] ==> ParseDoc(g).root == PutChild(ParseDoc(f).root, IMAGES, Images(ParseDoc(g).root)))
            && (es == [] ==> g == f)
    decreases |es|
  {
    hide KeyFrom, Wf, Canon, IsCanon, CanonFile, UpsertEntry, WithImages, Kustomize, Guard, OneTagEach, ParseDoc, PutChild, Images;
    if es != [] {
      assert es[0] in all;
      var m :| 0 <= m < |all| && all[m] == es[0];
      KustomizeRoot(f, es[0]);
      KustomizeAround(f, es[0]);
      KustomizeStep(f, all, m);
      var g1 := FileAfter(f, KustomizeOf(f, es[0]));
      KustomizeRunIs(g1, all, es[1..]);
      RootIsPaired(f);
      CanonKeeps(ParseDoc(f).root);
      ParsedIsMapping(g1);
      ParsedIsMapping(KustomizeRun(f, es));
      if es[1..] != [] {
        ImagesTwice(ParseDoc(f).root, Images(ParseDoc(g1).root), Images(ParseDoc(KustomizeRun(f, es)).root));
      }
    }
  }

  lemma ImagesTwice(root: Tree, u: Tree, w: Tree)
    requires Wf(root) && root.kind == Mapping
    ensures CanStep(root, IMAGES) && CanStep(PutChild(root, IMAGES, u), IMAGES)
    ensures PutChild(PutChild(root, IMAGES, u), IMAGES, w) == PutChild(root, IMAGES, w)
  {
    PutChildTwice(root, IMAGES, u, w);
  }

  // Filling the images node, by position.
  lemma FillImages(root: Tree, u: Tree)
    requires Wf(root) && root.kind == Mapping
    ensures CanStep(root, IMAGES)
    ensures var k, t := Lookup(root, IMAGES), PutChild(root, IMAGES, u);
            && t == root.(content := if k.Some? then root.content[k.value := u] else root.content + [Str(IMAGES), u])
            && Lookup(t, IMAGES) == (if k.Some? then k else Some(|root.content| + 1))
            && Images(t) == u
  {
    hide KeyFrom, Images, WithImages, Wf;
    ImagesOf(root, u);
    PutChildPosition(root, IMAGES, u);
    ImagesFound(PutChild(root, IMAGES, u));
  }

  // Two ways to fill the images node of one document.
  lemma FilledAlike(root: Tree, u: Tree, w: Tree)
    requires Wf(root) && root.kind == Mapping && SameEntries(u, w)
    ensures CanStep(root, IMAGES)
    ensures SameButImages(PutChild(root, IMAGES, u), PutChild(root, IMAGES, w))
  {
    hide SameEntries, Images, Wf, Lookup, PutChild, CanStep, WithImages, KeyFrom;
    FillImages(root, u);
    FillImages(root, w);
    var t, x, k := PutChild(root, IMAGES, u), PutChild(root, IMAGES, w), Lookup(root, IMAGES);
    if k.Some? {
      assert forall i | 0 <= i < |root.content| && i != k.value :: t.content[i] == x.content[i];
    } else {
      assert forall i | 0 <= i <= |root.content| :: t.content[i] == x.content[i];
    }
  }

  lemma ImagesFound(root: Tree)
    requires root.kind == Mapping && Lookup(root, IMAGES).Some?
    ensures Images(root) == Child(root, IMAGES)
  {}

  lemma GuardIsReady(f: File, es: seq<ImageEdit>)
    requires KustomizeSafe(f, es) && ParseDoc(f).Parsed?
    ensures AllReady(Images(ParseDoc(f).root), es)
  {
    hide FindEntry, CanonFile, WritesScalar, Images;
    forall e | e in es
      ensures Ready(Images(ParseDoc(f).root), e.repository)
    {
      var i :| 0 <= i < |es| && es[i] == e;
      assert Guard(ParseDoc(f).root, es[i].repository);
    }
  }

  // Whatever order the pending containers come in, the kustomization lists the same images
  // and is otherwise the same document.
  lemma KustomizeOrderDoesNotShow(f: File, es: seq<ImageEdit>, fs: seq<ImageEdit>)
    requires KustomizeSafe(f, es) && multiset(es) == multiset(fs)
    ensures ParseDoc(KustomizeRun(f, es)).Parsed? == ParseDoc(f).Parsed? == ParseDoc(KustomizeRun(f, fs)).Parsed?
    ensures ParseDoc(f).Parsed? ==>
      SameButImages(ParseDoc(KustomizeRun(f, es)).root, ParseDoc(KustomizeRun(f, fs)).root)
  {
    hide KeyFrom, Wf, Canon, IsCanon, UpsertEntry, WithImages, Kustomize, Guard, SameEntries, RunUpserts, KustomizeRun,
         SameButImages, PutChild;
    if ParseDoc(f).Parsed? {
      var root := ParseDoc(f).root;
      RootIsPaired(f);
      CanonKeeps(root);
      ImagesOf(root, EMPTY_SEQ);
      assert forall e | e in fs :: e in multiset(es);
      KustomizeRunIs(f, es, es);
      KustomizeRunIs(f, es, fs);
      GuardIsReady(f, es);
      AnyOrder(Images(root), es, fs);
      SameLength(es, fs);
      if es == [] { SameSelf(Images(root)); SameDocument(root); }
      else { FilledAlike(root, Images(ParseDoc(KustomizeRun(f, es)).root), Images(ParseDoc(KustomizeRun(f, fs)).root)); }
    } else {
      UnreadableRun(f, es);
      UnreadableRun(f, fs);
    }
  }

  lemma SameDocument(root: Tree)
    requires root.kind == Mapping
    ensures SameButImages(root, root)
  {
    hide Images, Lookup;
    SameSelf(Images(root));
  }

  lemma {:induction false} UnreadableRun(f: File, es: seq<ImageEdit>)
    requires ParseDoc(f).Unreadable?
    ensures KustomizeRun(f, es) == f
    decreases |es|
  {
    hide ParseDoc, KustomizeOf;
    if es != [] {
      UnreadableImages(f, es);
      UnreadableRun(f, es[1..]);
    }
  }
}
