// Helm values files: internal/gitwriteback/edit.go:67-92, EditHelmValues.
module HelmTarget {
  import opened Text
  import opened ImageRef
  import opened YamlTree
  import opened YamlPath
  import opened YamlNodes
  import opened YamlEdit
  import opened YamlWrites
  import opened YamlFile

  // strings.Split(s, ".")
  function SplitDots(s: string): (r: seq<string>)
    ensures r != []
    decreases |s|
  {
    var i := IndexOf(s, '.');
    if i < 0 then [s] else [s[..i]] + SplitDots(s[i + 1..])
  }

  // The repository first, when there is a key for it, then the tag.
  function HelmWrites(repository: string, tag: string, nameKey: string, tagKey: string): seq<Write>
  {
    (if nameKey != "" then [Write(SplitDots(nameKey), repository)] else []) + [Write(SplitDots(tagKey), tag)]
  }

  // All or nothing: an error at either key gives no file at all.
  function Helm(f: File, repository: string, tag: string, nameKey: string, tagKey: string): EditResult
  {
    if tagKey == "" then EditFailed(NoTagKey)
    else if ParseDoc(f).Unreadable? then EditFailed(BadFile(ParseDoc(f).error))
    else
      var r := PutAll(ParseDoc(f).root, HelmWrites(repository, tag, nameKey, tagKey));
      if r.Failed? then EditFailed(BadPath(r.error)) else MarshalIfChanged(f, r.tree, r.changed)
  }

  method EditHelmValues(f: File, repository: string, tag: string, nameKey: string, tagKey: string)
    returns (r: EditResult)
    ensures r == Helm(f, repository, tag, nameKey, tagKey)
  {
    hide Put, PutAll, Valid, View, Footprint, ParseDoc, Canon, SplitDots, Doc;
    if tagKey == "" {
      return EditFailed(NoTagKey);
    }
    if ParseDoc(f).Unreadable? {
      return EditFailed(BadFile(ParseDoc(f).error));
    }
    ghost var t := ParseDoc(f).root;
    ghost var ws := HelmWrites(repository, tag, nameKey, tagKey);
    var root;
    ghost var s;
    root, s := Build(ParseDoc(f).root);
    var changed := false;
    PutAllStep(t, ws);
    if nameKey != "" {
      var c;
      c, s := SetByPath(root, s, SplitDots(nameKey), repository);
      if c.Error? {
        return EditFailed(BadPath(c.error));
      }
      changed := changed || c.changed;
      PutAllStep(View(s), ws[1..]);
    }
    ghost var t1 := View(s);
    var c;
    c, s := SetByPath(root, s, SplitDots(tagKey), tag);
    if c.Error? {
      return EditFailed(BadPath(c.error));
    }
    changed := changed || c.changed;
    if !changed {
      return Edited(f, false);
    }
    CanonOfDoc(View(s));
    ShapeAllocated(s);
    var out := Encode(root, s);
    return Edited(File([Doc(out)], false, true), true);
  }

  lemma PutAllStep(t: Tree, ws: seq<Write>)
    requires ws != []
    ensures var first := Put(t, ws[0].path, ws[0].value);
            && (first.Failed? ==> PutAll(t, ws) == first)
            && (first.Done? ==>
                  var rest := PutAll(first.tree, ws[1..]);
                  PutAll(t, ws) == if rest.Failed? then rest else Done(rest.tree, first.changed || rest.changed))
            && (|ws| == 1 ==> PutAll(t, ws) == first)
  {
    if |ws| == 1 { assert ws[1..] == []; }
  }

  // ---- When an edit settles -----------------------------------------------------

  ghost predicate NoAlias(t: Tree, p: seq<string>)
  {
    Get(t, p).Some? ==> Get(t, p).value.kind != Alias
  }

  lemma PutAllTwo(t: Tree, a: Write, b: Write)
    ensures PutAll(t, [a, b])
         == var first := Put(t, a.path, a.value);
            if first.Failed? then first
            else
              var second := Put(first.tree, b.path, b.value);
              if second.Failed? then second else Done(second.tree, first.changed || second.changed)
  {
    PutAllStep(t, [a, b]);
    assert [a, b][1..] == [b];
    if Put(t, a.path, a.value).Done? { PutAllStep(Put(t, a.path, a.value).tree, [b]); }
  }

  // What one write to a canonical tree leaves behind in the file.
  lemma WrittenLeaf(t: Tree, p: seq<string>, v: string)
    requires IsCanon(t) && Put(t, p, v).Done?
    ensures var t1 := Put(t, p, v).tree;
            && Wf(t1) && KeysKept(t1) && (WritesScalar(t, p) ==> IsCanon(t1))
            && Get(t1, p).Some? && (Get(t1, p).value.kind == Scalar <==> WritesScalar(t, p))
  {
    CanonKeeps(t);
    CanonKeepsKeys(t);
    PutKeepsWf(t, p, v);
    PutKeepsKeys(t, p, v);
    PutThenGet(t, p, v);
    PutSurvives(t, p, v);
  }

  // A text that reads back from a file sits on a scalar or an alias.
  lemma TextOnLeaf(t: Tree, p: seq<string>)
    requires Get(Canon(t), p).Some? && Get(Canon(t), p).value.value != ""
    requires Wf(t) && KeysKept(t)
    ensures Get(t, p).Some? && Leaf(Get(t, p).value.kind)
    ensures Get(Canon(t), p).value.content == []
  {
    CanonPaths(t, p, p);
  }

  // Writing back what was written finds nothing to do exactly when the two keys part ways
  // and neither names a mapping or a list.
  lemma TwoWritesSettleIff(t: Tree, p: seq<string>, v: string, q: seq<string>, w: string)
    requires IsCanon(t) && p != [] && q != [] && v != "" && w != "" && v != w
    requires NoAlias(t, p) && NoAlias(t, q)
    requires PutAll(t, [Write(p, v), Write(q, w)]).Done?
    ensures var ws, c := [Write(p, v), Write(q, w)], Canon(PutAll(t, [Write(p, v), Write(q, w)]).tree);
            (PutAll(c, ws).Done? && !PutAll(c, ws).changed)
            <==> Diverge(t, p, q) && WritesScalar(t, p) && WritesScalar(t, q)
  {
    hide Put, PutAll, Get, Diverge, WritesScalar, Canon, IsCanon, Wf, KeysKept, NoAlias;
    var ws := [Write(p, v), Write(q, w)];
    var t2 := PutAll(t, ws).tree;
    var c := Canon(t2);
    if Diverge(t, p, q) && WritesScalar(t, p) && WritesScalar(t, q) {
      TwoWritesSettle(t, p, v, q, w);
    }
    PutAllTwo(t, ws[0], ws[1]);
    PutAllTwo(c, ws[0], ws[1]);
    if PutAll(c, ws).Done? && !PutAll(c, ws).changed {
      UnchangedKeeps(c, p, v);
      TwoWritesSettled(t, p, v, q, w);
    }
  }

  lemma TwoWritesSettle(t: Tree, p: seq<string>, v: string, q: seq<string>, w: string)
    requires IsCanon(t) && p != [] && q != []
    requires Diverge(t, p, q) && WritesScalar(t, p) && WritesScalar(t, q)
    requires PutAll(t, [Write(p, v), Write(q, w)]).Done?
    ensures var ws, t2 := [Write(p, v), Write(q, w)], PutAll(t, [Write(p, v), Write(q, w)]).tree;
            IsCanon(t2) && Canon(t2) == t2 && PutAll(t2, ws) == Done(t2, false)
  {
    hide Put, PutAll, Get, Diverge, WritesScalar, Canon, IsCanon, Wf, KeysKept;
    var ws := [Write(p, v), Write(q, w)];
    CanonKeeps(t);
    PutAllTwo(t, ws[0], ws[1]);
    WrittenLeaf(t, p, v);
    var t1 := Put(t, p, v).tree;
    DivergingUnaffected(t, p, v, q, w);
    WrittenLeaf(t1, q, w);
    var t2 := PutAll(t, ws).tree;
    CanonKeeps(t2);
    PutAllSettles(t, ws);
    assert Put(t2, ws[0].path, ws[0].value) == Done(t2, false) && Put(t2, ws[1].path, ws[1].value) == Done(t2, false);
    PutAllTwo(t2, ws[0], ws[1]);
  }

  lemma TwoWritesSettled(t: Tree, p: seq<string>, v: string, q: seq<string>, w: string)
    requires IsCanon(t) && p != [] && q != [] && v != "" && w != "" && v != w
    requires NoAlias(t, p) && NoAlias(t, q)
    requires Put(t, p, v).Done? && Put(Put(t, p, v).tree, q, w).Done?
    requires var c := Canon(Put(Put(t, p, v).tree, q, w).tree);
             Put(c, p, v) == Done(c, false) && Put(c, q, w).Done? && !Put(c, q, w).changed
    ensures Diverge(t, p, q) && WritesScalar(t, p) && WritesScalar(t, q)
  {
    hide Put, Get, Diverge, WritesScalar, Canon, IsCanon, Wf, KeysKept;
    var t1 := Put(t, p, v).tree;
    var t2 := Put(t1, q, w).tree;
    var c := Canon(t2);
    WrittenLeaf(t, p, v);
    PutKeepsWf(t1, q, w);
    PutKeepsKeys(t1, q, w);
    CanonIsCanon(t2);
    CanonKeeps(c);
    UnchangedReads(c, p, v);
    UnchangedReads(c, q, w);
    TextOnLeaf(t2, p);
    TextOnLeaf(t2, q);
    LeavesDiverge(c, p, q);
    CanonPaths(t2, p, q);
    DivergeSymmetric(t2, p, q);
    DivergeSelf(t1, q, w, p);
    DivergeSymmetric(t1, p, q);
    CanonKeeps(t);
    DivergeSelf(t, p, v, q);
    DivergingUnaffected(t, p, v, q, w);
    DivergingUnaffected(t1, q, w, p, v);
    if !WritesScalar(t, p) { PutKeepsKind(t, p, v); }
    if !WritesScalar(t, q) { PutKeepsKind(t1, q, w); }
  }

  // EditHelmValues with both keys, run again on the file it produced, reports no change
  // exactly when the keys lead to different, unnested places that are absent or scalars.
  lemma HelmSettlesIff(f: File, repository: string, tag: string, nameKey: string, tagKey: string)
    requires CanonFile(f) && nameKey != "" && repository != "" && tag != "" && repository != tag
    requires Helm(f, repository, tag, nameKey, tagKey).Edited?
    requires NoAlias(ParseDoc(f).root, SplitDots(nameKey)) && NoAlias(ParseDoc(f).root, SplitDots(tagKey))
    ensures var g := Helm(f, repository, tag, nameKey, tagKey).file;
            var root, p, q := ParseDoc(f).root, SplitDots(nameKey), SplitDots(tagKey);
            Helm(g, repository, tag, nameKey, tagKey) == Edited(g, false)
            <==> Diverge(root, p, q) && WritesScalar(root, p) && WritesScalar(root, q)
  {
    hide Put, PutAll, Get, Diverge, WritesScalar, Canon, IsCanon, Wf, KeysKept, SplitDots, NoAlias;
    var root, p, q := ParseDoc(f).root, SplitDots(nameKey), SplitDots(tagKey);
    var ws := HelmWrites(repository, tag, nameKey, tagKey);
    assert ws == [Write(p, repository), Write(q, tag)];
    RootIsCanon(f);
    TwoWritesSettleIff(root, p, repository, q, tag);
    var t2 := PutAll(root, ws).tree;
    if PutAll(root, ws).changed {
      RootStaysMapping(root, ws);
      WriteThenParse(t2);
    } else {
      PutAllUnchanged(root, ws);
      CanonKeeps(root);
    }
  }

  // A write whose guard fails is lost when the tree is written out, and lost again when it
  // is repeated: the tree stays the same and the flag stays up.
  lemma {:induction false} LostForever(t: Tree, p: seq<string>, v: string)
    requires IsCanon(t) && v != "" && NoAlias(t, p) && Put(t, p, v).Done? && !WritesScalar(t, p)
    ensures Put(t, p, v).changed
    ensures var c := Canon(Put(t, p, v).tree);
            && Put(c, p, v).Done? && Put(c, p, v).changed && Canon(Put(c, p, v).tree) == c
            && IsCanon(c) && c.kind == t.kind
    decreases |p|
  {
    hide Step, CanStep, Child, PutChild, Apart, Wf, Canon, IsCanon;
    var u := PutBelow(t, p, v).tree;
    CanonKeeps(t);
    PutChildWf(t, p[0], EMPTY_MAP);
    CanonOfChild(t, p[0], u);
    CanonIsCanon(PutChild(t, p[0], u));
    PutChildStep(t, p[0], Canon(u), p[0]);
    NeverApart(t, p[0]);
    var c := PutChild(t, p[0], Canon(u));
    assert Child(c, p[0]) == Canon(u) && CanStep(c, p[0]);
    if |p| > 1 {
      if Step(t, p[0]).None? {
        AbsentChild(t, p[0], p[1..], v);
        FreshNeverFails(p[1..], v);
      }
      LostForever(Child(t, p[0]), p[1..], v);
    } else {
      KindOfStep(t, p[0]);
      KindOfGet(t, p);
      LostLeaf(Child(t, p[0]), v);
    }
    assert PutBelow(c, p, v).Done? && PutBelow(c, p, v).changed;
    var u' := PutBelow(c, p, v).tree;
    CanonOfChild(c, p[0], u');
    PutChildTwice(t, p[0], Canon(u), Canon(u'));
  }

  lemma KindOfGet(t: Tree, p: seq<string>)
    requires |p| == 1 && Step(t, p[0]).Some?
    ensures Get(t, p) == Some(Child(t, p[0]))
  {}

  lemma LostLeaf(leaf: Tree, v: string)
    requires IsCanon(leaf) && v != "" && !Leaf(leaf.kind)
    ensures var u := WriteLeaf(Mapping, leaf, v);
            && LeafChanges(Mapping, leaf, v) && LeafChanges(Mapping, Canon(u), v)
            && Canon(WriteLeaf(Mapping, Canon(u), v)) == Canon(u)
  {
    CanonKeeps(leaf);
    var u := leaf.(value := v, tag := STR);
    assert Canon(u) == leaf.(tag := STR) by {
      assert Canon(u).content == Canon(leaf).content;
    }
    assert Canon(Canon(u).(value := v, tag := STR)).content == Canon(u).content;
  }

  // The tag alone, as most charts need it: run again on the file it produced, the edit
  // reports a change exactly when the key led to a mapping or a list.
  lemma TagOnlySettlesIff(f: File, repository: string, tag: string, tagKey: string)
    requires CanonFile(f) && tag != "" && Helm(f, repository, tag, "", tagKey).Edited?
    requires NoAlias(ParseDoc(f).root, SplitDots(tagKey))
    ensures var g := Helm(f, repository, tag, "", tagKey).file;
            Helm(g, repository, tag, "", tagKey) == Edited(g, !WritesScalar(ParseDoc(f).root, SplitDots(tagKey)))
  {
    hide Put, PutAll, Get, WritesScalar, Canon, IsCanon, Wf, KeysKept, SplitDots, NoAlias;
    var root, q := ParseDoc(f).root, SplitDots(tagKey);
    var ws := HelmWrites(repository, tag, "", tagKey);
    assert ws == [Write(q, tag)];
    RootIsCanon(f);
    CanonKeeps(root);
    PutAllStep(root, ws);
    var t := Put(root, q, tag).tree;
    PutAllStep(Canon(t), ws);
    PutKeepsWf(root, q, tag);
    PutTwice(root, q, tag);
    ChangedIffDifferent(root, q, tag);
    WriteThenParse(t);
    if WritesScalar(root, q) {
      WrittenLeaf(root, q, tag);
      CanonKeeps(t);
    } else {
      LostForever(root, q, tag);
      CanonKeeps(Canon(t));
      PutKeepsWf(Canon(t), q, tag);
      WriteThenParse(Put(Canon(t), q, tag).tree);
      SameWritten(Put(Canon(t), q, tag).tree, t);
    }
  }

  lemma UnguardedChanges(f: File, repository: string, tag: string, tagKey: string)
    requires CanonFile(f) && tag != "" && Helm(f, repository, tag, "", tagKey).Edited?
    requires NoAlias(ParseDoc(f).root, SplitDots(tagKey)) && !WritesScalar(ParseDoc(f).root, SplitDots(tagKey))
    ensures Helm(f, repository, tag, "", tagKey).changed
  {
    hide Put, PutAll, Get, WritesScalar, Canon, IsCanon, Wf, KeysKept, SplitDots, NoAlias;
    var root, q := ParseDoc(f).root, SplitDots(tagKey);
    assert HelmWrites(repository, tag, "", tagKey) == [Write(q, tag)];
    RootIsCanon(f);
    PutAllStep(root, [Write(q, tag)]);
    LostForever(root, q, tag);
  }

  lemma SameWritten(t: Tree, u: Tree)
    requires Canon(t) == Canon(u)
    ensures WriteDoc(t) == WriteDoc(u)
  {
    CanonOfDoc(t);
    CanonOfDoc(u);
  }

  lemma RootIsCanon(f: File)
    requires CanonFile(f) && ParseDoc(f).Parsed?
    ensures IsCanon(ParseDoc(f).root) && ParseDoc(f).root.kind == Mapping
  {}

  lemma {:induction false} RootStaysMapping(t: Tree, ws: seq<Write>)
    requires Wf(t) || IsCanon(t)
    requires PutAll(t, ws).Done?
    ensures PutAll(t, ws).tree.kind == t.kind
    decreases |ws|
  {
    if IsCanon(t) { CanonKeeps(t); }
    if ws != [] {
      PutKeepsWf(t, ws[0].path, ws[0].value);
      RootStaysMapping(Put(t, ws[0].path, ws[0].value).tree, ws[1..]);
    }
  }

  // ---- Several edits of one file ------------------------------------------------

  datatype HelmEdit = HelmEdit(repository: string, tag: string, nameKey: string, tagKey: string)

  function HelmOf(f: File, e: HelmEdit): EditResult { Helm(f, e.repository, e.tag, e.nameKey, e.tagKey) }

  // A failed edit leaves the file alone.
  function FileAfter(f: File, r: EditResult): File { if r.Edited? then r.file else f }

  predicate QuietResult(r: EditResult) { r.Edited? ==> !r.changed }

  // An edit without a tag key fails before it writes anything.
  function WritesOf(e: HelmEdit): seq<Write>
  {
    if e.tagKey == "" then [] else HelmWrites(e.repository, e.tag, e.nameKey, e.tagKey)
  }

  function AllWrites(es: seq<HelmEdit>): (r: seq<seq<Write>>)
    ensures |r| == |es|
    ensures forall i | 0 <= i < |es| :: r[i] == WritesOf(es[i])
  {
    seq(|es|, i requires 0 <= i < |es| => WritesOf(es[i]))
  }

  // No two of the keys meet, unless both are to hold the same text, and every one of them is
  // absent, a scalar, or a list element.
  ghost predicate HelmSafe(f: File, es: seq<HelmEdit>)
  {
    && CanonFile(f)
    && (ParseDoc(f).Parsed? ==>
          && ConflictFree(ParseDoc(f).root, AllWrites(es))
          && forall i | 0 <= i < |es| :: Guarded(ParseDoc(f).root, WritesOf(es[i])))
  }

  // Of one edit with both keys, safe means no more than that it settles.
  lemma SafeIffSettles(f: File, e: HelmEdit)
    requires (forall i | 0 <= i < |f.docs| :: IsCanon(f.docs[i])) && e.nameKey != ""
    requires e.repository != "" && e.tag != "" && e.repository != e.tag && HelmOf(f, e).Edited?
    requires NoAlias(ParseDoc(f).root, SplitDots(e.nameKey)) && NoAlias(ParseDoc(f).root, SplitDots(e.tagKey))
    ensures var g := HelmOf(f, e).file;
            HelmSafe(f, [e]) <==> HelmOf(g, e) == Edited(g, false)
  {
    var root, p, q := ParseDoc(f).root, SplitDots(e.nameKey), SplitDots(e.tagKey);
    hide Diverge, WritesScalar, SplitDots, IsCanon, ParseDoc, NoAlias, PutAll;
    HelmSettlesIff(f, e.repository, e.tag, e.nameKey, e.tagKey);
    hide Helm;
    var all := AllWrites([e]);
    assert [e][0] == e && WritesOf(e) == [Write(p, e.repository), Write(q, e.tag)] && all == [WritesOf(e)];
    OneEdit(root, WritesOf(e));
    TwoKeys(root, Write(p, e.repository), Write(q, e.tag));
  }

  lemma TwoKeys(t: Tree, v: Write, w: Write)
    requires v.path != [] && w.path != []
    ensures Independent(t, [v, w]) <==> Diverge(t, v.path, w.path)
    ensures Guarded(t, [v, w]) <==> WritesScalar(t, v.path) && WritesScalar(t, w.path)
  {
    hide Diverge, WritesScalar;
    assert [v, w][0] == v && [v, w][1] == w;
  }

  lemma OneEdit(t: Tree, ws: seq<Write>)
    ensures ConflictFree(t, [ws]) <==> Independent(t, ws)
  {
    assert [ws][0] == ws;
  }

  // And of one that sets the tag alone.
  lemma TagSafeIffSettles(f: File, repository: string, tag: string, tagKey: string)
    requires (forall i | 0 <= i < |f.docs| :: IsCanon(f.docs[i])) && tag != "" && Helm(f, repository, tag, "", tagKey).Edited?
    requires NoAlias(ParseDoc(f).root, SplitDots(tagKey))
    ensures var g := Helm(f, repository, tag, "", tagKey).file;
            HelmSafe(f, [HelmEdit(repository, tag, "", tagKey)]) <==> Helm(g, repository, tag, "", tagKey) == Edited(g, false)
  {
    EditedWrites(f, HelmEdit(repository, tag, "", tagKey));
    HasTagKey(f, HelmEdit(repository, tag, "", tagKey));
    hide *;
    AllCanonFile(f);
    TagOnlySettlesIff(f, repository, tag, tagKey);
    TagSafe(f, repository, tag, tagKey);
  }

  lemma HasTagKey(f: File, e: HelmEdit)
    requires HelmOf(f, e).Edited?
    ensures e.tagKey != ""
  {}

  lemma AllCanonFile(f: File)
    requires forall i | 0 <= i < |f.docs| :: IsCanon(f.docs[i])
    ensures CanonFile(f)
  {
    hide IsCanon;
  }

  lemma TagSafe(f: File, repository: string, tag: string, tagKey: string)
    requires CanonFile(f) && ParseDoc(f).Parsed? && tagKey != ""
    ensures HelmSafe(f, [HelmEdit(repository, tag, "", tagKey)]) <==> WritesScalar(ParseDoc(f).root, SplitDots(tagKey))
  {
    hide CanonFile, ParseDoc, WritesScalar, SplitDots, Diverge;
    var e, root, q := HelmEdit(repository, tag, "", tagKey), ParseDoc(f).root, SplitDots(tagKey);
    assert [e][0] == e && WritesOf(e) == [Write(q, tag)] && AllWrites([e]) == [WritesOf(e)];
    OneEdit(root, WritesOf(e));
    OneGuard(root, Write(q, tag));
  }

  lemma OneGuard(t: Tree, w: Write)
    requires w.path != []
    ensures Guarded(t, [w]) <==> WritesScalar(t, w.path)
  {
    hide WritesScalar;
    assert [w][0] == w;
  }

  lemma {:induction false} PutAllCanon(t: Tree, ws: seq<Write>)
    requires IsCanon(t) && Independent(t, ws) && Guarded(t, ws) && PutAll(t, ws).Done?
    ensures IsCanon(PutAll(t, ws).tree)
    decreases |ws|
  {
    if ws != [] {
      hide Put, Get, Diverge, WritesScalar, Canon, IsCanon, Wf, KeysKept;
      CanonKeeps(t);
      WrittenLeaf(t, ws[0].path, ws[0].value);
      RestIndependent(t, ws);
      forall i | 1 <= i < |ws|
        ensures WritesScalar(Put(t, ws[0].path, ws[0].value).tree, ws[i].path) && ws[i] == ws[1..][i - 1]
      {
        DivergingUnaffected(t, ws[0].path, ws[0].value, ws[i].path, ws[i].value);
      }
      PutAllCanon(Put(t, ws[0].path, ws[0].value).tree, ws[1..]);
    }
  }

  // What one edit leaves in the file is the tree it computed, or the file as it was.
  lemma HelmRoot(f: File, e: HelmEdit)
    requires CanonFile(f) && ParseDoc(f).Parsed?
    requires Independent(ParseDoc(f).root, WritesOf(e)) && Guarded(ParseDoc(f).root, WritesOf(e))
    ensures var root, ws, g := ParseDoc(f).root, WritesOf(e), FileAfter(f, HelmOf(f, e));
            && CanonFile(g)
            && ParseDoc(g) == Parsed(if PutAll(root, ws).Done? then PutAll(root, ws).tree else root)
            && QuietResult(HelmOf(f, e)) == Quiet(root, ws)
  {
    hide Put, Get, Diverge, WritesScalar, Canon, IsCanon, Wf, KeysKept, SplitDots, PutAll;
    var root, ws := ParseDoc(f).root, WritesOf(e);
    RootIsCanon(f);
    NoWrites(root);
    if PutAll(root, ws).Done? {
      if PutAll(root, ws).changed {
        PutAllCanon(root, ws);
        RootStaysMapping(root, ws);
        CanonKeeps(PutAll(root, ws).tree);
        WriteThenParse(PutAll(root, ws).tree);
      } else {
        PutAllUnchanged(root, ws);
      }
    }
  }

  // After a safe edit both keys read back from the file, as scalars.
  lemma HelmReadsBack(f: File, e: HelmEdit, i: nat)
    requires HelmSafe(f, [e]) && HelmOf(f, e).Edited? && i < |WritesOf(e)|
    ensures var g, w := HelmOf(f, e).file, WritesOf(e)[i];
            && ParseDoc(g).Parsed?
            && var leaf := Get(ParseDoc(g).root, w.path);
               leaf.Some? && leaf.value.kind == Scalar && leaf.value.value == w.value
  {
    hide Put, Get, Diverge, WritesScalar, Canon, IsCanon, Wf, KeysKept, PutAll, WritesOf;
    var root, ws := ParseDoc(f).root, WritesOf(e);
    assert AllWrites([e])[0] == ws && [e][0] == e;
    HelmRoot(f, e);
    EditedWrites(f, e);
    RootIsCanon(f);
    CanonKeeps(root);
    var t' := PutAll(root, ws).tree;
    PutAllSettles(root, ws);
    PutAllGuarded(root, ws);
    PutThenGet(t', ws[i].path, ws[i].value);
  }

  // The values file says what the edit asks for.
  predicate HelmShows(f: File, e: HelmEdit)
  {
    && e.tagKey != "" && ParseDoc(f).Parsed?
    && (e.nameKey != "" ==> Reads(ParseDoc(f).root, SplitDots(e.nameKey), e.repository))
    && Reads(ParseDoc(f).root, SplitDots(e.tagKey), e.tag)
  }

  // On every file: nothing to do means that the file says so.
  lemma HelmUnchangedIffShows(f: File, e: HelmEdit)
    ensures HelmOf(f, e).Edited? && !HelmOf(f, e).changed <==> HelmShows(f, e)
  {
    hide Put, PutAll, Get, Reads, SplitDots, Canon;
    if e.tagKey != "" && ParseDoc(f).Parsed? {
      var root, q := ParseDoc(f).root, SplitDots(e.tagKey);
      UnchangedIffReads(root, q, e.tag);
      if e.nameKey != "" {
        var p := SplitDots(e.nameKey);
        assert HelmWrites(e.repository, e.tag, e.nameKey, e.tagKey) == [Write(p, e.repository), Write(q, e.tag)];
        UnchangedIffReads(root, p, e.repository);
        PutAllTwo(root, Write(p, e.repository), Write(q, e.tag));
        if Put(root, p, e.repository).Done? { ChangedIffDifferent(root, p, e.repository); }
      } else {
        assert HelmWrites(e.repository, e.tag, e.nameKey, e.tagKey) == [Write(q, e.tag)];
        PutAllStep(root, [Write(q, e.tag)]);
      }
    }
  }

  lemma EditedWrites(f: File, e: HelmEdit)
    requires HelmOf(f, e).Edited?
    ensures ParseDoc(f).Parsed? && PutAll(ParseDoc(f).root, WritesOf(e)).Done?
  {}

  lemma NoWrites(t: Tree)
    ensures PutAll(t, []) == Done(t, false)
  {}

  // One edit of a safe set: the set stays safe, the edit itself has nothing left to do, and
  // every other edit comes to the same as before, and has as much left to do unless the two
  // share a write.
  lemma HelmStep(f: File, es: seq<HelmEdit>, m: nat)
    requires HelmSafe(f, es) && m < |es|
    ensures var g := FileAfter(f, HelmOf(f, es[m]));
            && HelmSafe(g, es)
            && QuietResult(HelmOf(g, es[m]))
            && (forall k | 0 <= k < |es| && QuietResult(HelmOf(f, es[k])) :: QuietResult(HelmOf(g, es[k])))
            && (forall k | 0 <= k < |es| && k != m && (forall w | w in WritesOf(es[k]) :: w !in WritesOf(es[m])) ::
                  QuietResult(HelmOf(g, es[k])) == QuietResult(HelmOf(f, es[k])))
            && (forall k | 0 <= k < |es| :: HelmOf(g, es[k]).EditFailed? == HelmOf(f, es[k]).EditFailed?)
  {
    hide Put, Get, Diverge, WritesScalar, Canon, IsCanon, Wf, KeysKept, SplitDots, PutAll, HelmWrites, Quiet, QuietResult,
         Guarded, Helm, ParseDoc;
    if ParseDoc(f).Parsed? {
      var root := ParseDoc(f).root;
      var all := AllWrites(es);
      var g := FileAfter(f, HelmOf(f, es[m]));
      RootIsCanon(f);
      CanonKeeps(root);
      HelmRoot(f, es[m]);
      var root' := ParseDoc(g).root;
      if PutAll(root, all[m]).Done? {
        ConflictFreeKept(root, all, m);
        QuietAfter(root, all[m]);
      } else {
        FailedIsQuiet(root, all[m]);
      }
      forall k | 0 <= k < |es|
        ensures Guarded(root', all[k])
        ensures Quiet(root, all[k]) ==> Quiet(root', all[k])
        ensures k != m && (forall w | w in all[k] :: w !in all[m]) ==> Quiet(root', all[k]) == Quiet(root, all[k])
        ensures PutAll(root', all[k]).Done? == PutAll(root, all[k]).Done?
      {
        if PutAll(root, all[m]).Done? {
          if k == m {
            PutAllGuarded(root, all[m]);
            AgainDone(root, all[m]);
          } else {
            assert Separate(root, all[m], all[k]);
            FateKept(root, all[m], all[k]);
            GuardsKept(root, all[m], all[k]);
          }
        }
      }
      forall k | 0 <= k < |es|
        ensures QuietResult(HelmOf(f, es[k])) == Quiet(root, all[k])
        ensures QuietResult(HelmOf(g, es[k])) == Quiet(root', all[k])
        ensures HelmOf(g, es[k]).EditFailed? == HelmOf(f, es[k]).EditFailed?
      {
        HelmRoot(f, es[k]);
        HelmRoot(g, es[k]);
        HelmFails(f, es[k]);
        HelmFails(g, es[k]);
      }
    } else {
      UnreadableQuiet(f, es);
    }
  }

  lemma HelmFails(f: File, e: HelmEdit)
    ensures HelmOf(f, e).EditFailed?
       <==> e.tagKey == "" || ParseDoc(f).Unreadable? || PutAll(ParseDoc(f).root, WritesOf(e)).Failed?
  {}

  lemma AgainDone(t: Tree, ws: seq<Write>)
    requires Wf(t) && Independent(t, ws) && PutAll(t, ws).Done?
    ensures PutAll(PutAll(t, ws).tree, ws).Done?
  {
    hide Put, Diverge, Wf, PutAll;
    PutAllSettles(t, ws);
    PutAllOutcome(PutAll(t, ws).tree, ws);
  }

  lemma UnreadableQuiet(f: File, es: seq<HelmEdit>)
    requires ParseDoc(f).Unreadable?
    ensures forall k | 0 <= k < |es| :: HelmOf(f, es[k]).EditFailed? && QuietResult(HelmOf(f, es[k]))
  {}

  lemma GuardsKept(t: Tree, ws: seq<Write>, vs: seq<Write>)
    requires Wf(t) && Independent(t, ws) && PutAll(t, ws).Done? && Guarded(t, ws) && Guarded(t, vs) && Separate(t, ws, vs)
    ensures Guarded(PutAll(t, ws).tree, vs)
  {
    hide Put, Get, Diverge, WritesScalar, Wf, PutAll;
    PutAllGuarded(t, ws);
    forall i | 0 <= i < |vs|
      ensures WritesScalar(PutAll(t, ws).tree, vs[i].path)
    {
      assert Fits(t, vs[i], ws);
      if vs[i] !in ws { PutAllKeeps(t, ws, vs[i].path, vs[i].path, ""); }
    }
  }
}
