// Dotted keys, and a values edit told by the parts of its keys:
// internal/gitwriteback/edit.go:67-92.
module KeyTexts {
  import opened ImageRef
  import opened YamlTree
  import opened YamlPath
  import opened YamlWrites
  import opened YamlFile
  import opened HelmTarget
  import opened PathTexts

  function JoinDots(parts: seq<string>): string
  {
    if parts == [] then ""
    else if |parts| == 1 then parts[0]
    else parts[0] + "." + JoinDots(parts[1..])
  }

  // Parts of a dotted key: at least one, and none with a dot of its own.
  predicate Parts(parts: seq<string>) { parts != [] && forall i | 0 <= i < |parts| :: '.' !in parts[i] }

  lemma SplitFirst(first: string, rest: string)
    requires '.' !in first
    ensures SplitDots(first) == [first]
    ensures SplitDots(first + "." + rest) == [first] + SplitDots(rest)
  {
    var key := first + "." + rest;
    assert IndexOf(first, '.') < 0;
    assert key[|first|] == '.' && key[..|first|] == first && key[|first| + 1..] == rest;
    assert forall k | 0 <= k < |first| :: key[k] == first[k];
    FirstIndexIs(key, '.', |first|);
    hide IndexOf;
  }

  lemma JoinFirst(first: string, rest: seq<string>)
    requires '.' !in first
    ensures JoinDots([first]) == first && Parts([first])
    ensures rest != [] ==> JoinDots([first] + rest) == first + "." + JoinDots(rest)
    ensures Parts(rest) ==> Parts([first] + rest)
  {
    assert ([first] + rest)[1..] == rest;
  }

  // The parts joined again are the key.
  lemma {:induction false} SplitThenJoin(key: string)
    ensures Parts(SplitDots(key)) && JoinDots(SplitDots(key)) == key
    decreases |key|
  {
    hide SplitDots, JoinDots, Parts, IndexOf;
    var i := IndexOf(key, '.');
    if i < 0 {
      SplitFirst(key, "");
      JoinFirst(key, []);
    } else {
      var first, rest := key[..i], key[i + 1..];
      assert key == first + "." + rest && '.' !in first;
      SplitThenJoin(rest);
      SplitFirst(first, rest);
      JoinFirst(first, SplitDots(rest));
    }
  }

  // And a key joined from parts splits into them.
  lemma {:induction false} JoinThenSplit(parts: seq<string>)
    requires Parts(parts)
    ensures SplitDots(JoinDots(parts)) == parts
    decreases |parts|
  {
    hide SplitDots;
    if |parts| == 1 {
      SplitFirst(parts[0], "");
    } else {
      JoinThenSplit(parts[1..]);
      SplitFirst(parts[0], JoinDots(parts[1..]));
      assert parts == [parts[0]] + parts[1..];
    }
  }

  // ---- The values edit ----------------------------------------------------------

  lemma WritesInTexts(repository: string, tag: string, names: seq<string>, tags: seq<string>)
    requires Parts(names) && Parts(tags)
    ensures HelmWrites(repository, tag, "", JoinDots(tags)) == [Write(tags, tag)]
    ensures JoinDots(names) != "" ==>
      HelmWrites(repository, tag, JoinDots(names), JoinDots(tags)) == [Write(names, repository), Write(tags, tag)]
  {
    JoinThenSplit(names);
    JoinThenSplit(tags);
  }

  // One write, and what it reports.
  lemma OnePut(t: Tree, path: seq<string>, v: string, u: Tree)
    requires WrittenAt(t, path, v, u)
    ensures Put(t, path, v) == Done(u, u != t)
  {
    hide Put, WrittenAt;
    PutInTexts(t, path, v, u);
    ChangedIffDifferent(t, path, v);
  }

  // With a name key: the repository is written along its parts, then the tag along its own;
  // the file is the tree that results, or untouched when neither write changed anything.
  lemma HelmInTexts(f: File, repository: string, tag: string, names: seq<string>, tags: seq<string>, mid: Tree, after: Tree)
    requires Parts(names) && Parts(tags) && JoinDots(names) != "" && JoinDots(tags) != "" && ParseDoc(f).Parsed?
    requires WrittenAt(ParseDoc(f).root, names, repository, mid) && WrittenAt(mid, tags, tag, after)
    ensures Helm(f, repository, tag, JoinDots(names), JoinDots(tags))
         == if mid == ParseDoc(f).root && after == mid then Edited(f, false) else Edited(WriteDoc(after), true)
  {
    hide Put, PutAll, WrittenAt, JoinDots, Parts, SplitDots, Canon, ParseDoc, HelmWrites;
    WritesInTexts(repository, tag, names, tags);
    OnePut(ParseDoc(f).root, names, repository, mid);
    OnePut(mid, tags, tag, after);
    PutAllTwo(ParseDoc(f).root, Write(names, repository), Write(tags, tag));
  }

  // Without one, the tag alone.
  lemma TagInTexts(f: File, repository: string, tag: string, tags: seq<string>, after: Tree)
    requires Parts(tags) && JoinDots(tags) != "" && ParseDoc(f).Parsed?
    requires WrittenAt(ParseDoc(f).root, tags, tag, after)
    ensures Helm(f, repository, tag, "", JoinDots(tags))
         == if after == ParseDoc(f).root then Edited(f, false) else Edited(WriteDoc(after), true)
  {
    hide Put, PutAll, WrittenAt, JoinDots, Parts, SplitDots, Canon, ParseDoc, HelmWrites;
    WritesInTexts(repository, tag, tags, tags);
    OnePut(ParseDoc(f).root, tags, tag, after);
    PutAllStep(ParseDoc(f).root, [Write(tags, tag)]);
  }

  // A key that is blocked leaves no file at all, whichever of the two it is.
  lemma HelmFailsInTexts(f: File, repository: string, tag: string, names: seq<string>, tags: seq<string>, mid: Tree, e: PathError)
    requires Parts(names) && Parts(tags) && JoinDots(names) != "" && JoinDots(tags) != "" && ParseDoc(f).Parsed?
    ensures Blocked(ParseDoc(f).root, tags, e) ==> Helm(f, repository, tag, "", JoinDots(tags)) == EditFailed(BadPath(e))
    ensures Blocked(ParseDoc(f).root, names, e) ==>
      Helm(f, repository, tag, JoinDots(names), JoinDots(tags)) == EditFailed(BadPath(e))
    ensures WrittenAt(ParseDoc(f).root, names, repository, mid) && Blocked(mid, tags, e) ==>
      Helm(f, repository, tag, JoinDots(names), JoinDots(tags)) == EditFailed(BadPath(e))
  {
    hide Put, PutAll, WrittenAt, Blocked, JoinDots, Parts, SplitDots, Canon, ParseDoc, HelmWrites;
    var root := ParseDoc(f).root;
    WritesInTexts(repository, tag, names, tags);
    FailureInTexts(root, tags, tag, e);
    FailureInTexts(root, names, repository, e);
    FailureInTexts(mid, tags, tag, e);
    PutAllStep(root, [Write(tags, tag)]);
    PutAllTwo(root, Write(names, repository), Write(tags, tag));
    if WrittenAt(root, names, repository, mid) { OnePut(root, names, repository, mid); }
  }

  // After a safe edit the file, read along the parts, gives the repository and the tag.
  lemma HelmReadsInTexts(f: File, repository: string, tag: string, nameKey: string, tags: seq<string>)
    requires Parts(tags) && JoinDots(tags) != ""
    requires var e := HelmEdit(repository, tag, nameKey, JoinDots(tags));
             HelmSafe(f, [e]) && HelmOf(f, e).Edited?
    ensures var g := Helm(f, repository, tag, nameKey, JoinDots(tags)).file;
            && ParseDoc(g).Parsed?
            && (exists leaf :: Arrives(ParseDoc(g).root, tags, leaf) && leaf.kind == Scalar && leaf.value == tag)
            && forall names | Parts(names) && nameKey == JoinDots(names) && nameKey != "" ::
                 exists leaf :: Arrives(ParseDoc(g).root, names, leaf) && leaf.kind == Scalar && leaf.value == repository
  {
    hide Helm, HelmSafe, Get, Arrives, JoinDots, Parts, SplitDots, Canon, ParseDoc;
    var e := HelmEdit(repository, tag, nameKey, JoinDots(tags));
    var g := HelmOf(f, e).file;
    JoinThenSplit(tags);
    var n := |WritesOf(e)|;
    HelmReadsBack(f, e, n - 1);
    GetInTexts(ParseDoc(g).root, tags, Get(ParseDoc(g).root, tags).value);
    forall names | Parts(names) && nameKey == JoinDots(names) && nameKey != ""
      ensures exists leaf :: Arrives(ParseDoc(g).root, names, leaf) && leaf.kind == Scalar && leaf.value == repository
    {
      JoinThenSplit(names);
      HelmReadsBack(f, e, 0);
      GetInTexts(ParseDoc(g).root, names, Get(ParseDoc(g).root, names).value);
    }
  }
}
