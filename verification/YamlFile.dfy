// A YAML file as the editor sees it: internal/gitwriteback/edit.go:177-233. Text is not
// modelled; what survives being written out and read back is.
module YamlFile {
  import opened Text
  import opened YamlTree
  import opened YamlPath
  import opened YamlNodes
  import opened YamlEdit

  // The documents of a file, up to the point where the parser gives up, if it does; and
  // whether its text is the encoder's own, that is, what writing the documents out gives.
  // Two files of the encoder's own with the same documents are the same bytes.
  datatype File = File(docs: seq<Tree>, broken: bool, own: bool)

  datatype FileError = Unparsable | EmptyDocument | NotAMapping

  datatype ParseResult = Parsed(root: Tree) | Unreadable(error: FileError)

  predicate Leaf(k: Kind) { k == Scalar || k == Alias }

  // What is left of a node tree after marshalling and parsing: text only on scalars and
  // aliases, content only on the others, keys only with their values.
  function Canon(t: Tree): Tree
  {
    Tree(t.kind, t.tag, if Leaf(t.kind) then t.value else "",
         seq(Written(t.kind, |t.content|), i requires 0 <= i < Written(t.kind, |t.content|) => Canon(t.content[i])))
  }

  // How many of n children are written out.
  function Written(k: Kind, n: nat): (m: nat)
    ensures m <= n
  {
    if Leaf(k) then 0 else if k == Mapping then n - n % 2 else n
  }

  // A tree that came out of the parser.
  predicate IsCanon(t: Tree)
  {
    && (Leaf(t.kind) ==> t.content == [])
    && (!Leaf(t.kind) ==> t.value == "")
    && (t.kind == Mapping ==> |t.content| % 2 == 0)
    && forall i | 0 <= i < |t.content| :: IsCanon(t.content[i])
  }

  ghost predicate CanonFile(f: File) { forall i | 0 <= i < |f.docs| :: IsCanon(f.docs[i]) }

  lemma {:induction false} CanonIsCanon(t: Tree)
    ensures IsCanon(Canon(t))
  {
    forall i | 0 <= i < |t.content|
      ensures IsCanon(Canon(t.content[i]))
    {
      CanonIsCanon(t.content[i]);
    }
  }

  lemma {:induction false} CanonKeeps(t: Tree)
    requires IsCanon(t)
    ensures Canon(t) == t && Wf(t)
  {
    forall i | 0 <= i < |t.content|
      ensures Canon(t.content[i]) == t.content[i] && Wf(t.content[i])
    {
      CanonKeeps(t.content[i]);
    }
    assert Canon(t).content == t.content;
  }

  // Marshalling what was put under a canonical container marshals the child.
  lemma CanonOfChild(t: Tree, a: string, u: Tree)
    requires IsCanon(t) && CanStep(t, a)
    ensures Canon(PutChild(t, a, u)) == PutChild(t, a, Canon(u))
    ensures IsCanon(Child(t, a))
  {
    CanonKeeps(t);
    var t' := PutChild(t, a, u);
    assert Canon(Str(a)) == Str(a);
    forall i | 0 <= i < |t.content|
      ensures Canon(t.content[i]) == t.content[i]
    {
      CanonKeeps(t.content[i]);
    }
    assert |t'.content| % 2 == 0 || t.kind == Sequence;
    assert Canon(t').content == PutChild(t, a, Canon(u)).content;
  }

  // A write whose guard holds survives; any other is lost again at its leaf. Nothing is said
  // of an alias: its new text is the name of an anchor that need not exist.
  lemma {:induction false} PutSurvives(t: Tree, path: seq<string>, v: string)
    requires IsCanon(t) && Put(t, path, v).Done?
    ensures WritesScalar(t, path) ==> IsCanon(Put(t, path, v).tree)
    ensures Get(Canon(Put(t, path, v).tree), path).Some?
    ensures var leaf := Get(Put(t, path, v).tree, path);
            leaf.Some?
            && (leaf.value.kind != Alias ==> Get(Canon(Put(t, path, v).tree), path) == Some(Canon(leaf.value)))
    decreases |path|
  {
    hide CanStep, PutChild, Apart, Wf, Lookup;
    CanonKeeps(t);
    var u := PutBelow(t, path, v).tree;
    CanonOfChild(t, path[0], u);
    PutChildStep(t, path[0], u, path[0]);
    PutChildStep(t, path[0], Canon(u), path[0]);
    NeverApart(t, path[0]);
    if |path| > 1 {
      PutSurvives(Child(t, path[0]), path[1..], v);
      if WritesScalar(t, path) { PutChildCanon(t, path[0], u); }
    } else {
      KindOfStep(t, path[0]);
      if WritesScalar(t, path) { PutChildCanon(t, path[0], u); }
    }
  }

  lemma PutChildCanon(t: Tree, a: string, u: Tree)
    requires IsCanon(t) && CanStep(t, a) && IsCanon(u)
    ensures IsCanon(PutChild(t, a, u))
  {
    CanonOfChild(t, a, u);
    CanonKeeps(u);
    CanonIsCanon(PutChild(t, a, u));
  }

  // No key is lost in writing: keys are scalars, aliases, or have no text to lose.
  predicate KeysKept(t: Tree)
  {
    && (forall i | 0 <= i < |t.content| :: KeysKept(t.content[i]))
    && (t.kind == Mapping ==>
          forall i | 0 <= i < |t.content| && i % 2 == 0 :: Leaf(t.content[i].kind) || t.content[i].value == "")
  }

  lemma {:induction false} CanonKeepsKeys(t: Tree)
    requires IsCanon(t)
    ensures KeysKept(t)
  {
    forall i | 0 <= i < |t.content|
      ensures KeysKept(t.content[i])
    {
      CanonKeepsKeys(t.content[i]);
    }
  }

  lemma PutChildKeys(t: Tree, a: string, u: Tree)
    requires Wf(t) && CanStep(t, a) && KeysKept(t)
    ensures KeysKept(Child(t, a))
    ensures KeysKept(u) ==> KeysKept(PutChild(t, a, u))
  {
    assert KeysKept(Str(a));
    assert KeysKept(EMPTY_MAP);
    var t' := PutChild(t, a, u);
    if KeysKept(u) {
      forall i | 0 <= i < |t'.content|
        ensures KeysKept(t'.content[i])
      {}
    }
  }

  lemma {:induction false} PutKeepsKeys(t: Tree, path: seq<string>, v: string)
    requires Wf(t) && KeysKept(t) && Put(t, path, v).Done?
    ensures KeysKept(Put(t, path, v).tree)
    decreases |path|
  {
    var u := PutBelow(t, path, v).tree;
    PutChildWf(t, path[0], EMPTY_MAP);
    PutChildKeys(t, path[0], u);
    if |path| > 1 {
      PutKeepsKeys(Child(t, path[0]), path[1..], v);
    } else {
      KindOfStep(t, path[0]);
      assert KeysKept(Str(v));
    }
  }

  lemma CanonKeyText(t: Tree, i: nat)
    requires t.kind == Mapping && Wf(t) && KeysKept(t) && i < |t.content|
    ensures |Canon(t).content| == |t.content|
    ensures i % 2 == 0 ==> Canon(t).content[i].value == t.content[i].value
  {}

  lemma {:induction false} CanonKeyFrom(t: Tree, key: string, i: nat)
    requires t.kind == Mapping && Wf(t) && KeysKept(t) && i % 2 == 0
    ensures KeyFrom(Canon(t).content, key, i) == KeyFrom(t.content, key, i)
    decreases |t.content| - i
  {
    hide Canon, Wf, KeysKept;
    if i < |t.content| {
      CanonKeyText(t, i);
      CanonKeyFrom(t, key, i + 2);
    } else {
      assert |Canon(t).content| <= |t.content| by { CanonLength(t); }
    }
  }

  lemma CanonLength(t: Tree)
    ensures |Canon(t).content| <= |t.content|
  {}

  // Segments lead to the same places in what is written out.
  lemma CanonStep(t: Tree, a: string)
    requires Wf(t) && KeysKept(t)
    ensures Canon(t).kind == t.kind && Step(Canon(t), a) == Step(t, a) && CanStep(Canon(t), a) == CanStep(t, a)
    ensures Child(Canon(t), a) == Canon(Child(t, a))
  {
    if t.kind == Mapping { CanonKeyFrom(t, a, 0); }
  }

  lemma CanonApart(t: Tree, a: string, b: string)
    requires Wf(t) && KeysKept(t)
    ensures Apart(Canon(t), a, b) == Apart(t, a, b)
  {
    CanonStep(t, a);
    CanonStep(t, b);
  }

  // Paths resolve to the written form of what they resolved to, and meet as they met.
  lemma {:induction false} CanonPaths(t: Tree, p: seq<string>, q: seq<string>)
    requires Wf(t) && KeysKept(t)
    ensures Get(Canon(t), p) == if Get(t, p).None? then None else Some(Canon(Get(t, p).value))
    ensures Diverge(Canon(t), p, q) == Diverge(t, p, q)
    decreases |p|
  {
    hide Step, CanStep, Child, Apart, Canon, Wf, KeysKept, PutChild;
    if p != [] {
      CanonStep(t, p[0]);
      if CanStep(t, p[0]) {
        PutChildWf(t, p[0], EMPTY_MAP);
        PutChildKeys(t, p[0], EMPTY_MAP);
        CanonPaths(Child(t, p[0]), p[1..], if q == [] then [] else q[1..]);
      } else {
        StepNeeds(t, p[0]);
      }
      if q != [] { CanonApart(t, p[0], q[0]); }
    }
  }

  lemma StepNeeds(t: Tree, a: string)
    ensures Step(t, a).Some? ==> CanStep(t, a)
  {}

  // ---- Reading and writing files ------------------------------------------------

  function Doc(root: Tree): Tree { Tree(Document, "", "", [root]) }

  // yaml.Unmarshal stops after the first document.
  function ParseDoc(f: File): ParseResult
  {
    if f.docs == [] then Unreadable(if f.broken then Unparsable else EmptyDocument)
    else if f.docs[0].content == [] then Unreadable(EmptyDocument)
    else if f.docs[0].content[0].kind != Mapping then Unreadable(NotAMapping)
    else Parsed(f.docs[0].content[0])
  }

  lemma ParsedIsMapping(f: File)
    requires ParseDoc(f).Parsed?
    ensures ParseDoc(f).root.kind == Mapping
  {}

  function WriteDoc(root: Tree): File { File([Canon(Doc(root))], false, true) }

  lemma WriteThenParse(root: Tree)
    requires root.kind == Mapping
    ensures ParseDoc(WriteDoc(root)) == Parsed(Canon(root))
    ensures CanonFile(WriteDoc(root))
  {
    CanonIsCanon(Doc(root));
  }

  lemma CanonOfDoc(root: Tree)
    ensures Canon(Doc(root)) == Doc(Canon(root))
  {
    assert Canon(Doc(root)).content == [Canon(root)];
  }

  datatype EditError = NoTagKey | BadFile(reason: FileError) | BadPath(at: PathError)

  datatype EditResult = Edited(file: File, changed: bool) | EditFailed(error: EditError)

  // marshalIfChanged: an unchanged file keeps its own text.
  function MarshalIfChanged(f: File, root: Tree, changed: bool): EditResult
  {
    if changed then Edited(WriteDoc(root), true) else Edited(f, false)
  }

  // The parser: fresh nodes for a tree.
  method Build(t: Tree) returns (n: Node, ghost s: Shape)
    ensures s.node == n && Valid(s) && View(s) == t
    ensures forall m | m in Footprint(s) :: fresh(m) && allocated(m)
    decreases t, 1
  {
    var ns;
    ghost var ks;
    ns, ks := BuildAll(t.content);
    ShapesAllocated(ks);
    n := new Node(t.kind, t.tag, t.value, ns);
    s := Shape(n, ks);
    Closed(s);
  }

  method BuildAll(ts: seq<Tree>) returns (ns: seq<Node>, ghost ks: seq<Shape>)
    ensures ns == NodesOf(ks) && ValidAll(ks) && ViewAll(ks) == ts
    ensures forall m | m in FootprintAll(ks) :: fresh(m) && allocated(m)
    decreases ts, 0
  {
    if ts == [] {
      return [], [];
    }
    var n;
    ghost var s;
    n, s := Build(ts[0]);
    ShapeAllocated(s);
    ns, ks := BuildAll(ts[1..]);
    assert ts == [ts[0]] + ts[1..];
    AppendShapes([s], ks);
    One(s);
    return [n] + ns, [s] + ks;
  }

  lemma KidOpened(s: Shape, i: nat)
    requires Valid(s) && i < |s.kids|
    ensures Valid(s.kids[i]) && s.kids[i].node == s.node.content[i]
    ensures i < |View(s).content| && View(s.kids[i]) == View(s).content[i]
  {
    hide ValidAll, ViewAll, FootprintAll;
    SplitShapes(s.kids, i);
    ViewAt(s.kids, i);
  }

  lemma CanonFrom(t: Tree, content: seq<Tree>)
    requires |content| == Written(t.kind, |t.content|)
    requires forall k | 0 <= k < |content| :: content[k] == Canon(t.content[k])
    ensures Canon(t) == Tree(t.kind, t.tag, if Leaf(t.kind) then t.value else "", content)
  {
    assert Canon(t).content == content;
  }

  // The encoder: what a node tree is written out as.
  method Encode(n: Node, ghost s: Shape) returns (t: Tree)
    requires Valid(s) && s.node == n
    ensures t == Canon(View(s))
    decreases s
  {
    hide Valid, View, Canon, Written, ValidAll, ViewAll, FootprintAll, Footprint;
    Opened(s);
    ShapeAllocated(s);
    ghost var v := View(s);
    var content: seq<Tree> := [];
    var count := Written(n.kind, |n.content|);
    for i := 0 to count
      invariant Valid(s) && View(s) == v && |content| == i
      invariant forall k | 0 <= k < i :: content[k] == Canon(v.content[k])
    {
      KidOpened(s, i);
      ShapeAllocated(s.kids[i]);
      var c := Encode(n.content[i], s.kids[i]);
      content := content + [c];
    }
    CanonFrom(v, content);
    t := Tree(n.kind, n.tag, if Leaf(n.kind) then n.value else "", content);
  }
}
