// The in-place editor: internal/gitwriteback/edit.go:235-325, each method proved against
// the pure meaning of YamlTree and YamlPath.
module YamlEdit {
  import opened Text
  import opened YamlTree
  import opened YamlPath
  import opened YamlNodes

  datatype Outcome = Ok(changed: bool) | Error(error: PathError)

  lemma KeyText(s: Shape, i: nat)
    requires Valid(s) && (i < |s.kids| || i < |s.node.content|)
    ensures |View(s).content| == |s.node.content| == |s.kids|
    ensures View(s).content[i].value == s.node.content[i].value
    ensures s.node.content[i] == s.kids[i].node
  {
    hide ViewAll, ValidAll, FootprintAll;
    ViewAt(s.kids, i);
  }

  // The node under a mapping key, or null; j is its position in the content.
  method MappingValue(node: Node, ghost s: Shape, key: string) returns (r: Node?, ghost j: nat)
    requires Valid(s) && s.node == node
    ensures Lookup(View(s), key).None? <==> r == null
    ensures r != null ==> Lookup(View(s), key) == Some(j) && j < |s.kids| && r == s.kids[j].node
  {
    j := 0;
    assert View(s).kind == node.kind;
    if node.kind != Mapping {
      return null, j;
    }
    ShapeAllocated(s);
    var i := 0;
    assert |View(s).content| == |node.content|;
    while i + 1 < |node.content|
      invariant Lookup(View(s), key) == KeyFrom(View(s).content, key, i)
      decreases |node.content| - i
    {
      hide Valid, View;
      KeyText(s, i);
      KeyText(s, i + 1);
      if node.content[i].value == key {
        return node.content[i + 1], i + 1;
      }
      i := i + 2;
    }
    return null, j;
  }

  lemma Opened(s: Shape)
    requires Valid(s)
    ensures ValidAll(s.kids) && s.node !in FootprintAll(s.kids)
    ensures Footprint(s) == {s.node} + FootprintAll(s.kids)
    ensures s.node.content == NodesOf(s.kids) && |View(s).content| == |s.kids|
    ensures View(s) == Tree(s.node.kind, s.node.tag, s.node.value, ViewAll(s.kids))
  {}

  lemma Closed(s: Shape)
    requires ValidAll(s.kids) && s.node !in FootprintAll(s.kids) && s.node.content == NodesOf(s.kids)
    ensures Valid(s)
    ensures Footprint(s) == {s.node} + FootprintAll(s.kids)
    ensures View(s) == Tree(s.node.kind, s.node.tag, s.node.value, ViewAll(s.kids))
  {}

  lemma ReplaceKid(ks: seq<Shape>, j: nat, u: Shape)
    requires j < |ks| && ValidAll(ks) && Valid(u) && Footprint(u) !! FootprintAll(ks)
    ensures ValidAll(ks[j := u])
    ensures ViewAll(ks[j := u]) == ViewAll(ks)[j := View(u)]
    ensures FootprintAll(ks[j := u]) <= FootprintAll(ks) + Footprint(u)
    ensures NodesOf(ks[j := u]) == NodesOf(ks)[j := u.node]
  {
    hide *;
    SplitShapes(ks, j);
    var a, b := ks[..j], ks[j + 1..];
    assert ks[j := u][..j] == a && ks[j := u][j + 1..] == b;
    SplitShapes(ks[j := u], j);
    assert ViewAll(ks)[j := View(u)] == ViewAll(a) + [View(u)] + ViewAll(b);
    assert NodesOf(ks)[j := u.node] == NodesOf(a) + [u.node] + NodesOf(b);
  }

  lemma AppendPair(ks: seq<Shape>, k: Shape, u: Shape)
    requires ValidAll(ks) && Valid(k) && Valid(u)
    requires Footprint(u) !! FootprintAll(ks) && Footprint(k) !! FootprintAll(ks) && Footprint(k) !! Footprint(u)
    ensures ValidAll(ks + [k, u])
    ensures ViewAll(ks + [k, u]) == ViewAll(ks) + [View(k), View(u)]
    ensures FootprintAll(ks + [k, u]) == FootprintAll(ks) + Footprint(k) + Footprint(u)
    ensures NodesOf(ks + [k, u]) == NodesOf(ks) + [k.node, u.node]
  {
    AppendShapes(ks, [k] + [u]);
    AppendShapes([k], [u]);
    One(k);
    One(u);
    assert [k] + [u] == [k, u];
  }

  // Replaces the value of a key, or appends the key with its value.
  method SetMappingValue(node: Node, ghost s: Shape, key: string, val: Node, ghost vs: Shape)
    returns (ghost s': Shape)
    requires Valid(s) && s.node == node && node.kind == Mapping
    requires Valid(vs) && vs.node == val && Footprint(vs) !! Footprint(s)
    modifies node
    ensures Valid(s') && s'.node == node
    ensures View(s') == PutChild(old(View(s)), key, View(vs)) && View(vs) == old(View(vs))
    ensures forall n | n in Footprint(s') :: n in Footprint(s) || n in Footprint(vs) || fresh(n)
    ensures Lookup(old(View(s)), key).None? ==> |s'.kids| == |s.kids| + 2 && s'.kids[|s.kids| + 1] == vs
  {
    hide *;
    ghost var t, ks := View(s), s.kids;
    ShapeAllocated(s);
    ShapeAllocated(vs);
    Opened(s);
    var i := 0;
    LookupStarts(t, key);
    while i + 1 < |node.content|
      invariant unchanged(node)
      invariant Lookup(t, key) == KeyFrom(t.content, key, i)
      decreases |node.content| - i
    {
      KeyText(s, i);
      KeyFromStep(t.content, key, i);
      if node.content[i].value == key {
        ReplaceKid(ks, i + 1, vs);
        node.content := node.content[i + 1 := val];
        s' := Shape(node, ks[i + 1 := vs]);
        Closed(s');
        PutChildAt(t, key, View(vs));
        return;
      }
      i := i + 2;
    }
    KeyFromStep(t.content, key, i);
    var k, kshape := NewScalar(key);
    AppendPair(ks, kshape, vs);
    node.content := node.content + [k, val];
    s' := Shape(node, ks + [kshape, vs]);
    Closed(s');
    AppendPair(ks, kshape, vs);
    PutChildAt(t, key, View(vs));
  }

  lemma KeyFromStep(c: seq<Tree>, key: string, i: nat)
    ensures i + 1 >= |c| ==> KeyFrom(c, key, i) == None
    ensures i + 1 < |c| ==> KeyFrom(c, key, i) == if c[i].value == key then Some(i + 1) else KeyFrom(c, key, i + 2)
  {}

  lemma LookupStarts(t: Tree, key: string)
    requires t.kind == Mapping
    ensures Lookup(t, key) == KeyFrom(t.content, key, 0)
  {}

  lemma PutChildAt(t: Tree, key: string, u: Tree)
    requires t.kind == Mapping
    ensures PutChild(t, key, u)
         == t.(content := if Lookup(t, key).Some? then t.content[Lookup(t, key).value := u]
                          else t.content + [Str(key), u])
  {}

  lemma LeafShape(s: Shape)
    requires s.kids == [] && s.node.content == []
    ensures Valid(s) && Footprint(s) == {s.node}
    ensures View(s) == Tree(s.node.kind, s.node.tag, s.node.value, [])
  {}

  method NewScalar(value: string) returns (n: Node, ghost s: Shape)
    ensures fresh(n) && s.node == n && Valid(s) && View(s) == Str(value) && Footprint(s) == {n}
  {
    n := new Node(Scalar, STR, value, []);
    s := Shape(n, []);
  }

  lemma NoContext(t: Tree)
    ensures Rim([]) == {} && Plug([], t) == t
    ensures forall hole :: Around([], hole)
  {}

  // A child filled back into the frame it was taken from.
  lemma Refill(s: Shape, j: nat)
    requires j < |s.kids| && Around([FrameOf(s, j)], s.kids[j].node)
    requires Valid(s.kids[j]) && Footprint(s.kids[j]) !! Rim([FrameOf(s, j)])
    ensures Valid(s) && View(s) == Plug([FrameOf(s, j)], View(s.kids[j]))
  {
    hide View, Plug, Valid, Footprint, Rim, Around;
    assert [FrameOf(s, j)][..0] == [];
    assert s.kids == s.kids[..j] + [s.kids[j]] + s.kids[j + 1..];
    Rebuilt([FrameOf(s, j)], s.kids[j]);
    assert Rebuild([FrameOf(s, j)], s.kids[j]) == s;
  }

  // Overwrites the text of one child in place.
  method WriteChild(cur: Node, ghost s: Shape, ghost j: nat, value: string)
    requires Valid(s) && j < |s.kids| && s.kids[j].node == cur
    modifies cur
    ensures Valid(s)
    ensures j < |old(View(s)).content|
    ensures View(s) == WithChild(old(View(s)), j, old(View(s)).content[j].(value := value, tag := STR))
  {
    hide *;
    ghost var t, k := View(s), s.kids[j];
    NoContext(t);
    Descend([], s, j);
    Opened(k);
    ShapeAllocated(s);
    ghost var u := View(k).(value := value, tag := STR);
    Narrowed([], [] + [FrameOf(s, j)], t, j, u);
    NoContext(WithChild(t, j, u));
    assert [] + [FrameOf(s, j)] == [FrameOf(s, j)];
    cur.value := value;
    cur.tag := STR;
    Closed(k);
    Refill(s, j);
  }

  lemma Narrowed(ctx: seq<Frame>, inner: seq<Frame>, t: Tree, i: nat, u: Tree)
    requires Narrows(ctx, inner, t, i)
    ensures i < |t.content| && Plug(inner, u) == Plug(ctx, WithChild(t, i, u))
  {
    hide Plug;
  }

  method UpsertScalar(node: Node, ghost s: Shape, key: string, value: string)
    returns (changed: bool, ghost s': Shape)
    requires Valid(s) && s.node == node && node.kind == Mapping
    modifies Footprint(s)
    ensures Valid(s') && s'.node == node
    ensures forall n | n in Footprint(s') :: n in Footprint(s) || fresh(n)
    ensures Put(old(View(s)), [key], value) == Done(View(s'), changed)
  {
    hide *;
    ghost var t := View(s);
    ShapeAllocated(s);
    Opened(s);
    UpsertMeaning(t, key, value);
    var cur, j := MappingValue(node, s, key);
    if cur != null {
      KeyText(s, j);
      if cur.value == value {
        return false, s;
      }
      KidInside(s, j);
      WriteChild(cur, s, j, value);
      return true, s;
    }
    var leaf, leafShape := NewScalar(value);
    s' := SetMappingValue(node, s, key, leaf, leafShape);
    return true, s';
  }

  // One segment under a mapping.
  lemma UpsertMeaning(t: Tree, key: string, value: string)
    requires t.kind == Mapping
    ensures Lookup(t, key).None? ==> Put(t, [key], value) == Done(PutChild(t, key, Str(value)), true)
    ensures Lookup(t, key).Some? ==>
      var j := Lookup(t, key).value;
      Put(t, [key], value)
      == if t.content[j].value == value then Done(t, false)
         else Done(WithChild(t, j, t.content[j].(value := value, tag := STR)), true)
  {
    hide KeyFrom;
    if Lookup(t, key).Some? {
      var j := Lookup(t, key).value;
      assert t.content[j := t.content[j]] == t.content;
    }
  }

  lemma KidInside(s: Shape, j: nat)
    requires j < |s.kids|
    ensures s.kids[j].node in Footprint(s.kids[j]) && Footprint(s.kids[j]) <= Footprint(s)
  {
    SplitShapes(s.kids, j);
  }

  method SetScalar(node: Node, ghost s: Shape, value: string) returns (changed: bool, ghost s': Shape)
    requires Valid(s) && s.node == node
    modifies node
    ensures Valid(s') && s'.node == node && Footprint(s') <= Footprint(s)
    ensures View(s') == WriteLeaf(Sequence, old(View(s)), value)
    ensures changed == LeafChanges(Sequence, old(View(s)), value)
  {
    if node.kind == Scalar && node.value == value {
      return false, s;
    }
    node.kind := Scalar;
    node.tag := STR;
    node.value := value;
    node.content := [];
    return true, Shape(node, []);
  }
  // ---- The walk down a path -----------------------------------------------------

  // What is left to do at the hole settles what the whole call amounts to on t0; a
  // failure still to come finds the whole tree as it was.
  ghost predicate Owes(ctx: seq<Frame>, t: Tree, rest: seq<string>, value: string, t0: Tree, path: seq<string>)
    reads Rim(ctx)
  {
    var r := Put(t, rest, value);
    if r.Failed? then Put(t0, path, value) == r && Plug(ctx, t) == t0
    else Put(t0, path, value) == Done(Plug(ctx, r.tree), r.changed)
  }

  // Going down one segment, into a child that exists or into an empty mapping just made.
  lemma OwesBelow(ctx: seq<Frame>, inner: seq<Frame>, t: Tree, t': Tree, j: nat, rest: seq<string>,
                  value: string, t0: Tree, path: seq<string>)
    requires |rest| > 1 && Owes(ctx, t, rest, value, t0, path)
    requires if Step(t, rest[0]).Some? then Step(t, rest[0]) == Some(j) && t' == t
             else t.kind == Mapping && j == |t.content| + 1 && t' == PutChild(t, rest[0], EMPTY_MAP)
    requires Narrows(ctx, inner, t', j)
    ensures Owes(inner, t'.content[j], rest[1..], value, t0, path)
  {
    hide Owes, Plug, Rim, Lookup;
    var below := Put(t'.content[j], rest[1..], value);
    assert t'.content[j] == Child(t, rest[0]);
    assert Put(t, rest, value).Failed? <==> below.Failed?;
    if Step(t, rest[0]).None? {
      FreshNeverFails(rest[1..], value);
      assert below.Done? ==> WithChild(t', j, below.tree) == PutChild(t, rest[0], below.tree);
    } else {
      assert WithChild(t, j, t.content[j]).content == t.content;
    }
    OwesUnfolds(ctx, t, rest, value, t0, path);
    OwesUnfolds(inner, t'.content[j], rest[1..], value, t0, path);
  }

  lemma OwesUnfolds(ctx: seq<Frame>, t: Tree, rest: seq<string>, value: string, t0: Tree, path: seq<string>)
    ensures Owes(ctx, t, rest, value, t0, path)
       <==> if Put(t, rest, value).Failed? then Put(t0, path, value) == Put(t, rest, value) && Plug(ctx, t) == t0
            else Put(t0, path, value) == Done(Plug(ctx, Put(t, rest, value).tree), Put(t, rest, value).changed)
  {}

  lemma OwesAll(t: Tree, path: seq<string>, value: string)
    ensures Owes([], t, path, value, t, path) && Rim([]) == {}
    ensures forall hole :: Around([], hole)
  {}

  lemma PutEmpty(t: Tree, value: string)
    ensures Put(t, [], value) == Failed(EmptyPath)
  {}

  // A segment that cannot be followed.
  lemma CannotStep(t: Tree, rest: seq<string>, value: string)
    requires rest != []
    ensures t.kind == Sequence
            && (Atoi(rest[0]).None? || Atoi(rest[0]).value < 0 || Atoi(rest[0]).value >= |t.content|)
        ==> Put(t, rest, value) == Failed(OutOfRange)
    ensures t.kind != Mapping && t.kind != Sequence ==> Put(t, rest, value) == Failed(NotAContainer)
  {}

  // A list element, on the way or as the leaf.
  lemma ElementStep(t: Tree, seg: string, j: nat, value: string)
    requires t.kind == Sequence && j < |t.content| && Atoi(seg) == Some(j)
    ensures Step(t, seg) == Some(j)
    ensures Put(t, [seg], value)
         == Done(WithChild(t, j, WriteLeaf(Sequence, t.content[j], value)), LeafChanges(Sequence, t.content[j], value))
  {}

  // The mapping under a key, created empty when the key is missing.
  method EnterKey(node: Node, ghost s: Shape, seg: string) returns (next: Node, ghost s': Shape, ghost j: nat)
    requires Valid(s) && s.node == node && node.kind == Mapping
    modifies node
    ensures Valid(s') && s'.node == node && j < |s'.kids| && s'.kids[j].node == next
    ensures forall n | n in Footprint(s') :: n in Footprint(s) || fresh(n)
    ensures var t := old(View(s));
            if Step(t, seg).Some? then Step(t, seg) == Some(j) && View(s') == t
            else t.kind == Mapping && j == |t.content| + 1 && View(s') == PutChild(t, seg, EMPTY_MAP)
  {
    hide *;
    ghost var t := View(s);
    Opened(s);
    ShapeAllocated(s);
    StepIsLookup(t, seg);
    var found;
    found, j := MappingValue(node, s, seg);
    if found != null {
      return found, s, j;
    }
    next := new Node(Mapping, MAP, "", []);
    ghost var empty := Shape(next, []);
    LeafShape(empty);
    EmptyMapIs();
    s' := SetMappingValue(node, s, seg, next, empty);
    j := |s.kids| + 1;
  }

  lemma EmptyMapIs()
    ensures EMPTY_MAP == Tree(Mapping, MAP, "", [])
  {}

  lemma StepIsLookup(t: Tree, seg: string)
    requires t.kind == Mapping
    ensures Step(t, seg) == Lookup(t, seg) && CanStep(t, seg)
  {}

  // Sets the leaf at the end of the path in place. An error leaves the tree as it was,
  // even though missing mappings are created before the path has been walked to its end.
  // The loop is left only when the path is empty.
  method SetByPath(root: Node, ghost s0: Shape, path: seq<string>, value: string)
    returns (r: Outcome, ghost s: Shape)
    requires Valid(s0) && s0.node == root
    modifies Footprint(s0)
    ensures Valid(s) && s.node == root
    ensures forall n | n in Footprint(s) :: n in Footprint(s0) || fresh(n)
    ensures var meant := Put(old(View(s0)), path, value);
            if meant.Failed? then r == Error(meant.error) && View(s) == old(View(s0))
            else r == Ok(meant.changed) && View(s) == meant.tree
  {
    hide *;
    ghost var t0 := View(s0);
    ghost var ctx: seq<Frame> := [];
    ghost var cur := s0;
    var node := root;
    ShapeAllocated(s0);
    OwesAll(t0, path, value);
    assert path[0..] == path;
    var i := 0;
    while i < |path|
      invariant i <= |path| && (i == |path| ==> path == [])
      invariant cur.node == node && Valid(cur) && Around(ctx, node) && Footprint(cur) !! Rim(ctx)
      invariant root == if ctx == [] then node else ctx[0].node
      invariant forall n | n in Rim(ctx) :: allocated(n) && (n in Footprint(s0) || fresh(n))
      invariant forall n | n in Footprint(cur) :: allocated(n) && (n in Footprint(s0) || fresh(n))
      invariant Owes(ctx, View(cur), path[i..], value, t0, path)
      decreases |path| - i
    {
      var seg := path[i];
      var last := i == |path| - 1;
      ghost var t := View(cur);
      Opened(cur);
      assert path[i..][0] == seg && path[i..][1..] == path[i + 1..];
      assert last ==> path[i..] == [seg];
      OwesUnfolds(ctx, t, path[i..], value, t0, path);
      CannotStep(t, path[i..], value);
      if node.kind == Mapping {
        if last {
          var changed, done := UpsertScalar(node, cur, seg, value);
          Rebuilt(ctx, done);
          return Ok(changed), Rebuild(ctx, done);
        }
        var next;
        ghost var j;
        next, cur, j := EnterKey(node, cur, seg);
        ShapeAllocated(cur);
        Descend(ctx, cur, j);
        OwesBelow(ctx, ctx + [FrameOf(cur, j)], t, View(cur), j, path[i..], value, t0, path);
        ctx := ctx + [FrameOf(cur, j)];
        cur := cur.kids[j];
        node := next;
      } else if node.kind == Sequence {
        var idx := Atoi(seg);
        if idx.None? || idx.value < 0 || idx.value >= |node.content| {
          Rebuilt(ctx, cur);
          return Error(OutOfRange), Rebuild(ctx, cur);
        }
        ghost var j := idx.value;
        ElementStep(t, seg, j, value);
        Descend(ctx, cur, j);
        if last {
          Narrowed(ctx, ctx + [FrameOf(cur, j)], t, j, WriteLeaf(Sequence, t.content[j], value));
          var changed, done := SetScalar(node.content[idx.value], cur.kids[j], value);
          Rebuilt(ctx + [FrameOf(cur, j)], done);
          return Ok(changed), Rebuild(ctx + [FrameOf(cur, j)], done);
        }
        OwesBelow(ctx, ctx + [FrameOf(cur, j)], t, t, j, path[i..], value, t0, path);
        ctx := ctx + [FrameOf(cur, j)];
        cur := cur.kids[j];
        node := node.content[idx.value];
      } else {
        Rebuilt(ctx, cur);
        return Error(NotAContainer), Rebuild(ctx, cur);
      }
      i := i + 1;
    }
    OwesUnfolds(ctx, View(cur), path[i..], value, t0, path);
    PutEmpty(View(cur), value);
    Rebuilt(ctx, cur);
    return Error(EmptyPath), Rebuild(ctx, cur);
  }
}
