// The mutable yaml.Node tree, and the ghost view that ties it to YamlTree:
// internal/gitwriteback/edit.go works on this tree in place.
module YamlNodes {
  import opened YamlTree

  class Node {
    var kind: Kind
    var tag: string
    var value: string
    var content: seq<Node>

    constructor (kind: Kind, tag: string, value: string, content: seq<Node>)
      ensures this.kind == kind && this.tag == tag && this.value == value && this.content == content
    {
      this.kind, this.tag, this.value, this.content := kind, tag, value, content;
    }
  }

  // ---- Which objects make up a tree, and the tree they stand for -----------------

  datatype Shape = Shape(node: Node, kids: seq<Shape>)

  ghost function Footprint(s: Shape): set<Node>
    decreases s
  {
    {s.node} + FootprintAll(s.kids)
  }

  ghost function FootprintAll(ks: seq<Shape>): set<Node>
    decreases ks
  {
    if ks == [] then {} else Footprint(ks[0]) + FootprintAll(ks[1..])
  }

  ghost function NodesOf(ks: seq<Shape>): (r: seq<Node>)
    ensures |r| == |ks|
    ensures forall i | 0 <= i < |ks| :: r[i] == ks[i].node
  {
    seq(|ks|, i requires 0 <= i < |ks| => ks[i].node)
  }

  // The objects are linked as the shape says, and none occurs twice.
  ghost predicate Valid(s: Shape)
    reads Footprint(s)
    decreases s
  {
    && s.node.content == NodesOf(s.kids)
    && s.node !in FootprintAll(s.kids)
    && ValidAll(s.kids)
  }

  ghost predicate ValidAll(ks: seq<Shape>)
    reads FootprintAll(ks)
    decreases ks
  {
    ks == []
    || (Valid(ks[0]) && Footprint(ks[0]) !! FootprintAll(ks[1..]) && ValidAll(ks[1..]))
  }

  ghost function View(s: Shape): Tree
    reads Footprint(s)
    decreases s
  {
    Tree(s.node.kind, s.node.tag, s.node.value, ViewAll(s.kids))
  }

  ghost function ViewAll(ks: seq<Shape>): (r: seq<Tree>)
    reads FootprintAll(ks)
    ensures |r| == |ks|
    decreases ks
  {
    if ks == [] then [] else [View(ks[0])] + ViewAll(ks[1..])
  }

  // A shape that exists speaks of objects that exist, so new nodes lie outside it.
  lemma {:induction false} ShapeAllocated(s: Shape)
    ensures forall n | n in Footprint(s) :: allocated(n)
    decreases s
  {
    ShapesAllocated(s.kids);
  }

  lemma {:induction false} ShapesAllocated(ks: seq<Shape>)
    ensures forall n | n in FootprintAll(ks) :: allocated(n)
    decreases ks
  {
    if ks != [] {
      ShapeAllocated(ks[0]);
      ShapesAllocated(ks[1..]);
    }
  }

  // ---- Lists of trees -----------------------------------------------------------

  lemma {:induction false} AppendFootprint(a: seq<Shape>, b: seq<Shape>)
    ensures FootprintAll(a + b) == FootprintAll(a) + FootprintAll(b)
  {
    hide Footprint;
    if a == [] {
      assert a + b == b;
    } else {
      assert (a + b)[0] == a[0] && (a + b)[1..] == a[1..] + b;
      AppendFootprint(a[1..], b);
    }
  }

  lemma {:induction false} AppendValid(a: seq<Shape>, b: seq<Shape>)
    ensures ValidAll(a + b) <==> ValidAll(a) && ValidAll(b) && FootprintAll(a) !! FootprintAll(b)
  {
    hide Footprint, Valid;
    if a == [] {
      assert a + b == b;
    } else {
      assert (a + b)[0] == a[0] && (a + b)[1..] == a[1..] + b;
      AppendFootprint(a[1..], b);
      AppendValid(a[1..], b);
    }
  }

  lemma {:induction false} AppendView(a: seq<Shape>, b: seq<Shape>)
    ensures ViewAll(a + b) == ViewAll(a) + ViewAll(b)
  {
    hide View;
    if a == [] {
      assert a + b == b;
    } else {
      assert (a + b)[0] == a[0] && (a + b)[1..] == a[1..] + b;
      AppendView(a[1..], b);
    }
  }

  lemma AppendShapes(a: seq<Shape>, b: seq<Shape>)
    ensures FootprintAll(a + b) == FootprintAll(a) + FootprintAll(b)
    ensures ValidAll(a + b) <==> ValidAll(a) && ValidAll(b) && FootprintAll(a) !! FootprintAll(b)
    ensures ViewAll(a + b) == ViewAll(a) + ViewAll(b)
    ensures NodesOf(a + b) == NodesOf(a) + NodesOf(b)
  {
    AppendFootprint(a, b);
    AppendValid(a, b);
    AppendView(a, b);
    hide *;
    assert NodesOf(a + b) == NodesOf(a) + NodesOf(b);
  }

  lemma One(s: Shape)
    ensures FootprintAll([s]) == Footprint(s)
    ensures ValidAll([s]) == Valid(s)
    ensures ViewAll([s]) == [View(s)]
    ensures NodesOf([s]) == [s.node]
  {
    assert [s][1..] == [];
  }

  // A list around its i-th element.
  lemma SplitShapes(ks: seq<Shape>, i: nat)
    requires i < |ks|
    ensures ks == ks[..i] + [ks[i]] + ks[i + 1..]
    ensures FootprintAll(ks) == FootprintAll(ks[..i]) + Footprint(ks[i]) + FootprintAll(ks[i + 1..])
    ensures ViewAll(ks) == ViewAll(ks[..i]) + [View(ks[i])] + ViewAll(ks[i + 1..])
    ensures NodesOf(ks) == NodesOf(ks[..i]) + [ks[i].node] + NodesOf(ks[i + 1..])
    ensures ValidAll(ks)
       <==> && ValidAll(ks[..i]) && Valid(ks[i]) && ValidAll(ks[i + 1..])
            && FootprintAll(ks[..i]) !! Footprint(ks[i])
            && (FootprintAll(ks[..i]) + Footprint(ks[i])) !! FootprintAll(ks[i + 1..])
  {
    hide *;
    var a, b := ks[..i], ks[i + 1..];
    assert ks == a + [ks[i]] + b;
    AppendShapes(a + [ks[i]], b);
    AppendShapes(a, [ks[i]]);
    One(ks[i]);
  }

  lemma ViewAt(ks: seq<Shape>, i: nat)
    requires i < |ks|
    ensures ViewAll(ks)[i] == View(ks[i])
  {
    SplitShapes(ks, i);
  }

  // ---- A tree around a hole -----------------------------------------------------

  // One ancestor of the hole with the subtrees before and after it.
  datatype Frame = Frame(node: Node, left: seq<Shape>, right: seq<Shape>)

  ghost function FrameOf(s: Shape, i: nat): Frame
    requires i < |s.kids|
  {
    Frame(s.node, s.kids[..i], s.kids[i + 1..])
  }

  ghost function FrameNodes(f: Frame): set<Node>
  {
    {f.node} + FootprintAll(f.left) + FootprintAll(f.right)
  }

  // The path of ancestors, outermost first.
  ghost function Rim(ctx: seq<Frame>): set<Node>
  {
    if ctx == [] then {} else Rim(ctx[..|ctx| - 1]) + FrameNodes(ctx[|ctx| - 1])
  }

  lemma {:induction false} ContextAllocated(ctx: seq<Frame>)
    ensures forall n | n in Rim(ctx) :: allocated(n)
  {
    if ctx != [] {
      var f := ctx[|ctx| - 1];
      ContextAllocated(ctx[..|ctx| - 1]);
      ShapesAllocated(f.left);
      ShapesAllocated(f.right);
    }
  }

  ghost predicate FrameOk(f: Frame, hole: Node)
    reads FrameNodes(f)
  {
    && f.node.content == NodesOf(f.left) + [hole] + NodesOf(f.right)
    && ValidAll(f.left) && ValidAll(f.right)
    && f.node !in FootprintAll(f.left) && f.node !in FootprintAll(f.right)
    && FootprintAll(f.left) !! FootprintAll(f.right)
  }

  ghost predicate Around(ctx: seq<Frame>, hole: Node)
    reads Rim(ctx)
    decreases |ctx|
  {
    ctx == []
    || (var n := |ctx| - 1;
        FrameOk(ctx[n], hole) && Around(ctx[..n], ctx[n].node) && FrameNodes(ctx[n]) !! Rim(ctx[..n]))
  }

  ghost function Filled(f: Frame, s: Shape): Shape { Shape(f.node, f.left + [s] + f.right) }

  ghost function FilledView(f: Frame, t: Tree): Tree
    reads FrameNodes(f)
  {
    Tree(f.node.kind, f.node.tag, f.node.value, ViewAll(f.left) + [t] + ViewAll(f.right))
  }

  // The whole tree with s, or a tree, in the hole.
  ghost function Rebuild(ctx: seq<Frame>, s: Shape): Shape
    decreases |ctx|
  {
    if ctx == [] then s else Rebuild(ctx[..|ctx| - 1], Filled(ctx[|ctx| - 1], s))
  }

  ghost function Plug(ctx: seq<Frame>, t: Tree): Tree
    reads Rim(ctx)
    decreases |ctx|
  {
    if ctx == [] then t else Plug(ctx[..|ctx| - 1], FilledView(ctx[|ctx| - 1], t))
  }

  lemma FillsFrame(f: Frame, s: Shape)
    requires FrameOk(f, s.node) && Valid(s) && Footprint(s) !! FrameNodes(f)
    ensures Valid(Filled(f, s))
    ensures View(Filled(f, s)) == FilledView(f, View(s))
    ensures Footprint(Filled(f, s)) == FrameNodes(f) + Footprint(s)
  {
    var ks := f.left + [s] + f.right;
    AppendShapes(f.left + [s], f.right);
    AppendShapes(f.left, [s]);
    One(s);
  }

  lemma FilledNode(f: Frame, s: Shape)
    ensures Filled(f, s).node == f.node
  {}

  // Filling the hole gives a valid tree with the matching view.
  lemma {:induction false} Rebuilt(ctx: seq<Frame>, s: Shape)
    requires Around(ctx, s.node) && Valid(s) && Footprint(s) !! Rim(ctx)
    ensures Valid(Rebuild(ctx, s))
    ensures View(Rebuild(ctx, s)) == Plug(ctx, View(s))
    ensures Footprint(Rebuild(ctx, s)) == Rim(ctx) + Footprint(s)
    ensures Rebuild(ctx, s).node == if ctx == [] then s.node else ctx[0].node
    decreases |ctx|
  {
    if ctx != [] {
      hide FrameOk, Valid, View, Footprint, FrameNodes, Filled, FilledView;
      var n := |ctx| - 1;
      FillsFrame(ctx[n], s);
      assert Filled(ctx[n], s).node == ctx[n].node by { FilledNode(ctx[n], s); }
      Rebuilt(ctx[..n], Filled(ctx[n], s));
    }
  }

  // The inner hole is the i-th child of t, where t fills the outer one.
  ghost predicate Narrows(ctx: seq<Frame>, inner: seq<Frame>, t: Tree, i: nat)
    reads Rim(ctx), Rim(inner)
  {
    i < |t.content| && forall u :: Plug(inner, u) == Plug(ctx, WithChild(t, i, u))
  }

  lemma OpenFrame(s: Shape, i: nat)
    requires Valid(s) && i < |s.kids|
    ensures var f := FrameOf(s, i);
            && FrameOk(f, s.kids[i].node) && Valid(s.kids[i])
            && Footprint(s.kids[i]) !! FrameNodes(f)
            && FrameNodes(f) + Footprint(s.kids[i]) == Footprint(s)
            && s.kids[i].node in Footprint(s.kids[i])
            && View(s).content[i] == View(s.kids[i])
            && forall u :: FilledView(f, u) == WithChild(View(s), i, u)
  {
    hide ValidAll, ViewAll, FootprintAll, NodesOf;
    var f := FrameOf(s, i);
    SplitShapes(s.kids, i);
    forall u: Tree
      ensures FilledView(f, u) == WithChild(View(s), i, u)
    {
      assert View(s).content[i := u] == ViewAll(f.left) + [u] + ViewAll(f.right);
    }
  }

  // Moving the hole down to an existing child.
  lemma Descend(ctx: seq<Frame>, s: Shape, i: nat)
    requires Around(ctx, s.node) && Valid(s) && Footprint(s) !! Rim(ctx) && i < |s.kids|
    ensures var inner := ctx + [FrameOf(s, i)];
            && Around(inner, s.kids[i].node) && Valid(s.kids[i]) && Footprint(s.kids[i]) !! Rim(inner)
            && Rim(inner) <= Rim(ctx) + Footprint(s) && Footprint(s.kids[i]) <= Footprint(s)
            && s.kids[i].node in Footprint(s.kids[i])
            && inner[0].node == (if ctx == [] then s.node else ctx[0].node)
            && View(s).content[i] == View(s.kids[i])
            && Narrows(ctx, inner, View(s), i)
  {
    var f := FrameOf(s, i);
    var inner := ctx + [f];
    assert inner[..|ctx|] == ctx && inner[|ctx|] == f;
    OpenFrame(s, i);
    hide Valid, View, Footprint, FrameNodes, FilledView, FrameOk;
  }
}
