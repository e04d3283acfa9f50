// The YAML representation graph as an immutable tree (section 3.2.1 of YAML 1.2.2), and
// the pure meaning of the in-place path editor: internal/gitwriteback/edit.go, setByPath.
module YamlTree {
  import opened Text
  import opened NaturalOrder

  datatype Kind = Document | Sequence | Mapping | Scalar | Alias

  // One yaml.Node: a mapping's content alternates keys and values. An alias is a leaf
  // whose value is the anchor's name.
  datatype Tree = Tree(kind: Kind, tag: string, value: string, content: seq<Tree>)

  const STR := "!!str"
  const MAP := "!!map"
  const SEQ := "!!seq"
  const NAME := "name"

  function Str(v: string): Tree { Tree(Scalar, STR, v, []) }

  const EMPTY_MAP := Tree(Mapping, MAP, "", [])

  // ---- Addressing children ------------------------------------------------------

  // Position of the value of the first key at or after i that carries this text.
  function KeyFrom(c: seq<Tree>, key: string, i: nat): (r: Option<nat>)
    decreases |c| - i
    ensures r.Some? ==> i < r.value < |c| && c[r.value - 1].value == key && (r.value - i) % 2 == 1
  {
    if i + 1 >= |c| then None
    else if c[i].value == key then Some(i + 1)
    else KeyFrom(c, key, i + 2)
  }

  // mappingValue: the first value under a key; nothing outside mappings.
  function Lookup(t: Tree, key: string): (r: Option<nat>)
    ensures r.Some? ==> t.kind == Mapping && 0 < r.value < |t.content| && r.value % 2 == 1
    ensures r.Some? ==> t.content[r.value - 1].value == key
  {
    if t.kind == Mapping then KeyFrom(t.content, key, 0) else None
  }

  // strconv.Atoi without its 64-bit range check: a list has fewer than 2^63 elements, so
  // an overflowing index is out of range either way.
  function Atoi(s: string): Option<int>
  {
    var digits := if s != "" && (s[0] == '+' || s[0] == '-') then s[1..] else s;
    if !AllDigits(digits) then None
    else
      var n: int := Value(digits);
      Some(if s[0] == '-' then -n else n)
  }

  // The existing child a path segment addresses.
  function Step(t: Tree, seg: string): (r: Option<nat>)
    ensures r.Some? ==> r.value < |t.content| && (t.kind == Mapping || t.kind == Sequence)
  {
    match t.kind
    case Mapping => Lookup(t, seg)
    case Sequence =>
      if Atoi(seg).Some? && 0 <= Atoi(seg).value < |t.content| then Some(Atoi(seg).value as nat) else None
    case _ => None
  }

  // A segment can be followed: into an existing child, or into a mapping that lacks it.
  predicate CanStep(t: Tree, seg: string) { t.kind == Mapping || Step(t, seg).Some? }

  // The child, or the empty mapping that is created in its place.
  function Child(t: Tree, seg: string): Tree
  {
    if Step(t, seg).Some? then t.content[Step(t, seg).value] else EMPTY_MAP
  }

  function PutChild(t: Tree, seg: string, u: Tree): Tree
    requires CanStep(t, seg)
  {
    if Step(t, seg).Some? then t.(content := t.content[Step(t, seg).value := u])
    else t.(content := t.content + [Str(seg), u])
  }

  function WithChild(t: Tree, i: nat, u: Tree): Tree
    requires i < |t.content|
  {
    t.(content := t.content[i := u])
  }

  // Two segments that lead to different children.
  predicate Apart(t: Tree, a: string, b: string)
  {
    match t.kind
    case Mapping => a != b
    case Sequence => Step(t, a) != Step(t, b)
    case _ => false
  }

  // What every parsed document satisfies: keys come with values, leaves have no content.
  predicate Wf(t: Tree)
  {
    && (t.kind == Mapping ==> |t.content| % 2 == 0)
    && (t.kind == Scalar || t.kind == Alias ==> t.content == [])
    && forall i | 0 <= i < |t.content| :: Wf(t.content[i])
  }

  lemma {:induction false} KeyFromSet(c: seq<Tree>, key: string, i: nat, j: nat, u: Tree)
    requires j < |c| && (j - i) % 2 == 1
    ensures KeyFrom(c[j := u], key, i) == KeyFrom(c, key, i)
    decreases |c| - i
  {
    if i + 1 < |c| { KeyFromSet(c, key, i + 2, j, u); }
  }

  lemma {:induction false} KeyFromAppend(c: seq<Tree>, key: string, i: nat, k: string, u: Tree)
    requires i <= |c| && (|c| - i) % 2 == 0
    ensures KeyFrom(c + [Str(k), u], key, i)
         == if KeyFrom(c, key, i).Some? then KeyFrom(c, key, i)
            else if key == k then Some(|c| + 1) else None
    decreases |c| - i
  {
    var d := c + [Str(k), u];
    if i < |c| {
      KeyFromAppend(c, key, i + 2, k, u);
    } else {
      assert d[i] == Str(k);
      assert KeyFrom(d, key, i + 2) == None;
    }
  }

  // ---- The lens between a container and one child -------------------------------

  lemma PutChildStep(t: Tree, a: string, u: Tree, b: string)
    requires Wf(t) && CanStep(t, a)
    ensures var t' := PutChild(t, a, u);
            && t'.kind == t.kind && t'.tag == t.tag && t'.value == t.value
            && |t'.content| >= |t.content|
            && CanStep(t', b) == CanStep(t, b)
            && (Apart(t, a, b) ==> Step(t', b) == Step(t, b) && Child(t', b) == Child(t, b))
            && (!Apart(t, a, b) ==> Step(t', b).Some? && Child(t', b) == u)
            && (!Apart(t, a, b) ==> Step(t, b) == Step(t, a) && CanStep(t, b) && PutChild(t, b, u) == t')
  {
    hide KeyFrom, Atoi;
    if t.kind == Mapping {
      if Step(t, a).Some? {
        KeyFromSet(t.content, b, 0, Step(t, a).value, u);
        if a != b && Step(t, b).Some? { DifferentKeys(t, a, b); }
      } else {
        KeyFromAppend(t.content, b, 0, a, u);
      }
    }
  }

  lemma DifferentKeys(t: Tree, a: string, b: string)
    requires t.kind == Mapping && a != b && Step(t, a).Some? && Step(t, b).Some?
    ensures Step(t, a).value != Step(t, b).value
  {
    assert t.content[Step(t, a).value - 1].value == a;
  }

  lemma PutChildApart(t: Tree, a: string, u: Tree, b: string, c: string)
    requires Wf(t) && CanStep(t, a)
    ensures Apart(PutChild(t, a, u), b, c) == Apart(t, b, c)
  {}

  lemma PutChildWf(t: Tree, a: string, u: Tree)
    requires Wf(t) && CanStep(t, a) && Wf(u)
    ensures Wf(PutChild(t, a, u)) && Wf(Child(t, a))
  {
    var t' := PutChild(t, a, u);
    assert Wf(Str(a));
    forall i | 0 <= i < |t'.content|
      ensures Wf(t'.content[i])
    {}
  }

  // Where the child is found after it was put.
  lemma PutChildPosition(t: Tree, a: string, u: Tree)
    requires Wf(t) && CanStep(t, a)
    ensures Step(PutChild(t, a, u), a) == if Step(t, a).Some? then Step(t, a) else Some(|t.content| + 1)
  {
    hide KeyFrom, Atoi;
    if t.kind == Mapping {
      if Step(t, a).Some? {
        KeyFromSet(t.content, a, 0, Step(t, a).value, u);
      } else {
        KeyFromAppend(t.content, a, 0, a, u);
      }
    }
  }

  lemma PutChildTwice(t: Tree, a: string, u: Tree, w: Tree)
    requires Wf(t) && CanStep(t, a)
    ensures CanStep(PutChild(t, a, u), a)
    ensures PutChild(PutChild(t, a, u), a, w) == PutChild(t, a, w)
  {
    hide Step, Wf;
    PutChildPosition(t, a, u);
    var n := |t.content|;
    if Step(t, a).None? {
      assert (t.content + [Str(a), u])[n + 1 := w] == t.content + [Str(a), w];
    }
  }

  lemma PutChildChanges(t: Tree, a: string, u: Tree)
    requires CanStep(t, a)
    ensures PutChild(t, a, u) == t <==> Step(t, a).Some? && Child(t, a) == u
  {
    if Step(t, a).None? {
      assert |PutChild(t, a, u).content| == |t.content| + 2;
    } else {
      assert PutChild(t, a, u).content[Step(t, a).value] == u;
      if Child(t, a) == u { assert PutChild(t, a, u).content == t.content; }
    }
  }

  lemma PutChildCommute(t: Tree, a: string, u: Tree, b: string, w: Tree)
    requires Wf(t) && CanStep(t, a) && CanStep(t, b) && Apart(t, a, b)
    requires Step(t, a).Some? && Step(t, b).Some?
    ensures CanStep(PutChild(t, a, u), b) && CanStep(PutChild(t, b, w), a)
    ensures PutChild(PutChild(t, a, u), b, w) == PutChild(PutChild(t, b, w), a, u)
  {
    PutChildStep(t, a, u, b);
    PutChildStep(t, b, w, a);
    if t.kind == Mapping { DifferentKeys(t, a, b); }
    var i, j := Step(t, a).value, Step(t, b).value;
    assert t.content[i := u][j := w] == t.content[j := w][i := u];
  }
}
