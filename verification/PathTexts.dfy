// Which child a path segment names, told by its text: internal/gitwriteback/edit.go:235-325.
module PathTexts {
  import opened Text
  import opened NaturalOrder
  import opened YamlTree
  import opened YamlPath

  // ---- Printing numbers ---------------------------------------------------------

  function Decimal(n: nat): (s: string)
    ensures s != ""
  {
    if n < 10 then ["0123456789"[n]] else Decimal(n / 10) + ["0123456789"[n % 10]]
  }

  function Zeros(k: nat): (s: string)
    ensures |s| == k && forall i | 0 <= i < k :: s[i] == '0'
  {
    seq(k, _ => '0')
  }

  // The texts of list index n: a sign or none, zeros or none, and the number. Only zero may
  // carry a minus sign.
  ghost predicate IndexText(s: string, n: nat)
  {
    exists k: nat :: s == Zeros(k) + Decimal(n) || s == "+" + Zeros(k) + Decimal(n)
                     || (n == 0 && s == "-" + Zeros(k) + Decimal(n))
  }

  lemma LastDigit(n: nat)
    ensures var c := "0123456789"[n % 10];
            IsDigit(c) && Digit(c) == n % 10
  {}

  lemma {:induction false} DecimalReads(n: nat)
    ensures AllDigits(Decimal(n)) && Value(Decimal(n)) == n
    ensures Decimal(n)[0] == '0' ==> n == 0
    decreases n
  {
    LastDigit(n);
    var s := Decimal(n);
    if n < 10 {
      assert s[..0] == [];
    } else {
      DecimalReads(n / 10);
      assert s[..|s| - 1] == Decimal(n / 10);
    }
  }

  lemma {:induction false} ZerosCount(k: nat, s: string)
    requires OnlyDigits(s)
    ensures OnlyDigits(Zeros(k) + s) && Value(Zeros(k) + s) == Value(s)
    decreases k
  {
    if k == 0 {
      assert Zeros(0) + s == s;
    } else {
      var t := Zeros(k) + s;
      ZerosCount(k - 1, s);
      assert t[1..] == Zeros(k - 1) + s;
      ValueFromFront(t);
    }
  }

  // Every run of digits is one of them.
  lemma {:induction false} DigitsAreDecimal(s: string) returns (k: nat)
    requires AllDigits(s)
    ensures s == Zeros(k) + Decimal(Value(s))
    decreases |s|
  {
    var n, last := |s| - 1, s[|s| - 1];
    var init := s[..n];
    assert "0123456789"[Digit(last)] == last;
    if n == 0 {
      k := 0;
      assert Value(init) == 0 && s == [last];
    } else {
      k := DigitsAreDecimal(init);
      var v := Value(init);
      assert Value(s) == 10 * v + Digit(last);
      assert s == init + [last];
      if v == 0 {
        k := k + 1;
        assert Zeros(k - 1) + Decimal(0) == Zeros(k);
      } else {
        assert Value(s) / 10 == v && Value(s) % 10 == Digit(last);
        assert Zeros(k) + Decimal(v) + [last] == Zeros(k) + (Decimal(v) + [last]);
      }
    }
  }

  lemma AtoiOf(k: nat, n: nat)
    ensures Atoi(Zeros(k) + Decimal(n)) == Some(n)
    ensures Atoi("+" + Zeros(k) + Decimal(n)) == Some(n)
    ensures Atoi("-" + Zeros(k) + Decimal(n)).Some? && Atoi("-" + Zeros(k) + Decimal(n)).value == 0 - n
  {
    hide Decimal, Value;
    var digits := Zeros(k) + Decimal(n);
    DecimalReads(n);
    ZerosCount(k, Decimal(n));
    assert AllDigits(digits) && IsDigit(digits[0]);
    assert "+" + Zeros(k) + Decimal(n) == "+" + digits && ("+" + digits)[1..] == digits;
    assert "-" + Zeros(k) + Decimal(n) == "-" + digits && ("-" + digits)[1..] == digits;
  }

  // A segment reads as n exactly when it is a text of n.
  lemma IndexInTexts(s: string, n: nat)
    ensures Atoi(s) == Some(n) <==> IndexText(s, n)
  {
    hide Decimal, Value, Zeros, Atoi;
    if IndexText(s, n) {
      var k: nat :| s == Zeros(k) + Decimal(n) || s == "+" + Zeros(k) + Decimal(n)
                    || (n == 0 && s == "-" + Zeros(k) + Decimal(n));
      AtoiOf(k, n);
    }
    if Atoi(s) == Some(n) { TextOfAtoi(s, n); }
  }

  lemma TextOfAtoi(s: string, n: nat)
    requires Atoi(s) == Some(n)
    ensures IndexText(s, n)
  {
    SignedDigits(s, n);
    hide *;
    if s[0] == '+' || s[0] == '-' {
      var k := DigitsAreDecimal(s[1..]);
      Signed(s, k, n);
    } else {
      var k := DigitsAreDecimal(s);
      Unsigned(s, k, n);
    }
  }

  lemma SignedDigits(s: string, n: nat)
    requires Atoi(s) == Some(n)
    ensures s != ""
    ensures var digits := if s[0] == '+' || s[0] == '-' then s[1..] else s;
            AllDigits(digits) && Value(digits) == n && (s[0] == '-' ==> n == 0)
  {
    hide Value, AllDigits;
    assert !AllDigits("") by { NoDigitsInNothing(); }
  }

  lemma NoDigitsInNothing()
    ensures !AllDigits("")
  {}

  lemma Signed(s: string, k: nat, n: nat)
    requires s != "" && (s[0] == '+' || (s[0] == '-' && n == 0)) && s[1..] == Zeros(k) + Decimal(n)
    ensures IndexText(s, n)
  {
    hide Zeros, Decimal;
    assert s == [s[0]] + s[1..];
    assert [s[0]] + Zeros(k) + Decimal(n) == [s[0]] + (Zeros(k) + Decimal(n));
  }

  lemma Unsigned(s: string, k: nat, n: nat)
    requires s == Zeros(k) + Decimal(n)
    ensures IndexText(s, n)
  {
    hide Zeros, Decimal;
  }

  // ---- Children by their text ---------------------------------------------------

  // The segment names this child: the value of the first key with that text, or the list
  // element whose index it is.
  ghost predicate Leads(t: Tree, seg: string, i: nat)
  {
    && i < |t.content|
    && match t.kind
       case Mapping => i % 2 == 1 && t.content[i - 1].value == seg
                       && forall k | 0 <= k < i - 1 && k % 2 == 0 :: t.content[k].value != seg
       case Sequence => IndexText(seg, i)
       case _ => false
  }

  // Position j holds the value of the first key at or after i with that text.
  ghost predicate FirstAt(c: seq<Tree>, key: string, i: nat, j: nat)
  {
    i < j < |c| && (j - i) % 2 == 1 && c[j - 1].value == key
    && forall k | i <= k < j - 1 && (k - i) % 2 == 0 :: c[k].value != key
  }

  lemma FirstAtLater(c: seq<Tree>, key: string, i: nat, j: nat)
    requires i + 1 < |c| && c[i].value != key
    ensures FirstAt(c, key, i, j) <==> FirstAt(c, key, i + 2, j)
  {
    if FirstAt(c, key, i, j) {
      assert j != i + 1;
    }
  }

  lemma {:induction false} FirstKey(c: seq<Tree>, key: string, i: nat, j: nat)
    ensures KeyFrom(c, key, i) == Some(j) <==> FirstAt(c, key, i, j)
    decreases |c| - i
  {
    if i + 1 < |c| {
      if c[i].value == key {
        assert FirstAt(c, key, i, i + 1);
        if FirstAt(c, key, i, j) { FirstAtOnce(c, key, i, i + 1, j); }
      } else {
        hide FirstAt;
        FirstAtLater(c, key, i, j);
        FirstKey(c, key, i + 2, j);
      }
    }
  }

  lemma FirstAtOnce(c: seq<Tree>, key: string, i: nat, j: nat, m: nat)
    requires FirstAt(c, key, i, j) && FirstAt(c, key, i, m)
    ensures j == m
  {}

  lemma StepInTexts(t: Tree, seg: string, i: nat)
    ensures Step(t, seg) == Some(i) <==> Leads(t, seg, i)
  {
    hide KeyFrom, Atoi, IndexText;
    if t.kind == Mapping { FirstKey(t.content, seg, 0, i); }
    if t.kind == Sequence { IndexInTexts(seg, i); }
  }

  // Following the path from t ends at u.
  ghost predicate Arrives(t: Tree, path: seq<string>, u: Tree)
    decreases |path|
  {
    if path == [] then u == t
    else exists i: nat :: Leads(t, path[0], i) && Arrives(t.content[i], path[1..], u)
  }

  lemma {:induction false} GetInTexts(t: Tree, path: seq<string>, u: Tree)
    ensures Get(t, path) == Some(u) <==> Arrives(t, path, u)
    decreases |path|
  {
    if path != [] {
      hide Step, Leads, Child, CanStep;
      LeadsToStep(t, path[0]);
      if Step(t, path[0]).Some? {
        hide Get, Arrives;
        GetInTexts(Child(t, path[0]), path[1..], u);
        GetBelow(t, path, u);
      }
    }
  }

  lemma GetBelow(t: Tree, path: seq<string>, u: Tree)
    requires path != [] && Step(t, path[0]).Some?
    requires forall i: nat :: Leads(t, path[0], i) <==> Step(t, path[0]) == Some(i)
    ensures Get(t, path) == Get(Child(t, path[0]), path[1..])
    ensures Arrives(t, path, u) <==> Arrives(Child(t, path[0]), path[1..], u)
  {
    hide Step, Leads;
    assert Leads(t, path[0], Step(t, path[0]).value);
  }

  // ---- Writing by text ----------------------------------------------------------

  // A leaf with the text v: left alone if it has it already; under a mapping it keeps kind
  // and content, in a list it becomes a plain string.
  predicate LeafWith(parent: Kind, leaf: Tree, v: string, u: Tree)
  {
    if leaf.value == v && (parent == Mapping || leaf.kind == Scalar) then u == leaf
    else if parent == Mapping then u == Tree(leaf.kind, "!!str", v, leaf.content)
    else u == Tree(Scalar, "!!str", v, [])
  }

  // u is t with v written at the end of the path: one child is replaced, or, under a mapping
  // that lacks the key, a pair is added at the end.
  ghost predicate WrittenAt(t: Tree, path: seq<string>, v: string, u: Tree)
    decreases |path|, 1
  {
    path != []
    && ((exists i: nat, c: Tree :: Replaced(t, path, v, u, i, c)) || (exists c: Tree :: Extended(t, path, v, u, c)))
  }

  ghost predicate Replaced(t: Tree, path: seq<string>, v: string, u: Tree, i: nat, c: Tree)
    requires path != []
    decreases |path|, 0
  {
    Leads(t, path[0], i) && u == t.(content := t.content[i := c])
    && if |path| == 1 then LeafWith(t.kind, t.content[i], v, c) else WrittenAt(t.content[i], path[1..], v, c)
  }

  ghost predicate Extended(t: Tree, path: seq<string>, v: string, u: Tree, c: Tree)
    requires path != []
    decreases |path|, 0
  {
    t.kind == Mapping && (forall i: nat :: !Leads(t, path[0], i))
    && u == t.(content := t.content + [Tree(Scalar, "!!str", path[0], []), c])
    && if |path| == 1 then c == Tree(Scalar, "!!str", v, []) else WrittenAt(Tree(Mapping, "!!map", "", []), path[1..], v, c)
  }

  // Why a path cannot be written: it is empty, it has an index no list element has, or it
  // goes on below something that is neither a mapping nor a list.
  ghost predicate Blocked(t: Tree, path: seq<string>, e: PathError)
    decreases |path|
  {
    if path == [] then e == EmptyPath
    else
      (exists i: nat :: Leads(t, path[0], i) && |path| > 1 && Blocked(t.content[i], path[1..], e))
      || ((forall i: nat :: !Leads(t, path[0], i)) && t.kind != Mapping
          && e == if t.kind == Sequence then OutOfRange else NotAContainer)
  }

  // The segment leads to one child at most, the one the editor takes.
  lemma LeadsToStep(t: Tree, seg: string)
    ensures forall i: nat :: Leads(t, seg, i) <==> Step(t, seg) == Some(i)
    ensures Step(t, seg).Some? ==> Leads(t, seg, Step(t, seg).value) && Child(t, seg) == t.content[Step(t, seg).value]
    ensures Step(t, seg).None? ==> Child(t, seg) == Tree(Mapping, "!!map", "", [])
    ensures CanStep(t, seg) <==> t.kind == Mapping || Step(t, seg).Some?
  {
    hide Step, Leads;
    forall i: nat
      ensures Leads(t, seg, i) <==> Step(t, seg) == Some(i)
    {
      StepInTexts(t, seg, i);
    }
  }

  // What takes the place of the child the path starts with.
  ghost predicate Below(t: Tree, path: seq<string>, v: string, c: Tree)
    requires path != []
  {
    if |path| > 1 then WrittenAt(Child(t, path[0]), path[1..], v, c)
    else if Step(t, path[0]).None? then c == Tree(Scalar, "!!str", v, [])
    else LeafWith(t.kind, Child(t, path[0]), v, c)
  }

  lemma BelowInTexts(t: Tree, path: seq<string>, v: string, c: Tree)
    requires path != []
    requires |path| > 1 ==> (Put(Child(t, path[0]), path[1..], v).Done? && Put(Child(t, path[0]), path[1..], v).tree == c
                             <==> WrittenAt(Child(t, path[0]), path[1..], v, c))
    ensures PutBelow(t, path, v).Done? && PutBelow(t, path, v).tree == c <==> Below(t, path, v, c)
  {
    hide Put, WrittenAt, Step, Child;
  }

  lemma WrittenUnfolds(t: Tree, path: seq<string>, v: string, u: Tree)
    requires path != []
    requires forall i: nat :: Leads(t, path[0], i) <==> Step(t, path[0]) == Some(i)
    requires forall c :: Below(t, path, v, c) <==> PutBelow(t, path, v).Done? && PutBelow(t, path, v).tree == c
    requires Step(t, path[0]).Some? ==> Child(t, path[0]) == t.content[Step(t, path[0]).value]
    requires Step(t, path[0]).None? ==> Child(t, path[0]) == Tree(Mapping, "!!map", "", [])
    ensures Put(t, path, v).Done? && Put(t, path, v).tree == u <==> WrittenAt(t, path, v, u)
  {
    var i, r := Step(t, path[0]), PutBelow(t, path, v);
    hide Step, Leads, PutBelow, LeafWith, Child;
    if Put(t, path, v).Done? && Put(t, path, v).tree == u {
      assert Below(t, path, v, r.tree);
      if i.Some? {
        assert Leads(t, path[0], i.value);
        assert Replaced(t, path, v, u, i.value, r.tree);
      } else {
        assert Extended(t, path, v, u, r.tree);
      }
    }
    if j: nat, c: Tree :| Replaced(t, path, v, u, j, c) {
      assert Below(t, path, v, c);
    } else if c: Tree :| Extended(t, path, v, u, c) {
      assert Below(t, path, v, c);
    }
  }

  lemma {:induction false} PutInTexts(t: Tree, path: seq<string>, v: string, u: Tree)
    ensures Put(t, path, v).Done? && Put(t, path, v).tree == u <==> WrittenAt(t, path, v, u)
    decreases |path|
  {
    if path != [] {
      hide Step, Leads, Child, CanStep, PutBelow;
      LeadsToStep(t, path[0]);
      forall c
        ensures Below(t, path, v, c) <==> PutBelow(t, path, v).Done? && PutBelow(t, path, v).tree == c
      {
        if |path| > 1 { PutInTexts(Child(t, path[0]), path[1..], v, c); }
        BelowInTexts(t, path, v, c);
      }
      hide WrittenAt, Below;
      WrittenUnfolds(t, path, v, u);
    }
  }

  lemma {:induction false} FailureInTexts(t: Tree, path: seq<string>, v: string, e: PathError)
    ensures Put(t, path, v) == Failed(e) <==> Blocked(t, path, e)
    decreases |path|
  {
    if path != [] {
      hide Step, Leads, Child, CanStep;
      LeadsToStep(t, path[0]);
      if Step(t, path[0]).Some? && |path| > 1 { FailureInTexts(Child(t, path[0]), path[1..], v, e); }
      if Step(t, path[0]).None? && |path| > 1 { FreshNeverFails(path[1..], v); }
      hide Blocked, Put;
      BlockedUnfolds(t, path, v, e);
    }
  }

  lemma BlockedUnfolds(t: Tree, path: seq<string>, v: string, e: PathError)
    requires path != []
    requires forall i: nat :: Leads(t, path[0], i) <==> Step(t, path[0]) == Some(i)
    requires CanStep(t, path[0]) <==> t.kind == Mapping || Step(t, path[0]).Some?
    requires Step(t, path[0]).Some? ==> Child(t, path[0]) == t.content[Step(t, path[0]).value]
    requires Step(t, path[0]).Some? && |path| > 1 ==>
      (Put(Child(t, path[0]), path[1..], v) == Failed(e) <==> Blocked(Child(t, path[0]), path[1..], e))
    requires Step(t, path[0]).None? && |path| > 1 ==> Put(EMPTY_MAP, path[1..], v).Done? && Child(t, path[0]) == EMPTY_MAP
    ensures Put(t, path, v) == Failed(e) <==> Blocked(t, path, e)
  {
    var i := Step(t, path[0]);
    hide Step, Leads, Child, CanStep, PutChild, WriteLeaf, LeafChanges;
    if i.Some? { assert Leads(t, path[0], i.value); }
  }

  // In a list: every text of n leads to element n, and writing there replaces that element
  // and no other; past the end, or with any other text, the index is out of range.
  lemma ElementInTexts(t: Tree, seg: string, n: nat, rest: seq<string>, v: string)
    requires t.kind == Sequence && IndexText(seg, n)
    ensures n >= |t.content| ==> Put(t, [seg] + rest, v) == Failed(OutOfRange)
    ensures n < |t.content| && rest == [] ==>
      Put(t, [seg] + rest, v).Done?
      && Put(t, [seg] + rest, v).tree.content
         == t.content[n := if t.content[n].kind == Scalar && t.content[n].value == v then t.content[n]
                           else Tree(Scalar, "!!str", v, [])]
    ensures n < |t.content| && rest != [] ==>
      match Put(t.content[n], rest, v)
      case Failed(e) => Put(t, [seg] + rest, v) == Failed(e)
      case Done(u, changed) => Put(t, [seg] + rest, v) == Done(t.(content := t.content[n := u]), changed)
  {
    hide IndexText, Atoi;
    IndexInTexts(seg, n);
    assert ([seg] + rest)[1..] == rest;
  }

  lemma NoElement(t: Tree, seg: string, rest: seq<string>, v: string)
    requires t.kind == Sequence && forall n :: !IndexText(seg, n)
    ensures Put(t, [seg] + rest, v) == Failed(OutOfRange)
  {
    hide IndexText, Atoi;
    if Atoi(seg).Some? && Atoi(seg).value >= 0 { IndexInTexts(seg, Atoi(seg).value); }
  }

  // Which texts those are: an optional sign and digits, without a minus before a number that
  // is not zero; and no text is an index of two elements.
  lemma IndexTexts(seg: string, m: nat, n: nat)
    ensures IndexText(seg, m) && IndexText(seg, n) ==> m == n
    ensures (exists n: nat :: IndexText(seg, n))
       <==> var digits := if seg != "" && seg[0] in "+-" then seg[1..] else seg;
            AllDigits(digits) && (seg[0] == '-' ==> forall i | 0 <= i < |digits| :: digits[i] == '0')
  {
    hide IndexText, Value;
    IndexInTexts(seg, m);
    IndexInTexts(seg, n);
    var digits := if seg != "" && seg[0] in "+-" then seg[1..] else seg;
    if exists n: nat :: IndexText(seg, n) {
      var n: nat :| IndexText(seg, n);
      IndexInTexts(seg, n);
      if seg[0] == '-' { ZeroIsZeros(digits); }
    }
    if AllDigits(digits) && (seg[0] == '-' ==> forall i | 0 <= i < |digits| :: digits[i] == '0') {
      if seg[0] == '-' { ZeroIsZeros(digits); }
      IndexInTexts(seg, Value(digits));
    }
  }

  lemma {:induction false} ZeroIsZeros(s: string)
    requires OnlyDigits(s)
    ensures Value(s) == 0 <==> forall i | 0 <= i < |s| :: s[i] == '0'
  {
    if s != [] {
      var n := |s| - 1;
      ZeroIsZeros(s[..n]);
      assert s == s[..n] + [s[n]];
    }
  }
}
