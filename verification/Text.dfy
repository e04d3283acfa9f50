// Byte strings as the operator's Go code sees them: one char stands for one byte,
// so `<` on strings is the byte-wise order the language defines.
module Text {
  datatype Option<+T> = None | Some(value: T)

  // Sign of the byte-wise comparison of two strings: a proper prefix comes first.
  function LexCompare(a: string, b: string): (r: int)
    ensures r == 0 || r == 1 || r == -1
    ensures r == 0 <==> a == b
  {
    if a == [] then (if b == [] then 0 else -1)
    else if b == [] then 1
    else if a[0] < b[0] then -1
    else if a[0] > b[0] then 1
    else LexCompare(a[1..], b[1..])
  }

  lemma {:induction false} LexAntisymmetric(a: string, b: string)
    ensures LexCompare(a, b) == -LexCompare(b, a)
  {
    if a != [] && b != [] && a[0] == b[0] {
      LexAntisymmetric(a[1..], b[1..]);
    }
  }

  lemma {:induction false} LexTransitive(a: string, b: string, c: string)
    requires LexCompare(a, b) <= 0 && LexCompare(b, c) <= 0
    ensures LexCompare(a, c) <= 0
    ensures LexCompare(a, b) < 0 || LexCompare(b, c) < 0 ==> LexCompare(a, c) < 0
  {
    if a != [] && b != [] && c != [] && a[0] == b[0] == c[0] {
      LexTransitive(a[1..], b[1..], c[1..]);
    }
  }

  // Taking one element out of each of two lists that hold the same ones.
  lemma RemoveOne<T>(es: seq<T>, fs: seq<T>, k: nat)
    requires es != [] && k < |fs| && fs[k] == es[0] && multiset(es) == multiset(fs)
    ensures multiset(es[1..]) == multiset(fs[..k] + fs[k + 1..])
  {
    assert es == [es[0]] + es[1..];
    assert fs == fs[..k] + [fs[k]] + fs[k + 1..];
    assert multiset(fs) == multiset{fs[k]} + multiset(fs[..k] + fs[k + 1..]);
    assert multiset(es[1..]) == multiset(es) - multiset{es[0]};
  }

  lemma SameLength<T>(es: seq<T>, fs: seq<T>)
    requires multiset(es) == multiset(fs)
    ensures |es| == |fs|
  {
    assert |multiset(es)| == |es| && |multiset(fs)| == |fs|;
  }

  function Mapped<A, B>(s: seq<A>, f: A -> B): (r: seq<B>)
    ensures |r| == |s| && forall i | 0 <= i < |s| :: r[i] == f(s[i])
  {
    seq(|s|, i requires 0 <= i < |s| => f(s[i]))
  }

  // The images of two lists that hold the same elements hold the same ones too.
  lemma {:induction false} SameMapped<A, B>(es: seq<A>, fs: seq<A>, f: A -> B)
    requires multiset(es) == multiset(fs)
    ensures multiset(Mapped(es, f)) == multiset(Mapped(fs, f))
    decreases |es|
  {
    if es == [] {
      assert |multiset(fs)| == 0;
    } else {
      assert es[0] in multiset(fs);
      var k :| 0 <= k < |fs| && fs[k] == es[0];
      RemoveOne(es, fs, k);
      SameMapped(es[1..], fs[..k] + fs[k + 1..], f);
      assert Mapped(es, f) == [f(es[0])] + Mapped(es[1..], f);
      var left, right := Mapped(fs[..k], f), Mapped(fs[k + 1..], f);
      assert Mapped(fs[..k] + fs[k + 1..], f) == left + right;
      assert Mapped(fs, f) == left + [f(es[0])] + right;
    }
  }
}
