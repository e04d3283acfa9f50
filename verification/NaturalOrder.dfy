// The comparator behind the `numerical` rule and numeric regex keys:
// internal/policy/policy.go, naturalCompare and isDigits.
module NaturalOrder {
  import opened Text

  predicate IsDigit(c: char) { '0' <= c <= '9' }

  predicate AllDigits(s: string) { s != [] && forall i | 0 <= i < |s| :: IsDigit(s[i]) }

  predicate NoDigits(s: string) { s != [] && forall i | 0 <= i < |s| :: !IsDigit(s[i]) }

  method IsDigits(s: string) returns (r: bool)
    ensures r <==> AllDigits(s)
  {
    if s == "" {
      return false;
    }
    for i := 0 to |s|
      invariant forall k | 0 <= k < i :: IsDigit(s[k])
    {
      if s[i] < '0' || s[i] > '9' {
        return false;
      }
    }
    return true;
  }

  // ---- The chunker: leftmost-greedy matches of \d+|\D+ --------------------------

  // Length of the longest prefix whose bytes are all digits, or all not digits.
  function RunLength(s: string, digits: bool): (n: nat)
    ensures n <= |s|
    ensures forall i | 0 <= i < n :: IsDigit(s[i]) == digits
    ensures n < |s| ==> IsDigit(s[n]) != digits
  {
    if s != [] && IsDigit(s[0]) == digits then 1 + RunLength(s[1..], digits) else 0
  }

  function Chunks(s: string): (cs: seq<string>)
  {
    if s == [] then []
    else
      var n := RunLength(s, IsDigit(s[0]));
      [s[..n]] + Chunks(s[n..])
  }

  function Concat(cs: seq<string>): string
  {
    if cs == [] then [] else cs[0] + Concat(cs[1..])
  }

  // Every chunk is a run of digits or a run without digits, and neighbours differ in kind.
  ghost predicate Alternating(cs: seq<string>)
  {
    && (forall i | 0 <= i < |cs| :: AllDigits(cs[i]) || NoDigits(cs[i]))
    && (forall i | 0 <= i < |cs| - 1 :: AllDigits(cs[i]) != AllDigits(cs[i + 1]))
  }

  lemma AlternatingCons(x: string, rest: seq<string>)
    requires AllDigits(x) || NoDigits(x)
    requires Alternating(rest) && (rest != [] ==> AllDigits(x) != AllDigits(rest[0]))
    ensures Alternating([x] + rest)
  {
    var cs := [x] + rest;
    assert forall i | 1 <= i < |cs| :: cs[i] == rest[i - 1];
  }

  lemma FirstRun(s: string)
    requires s != []
    ensures var x := s[..RunLength(s, IsDigit(s[0]))];
            |x| > 0 && AllDigits(x) == IsDigit(s[0]) && (AllDigits(x) || NoDigits(x))
  {
    assert s[..RunLength(s, IsDigit(s[0]))][0] == s[0];
  }

  lemma ConcatCons(x: string, cs: seq<string>)
    ensures Concat([x] + cs) == x + Concat(cs)
  {
    assert ([x] + cs)[1..] == cs;
  }

  lemma ChunksStep(s: string)
    requires s != []
    ensures var n := RunLength(s, IsDigit(s[0]));
            0 < n <= |s| && Chunks(s) == [s[..n]] + Chunks(s[n..])
  {
    FirstRun(s);
  }

  lemma {:induction false} ChunksLoseNothing(s: string)
    ensures Concat(Chunks(s)) == s
  {
    hide *;
    if s == [] {
      NoChunks();
    } else {
      var n := RunLength(s, IsDigit(s[0]));
      ChunksStep(s);
      ChunksLoseNothing(s[n..]);
      ConcatCons(s[..n], Chunks(s[n..]));
      assert s == s[..n] + s[n..];
    }
  }

  lemma NoChunks()
    ensures Chunks([]) == [] && Concat([]) == []
  {}

  // The chunks of a tag alternate in kind.
  lemma {:induction false} ChunksAlternate(s: string)
    ensures Alternating(Chunks(s))
    ensures s != [] ==> Chunks(s) != [] && AllDigits(Chunks(s)[0]) == IsDigit(s[0])
  {
    if s != [] {
      hide RunLength, Alternating, AllDigits, NoDigits, IsDigit;
      var n := RunLength(s, IsDigit(s[0]));
      assert n > 0 by { FirstRun(s); }
      var x, rest := s[..n], s[n..];
      ChunksAlternate(rest);
      FirstRun(s);
      assert n < |s| ==> rest[0] == s[n];
      AlternatingCons(x, Chunks(rest));
    }
  }

  lemma RunAfter(x: string, rest: string, digits: bool)
    requires x != [] && forall i | 0 <= i < |x| :: IsDigit(x[i]) == digits
    requires rest != [] ==> IsDigit(rest[0]) != digits
    ensures RunLength(x + rest, digits) == |x|
  {
    var s := x + rest;
    var n := RunLength(s, digits);
    assert forall i | 0 <= i < |x| :: s[i] == x[i];
    assert rest != [] ==> s[|x|] == rest[0];
  }

  lemma AlternatingTail(cs: seq<string>)
    requires cs != [] && Alternating(cs)
    ensures Alternating(cs[1..])
  {
    var tail := cs[1..];
    forall i | 0 <= i < |tail| - 1
      ensures AllDigits(tail[i]) != AllDigits(tail[i + 1])
    {
      assert tail[i] == cs[i + 1];
    }
  }

  // The decomposition is the only alternating one, so chunking undoes concatenation.
  lemma {:induction false} ChunksOfConcat(cs: seq<string>)
    requires Alternating(cs)
    ensures Chunks(Concat(cs)) == cs
    ensures cs != [] ==> Concat(cs) != [] && IsDigit(Concat(cs)[0]) == AllDigits(cs[0])
  {
    if cs != [] {
      var x, rest := cs[0], Concat(cs[1..]);
      assert AllDigits(x) || NoDigits(x);
      if |cs| > 1 { assert cs[1..][0] == cs[1] && AllDigits(x) != AllDigits(cs[1]); }
      AlternatingTail(cs);
      hide Alternating, RunLength;
      ChunksOfConcat(cs[1..]);
      RunAfter(x, rest, AllDigits(x));
      var s := x + rest;
      assert s[0] == x[0] && s[..|x|] == x && s[|x|..] == rest;
    }
  }

  // ---- The comparison -----------------------------------------------------------

  // strings.TrimLeft(s, "0")
  function TrimZeros(s: string): (t: string)
    ensures |t| <= |s|
    ensures t != [] ==> t[0] != '0'
    ensures AllDigits(s) && t != [] ==> AllDigits(t)
  {
    if s != [] && s[0] == '0' then TrimZeros(s[1..]) else s
  }

  function CompareTrimmed(x: string, y: string): int
  {
    if |x| < |y| then -1 else if |x| > |y| then 1 else LexCompare(x, y)
  }

  function CompareChunk(x: string, y: string): int
  {
    if AllDigits(x) && AllDigits(y) then CompareTrimmed(TrimZeros(x), TrimZeros(y))
    else LexCompare(x, y)
  }

  function CompareChunks(ca: seq<string>, cb: seq<string>): int
  {
    if ca == [] then (if cb == [] then 0 else -1)
    else if cb == [] then 1
    else if CompareChunk(ca[0], cb[0]) != 0 then CompareChunk(ca[0], cb[0])
    else CompareChunks(ca[1..], cb[1..])
  }

  function Compare(a: string, b: string): int { CompareChunks(Chunks(a), Chunks(b)) }

  method NaturalCompare(a: string, b: string) returns (r: int)
    ensures r == Compare(a, b)
  {
    var ca := Chunks(a);
    var cb := Chunks(b);
    var i := 0;
    while i < |ca| && i < |cb|
      invariant 0 <= i <= |ca| && i <= |cb|
      invariant CompareChunks(ca, cb) == CompareChunks(ca[i..], cb[i..])
    {
      var x, y := ca[i], cb[i];
      assert ca[i..][0] == x && cb[i..][0] == y;
      assert ca[i..][1..] == ca[i + 1..] && cb[i..][1..] == cb[i + 1..];
      var xNum := IsDigits(x);
      var yNum := IsDigits(y);
      if xNum && yNum {
        var xt := TrimZeros(x);
        var yt := TrimZeros(y);
        if |xt| != |yt| {
          if |xt| < |yt| {
            return -1;
          }
          return 1;
        }
        if xt != yt {
          if LexCompare(xt, yt) < 0 {
            return -1;
          }
          return 1;
        }
      } else {
        if x != y {
          if LexCompare(x, y) < 0 {
            return -1;
          }
          return 1;
        }
      }
      i := i + 1;
    }
    if |ca| < |cb| {
      return -1;
    } else if |ca| > |cb| {
      return 1;
    } else {
      return 0;
    }
  }

  // ---- Total preorder -----------------------------------------------------------

  ghost predicate IsChunk(x: string) { AllDigits(x) || NoDigits(x) }

  lemma ChunkAntisymmetric(x: string, y: string)
    ensures CompareChunk(x, y) == -CompareChunk(y, x)
  {
    LexAntisymmetric(x, y);
    LexAntisymmetric(TrimZeros(x), TrimZeros(y));
  }

  // A digit run compares with a non-digit chunk by the first byte alone.
  lemma MixedChunks(d: string, t: string)
    requires AllDigits(d) && NoDigits(t)
    ensures CompareChunk(d, t) == if t[0] < '0' then 1 else -1
    ensures CompareChunk(t, d) == if t[0] < '0' then -1 else 1
  {
    assert IsDigit(d[0]) && !IsDigit(t[0]);
  }

  lemma ChunkTransitive(x: string, y: string, z: string)
    requires IsChunk(x) && IsChunk(y) && IsChunk(z)
    requires CompareChunk(x, y) <= 0 && CompareChunk(y, z) <= 0
    ensures CompareChunk(x, z) <= 0
    ensures CompareChunk(x, y) < 0 || CompareChunk(y, z) < 0 ==> CompareChunk(x, z) < 0
  {
    if AllDigits(x) && AllDigits(y) && AllDigits(z) {
      var a, b, c := TrimZeros(x), TrimZeros(y), TrimZeros(z);
      if LexCompare(a, b) <= 0 && LexCompare(b, c) <= 0 {
        LexTransitive(a, b, c);
      }
    } else {
      if AllDigits(x) && NoDigits(y) { MixedChunks(x, y); }
      if AllDigits(y) && NoDigits(x) { MixedChunks(y, x); }
      if AllDigits(y) && NoDigits(z) { MixedChunks(y, z); }
      if AllDigits(z) && NoDigits(y) { MixedChunks(z, y); }
      if AllDigits(x) && NoDigits(z) { MixedChunks(x, z); }
      if AllDigits(z) && NoDigits(x) { MixedChunks(z, x); }
      if !(AllDigits(x) && AllDigits(y)) && !(AllDigits(y) && AllDigits(z)) {
        LexTransitive(x, y, z);
      }
    }
  }

  lemma {:induction false} ChunksAntisymmetric(ca: seq<string>, cb: seq<string>)
    ensures CompareChunks(ca, cb) == -CompareChunks(cb, ca)
  {
    if ca != [] && cb != [] {
      ChunkAntisymmetric(ca[0], cb[0]);
      ChunksAntisymmetric(ca[1..], cb[1..]);
    }
  }

  lemma {:induction false} ChunksTransitive(ca: seq<string>, cb: seq<string>, cc: seq<string>)
    requires forall x | x in ca + cb + cc :: IsChunk(x)
    requires CompareChunks(ca, cb) <= 0 && CompareChunks(cb, cc) <= 0
    ensures CompareChunks(ca, cc) <= 0
    ensures CompareChunks(ca, cb) < 0 || CompareChunks(cb, cc) < 0 ==> CompareChunks(ca, cc) < 0
  {
    if ca != [] && cb != [] && cc != [] {
      assert ca[0] in ca && cb[0] in cb && cc[0] in cc;
      ChunkTransitive(ca[0], cb[0], cc[0]);
      if CompareChunk(ca[0], cb[0]) == 0 && CompareChunk(cb[0], cc[0]) == 0 {
        ChunkAntisymmetric(ca[0], cb[0]);
        ChunkAntisymmetric(cb[0], cc[0]);
        ChunkAntisymmetric(ca[0], cc[0]);
        ChunkTransitive(cc[0], cb[0], ca[0]);
        ChunksTransitive(ca[1..], cb[1..], cc[1..]);
      }
    }
  }

  lemma {:induction false} ChunksRange(ca: seq<string>, cb: seq<string>)
    ensures CompareChunks(ca, cb) in {-1, 0, 1}
  {
    if ca != [] && cb != [] {
      ChunksRange(ca[1..], cb[1..]);
    }
  }

  // Reflexive, sign-antisymmetric and transitive on all strings, equivalence included.
  lemma TotalPreorder(a: string, b: string, c: string)
    ensures Compare(a, b) in {-1, 0, 1}
    ensures Compare(a, a) == 0
    ensures Compare(a, b) == -Compare(b, a)
    ensures Compare(a, b) <= 0 && Compare(b, c) <= 0 ==> Compare(a, c) <= 0
    ensures Compare(a, b) < 0 && Compare(b, c) <= 0 ==> Compare(a, c) < 0
    ensures Compare(a, b) <= 0 && Compare(b, c) < 0 ==> Compare(a, c) < 0
  {
    ChunksRange(Chunks(a), Chunks(b));
    ChunksAntisymmetric(Chunks(a), Chunks(a));
    ChunksAntisymmetric(Chunks(a), Chunks(b));
    ChunksAlternate(a);
    ChunksAlternate(b);
    ChunksAlternate(c);
    if Compare(a, b) <= 0 && Compare(b, c) <= 0 {
      ChunksTransitive(Chunks(a), Chunks(b), Chunks(c));
    }
  }

  // ---- Decimal meaning ----------------------------------------------------------

  function Digit(c: char): (d: nat)
    requires IsDigit(c)
    ensures d <= 9
    ensures d == 0 <==> c == '0'
  {
    c as int - '0' as int
  }

  ghost predicate OnlyDigits(s: string) { forall i | 0 <= i < |s| :: IsDigit(s[i]) }

  function Value(s: string): nat
    requires OnlyDigits(s)
  {
    if s == [] then 0 else 10 * Value(s[..|s| - 1]) + Digit(s[|s| - 1])
  }

  function Power10(n: nat): (p: nat)
    ensures p > 0
  {
    if n == 0 then 1 else 10 * Power10(n - 1)
  }

  lemma TenTimes(d: nat, p: nat)
    ensures 10 * (d * p) == d * (10 * p)
  {}

  // Leading digit times its weight, plus the rest.
  lemma {:induction false} ValueFromFront(s: string)
    requires s != [] && OnlyDigits(s)
    ensures Value(s) == Digit(s[0]) * Power10(|s| - 1) + Value(s[1..])
  {
    if |s| == 1 {
      assert s[..0] == [] && s[1..] == [];
    } else {
      var n := |s|;
      var init, rest, last := s[..n - 1], s[1..], Digit(s[n - 1]);
      ValueFromFront(init);
      assert Value(s) == 10 * Value(init) + last;
      assert Value(rest) == 10 * Value(init[1..]) + last by {
        assert init[1..] == rest[..n - 2];
      }
      TenTimes(Digit(s[0]), Power10(n - 2));
    }
  }

  lemma OneMore(e: nat, p: nat)
    ensures (e + 1) * p == e * p + p
  {}

  lemma {:induction false} Weighted(d: nat, e: nat, p: nat)
    requires d < e
    ensures d * p + p <= e * p
    decreases e - d
  {
    OneMore(e - 1, p);
    if d < e - 1 { Weighted(d, e - 1, p); }
  }

  lemma {:induction false} ValueBound(s: string)
    requires OnlyDigits(s)
    ensures Value(s) < Power10(|s|)
    ensures s != [] && s[0] != '0' ==> Value(s) >= Power10(|s| - 1)
  {
    if s != [] {
      ValueBound(s[1..]);
      ValueFromFront(s);
      var d, p := Digit(s[0]), Power10(|s| - 1);
      Weighted(d, 10, p);
      if d > 0 { Weighted(0, d, p); }
    }
  }

  lemma {:induction false} TrimKeepsValue(s: string)
    requires OnlyDigits(s)
    ensures OnlyDigits(TrimZeros(s))
    ensures Value(TrimZeros(s)) == Value(s)
  {
    if s != [] && s[0] == '0' {
      TrimKeepsValue(s[1..]);
      ValueFromFront(s);
    }
  }

  lemma Power10Monotone(m: nat, n: nat)
    requires m <= n
    ensures Power10(m) <= Power10(n)
  {
    if m < n { Power10Monotone(m, n - 1); }
  }

  lemma {:induction false} SameLengthOrder(x: string, y: string)
    requires |x| == |y| && OnlyDigits(x) && OnlyDigits(y)
    ensures LexCompare(x, y) < 0 <==> Value(x) < Value(y)
    ensures LexCompare(x, y) == 0 <==> Value(x) == Value(y)
  {
    if x != [] {
      SameLengthOrder(x[1..], y[1..]);
      ValueFromFront(x);
      ValueFromFront(y);
      ValueBound(x[1..]);
      ValueBound(y[1..]);
      var d, e := Digit(x[0]), Digit(y[0]);
      if d < e {
        Weighted(d, e, Power10(|x| - 1));
      } else if e < d {
        Weighted(e, d, Power10(|x| - 1));
      }
    }
  }

  // A shorter trimmed run is a smaller number.
  lemma ShorterIsSmaller(x: string, y: string)
    requires OnlyDigits(x) && OnlyDigits(y)
    requires |x| < |y| && y[0] != '0'
    ensures Value(x) < Value(y)
  {
    ValueBound(x);
    ValueBound(y);
    Power10Monotone(|x|, |y| - 1);
  }

  // For digit runs of any length, the text rule has the sign of the decimal comparison.
  lemma DigitRunsByValue(x: string, y: string)
    requires AllDigits(x) && AllDigits(y)
    ensures CompareChunk(x, y) < 0 <==> Value(x) < Value(y)
    ensures CompareChunk(x, y) == 0 <==> Value(x) == Value(y)
  {
    var xt, yt := TrimZeros(x), TrimZeros(y);
    TrimKeepsValue(x);
    TrimKeepsValue(y);
    if |xt| < |yt| {
      ShorterIsSmaller(xt, yt);
    } else if |yt| < |xt| {
      ShorterIsSmaller(yt, xt);
    } else {
      SameLengthOrder(xt, yt);
    }
  }

  // ---- When two tags tie --------------------------------------------------------

  // A digit run without leading zeros, zero kept as a single "0"; other chunks as they are.
  function NormalChunk(x: string): string
  {
    if AllDigits(x) then (if TrimZeros(x) == [] then "0" else TrimZeros(x)) else x
  }

  function NormalChunks(cs: seq<string>): (ns: seq<string>)
    ensures |ns| == |cs|
    ensures forall i | 0 <= i < |cs| :: ns[i] == NormalChunk(cs[i])
  {
    seq(|cs|, i requires 0 <= i < |cs| => NormalChunk(cs[i]))
  }

  function Normalize(s: string): string { Concat(NormalChunks(Chunks(s))) }

  lemma ChunkTies(x: string, y: string)
    requires IsChunk(x) && IsChunk(y)
    ensures CompareChunk(x, y) == 0 <==> NormalChunk(x) == NormalChunk(y)
  {
    if AllDigits(x) && AllDigits(y) {
      assert TrimZeros(x) != [] ==> TrimZeros(x)[0] != '0';
      assert TrimZeros(y) != [] ==> TrimZeros(y)[0] != '0';
    } else if AllDigits(x) {
      MixedChunks(x, y);
    } else if AllDigits(y) {
      MixedChunks(y, x);
    }
  }

  lemma {:induction false} ChunksTie(ca: seq<string>, cb: seq<string>)
    requires forall x | x in ca :: IsChunk(x)
    requires forall x | x in cb :: IsChunk(x)
    ensures CompareChunks(ca, cb) == 0 <==> NormalChunks(ca) == NormalChunks(cb)
  {
    hide CompareChunk, NormalChunk, IsChunk;
    var na, nb := NormalChunks(ca), NormalChunks(cb);
    if ca != [] && cb != [] {
      ChunkTies(ca[0], cb[0]);
      ChunksTie(ca[1..], cb[1..]);
      assert na == [NormalChunk(ca[0])] + NormalChunks(ca[1..]);
      assert nb == [NormalChunk(cb[0])] + NormalChunks(cb[1..]);
      assert na == nb <==> na[0] == nb[0] && na[1..] == nb[1..];
    }
  }

  lemma NormalChunksAlternate(cs: seq<string>)
    requires Alternating(cs)
    ensures Alternating(NormalChunks(cs))
  {
    var ns := NormalChunks(cs);
    forall i | 0 <= i < |cs|
      ensures AllDigits(ns[i]) == AllDigits(cs[i]) && (AllDigits(ns[i]) || NoDigits(ns[i]))
    {
      assert AllDigits(cs[i]) || NoDigits(cs[i]);
    }
  }

  // naturalCompare ties two tags exactly when they are the same text once every
  // maximal digit run is written without leading zeros.
  lemma TieIffSameNormalForm(a: string, b: string)
    ensures Compare(a, b) == 0 <==> Normalize(a) == Normalize(b)
  {
    ChunksAlternate(a);
    ChunksAlternate(b);
    ChunksTie(Chunks(a), Chunks(b));
    NormalChunksAlternate(Chunks(a));
    NormalChunksAlternate(Chunks(b));
    ChunksOfConcat(NormalChunks(Chunks(a)));
    ChunksOfConcat(NormalChunks(Chunks(b)));
  }
}
