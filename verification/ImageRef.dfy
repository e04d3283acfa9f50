// Image references: internal/gitwriteback/edit.go repoOf, internal/webhook/providers.go
// stripTag, internal/registry/scanner.go JoinImage.
module ImageRef {
  // strings.IndexByte and strings.LastIndexByte: -1 when the byte does not occur.
  function IndexOf(s: string, c: char): (i: int)
    ensures -1 <= i < |s|
    ensures i >= 0 ==> s[i] == c
    ensures forall k | 0 <= k < |s| && (i < 0 || k < i) :: s[k] != c
  {
    if s == [] then -1
    else if s[0] == c then 0
    else if IndexOf(s[1..], c) < 0 then -1
    else IndexOf(s[1..], c) + 1
  }

  function LastIndexOf(s: string, c: char): (i: int)
    ensures -1 <= i < |s|
  {
    if s == [] then -1
    else if s[|s| - 1] == c then |s| - 1
    else LastIndexOf(s[..|s| - 1], c)
  }

  lemma {:induction false} LastIndexIsLast(s: string, c: char)
    ensures LastIndexOf(s, c) >= 0 ==> s[LastIndexOf(s, c)] == c
    ensures forall k | LastIndexOf(s, c) < k < |s| :: s[k] != c
  {
    if s != [] && s[|s| - 1] != c { LastIndexIsLast(s[..|s| - 1], c); }
  }

  function JoinImage(repository: string, tag: string): string { repository + ":" + tag }

  function BeforeDigest(image: string): string
  {
    var at := IndexOf(image, '@');
    if at >= 0 then image[..at] else image
  }

  // The repository part of an image reference, without tag or digest.
  function RepoOf(image: string): string
  {
    var ref := BeforeDigest(image);
    var slash := LastIndexOf(ref, '/');
    var colon := LastIndexOf(ref, ':');
    CutTag(ref, slash, colon)
  }

  // The webhook receiver's own tag stripper.
  function StripTag(ref: string): string
  {
    var slash := LastIndexOf(ref, '/');
    var lastSeg := ref[slash + 1..];
    var i := LastIndexOf(lastSeg, ':');
    if i >= 0 then ref[..slash + 1] + lastSeg[..i] else ref
  }

  lemma LastIndexIs(s: string, c: char, i: int)
    requires -1 <= i < |s|
    requires i >= 0 ==> s[i] == c
    requires forall k | i < k < |s| :: s[k] != c
    ensures LastIndexOf(s, c) == i
  {
    LastIndexIsLast(s, c);
  }

  lemma FirstIndexIs(s: string, c: char, i: nat)
    requires i < |s| && s[i] == c
    requires forall k | 0 <= k < i :: s[k] != c
    ensures IndexOf(s, c) == i
  {}

  lemma BeforeDigestOfJoin(repository: string, tag: string)
    requires '@' !in repository
    ensures BeforeDigest(JoinImage(repository, tag)) == JoinImage(repository, BeforeDigest(tag))
  {
    var image := JoinImage(repository, tag);
    var at := IndexOf(tag, '@');
    var n := |repository| + 1;
    assert image == repository + [':'] + tag;
    if at >= 0 {
      assert image[..n + at] == repository + [':'] + tag[..at];
      FirstIndexIs(image, '@', n + at);
    }
  }

  // The last occurrence of c in `repository:t` is in t, or else in what precedes t.
  lemma LastIndexInJoin(repository: string, t: string, c: char)
    ensures var ref, n := JoinImage(repository, t), |repository|;
            && |ref| == n + 1 + |t| && ref[..n] == repository && ref[n] == ':'
            && (c in t ==> LastIndexOf(ref, c) > n)
            && (c !in t && c == ':' ==> LastIndexOf(ref, c) == n)
            && (c !in t && c != ':' ==> LastIndexOf(ref, c) < n)
  {
    hide LastIndexOf;
    var ref, n := JoinImage(repository, t), |repository|;
    assert ref == repository + [':'] + t;
    LastIndexIsLast(ref, c);
    var i := LastIndexOf(ref, c);
    assert forall k | 0 <= k < |t| :: ref[n + 1 + k] == t[k];
    assert i > n ==> t[i - n - 1] == c;
  }

  // Joining and stripping returns the repository exactly when the repository carries no
  // digest and the tag, up to its own digest, has neither colon nor slash. Ports are fine.
  lemma JoinThenRepo(repository: string, tag: string)
    ensures RepoOf(JoinImage(repository, tag)) == repository
       <==> '@' !in repository && ':' !in BeforeDigest(tag) && '/' !in BeforeDigest(tag)
  {
    hide LastIndexOf;
    var image := JoinImage(repository, tag);
    if '@' in repository {
      var at := IndexOf(repository, '@');
      assert image[..at] == repository[..at] && image[at] == '@';
      FirstIndexIs(image, '@', at);
      assert |RepoOf(image)| <= at < |repository|;
    } else {
      BeforeDigestOfJoin(repository, tag);
      LastIndexInJoin(repository, BeforeDigest(tag), ':');
      LastIndexInJoin(repository, BeforeDigest(tag), '/');
    }
  }

  lemma LastIndexOfSuffix(s: string, n: nat, c: char)
    requires n <= |s|
    ensures LastIndexOf(s[n..], c) == if LastIndexOf(s, c) >= n then LastIndexOf(s, c) - n else -1
  {
    hide LastIndexOf;
    LastIndexIsLast(s, c);
    var i := LastIndexOf(s, c);
    LastIndexIs(s[n..], c, if i >= n then i - n else -1);
  }

  lemma LastIndexOfPrefix(s: string, n: nat, c: char)
    requires n <= |s| && LastIndexOf(s, c) < n
    ensures LastIndexOf(s[..n], c) == LastIndexOf(s, c)
  {
    hide LastIndexOf;
    LastIndexIsLast(s, c);
    LastIndexIs(s[..n], c, LastIndexOf(s, c));
  }

  lemma RejoinPrefix(s: string, n: nat, i: nat)
    requires n + i <= |s|
    ensures s[..n] + s[n..][..i] == s[..n + i]
  {}

  // A reference cut at the last colon of its last path segment, if there is one.
  function CutTag(ref: string, slash: int, colon: int): string
    requires -1 <= slash < |ref| && -1 <= colon < |ref|
  {
    if colon > slash then ref[..colon] else ref
  }

  // The webhook cuts there too.
  lemma StripTagCuts(ref: string)
    ensures StripTag(ref) == CutTag(ref, LastIndexOf(ref, '/'), LastIndexOf(ref, ':'))
  {
    var slash, colon := LastIndexOf(ref, '/'), LastIndexOf(ref, ':');
    hide LastIndexOf;
    LastIndexOfSuffix(ref, slash + 1, ':');
    if colon > slash {
      RejoinPrefix(ref, slash + 1, colon - slash - 1);
    }
  }

  lemma NoDigestInRepo(image: string)
    ensures '@' !in RepoOf(image)
  {
    var ref := BeforeDigest(image);
    assert '@' !in ref;
    var n := |RepoOf(image)|;
    assert RepoOf(image) == ref[..n];
    assert forall k | 0 <= k < n :: ref[..n][k] == ref[k];
  }

  // The editor and the webhook agree exactly when what the webhook keeps has no digest
  // mark; in particular on every reference without '@'.
  lemma StrippersAgree(ref: string)
    ensures RepoOf(ref) == StripTag(ref) <==> '@' !in StripTag(ref)
    ensures '@' !in ref ==> RepoOf(ref) == StripTag(ref)
  {
    hide LastIndexOf, IndexOf;
    StripTagCuts(ref);
    NoDigestInRepo(ref);
    var at, colon, slash := IndexOf(ref, '@'), LastIndexOf(ref, ':'), LastIndexOf(ref, '/');
    if at < 0 {
      assert BeforeDigest(ref) == ref;
      assert '@' !in ref;
    } else {
      if slash < colon < at {
        LastIndexOfPrefix(ref, at, ':');
        LastIndexOfPrefix(ref, at, '/');
        assert ref[..at][..colon] == ref[..colon];
      } else {
        LastIndexIsLast(ref, ':');
        assert StripTag(ref)[at] == '@';
      }
    }
  }
}
