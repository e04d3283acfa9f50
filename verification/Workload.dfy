// The annotation contract and the containers of a workload: internal/workload/workload.go,
// internal/controller/workload_controller.go:296-324.
module Workload {
  import opened Text

  const PREFIX := "image-updater.saphire.com/"
  const POLICY := PREFIX + "policy."
  const APPROVE := PREFIX + "approve."
  const LAST_UPDATED := PREFIX + "last-updated."
  const UPDATE_MODE := PREFIX + "update-mode"
  const WRITE_BACK := PREFIX + "write-back"
  const GIT_REPO := PREFIX + "git-repo"
  const GIT_BRANCH := PREFIX + "git-branch"
  const GIT_SECRET := PREFIX + "git-secret"
  const WRITE_BACK_TARGET := PREFIX + "write-back-target"
  const HELM_NAME := PREFIX + "helm.image-name."
  const HELM_TAG := PREFIX + "helm.image-tag."

  type Annotations = map<string, string>

  predicate HasPrefix(s: string, p: string) { |p| <= |s| && s[..|p|] == p }

  // A missing annotation reads as the empty string.
  function Read(a: Annotations, key: string): string { if key in a then a[key] else "" }

  // The policy a container is bound to.
  function Bound(a: Annotations, name: string): Option<string>
  {
    if name != "" && Read(a, POLICY + name) != "" then Some(a[POLICY + name]) else None
  }

  // Every container name some binding mentions.
  function BoundNames(a: Annotations): set<string>
  {
    set k | k in a && HasPrefix(k, POLICY) :: k[|POLICY|..]
  }

  lemma BoundIsNamed(a: Annotations, name: string)
    requires Bound(a, name).Some?
    ensures name in BoundNames(a)
  {
    var k := POLICY + name;
    assert k in a && HasPrefix(k, POLICY) && k[|POLICY|..] == name;
  }

  // strings.CutPrefix on every key, in whatever order the map is walked.
  method ContainerPolicies(a: Annotations) returns (out: map<string, string>)
    ensures forall n :: n in out <==> Bound(a, n).Some?
    ensures forall n | n in out :: out[n] == Bound(a, n).value
  {
    out := map[];
    var keys := a.Keys;
    while keys != {}
      invariant keys <= a.Keys
      invariant forall n :: n in out <==> Bound(a, n).Some? && POLICY + n !in keys
      invariant forall n | n in out :: out[n] == Bound(a, n).value
      decreases |keys|
    {
      var k :| k in keys;
      keys := keys - {k};
      if HasPrefix(k, POLICY) {
        var name := k[|POLICY|..];
        assert k == POLICY + name;
        if name != "" && a[k] != "" {
          out := out[name := a[k]];
        }
      }
      forall n | POLICY + n == k
        ensures HasPrefix(k, POLICY) && n == k[|POLICY|..]
      {
        assert k[..|POLICY|] == POLICY;
      }
    }
  }

  function ApprovedTag(a: Annotations, name: string): Option<string>
  {
    if Read(a, APPROVE + name) != "" then Some(a[APPROVE + name]) else None
  }

  predicate WritesToGit(a: Annotations) { Read(a, WRITE_BACK) == "git" }

  // The branch a workload writes to.
  datatype Place = Place(repo: string, branch: string)

  function PlaceOf(a: Annotations): Place
  {
    Place(Read(a, GIT_REPO), if Read(a, GIT_BRANCH) == "" then "main" else Read(a, GIT_BRANCH))
  }

  datatype Mode = Automatic | Approval | DryRun

  // Any other text in the policy's own mode counts as automatic.
  function ModeOf(s: string): Option<Mode>
  {
    if s == "Automatic" then Some(Automatic)
    else if s == "Approval" then Some(Approval)
    else if s == "DryRun" then Some(DryRun)
    else None
  }

  // A recognised override wins over the policy's mode.
  function EffectiveMode(policyMode: string, a: Annotations): Mode
  {
    var override := if UPDATE_MODE in a then ModeOf(a[UPDATE_MODE]) else None;
    if override.Some? then override.value
    else if ModeOf(policyMode).Some? then ModeOf(policyMode).value
    else Automatic
  }

  // The operator's own bookkeeping is no annotation it reads.
  lemma OwnKeysApart(name: string)
    ensures !HasPrefix(POLICY + name, LAST_UPDATED)
    ensures !HasPrefix(APPROVE + name, LAST_UPDATED)
    ensures !HasPrefix(HELM_NAME + name, LAST_UPDATED) && !HasPrefix(HELM_TAG + name, LAST_UPDATED)
    ensures !HasPrefix(UPDATE_MODE, LAST_UPDATED) && !HasPrefix(WRITE_BACK, LAST_UPDATED)
    ensures !HasPrefix(GIT_REPO, LAST_UPDATED) && !HasPrefix(GIT_BRANCH, LAST_UPDATED)
    ensures !HasPrefix(GIT_SECRET, LAST_UPDATED) && !HasPrefix(WRITE_BACK_TARGET, LAST_UPDATED)
  {
    ApartAfterPrefix("policy." + name, "last-updated.");
    ApartAfterPrefix("approve." + name, "last-updated.");
    ApartAfterPrefix("helm.image-name." + name, "last-updated.");
    ApartAfterPrefix("helm.image-tag." + name, "last-updated.");
    ApartAfterPrefix("update-mode", "last-updated.");
    ApartAfterPrefix("write-back", "last-updated.");
    ApartAfterPrefix("git-repo", "last-updated.");
    ApartAfterPrefix("git-branch", "last-updated.");
    ApartAfterPrefix("git-secret", "last-updated.");
    ApartAfterPrefix("write-back-target", "last-updated.");
    assert POLICY + name == PREFIX + ("policy." + name);
    assert APPROVE + name == PREFIX + ("approve." + name);
    assert HELM_NAME + name == PREFIX + ("helm.image-name." + name);
    assert HELM_TAG + name == PREFIX + ("helm.image-tag." + name);
  }

  lemma ApartAfterPrefix(s: string, p: string)
    requires s != "" && p != "" && s[0] != p[0]
    ensures !HasPrefix(PREFIX + s, PREFIX + p)
  {
    var a, b := PREFIX + s, PREFIX + p;
    assert a[|PREFIX|] == s[0] && b[|PREFIX|] == p[0];
    assert |b| <= |a| ==> a[..|b|][|PREFIX|] == s[0];
  }
}
