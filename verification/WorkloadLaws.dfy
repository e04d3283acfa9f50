// What one reconcile promises: internal/controller/workload_controller.go:79-200,296-347.
module WorkloadLaws {
  import opened Text
  import opened Workload
  import opened WorkloadReconcile
  import opened GitWriteBack
  import opened ManifestLaws

  // ---- What the operator writes is not what it reads ----------------------------

  lemma KeyKept(a: Annotations, images: map<string, string>, key: string)
    requires !HasPrefix(key, LAST_UPDATED)
    ensures var b := a + Marks(LAST_UPDATED, images);
            (key in b <==> key in a) && Read(b, key) == Read(a, key)
  {
    hide HasPrefix;
  }

  // The bindings, the approvals, the mode and the write-back settings survive a patch.
  lemma SettingsKept(a: Annotations, images: map<string, string>, name: string, mode: string)
    ensures var b := a + Marks(LAST_UPDATED, images);
            && Bound(b, name) == Bound(a, name)
            && ApprovedTag(b, name) == ApprovedTag(a, name)
            && EffectiveMode(mode, b) == EffectiveMode(mode, a)
            && WritesToGit(b) == WritesToGit(a)
            && GitTarget(b) == GitTarget(a) && PlaceOf(b) == PlaceOf(a) && Read(b, GIT_SECRET) == Read(a, GIT_SECRET)
            && Read(b, HELM_NAME + name) == Read(a, HELM_NAME + name)
            && Read(b, HELM_TAG + name) == Read(a, HELM_TAG + name)
  {
    hide *;
    OwnKeysApart(name);
    var b := a + Marks(LAST_UPDATED, images);
    KeyKept(a, images, POLICY + name);
    KeyKept(a, images, APPROVE + name);
    KeyKept(a, images, UPDATE_MODE);
    KeyKept(a, images, WRITE_BACK);
    KeyKept(a, images, GIT_REPO);
    KeyKept(a, images, GIT_BRANCH);
    KeyKept(a, images, GIT_SECRET);
    KeyKept(a, images, WRITE_BACK_TARGET);
    KeyKept(a, images, HELM_NAME + name);
    KeyKept(a, images, HELM_TAG + name);
    SameBound(a, b, name);
    SameApproval(a, b, name);
    SameMode(a, b, mode);
    SameGit(a, b);
  }

  lemma SameBound(a: Annotations, b: Annotations, name: string)
    requires Read(a, POLICY + name) == Read(b, POLICY + name)
    ensures Bound(a, name) == Bound(b, name)
  {}

  lemma SameApproval(a: Annotations, b: Annotations, name: string)
    requires Read(a, APPROVE + name) == Read(b, APPROVE + name)
    ensures ApprovedTag(a, name) == ApprovedTag(b, name)
  {}

  lemma SameMode(a: Annotations, b: Annotations, mode: string)
    requires (UPDATE_MODE in a <==> UPDATE_MODE in b) && Read(a, UPDATE_MODE) == Read(b, UPDATE_MODE)
    ensures EffectiveMode(mode, a) == EffectiveMode(mode, b)
  {}

  lemma SameGit(a: Annotations, b: Annotations)
    requires Read(a, WRITE_BACK) == Read(b, WRITE_BACK) && Read(a, GIT_REPO) == Read(b, GIT_REPO)
    requires Read(a, GIT_BRANCH) == Read(b, GIT_BRANCH) && Read(a, WRITE_BACK_TARGET) == Read(b, WRITE_BACK_TARGET)
    ensures WritesToGit(a) == WritesToGit(b) && GitTarget(a) == GitTarget(b) && PlaceOf(a) == PlaceOf(b)
  {}

  // ---- The fixed point ----------------------------------------------------------

  lemma PolicyKept(pod: Pod, policies: Policies, mutable: bool, images: map<string, string>, name: string)
    ensures var after := PatchTo(pod, images);
            && Bound(after.annotations, name) == Bound(pod.annotations, name)
            && PolicyOf(after, policies, name) == PolicyOf(pod, policies, name)
            && Named(after.containers, name) == Named(pod.containers, name)
            && forall p: Policy :: Gate(after.annotations, mutable, name, p) == Gate(pod.annotations, mutable, name, p)
  {
    hide Marks, SetImages, Bound, ApprovedTag, EffectiveMode, WritesToGit, GitTarget;
    var after := PatchTo(pod, images);
    SettingsKept(pod.annotations, images, name, "");
    SameNames(pod.containers, after.containers, name);
    forall p: Policy
      ensures Gate(after.annotations, mutable, name, p) == Gate(pod.annotations, mutable, name, p)
    {
      SettingsKept(pod.annotations, images, name, p.updateMode);
    }
  }

  // After one live reconcile no container wants anything any more.
  lemma NothingWanted(pod: Pod, policies: Policies, mutable: bool, name: string)
    requires !WritesToGit(pod.annotations)
    ensures Wants(LivePatch(pod, policies, mutable), policies, mutable, name).None?
  {
    var want := Desired(pod, policies, mutable);
    var after := PatchTo(pod, want);
    LivePatchCases(pod, policies, mutable);
    PatchNothing(pod);
    DesiredIs(pod, policies, mutable);
    PolicyKept(pod, policies, mutable, want, name);
    hide Desired, LivePatch, Marks, SetImages, Gate, Named, WritesToGit, Bound;
    if Named(pod.containers, name).Some? { ImageNamed(pod.containers, want, name); }
    if name in want { DesiredImage(pod, policies, mutable, name); }
  }

  lemma DesiredImage(pod: Pod, policies: Policies, mutable: bool, name: string)
    requires name in Desired(pod, policies, mutable)
    ensures Desired(pod, policies, mutable)[name] == Wants(pod, policies, mutable, name).value.latestImage
  {
    hide Wants;
  }

  lemma ImageNamed(cs: seq<Ctr>, images: map<string, string>, name: string)
    requires Named(cs, name).Some?
    ensures var at := Named(cs, name).value;
            SetImages(cs, images)[at] == Ctr(name, if name in images then images[name] else cs[at].image)
  {}

  // The next reconcile makes no patch.
  lemma LiveFixedPoint(pod: Pod, policies: Policies, mutable: bool)
    requires !WritesToGit(pod.annotations)
    ensures var after := LivePatch(pod, policies, mutable);
            && Desired(after, policies, mutable) == map[]
            && LivePatch(after, policies, mutable) == after
  {
    hide Wants, WritesToGit, PatchTo;
    var after := LivePatch(pod, policies, mutable);
    LivePatchCases(after, policies, mutable);
    DesiredIs(after, policies, mutable);
    hide LivePatch, Desired;
    forall n
      ensures n !in Desired(after, policies, mutable)
    {
      NothingWanted(pod, policies, mutable, n);
    }
    assert Desired(after, policies, mutable).Keys == {};
  }

  // ---- What a live patch does, container by container ---------------------------

  // A container ends with the image its policy selected when the gate lets it through, and
  // is left alone when it does not; so is every annotation but the mark of a new image.
  lemma LiveExactly(pod: Pod, policies: Policies, mutable: bool, name: string)
    requires !WritesToGit(pod.annotations) && Named(pod.containers, name).Some?
    ensures var after, at, p := LivePatch(pod, policies, mutable), Named(pod.containers, name).value, PolicyOf(pod, policies, name);
            && |after.containers| == |pod.containers|
            && after.containers[at] == Ctr(name,
                 if p.Some? && p.value.latestImage != "" && Gate(pod.annotations, mutable, name, p.value)
                 then p.value.latestImage else pod.containers[at].image)
            && (after.containers[at] != pod.containers[at] ==>
                  Read(after.annotations, LAST_UPDATED + name) == after.containers[at].image)
            && (after.containers[at] == pod.containers[at] ==>
                  Read(after.annotations, LAST_UPDATED + name) == Read(pod.annotations, LAST_UPDATED + name))
  {
    var want := Desired(pod, policies, mutable);
    LivePatchCases(pod, policies, mutable);
    PatchNothing(pod);
    DesiredIs(pod, policies, mutable);
    hide Desired, LivePatch, Marks, SetImages, Gate, PolicyOf, Named, WritesToGit, Read;
    ImageNamed(pod.containers, want, name);
    MarkNamed(LAST_UPDATED, pod.annotations, want, name);
    if name in want { DesiredImage(pod, policies, mutable, name); }
  }

  lemma MarkNamed(prefix: string, a: Annotations, images: map<string, string>, name: string)
    ensures Read(a + Marks(prefix, images), prefix + name) == if name in images then images[name] else Read(a, prefix + name)
  {
    assert (prefix + name)[..|prefix|] == prefix && (prefix + name)[|prefix|..] == name;
  }

  // Whatever no name stands for is kept: other containers of a shared name, and every
  // annotation that is no mark.
  lemma OthersKept(pod: Pod, policies: Policies, mutable: bool)
    ensures var after := LivePatch(pod, policies, mutable);
            && |after.containers| == |pod.containers|
            && (forall i | 0 <= i < |pod.containers| ::
                  && after.containers[i].name == pod.containers[i].name
                  && (Named(pod.containers, pod.containers[i].name) != Some(i) ==> after.containers[i] == pod.containers[i]))
            && (forall k | !HasPrefix(k, LAST_UPDATED) ::
                  (k in after.annotations <==> k in pod.annotations)
                  && Read(after.annotations, k) == Read(pod.annotations, k))
            && (forall k | k in pod.annotations :: k in after.annotations)
  {
    hide Desired, Marks, HasPrefix, WritesToGit;
    forall k | !HasPrefix(k, LAST_UPDATED)
      ensures (k in LivePatch(pod, policies, mutable).annotations <==> k in pod.annotations)
              && Read(LivePatch(pod, policies, mutable).annotations, k) == Read(pod.annotations, k)
    {
      KeyKept(pod.annotations, Desired(pod, policies, mutable), k);
    }
  }

  predicate Changed(before: Pod, after: Pod, i: nat)
  {
    i < |before.containers| && i < |after.containers| && after.containers[i] != before.containers[i]
  }

  // A live image only changes on a mutable workload that does not write to Git, to the
  // image of its policy, never in a dry run, and with approval when that is asked for.
  lemma ChangedImage(pod: Pod, policies: Policies, mutable: bool, i: nat)
    ensures Changed(pod, LivePatch(pod, policies, mutable), i) ==>
      var a, name := pod.annotations, pod.containers[i].name;
      && mutable && !WritesToGit(a)
      && Bound(a, name).Some? && Bound(a, name).value in policies
      && var p := policies[Bound(a, name).value];
         && LivePatch(pod, policies, mutable).containers[i] == Ctr(name, p.latestImage) && p.latestImage != ""
         && EffectiveMode(p.updateMode, a) != DryRun
         && (EffectiveMode(p.updateMode, a) == Approval ==> ApprovedTag(a, name) == Some(p.latestTag))
  {
    LivePatchCases(pod, policies, mutable);
    PatchNothing(pod);
    DesiredIs(pod, policies, mutable);
    hide Desired, LivePatch, Marks, Bound, EffectiveMode, WritesToGit, ApprovedTag;
    if i < |pod.containers| {
      var name := pod.containers[i].name;
      if name in Desired(pod, policies, mutable) { DesiredImage(pod, policies, mutable, name); }
    }
  }

  // ---- Who has to be told -------------------------------------------------------

  // The names a workload is filed under in the index.
  function PolicyRefs(a: Annotations): set<string>
  {
    set n | n in BoundNames(a) && Bound(a, n).Some? :: Bound(a, n).value
  }

  // The code walks the bindings and lists the policies they name.
  method IndexWorkload(a: Annotations) returns (refs: seq<string>)
    ensures (set r | r in refs) == PolicyRefs(a)
  {
    hide Bound, BoundNames;
    var bindings := ContainerPolicies(a);
    refs := [];
    var names := bindings.Keys;
    while names != {}
      invariant names <= bindings.Keys
      invariant forall r :: r in refs <==> exists n :: n in bindings && n !in names && bindings[n] == r
      decreases |names|
    {
      var n :| n in names;
      names := names - {n};
      refs := refs + [bindings[n]];
    }
    forall n | n in bindings
      ensures n in BoundNames(a)
    {
      BoundIsNamed(a, n);
    }
  }

  // Two snapshots that agree on the policies a workload is filed under.
  ghost predicate AgreeOn(refs: set<string>, p: Policies, q: Policies)
  {
    forall r | r in refs :: (r in p <==> r in q) && (r in p ==> p[r] == q[r])
  }

  lemma SamePolicy(pod: Pod, p: Policies, q: Policies, name: string)
    requires AgreeOn(PolicyRefs(pod.annotations), p, q)
    ensures PolicyOf(pod, p, name) == PolicyOf(pod, q, name)
  {
    hide Named, BoundNames;
    var bound := Bound(pod.annotations, name);
    if bound.Some? {
      hide Bound;
      BoundIsNamed(pod.annotations, name);
      assert bound.value in PolicyRefs(pod.annotations);
    }
  }

  // A reconcile depends on no policy but those: nothing is missed when only the workloads
  // filed under a changed policy are looked at again.
  lemma IndexIsComplete(pod: Pod, p: Policies, q: Policies, mutable: bool, r: Outcome)
    requires AgreeOn(PolicyRefs(pod.annotations), p, q)
    ensures LivePatch(pod, p, mutable) == LivePatch(pod, q, mutable)
    ensures Follows(pod, p, mutable, r) == Follows(pod, q, mutable, r)
    ensures Unscanned(pod, p, BoundNames(pod.annotations)) == Unscanned(pod, q, BoundNames(pod.annotations))
  {
    hide *;
    forall n
      ensures Wants(pod, p, mutable, n) == Wants(pod, q, mutable, n)
      ensures AwaitsScan(pod, p, n) == AwaitsScan(pod, q, n)
    {
      SamePolicy(pod, p, q, n);
      SameWants(pod, p, q, mutable, n);
    }
    SameOutcome(pod, p, q, mutable, r);
  }

  lemma SameWants(pod: Pod, p: Policies, q: Policies, mutable: bool, name: string)
    requires PolicyOf(pod, p, name) == PolicyOf(pod, q, name)
    ensures Wants(pod, p, mutable, name) == Wants(pod, q, mutable, name)
    ensures AwaitsScan(pod, p, name) == AwaitsScan(pod, q, name)
  {
    hide PolicyOf, Gate, Named;
  }

  lemma SameOutcome(pod: Pod, p: Policies, q: Policies, mutable: bool, r: Outcome)
    requires forall n :: Wants(pod, p, mutable, n) == Wants(pod, q, mutable, n)
    requires forall n :: AwaitsScan(pod, p, n) == AwaitsScan(pod, q, n)
    ensures LivePatch(pod, p, mutable) == LivePatch(pod, q, mutable)
    ensures Follows(pod, p, mutable, r) == Follows(pod, q, mutable, r)
    ensures Unscanned(pod, p, BoundNames(pod.annotations)) == Unscanned(pod, q, BoundNames(pod.annotations))
  {
    hide IsEditList, Desired, Wants, AwaitsScan, BoundNames, PatchTo, GitTarget, WritesToGit, EditFor;
    SameDesired(pod, p, q, mutable);
    if r.WriteBack? && GitTarget(pod.annotations).Some? {
      SameEdits(pod, p, q, mutable, GitTarget(pod.annotations).value, r.edits);
    }
  }

  lemma SameEdits(pod: Pod, p: Policies, q: Policies, mutable: bool, t: Target, edits: seq<Edit>)
    requires forall n :: Wants(pod, p, mutable, n) == Wants(pod, q, mutable, n)
    ensures IsEditList(pod, p, mutable, t, edits) == IsEditList(pod, q, mutable, t, edits)
  {
    hide Wants, EditFor;
  }

  lemma SameDesired(pod: Pod, p: Policies, q: Policies, mutable: bool)
    requires forall n :: Wants(pod, p, mutable, n) == Wants(pod, q, mutable, n)
    ensures Desired(pod, p, mutable) == Desired(pod, q, mutable)
  {
    hide Wants, BoundNames;
  }

  // ---- The edits a reconcile sends to Git ---------------------------------------

  // They all aim at the workload's one target, and each names its own container.
  lemma EditsShareTarget(pod: Pod, policies: Policies, mutable: bool, t: Target, edits: seq<Edit>)
    requires IsEditList(pod, policies, mutable, t, edits)
    ensures OneTarget(edits, t)
  {
    hide Wants;
    forall i | 0 <= i < |edits|
      ensures edits[i].target == t
    {
      assert edits[i] == EditFor(pod.annotations, t, edits[i].container, Wants(pod, policies, mutable, edits[i].container).value);
    }
  }

  lemma ManifestEditsAreScoped(pod: Pod, policies: Policies, mutable: bool, t: Target, edits: seq<Edit>)
    requires IsEditList(pod, policies, mutable, t, edits)
    ensures AllScoped(ManifestEdits(edits))
  {
    assert forall i, j | 0 <= i < j < |edits| :: edits[i].container != edits[j].container;
    forall i | 0 <= i < |edits|
      ensures edits[i].container != ""
    {
      assert Wants(pod, policies, mutable, edits[i].container).Some?;
    }
    hide IsEditList, Wants;
    assert forall i | 0 <= i < |edits| :: ManifestEdits(edits)[i].container == edits[i].container;
  }

  // A manifest write-back needs no further guard to settle.
  lemma ManifestEditsAreSafe(pod: Pod, policies: Policies, mutable: bool, t: Target, edits: seq<Edit>,
                             paths: Paths, files: Files)
    requires IsEditList(pod, policies, mutable, t, edits) && t.kind == ToManifest && CanonFiles(files)
    ensures SafeEdits(paths, files, edits, t)
  {
    EditsShareTarget(pod, policies, mutable, t, edits);
    ManifestEditsAreScoped(pod, policies, mutable, t, edits);
    hide IsEditList, AllScoped, ManifestEdits;
  }
}
