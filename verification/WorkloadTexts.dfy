// A reconcile told by what the annotations say, key by key: internal/workload/workload.go:31-149,
// internal/controller/workload_controller.go:79-281,296-307.
module WorkloadTexts {
  import opened Text
  import opened Workload
  import opened WorkloadReconcile
  import opened WorkloadLaws
  import opened GitWriteBack
  import opened ImageRef

  // ---- The keys -----------------------------------------------------------------

  predicate Says(a: Annotations, key: string, text: string) { key in a && a[key] == text }

  lemma BindingKeys()
    ensures POLICY == "image-updater.saphire.com/policy."
    ensures APPROVE == "image-updater.saphire.com/approve."
  {}

  lemma ModeKey()
    ensures UPDATE_MODE == "image-updater.saphire.com/update-mode"
  {}

  lemma MarkKey()
    ensures LAST_UPDATED == "image-updater.saphire.com/last-updated."
  {}

  lemma MethodKeys()
    ensures WRITE_BACK == "image-updater.saphire.com/write-back"
    ensures WRITE_BACK_TARGET == "image-updater.saphire.com/write-back-target"
  {}

  lemma RepoKeys()
    ensures GIT_REPO == "image-updater.saphire.com/git-repo"
    ensures GIT_BRANCH == "image-updater.saphire.com/git-branch"
    ensures GIT_SECRET == "image-updater.saphire.com/git-secret"
  {}

  lemma HelmKeys()
    ensures HELM_NAME == "image-updater.saphire.com/helm.image-name."
    ensures HELM_TAG == "image-updater.saphire.com/helm.image-tag."
  {}

  // An annotation's text, or nothing when it is missing.
  predicate Gives(a: Annotations, key: string, text: string) { if key in a then a[key] == text else text == "" }

  // ---- The mode -----------------------------------------------------------------

  // The workload's own mode annotation carries one of the three texts that count.
  predicate Overridden(a: Annotations)
  {
    Says(a, "image-updater.saphire.com/update-mode", "Automatic")
    || Says(a, "image-updater.saphire.com/update-mode", "Approval")
    || Says(a, "image-updater.saphire.com/update-mode", "DryRun")
  }

  // The workload asks for this mode, or leaves it to the policy and the policy does.
  predicate ModeIs(mode: string, updateMode: string, a: Annotations)
  {
    if Overridden(a) then Says(a, "image-updater.saphire.com/update-mode", mode) else updateMode == mode
  }

  lemma ModeInTexts(updateMode: string, a: Annotations)
    ensures EffectiveMode(updateMode, a) == DryRun <==> ModeIs("DryRun", updateMode, a)
    ensures EffectiveMode(updateMode, a) == Approval <==> ModeIs("Approval", updateMode, a)
  {
    ModeKey();
  }

  // ---- What clears a container --------------------------------------------------

  predicate BoundTo(a: Annotations, name: string, policy: string)
  {
    name != "" && policy != "" && Says(a, "image-updater.saphire.com/policy." + name, policy)
  }

  predicate LastOf(cs: seq<Ctr>, name: string, i: nat)
  {
    i < |cs| && cs[i].name == name && forall k | i < k < |cs| :: cs[k].name != name
  }

  predicate ByGit(a: Annotations) { Says(a, "image-updater.saphire.com/write-back", "git") }

  // No dry run, and where approval is asked for, the container's tag is the approved one.
  predicate Consents(a: Annotations, name: string, p: Policy)
  {
    !ModeIs("DryRun", p.updateMode, a)
    && (ModeIs("Approval", p.updateMode, a) ==>
          p.latestTag != "" && Says(a, "image-updater.saphire.com/approve." + name, p.latestTag))
  }

  // The container of this name is to get the image of policy p.
  ghost predicate Cleared(pod: Pod, policies: Policies, mutable: bool, name: string, p: Policy)
  {
    && (exists policy :: BoundTo(pod.annotations, name, policy) && policy in policies && policies[policy] == p)
    && (exists i: nat :: LastOf(pod.containers, name, i) && pod.containers[i].image != p.latestImage)
    && p.latestImage != "" && (ByGit(pod.annotations) || mutable) && Consents(pod.annotations, name, p)
  }

  lemma BoundInTexts(a: Annotations, name: string, policy: string)
    ensures Bound(a, name) == Some(policy) <==> BoundTo(a, name, policy)
  {
    BindingKeys();
  }

  lemma GitInTexts(a: Annotations)
    ensures WritesToGit(a) == ByGit(a)
  {
    MethodKeys();
  }

  lemma ApprovedInTexts(a: Annotations, name: string, tag: string)
    ensures ApprovedTag(a, name) == Some(tag)
       <==> tag != "" && Says(a, "image-updater.saphire.com/approve." + name, tag)
  {
    BindingKeys();
  }

  lemma NamedInTexts(cs: seq<Ctr>, name: string, i: nat)
    ensures Named(cs, name) == Some(i) <==> LastOf(cs, name, i)
  {}

  lemma GateInTexts(a: Annotations, mutable: bool, name: string, p: Policy)
    ensures Gate(a, mutable, name, p) == ((ByGit(a) || mutable) && Consents(a, name, p))
  {
    hide Says, ModeIs, ByGit, WritesToGit, EffectiveMode, ApprovedTag;
    GitInTexts(a);
    ModeInTexts(p.updateMode, a);
    ApprovedInTexts(a, name, p.latestTag);
  }

  lemma WantsInTexts(pod: Pod, policies: Policies, mutable: bool, name: string, p: Policy)
    ensures Wants(pod, policies, mutable, name) == Some(p) <==> Cleared(pod, policies, mutable, name, p)
  {
    hide Gate, Bound, BoundTo, Named, LastOf, ByGit, Consents;
    GateInTexts(pod.annotations, mutable, name, p);
    forall policy
      ensures Bound(pod.annotations, name) == Some(policy) <==> BoundTo(pod.annotations, name, policy)
    {
      BoundInTexts(pod.annotations, name, policy);
    }
    forall i: nat
      ensures Named(pod.containers, name) == Some(i) <==> LastOf(pod.containers, name, i)
    {
      NamedInTexts(pod.containers, name, i);
    }
    if Named(pod.containers, name).Some? {
      var at := Named(pod.containers, name).value;
      assert LastOf(pod.containers, name, at);
    }
    if Bound(pod.annotations, name).Some? {
      var policy := Bound(pod.annotations, name).value;
      assert BoundTo(pod.annotations, name, policy);
    }
  }

  // ---- The live patch -----------------------------------------------------------

  // The container stands under its own name, the method is not git, and p clears it.
  ghost predicate Due(pod: Pod, policies: Policies, mutable: bool, i: nat, p: Policy)
  {
    !ByGit(pod.annotations) && i < |pod.containers| && LastOf(pod.containers, pod.containers[i].name, i)
    && Cleared(pod, policies, mutable, pod.containers[i].name, p)
  }

  lemma DueImage(pod: Pod, policies: Policies, mutable: bool, i: nat, p: Policy)
    requires Due(pod, policies, mutable, i, p)
    ensures var after, name := LivePatch(pod, policies, mutable), pod.containers[i].name;
            && i < |after.containers| && after.containers[i] == Ctr(name, p.latestImage)
            && after.containers[i] != pod.containers[i]
            && Says(after.annotations, "image-updater.saphire.com/last-updated." + name, p.latestImage)
  {
    hide LivePatch, Named, LastOf, Wants, ByGit, WritesToGit, BoundTo, Consents, Gate, PolicyOf;
    var name := pod.containers[i].name;
    GitInTexts(pod.annotations);
    NamedInTexts(pod.containers, name, i);
    WantsInTexts(pod, policies, mutable, name, p);
    WantedImage(pod, policies, mutable, i);
    MarkKey();
    assert p.latestImage != "";
    assert Read(LivePatch(pod, policies, mutable).annotations, LAST_UPDATED + name) == p.latestImage;
  }

  lemma WantedImage(pod: Pod, policies: Policies, mutable: bool, i: nat)
    requires !WritesToGit(pod.annotations) && i < |pod.containers| && Named(pod.containers, pod.containers[i].name) == Some(i)
    ensures var after, w := LivePatch(pod, policies, mutable), Wants(pod, policies, mutable, pod.containers[i].name);
            && i < |after.containers|
            && after.containers[i] == (if w.Some? then Ctr(pod.containers[i].name, w.value.latestImage) else pod.containers[i])
            && (w.Some? ==> w.value.latestImage != pod.containers[i].image && w.value.latestImage != ""
                            && Read(after.annotations, LAST_UPDATED + pod.containers[i].name) == w.value.latestImage)
  {
    hide LivePatch, Named, Gate, Bound, WritesToGit, LAST_UPDATED;
    LiveExactly(pod, policies, mutable, pod.containers[i].name);
    assert Ctr(pod.containers[i].name, pod.containers[i].image) == pod.containers[i];
  }

  lemma WantedIsDue(pod: Pod, policies: Policies, mutable: bool, i: nat)
    requires !WritesToGit(pod.annotations) && i < |pod.containers| && Named(pod.containers, pod.containers[i].name) == Some(i)
    requires Wants(pod, policies, mutable, pod.containers[i].name).Some?
    ensures Due(pod, policies, mutable, i, Wants(pod, policies, mutable, pod.containers[i].name).value)
  {
    hide Named, LastOf, Wants, ByGit, WritesToGit, Cleared;
    var name := pod.containers[i].name;
    GitInTexts(pod.annotations);
    NamedInTexts(pod.containers, name, i);
    WantsInTexts(pod, policies, mutable, name, Wants(pod, policies, mutable, name).value);
  }

  // Nothing else moves: no other image, and no annotation but the marks.
  lemma NotDue(pod: Pod, policies: Policies, mutable: bool, i: nat)
    requires i < |pod.containers| && forall p :: !Due(pod, policies, mutable, i, p)
    ensures var after := LivePatch(pod, policies, mutable);
            |after.containers| == |pod.containers| && after.containers[i] == pod.containers[i]
  {
    hide LivePatch, Named, LastOf, Wants, ByGit, WritesToGit, Cleared;
    var name := pod.containers[i].name;
    OthersKept(pod, policies, mutable);
    GitInTexts(pod.annotations);
    NamedInTexts(pod.containers, name, i);
    if WritesToGit(pod.annotations) {
      LivePatchCases(pod, policies, mutable);
    } else if Named(pod.containers, name) == Some(i) {
      WantedImage(pod, policies, mutable, i);
      if Wants(pod, policies, mutable, name).Some? { WantedIsDue(pod, policies, mutable, i); }
    }
  }

  lemma ChangedIsDue(pod: Pod, policies: Policies, mutable: bool, i: nat) returns (p: Policy)
    requires Changed(pod, LivePatch(pod, policies, mutable), i)
    ensures Due(pod, policies, mutable, i, p)
  {
    hide LivePatch, Due;
    if forall p :: !Due(pod, policies, mutable, i, p) { NotDue(pod, policies, mutable, i); }
    p :| Due(pod, policies, mutable, i, p);
  }

  lemma OtherAnnotations(pod: Pod, policies: Policies, mutable: bool, key: string)
    requires ByGit(pod.annotations)
             || forall name, p | Cleared(pod, policies, mutable, name, p) ::
                  key != "image-updater.saphire.com/last-updated." + name
    ensures var a, b := pod.annotations, LivePatch(pod, policies, mutable).annotations;
            (key in b <==> key in a) && (key in a ==> b[key] == a[key])
  {
    hide Wants, ByGit, WritesToGit, Cleared, BoundNames;
    GitInTexts(pod.annotations);
    MarkKey();
    var want := Desired(pod, policies, mutable);
    if HasPrefix(key, LAST_UPDATED) && key[|LAST_UPDATED|..] in want && !ByGit(pod.annotations) {
      var name := key[|LAST_UPDATED|..];
      var p := Wants(pod, policies, mutable, name).value;
      WantsInTexts(pod, policies, mutable, name, p);
    }
  }

  // The three readings of the mode, for a container bound to a policy that was scanned: a
  // dry run changes nothing, approval waits for the tag, and otherwise the image follows.
  lemma ModeDecides(pod: Pod, policies: Policies, i: nat, policy: string)
    requires i < |pod.containers| && LastOf(pod.containers, pod.containers[i].name, i)
    requires !ByGit(pod.annotations) && BoundTo(pod.annotations, pod.containers[i].name, policy) && policy in policies
    requires policies[policy].latestImage != ""
    ensures var a, c, p := pod.annotations, pod.containers[i], policies[policy];
            var after := LivePatch(pod, policies, true);
            && |after.containers| == |pod.containers|
            && LivePatch(pod, policies, false).containers == pod.containers
            && after.containers[i]
               == if ModeIs("DryRun", p.updateMode, a) then c
                  else if ModeIs("Approval", p.updateMode, a) then
                    (if p.latestTag != "" && Says(a, "image-updater.saphire.com/approve." + c.name, p.latestTag)
                     then Ctr(c.name, p.latestImage) else c)
                  else Ctr(c.name, p.latestImage)
  {
    hide LivePatch, Named, LastOf, ByGit, WritesToGit, BoundTo, Gate, Bound, ModeIs, Says, ApprovedTag, EffectiveMode;
    var a, name, p := pod.annotations, pod.containers[i].name, policies[policy];
    GitInTexts(a);
    NamedInTexts(pod.containers, name, i);
    BoundInTexts(a, name, policy);
    GateInTexts(a, true, name, p);
    NobodyAsksBoth(p.updateMode, a);
    LiveExactly(pod, policies, true, name);
    OthersKept(pod, policies, true);
    ImmutableKept(pod, policies);
  }

  lemma NobodyAsksBoth(updateMode: string, a: Annotations)
    ensures !(ModeIs("DryRun", updateMode, a) && ModeIs("Approval", updateMode, a))
  {
    hide EffectiveMode;
    ModeInTexts(updateMode, a);
  }

  lemma ImmutableKept(pod: Pod, policies: Policies)
    requires !WritesToGit(pod.annotations)
    ensures LivePatch(pod, policies, false).containers == pod.containers
  {
    hide LivePatch, WritesToGit, Bound, EffectiveMode, ApprovedTag, LAST_UPDATED;
    OthersKept(pod, policies, false);
    forall i | 0 <= i < |pod.containers|
      ensures LivePatch(pod, policies, false).containers[i] == pod.containers[i]
    {
      ChangedImage(pod, policies, false, i);
    }
  }

  // ---- What is handed over to Git -----------------------------------------------

  // The texts a target annotation may carry.
  function KindText(k: TargetKind): string
  {
    match k
    case ToHelm => "helm"
    case ToKustomize => "kustomize"
    case ToManifest => "manifest"
  }

  lemma CutAt(s: string, kind: string, path: string)
    requires ':' !in kind
    ensures s == kind + ":" + path <==> IndexOf(s, ':') == |kind| && s[..|kind|] == kind && s[|kind| + 1..] == path
  {
    if |kind| < |s| { assert s == s[..|kind|] + [s[|kind|]] + s[|kind| + 1..]; }
    if s == kind + ":" + path {
      assert s[|kind|] == ':' && s[..|kind|] == kind && s[|kind| + 1..] == path;
      assert forall k | 0 <= k < |kind| :: s[k] == kind[k];
      FirstIndexIs(s, ':', |kind|);
    }
  }

  // A target is one of three kinds, a colon, and a path; nothing else is one.
  lemma TargetInTexts(s: string, t: Target)
    ensures ParseTarget(s) == Some(t) <==> t.path != "" && s == KindText(t.kind) + ":" + t.path
  {
    CutAt(s, KindText(t.kind), t.path);
  }

  // The branch written to, with its default.
  predicate AimsAt(a: Annotations, place: Place)
  {
    && Says(a, "image-updater.saphire.com/git-repo", place.repo) && place.repo != ""
    && ((place.branch != "" && Says(a, "image-updater.saphire.com/git-branch", place.branch))
        || (place.branch == "main" && Gives(a, "image-updater.saphire.com/git-branch", "")))
  }

  lemma PlaceInTexts(a: Annotations, place: Place)
    requires "image-updater.saphire.com/git-repo" in a && a["image-updater.saphire.com/git-repo"] != ""
    ensures PlaceOf(a) == place <==> AimsAt(a, place)
  {
    RepoKeys();
  }

  predicate TargetsText(a: Annotations, t: Target)
  {
    t.path != "" && Says(a, "image-updater.saphire.com/write-back-target", KindText(t.kind) + ":" + t.path)
    && "image-updater.saphire.com/git-repo" in a && a["image-updater.saphire.com/git-repo"] != ""
  }

  lemma RepoNamed(a: Annotations)
    requires GitTarget(a).Some?
    ensures "image-updater.saphire.com/git-repo" in a && a["image-updater.saphire.com/git-repo"] != ""
  {
    RepoKeys();
    hide ParseTarget;
  }

  lemma GitTargetInTexts(a: Annotations, t: Target)
    ensures GitTarget(a) == Some(t) <==> TargetsText(a, t)
  {
    hide ParseTarget;
    RepoKeys();
    MethodKeys();
    TargetInTexts(Read(a, WRITE_BACK_TARGET), t);
  }

  // The edit for one container: the policy's repository and tag, and the keys under which a
  // values file holds them.
  predicate EditSays(a: Annotations, edit: Edit, p: Policy)
  {
    && TargetsText(a, edit.target) && edit.repository == p.repository && edit.tag == p.latestTag
    && Gives(a, "image-updater.saphire.com/helm.image-name." + edit.container, edit.helmNameKey)
    && Gives(a, "image-updater.saphire.com/helm.image-tag." + edit.container, edit.helmTagKey)
  }

  lemma EditInTexts(a: Annotations, t: Target, name: string, p: Policy, edit: Edit)
    requires GitTarget(a) == Some(t)
    ensures edit == EditFor(a, t, name, p) <==> edit.container == name && EditSays(a, edit, p)
  {
    hide GitTarget, TargetsText;
    HelmKeys();
    GitTargetInTexts(a, t);
    GitTargetInTexts(a, edit.target);
  }

  // The policy that clears the container says what the edit writes.
  ghost predicate Justified(pod: Pod, policies: Policies, mutable: bool, edit: Edit)
  {
    exists p :: Cleared(pod, policies, mutable, edit.container, p) && EditSays(pod.annotations, edit, p)
  }

  // What a reconcile comes to: an edit for every container that is cleared and no other,
  // when the annotations name a repository and a target.
  lemma HandedOver(pod: Pod, policies: Policies, mutable: bool, r: Outcome)
    requires Follows(pod, policies, mutable, r)
    ensures r.WriteBack? ==> ByGit(pod.annotations)
    ensures r.WriteBack? ==> forall i | 0 <= i < |r.edits| :: Justified(pod, policies, mutable, r.edits[i])
    ensures r.WriteBack? ==> forall name, p | Cleared(pod, policies, mutable, name, p) ::
      exists i :: 0 <= i < |r.edits| && r.edits[i].container == name
    ensures r == Nothing <==> forall name, p :: !Cleared(pod, policies, mutable, name, p)
    ensures r == Misconfigured ==> ByGit(pod.annotations) && forall t :: !TargetsText(pod.annotations, t)
    ensures r == Patched ==> !ByGit(pod.annotations)
  {
    hide Wants, WritesToGit, ByGit, GitTarget, TargetsText, Cleared, EditFor, EditSays;
    var a := pod.annotations;
    GitInTexts(a);
    DesiredIs(pod, policies, mutable);
    forall name, p
      ensures Wants(pod, policies, mutable, name) == Some(p) <==> Cleared(pod, policies, mutable, name, p)
    {
      WantsInTexts(pod, policies, mutable, name, p);
    }
    forall t
      ensures GitTarget(a) == Some(t) <==> TargetsText(a, t)
    {
      GitTargetInTexts(a, t);
    }
    hide Desired;
    NothingDesired(pod, policies, mutable);
    if r.WriteBack? { EditsInTexts(pod, policies, mutable, GitTarget(a).value, r.edits); }
  }

  lemma EditsInTexts(pod: Pod, policies: Policies, mutable: bool, t: Target, edits: seq<Edit>)
    requires IsEditList(pod, policies, mutable, t, edits) && GitTarget(pod.annotations) == Some(t)
    ensures forall i | 0 <= i < |edits| :: Justified(pod, policies, mutable, edits[i])
  {
    hide Wants, GitTarget, Cleared, EditFor, EditSays;
    forall i | 0 <= i < |edits|
      ensures Justified(pod, policies, mutable, edits[i])
    {
      var p := Wants(pod, policies, mutable, edits[i].container).value;
      WantsInTexts(pod, policies, mutable, edits[i].container, p);
      EditInTexts(pod.annotations, t, edits[i].container, p, edits[i]);
    }
  }

  lemma NothingDesired(pod: Pod, policies: Policies, mutable: bool)
    ensures Desired(pod, policies, mutable) == map[] <==> forall n :: n !in Desired(pod, policies, mutable)
  {
    if forall n :: n !in Desired(pod, policies, mutable) {
      assert Desired(pod, policies, mutable).Keys == {};
    }
  }
}
