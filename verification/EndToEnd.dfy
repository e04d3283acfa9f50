// From a scan to the cluster and to Git, told by annotations, keys and texts:
// internal/controller/imagepolicy_controller.go:77-137, internal/controller/workload_controller.go:79-281.
module EndToEnd {
  import opened Text
  import opened TagPolicy
  import PolicyStatus
  import opened Workload
  import opened WorkloadReconcile
  import opened WorkloadLaws
  import opened WorkloadTexts
  import opened GitWriteBack
  import opened GitTexts
  import GitRemote
  import opened Operator
  import opened OperatorLaws

  // One scan of a policy that nobody disturbs.
  ghost function AfterScan<V>(e: Engines<V>, paths: Paths, s: State, policy: string, worker: nat, tags: seq<string>,
                              now: int): State
  {
    Next(e, paths, Next(e, paths, s, OnPolicy(policy, PolicyStatus.Read(worker))),
         OnPolicy(policy, PolicyStatus.Finish(worker, PolicyStatus.Listed(tags), now)))
  }

  // The policy is not suspended, and its rule selects the tag from these.
  predicate Selecting<V>(e: Engines<V>, s: State, policy: string, tags: seq<string>, tag: string)
  {
    policy in s.policies && !s.policies[policy].stored.spec.suspend && tag != ""
    && Selected(e, tags, s.policies[policy].stored.spec.rule) == Ok(tag)
  }

  lemma ScanShows<V>(e: Engines<V>, paths: Paths, s: State, policy: string, worker: nat, tags: seq<string>, tag: string, now: int)
    requires Selecting(e, s, policy, tags, tag)
    ensures var t, spec := AfterScan(e, paths, s, policy, worker, tags, now), s.policies[policy].stored.spec;
            && t.workloads == s.workloads && t.remotes == s.remotes && policy in Snapshot(t)
            && Snapshot(t)[policy] == Policy(spec.repository, spec.updateMode, tag, spec.repository + ":" + tag)
  {
    hide Selected, PolicyStatus.Next;
    PolicyStatus.ScanIsStored(e, s.policies[policy], worker, tags, tag, now);
  }

  // The container stands under its own name and is bound to the policy.
  predicate Follower(s: State, workload: string, i: nat, policy: string)
  {
    workload in s.workloads
    && var pod := s.workloads[workload].pod;
       i < |pod.containers| && LastOf(pod.containers, pod.containers[i].name, i)
       && BoundTo(pod.annotations, pod.containers[i].name, policy)
  }

  // One scan and one reconcile bring the selected tag to a live container, when no dry run
  // is asked for and the tag is approved where approval is.
  lemma ScanReachesCluster<V>(e: Engines<V>, paths: Paths, s: State, policy: string, worker: nat, tags: seq<string>, tag: string,
                              now: int, step: Step, i: nat)
    requires Selecting(e, s, policy, tags, tag) && step.Reconcile? && Follower(s, step.name, i, policy)
    requires s.workloads[step.name].mutable && !ByGit(s.workloads[step.name].pod.annotations)
    ensures var t := Next(e, paths, AfterScan(e, paths, s, policy, worker, tags, now), step);
            && step.name in t.workloads && |t.workloads[step.name].pod.containers| == |s.workloads[step.name].pod.containers|
            && var spec, pod := s.policies[policy].stored.spec, s.workloads[step.name].pod;
               var a, c := pod.annotations, pod.containers[i];
               t.workloads[step.name].pod.containers[i]
               == if ModeIs("DryRun", spec.updateMode, a) then c
                  else if ModeIs("Approval", spec.updateMode, a)
                          && !Says(a, "image-updater.saphire.com/approve." + c.name, tag) then c
                  else Ctr(c.name, spec.repository + ":" + tag)
  {
    hide AfterScan, LivePatch, Selected, ModeIs, Says, BoundTo, LastOf, ByGit, AfterReconcile;
    var scanned := AfterScan(e, paths, s, policy, worker, tags, now);
    ScanShows(e, paths, s, policy, worker, tags, tag, now);
    var w := s.workloads[step.name];
    ReconcileOne(e, paths, scanned, step);
    ModeDecides(w.pod, Snapshot(scanned), i, policy);
  }

  // From a policy that does not exist yet: creating it, scanning once, applying the workload
  // and reconciling it brings the tag to the container.
  lemma FromNothing<V>(e: Engines<V>, paths: Paths, s: State, policy: string, spec: PolicyStatus.PolicySpec, worker: nat,
                       tags: seq<string>, tag: string, now: int, live: Live, step: Step, i: nat)
    requires policy !in s.policies && !spec.suspend && tag != "" && Selected(e, tags, spec.rule) == Ok(tag)
    requires step.Reconcile? && live.mutable && !ByGit(live.pod.annotations) && i < |live.pod.containers|
    requires LastOf(live.pod.containers, live.pod.containers[i].name, i)
    requires BoundTo(live.pod.annotations, live.pod.containers[i].name, policy)
    requires spec.updateMode == "Automatic" && !Overridden(live.pod.annotations)
    ensures var t := Run(e, paths, s, [CreatePolicy(policy, spec), OnPolicy(policy, PolicyStatus.Read(worker)),
                                       OnPolicy(policy, PolicyStatus.Finish(worker, PolicyStatus.Listed(tags), now)),
                                       ApplyWorkload(step.name, live), step]);
            && step.name in t.workloads && i < |t.workloads[step.name].pod.containers|
            && t.workloads[step.name].pod.containers[i] == Ctr(live.pod.containers[i].name, spec.repository + ":" + tag)
  {
    hide Selected, PolicyStatus.Next, LivePatch, Says, BoundTo, LastOf, ByGit, AfterReconcile, Run;
    var created := Next(e, paths, s, CreatePolicy(policy, spec));
    var scanned := AfterScan(e, paths, created, policy, worker, tags, now);
    ScanShows(e, paths, created, policy, worker, tags, tag, now);
    var applied := Next(e, paths, scanned, ApplyWorkload(step.name, live));
    SnapshotOf(scanned, applied);
    ReconcileOne(e, paths, applied, step);
    ModeDecides(live.pod, Snapshot(applied), i, policy);
    FiveSteps(e, paths, s, CreatePolicy(policy, spec), OnPolicy(policy, PolicyStatus.Read(worker)),
              OnPolicy(policy, PolicyStatus.Finish(worker, PolicyStatus.Listed(tags), now)),
              ApplyWorkload(step.name, live), step);
  }

  lemma FiveSteps<V>(e: Engines<V>, paths: Paths, s: State, a: Step, b: Step, c: Step, d: Step, f: Step)
    ensures Run(e, paths, s, [a, b, c, d, f])
         == Next(e, paths, Next(e, paths, Next(e, paths, Next(e, paths, Next(e, paths, s, a), b), c), d), f)
  {
    hide Next;
    assert [a, b, c, d, f][..4] == [a, b, c, d] && [a, b, c, d][..3] == [a, b, c] && [a, b, c][..2] == [a, b];
    assert [a, b][..1] == [a] && [a][..0] == [];
    RunOneMore(e, paths, s, [a, b, c, d, f]);
    RunOneMore(e, paths, s, [a, b, c, d]);
    RunOneMore(e, paths, s, [a, b, c]);
    RunOneMore(e, paths, s, [a, b]);
    RunOneMore(e, paths, s, [a]);
  }

  // A deleted policy moves nothing any more, and a deleted workload is not brought back.
  lemma Deleted<V>(e: Engines<V>, paths: Paths, s: State, policy: string, name: string, step: Step, i: nat)
    requires step.Reconcile?
    ensures Follower(s, step.name, i, policy) ==>
      var t := Next(e, paths, Next(e, paths, s, DeletePolicy(policy)), step);
      step.name in t.workloads && i < |t.workloads[step.name].pod.containers|
      && t.workloads[step.name].pod.containers[i] == s.workloads[step.name].pod.containers[i]
    ensures name !in Next(e, paths, Next(e, paths, s, DeleteWorkload(name)), step).workloads
  {
    hide LivePatch, BoundTo, LastOf, AfterReconcile, Cleared, ByGit;
    var forgotten, gone := Next(e, paths, s, DeletePolicy(policy)), Next(e, paths, s, DeleteWorkload(name));
    if Follower(s, step.name, i, policy) {
      var w := s.workloads[step.name];
      ReconcileOne(e, paths, forgotten, step);
      assert policy !in Snapshot(forgotten);
      forall p
        ensures !Due(w.pod, Snapshot(forgotten), w.mutable, i, p)
      {
        BoundOnce(w.pod, Snapshot(forgotten), w.mutable, w.pod.containers[i].name, p, policy);
      }
      NotDue(w.pod, Snapshot(forgotten), w.mutable, i);
    }
    if step.name in gone.workloads { ReconcileOne(e, paths, gone, step); } else { ReconcileNone(e, paths, gone, step); }
  }

  lemma BoundOnce(pod: Pod, policies: Policies, mutable: bool, name: string, p: Policy, policy: string)
    requires BoundTo(pod.annotations, name, policy) && policy !in policies
    ensures !Cleared(pod, policies, mutable, name, p)
  {
    hide LastOf, ByGit, Consents;
  }

  // ---- To Git -------------------------------------------------------------------

  // A reconcile that hands over edits asks for them on the branch the annotations name.
  lemma HandedOverIsAsked(s: State, step: Step, place: Place)
    requires step.Reconcile? && step.name in s.workloads && step.edits != []
    requires var w := s.workloads[step.name];
             Follows(w.pod, Snapshot(s), w.mutable, WriteBack(step.edits)) && AimsAt(w.pod.annotations, place)
    ensures Asks(s, step, place, step.edits)
    ensures forall t | TargetsText(s.workloads[step.name].pod.annotations, t) :: OneTarget(step.edits, t)
  {
    hide Wants, WritesToGit, GitTarget, Desired, IsEditList, AimsAt, PlaceOf, TargetsText;
    var w := s.workloads[step.name];
    var a := w.pod.annotations;
    HandedOver(w.pod, Snapshot(s), w.mutable, WriteBack(step.edits));
    GitInTexts(a);
    RepoNamed(a);
    PlaceInTexts(a, place);
    EditsShareTarget(w.pod, Snapshot(s), w.mutable, GitTarget(a).value, step.edits);
    forall t
      ensures GitTarget(a) == Some(t) <==> TargetsText(a, t)
    {
      GitTargetInTexts(a, t);
    }
  }

  // The edit of one container: what its annotations and its policy say.
  predicate WritesTo(a: Annotations, edit: Edit, container: string, repository: string, tag: string)
  {
    && edit.container == container && edit.repository == repository && edit.tag == tag && TargetsText(a, edit.target)
    && Gives(a, "image-updater.saphire.com/helm.image-name." + container, edit.helmNameKey)
    && Gives(a, "image-updater.saphire.com/helm.image-tag." + container, edit.helmTagKey)
  }

  // One scan, one reconcile and its push, of safe edits: the branch the annotations name
  // says the policy's repository and the selected tag where they say it should, unless that
  // edit could not be made.
  lemma ScanReachesGit<V>(e: Engines<V>, paths: Paths, s: State, policy: string, worker: nat, tags: seq<string>, tag: string,
                          now: int, step: Step, i: nat, place: Place, target: Target)
    requires Selecting(e, s, policy, tags, tag) && step.Reconcile? && Follower(s, step.name, i, policy)
    requires place in s.remotes && GitRemote.Invariant(paths, s.remotes[place])
    requires var w, spec := s.workloads[step.name], s.policies[policy].stored.spec;
             var a, c := w.pod.annotations, w.pod.containers[i];
             && ByGit(a) && AimsAt(a, place) && TargetsText(a, target)
             && c.image != spec.repository + ":" + tag
             && Consents(a, c.name, Policy(spec.repository, spec.updateMode, tag, spec.repository + ":" + tag))
             && Follows(w.pod, Snapshot(AfterScan(e, paths, s, policy, worker, tags, now)), w.mutable, WriteBack(step.edits))
    requires SafeEdits(paths, GitRemote.Head(s.remotes[place].log), step.edits, target)
    ensures var was := s.remotes[place].log;
            var t := Next(e, paths, Next(e, paths, AfterScan(e, paths, s, policy, worker, tags, now), step),
                          Push(place, step.worker));
            && place in t.remotes && t.remotes[place].log != []
            && var a, spec := s.workloads[step.name].pod.annotations, s.policies[policy].stored.spec;
               exists k :: 0 <= k < |step.edits|
                           && WritesTo(a, step.edits[k], s.workloads[step.name].pod.containers[i].name, spec.repository, tag)
                           && (Fails(paths, GitRemote.Head(was), step.edits[k])
                               || HeadSays(paths, GitRemote.Head(t.remotes[place].log), step.edits[k]))
  {
    var scanned := AfterScan(e, paths, s, policy, worker, tags, now);
    var w := s.workloads[step.name];
    ScanShows(e, paths, s, policy, worker, tags, tag, now);
    hide *;
    EditOfFollower(scanned, step, i, policy);
    var k :| 0 <= k < |step.edits|
             && WritesTo(w.pod.annotations, step.edits[k], w.pod.containers[i].name, s.policies[policy].stored.spec.repository, tag);
    HandedOverIsAsked(scanned, step, place);
    RoundConverges(e, paths, scanned, step, place, target);
    var after := Next(e, paths, Next(e, paths, scanned, step), Push(place, step.worker));
    DeliveredOne(paths, GitRemote.Head(s.remotes[place].log), GitRemote.Head(after.remotes[place].log), step.edits, k);
  }

  lemma DeliveredOne(paths: Paths, before: Files, after: Files, edits: seq<Edit>, k: nat)
    requires Delivers(paths, before, after, edits) && k < |edits|
    ensures Fails(paths, before, edits[k]) || HeadSays(paths, after, edits[k])
  {
    hide Fails, ShownIn, HeadSays;
    ShownInTexts(paths, after, edits[k]);
  }

  // Among what is handed over there is an edit for every follower that consents.
  lemma EditOfFollower(s: State, step: Step, i: nat, policy: string)
    requires step.Reconcile? && Follower(s, step.name, i, policy) && policy in Snapshot(s)
    requires var w, p := s.workloads[step.name], Snapshot(s)[policy];
             && ByGit(w.pod.annotations) && p.latestImage != "" && w.pod.containers[i].image != p.latestImage
             && Consents(w.pod.annotations, w.pod.containers[i].name, p)
             && Follows(w.pod, Snapshot(s), w.mutable, WriteBack(step.edits))
    ensures var pod, p := s.workloads[step.name].pod, Snapshot(s)[policy];
            exists k :: 0 <= k < |step.edits|
                        && WritesTo(pod.annotations, step.edits[k], pod.containers[i].name, p.repository, p.latestTag)
  {
    hide Follows, BoundTo, LastOf, Consents, TargetsText, Gives;
    var w, p := s.workloads[step.name], Snapshot(s)[policy];
    var name := w.pod.containers[i].name;
    HandedOver(w.pod, Snapshot(s), w.mutable, WriteBack(step.edits));
    assert Cleared(w.pod, Snapshot(s), w.mutable, name, p);
    var k :| 0 <= k < |step.edits| && step.edits[k].container == name;
    assert Justified(w.pod, Snapshot(s), w.mutable, step.edits[k]);
    var q :| Cleared(w.pod, Snapshot(s), w.mutable, step.edits[k].container, q) && EditSays(w.pod.annotations, step.edits[k], q);
    OnePolicy(w.pod, Snapshot(s), w.mutable, name, p, q);
    assert WritesTo(w.pod.annotations, step.edits[k], name, p.repository, p.latestTag);
  }

  lemma OnePolicy(pod: Pod, policies: Policies, mutable: bool, name: string, p: Policy, q: Policy)
    requires Cleared(pod, policies, mutable, name, p) && Cleared(pod, policies, mutable, name, q)
    ensures p == q
  {
    hide Cleared, Wants;
    WantsInTexts(pod, policies, mutable, name, p);
    WantsInTexts(pod, policies, mutable, name, q);
  }

  // When somebody pushes after the clone was taken, the operator's push adds nothing: the
  // branch ends with the other's commit.
  lemma OthersWin<V>(e: Engines<V>, paths: Paths, s: State, step: Step, place: Place, files: Files)
    requires step.Reconcile? && place in s.remotes && s.remotes[place].log != [] && Asks(s, step, place, step.edits)
    ensures var t := Next(e, paths, Next(e, paths, Next(e, paths, s, step), ForeignPush(place, files)), Push(place, step.worker));
            place in t.remotes && t.remotes[place].log == s.remotes[place].log + [GitRemote.Commit(files, GitRemote.Foreign)]
  {
    hide GitTarget, IsEditList, WritesToGit, GitRemote.CommitOf, Staged;
  }
}
