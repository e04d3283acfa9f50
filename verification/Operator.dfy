// The operator as one machine: policies, workloads and Git branches, with users, scans,
// reconciles and other writers taking steps in any order. internal/controller.
module Operator {
  import opened TagPolicy
  import opened ImageRef
  import PolicyStatus
  import opened Workload
  import opened WorkloadReconcile
  import opened WorkloadLaws
  import opened WorkloadTexts
  import opened GitWriteBack
  import GitRemote

  datatype Live = Live(pod: Pod, mutable: bool)

  datatype State = State(policies: map<string, PolicyStatus.State>, workloads: map<string, Live>,
                         remotes: map<Place, GitRemote.State>)

  // Reconcile looks at one workload; when it writes to Git, edits lists its pending
  // containers in the order they were met, and worker holds the clone until it is pushed.
  datatype Step =
    | CreatePolicy(name: string, spec: PolicyStatus.PolicySpec)
    | DeletePolicy(name: string)
    | OnPolicy(name: string, step: PolicyStatus.Step)
    | ApplyWorkload(name: string, live: Live)
    | DeleteWorkload(name: string)
    | Reconcile(name: string, worker: nat, edits: seq<Edit>)
    | Push(place: Place, worker: nat)
    | ForeignPush(place: Place, files: Files)

  // What a reconcile can read of a policy, and of all of them.
  function Shown(p: PolicyStatus.State): Policy
  {
    var o := p.stored;
    Policy(o.spec.repository, o.spec.updateMode, o.status.latestTag, o.status.latestImage)
  }

  function Snapshot(s: State): Policies { map n | n in s.policies :: Shown(s.policies[n]) }

  // The step is a reconcile that finds these edits to make on this branch.
  ghost predicate Asks(s: State, step: Step, place: Place, edits: seq<Edit>)
  {
    && step.Reconcile? && step.name in s.workloads && edits == step.edits && edits != []
    && var w := s.workloads[step.name];
       && WritesToGit(w.pod.annotations) && place == PlaceOf(w.pod.annotations)
       && GitTarget(w.pod.annotations).Some?
       && IsEditList(w.pod, Snapshot(s), w.mutable, GitTarget(w.pod.annotations).value, edits)
  }

  function OnRemote(paths: Paths, s: State, place: Place, step: GitRemote.Step): State
  {
    if place in s.remotes then s.(remotes := s.remotes[place := GitRemote.Next(paths, s.remotes[place], step)]) else s
  }

  ghost function AfterReconcile(paths: Paths, s: State, step: Step): State
    requires step.Reconcile?
  {
    if step.name !in s.workloads then s
    else
      var w := s.workloads[step.name];
      if !WritesToGit(w.pod.annotations) then
        s.(workloads := s.workloads[step.name := w.(pod := LivePatch(w.pod, Snapshot(s), w.mutable))])
      else if Asks(s, step, PlaceOf(w.pod.annotations), step.edits) then
        OnRemote(paths, s, PlaceOf(w.pod.annotations), GitRemote.TakeClone(step.worker, step.edits))
      else s
  }

  ghost function Next<V>(e: Engines<V>, paths: Paths, s: State, step: Step): State
  {
    match step
    case CreatePolicy(n, spec) =>
      if n in s.policies then s else s.(policies := s.policies[n := PolicyStatus.Created(spec)])
    case DeletePolicy(n) => s.(policies := s.policies - {n})
    case OnPolicy(n, p) =>
      if n in s.policies then s.(policies := s.policies[n := PolicyStatus.Next(e, s.policies[n], p)]) else s
    case ApplyWorkload(n, live) => s.(workloads := s.workloads[n := live])
    case DeleteWorkload(n) => s.(workloads := s.workloads - {n})
    case Reconcile(_, _, _) => AfterReconcile(paths, s, step)
    case Push(place, w) => OnRemote(paths, s, place, GitRemote.Push(w))
    case ForeignPush(place, files) => OnRemote(paths, s, place, GitRemote.ForeignPush(files))
  }

  // The state after the first n steps and after all of them.
  ghost function Run<V>(e: Engines<V>, paths: Paths, s: State, steps: seq<Step>): State
    decreases |steps|
  {
    if steps == [] then s
    else Next(e, paths, Run(e, paths, s, steps[..|steps| - 1]), steps[|steps| - 1])
  }

  // ---- What every run keeps -----------------------------------------------------

  ghost predicate Sound<V>(e: Engines<V>, s: State)
  {
    forall n | n in s.policies :: PolicyStatus.Invariant(e, s.policies[n])
  }

  lemma NextKeepsSound<V>(e: Engines<V>, paths: Paths, s: State, step: Step)
    requires Sound(e, s)
    ensures Sound(e, Next(e, paths, s, step))
  {
    hide PolicyStatus.Invariant, PolicyStatus.Next, PolicyStatus.Created, AfterReconcile;
    match step {
      case CreatePolicy(n, spec) => PolicyStatus.CreatedHolds(e, spec);
      case OnPolicy(n, p) => if n in s.policies { PolicyStatus.NextKeeps(e, s.policies[n], p); }
      case Reconcile(_, _, _) => ReconcileKeepsPolicies(paths, s, step);
      case DeletePolicy(_) =>
      case ApplyWorkload(_, _) =>
      case DeleteWorkload(_) =>
      case Push(_, _) =>
      case ForeignPush(_, _) =>
    }
  }

  lemma ReconcileKeepsPolicies(paths: Paths, s: State, step: Step)
    requires step.Reconcile?
    ensures AfterReconcile(paths, s, step).policies == s.policies
  {
    hide Asks, WritesToGit, LivePatch, GitRemote.Next;
  }

  lemma {:induction false} RunKeepsSound<V>(e: Engines<V>, paths: Paths, s: State, steps: seq<Step>)
    requires s.policies == map[]
    ensures Sound(e, Run(e, paths, s, steps))
    decreases |steps|
  {
    if steps != [] {
      hide Next, PolicyStatus.Invariant;
      RunKeepsSound(e, paths, s, steps[..|steps| - 1]);
      NextKeepsSound(e, paths, Run(e, paths, s, steps[..|steps| - 1]), steps[|steps| - 1]);
    }
  }

  // ---- Approval -----------------------------------------------------------------

  // What made a policy propose this image: a scan of its last good run selected the tag.
  ghost predicate Selects<V>(e: Engines<V>, p: PolicyStatus.State, repository: string, tag: string)
  {
    exists k ::
      && 0 <= k < |p.records| && p.records[k].spec.repository == repository && p.records[k].selected == tag
      && Selected(e, p.records[k].tags, p.records[k].spec.rule) == Ok(tag)
  }

  lemma LatestIsSelected<V>(e: Engines<V>, p: PolicyStatus.State) returns (repository: string)
    requires PolicyStatus.Invariant(e, p) && p.stored.status.latestImage != ""
    ensures Selects(e, p, repository, p.stored.status.latestTag)
    ensures p.stored.status.latestImage == JoinImage(repository, p.stored.status.latestTag)
  {
    hide Selected, PolicyStatus.ReadyShows;
    var k := |p.records| - 1;
    repository := p.records[k].spec.repository;
  }

  // The image of container i, if the step from before to after changed it, is R:T for a tag T
  // that a scan selected; no dry run is asked for, and where approval is, T is what the
  // container's approve annotation says at that moment.
  ghost predicate ChangeIsApproved<V>(e: Engines<V>, before: State, after: State, workload: string, i: nat)
  {
    workload in before.workloads && workload in after.workloads
    && Changed(before.workloads[workload].pod, after.workloads[workload].pod, i) ==>
      var pod := before.workloads[workload].pod;
      var a, name, container := pod.annotations, pod.containers[i].name, after.workloads[workload].pod.containers[i];
      && before.workloads[workload].mutable && !ByGit(a) && LastOf(pod.containers, name, i) && container.name == name
      && exists policy :: BoundTo(a, name, policy) && policy in before.policies
                          && ApprovedImage(e, before.policies[policy], a, name, container.image)
  }

  ghost predicate ApprovedImage<V>(e: Engines<V>, p: PolicyStatus.State, a: Annotations, name: string, image: string)
  {
    !ModeIs("DryRun", p.stored.spec.updateMode, a)
    && exists repository, tag ::
         && image == repository + ":" + tag && Selects(e, p, repository, tag)
         && (ModeIs("Approval", p.stored.spec.updateMode, a) ==> Says(a, "image-updater.saphire.com/approve." + name, tag))
  }

  lemma ConsentIsApproval<V>(e: Engines<V>, p: PolicyStatus.State, a: Annotations, name: string)
    requires PolicyStatus.Invariant(e, p) && p.stored.status.latestImage != ""
    requires Consents(a, name, Shown(p))
    ensures ApprovedImage(e, p, a, name, p.stored.status.latestImage)
  {
    hide PolicyStatus.Invariant, Selects, ModeIs, Says;
    var repository := LatestIsSelected(e, p);
  }

  // That holds of every reconcile, whatever happened before it.
  lemma ApprovalOverRuns<V>(e: Engines<V>, paths: Paths, s: State, steps: seq<Step>, step: Step, i: nat)
    requires s.policies == map[] && step.Reconcile?
    ensures var before := Run(e, paths, s, steps);
            ChangeIsApproved(e, before, Next(e, paths, before, step), step.name, i)
  {
    hide Run, PolicyStatus.Invariant, LivePatch, Consents, ApprovedImage, Asks, ByGit, BoundTo;
    var before := Run(e, paths, s, steps);
    RunKeepsSound(e, paths, s, steps);
    if step.name in before.workloads {
      var w := before.workloads[step.name];
      ReconcileOne(e, paths, before, step);
      if Changed(w.pod, LivePatch(w.pod, Snapshot(before), w.mutable), i) {
        var p := ChangedIsDue(w.pod, Snapshot(before), w.mutable, i);
        DueImage(w.pod, Snapshot(before), w.mutable, i, p);
        var name := w.pod.containers[i].name;
        var policy :| BoundTo(w.pod.annotations, name, policy) && policy in Snapshot(before) && Snapshot(before)[policy] == p;
        ConsentIsApproval(e, before.policies[policy], w.pod.annotations, name);
      }
    }
  }

  // A reconcile leaves its workload as the live patch does.
  lemma ReconcileOne<V>(e: Engines<V>, paths: Paths, s: State, step: Step)
    requires step.Reconcile? && step.name in s.workloads
    ensures var w := s.workloads[step.name];
            Next(e, paths, s, step).workloads
            == s.workloads[step.name := w.(pod := LivePatch(w.pod, Snapshot(s), w.mutable))]
  {
    hide Asks, WritesToGit, PatchTo, Desired, GitRemote.Next;
    var w := s.workloads[step.name];
    if WritesToGit(w.pod.annotations) {
      assert s.workloads == s.workloads[step.name := w];
    }
  }

  // ---- The same for Git ---------------------------------------------------------

  // Some step of the run was a reconcile that found these edits to make.
  ghost predicate Asked<V>(e: Engines<V>, paths: Paths, s: State, steps: seq<Step>, place: Place, edits: seq<Edit>)
  {
    exists m :: 0 <= m < |steps| && Asks(Run(e, paths, s, steps[..m]), steps[m], place, edits)
  }

  lemma AskedGrows<V>(e: Engines<V>, paths: Paths, s: State, steps: seq<Step>, step: Step, place: Place, edits: seq<Edit>)
    requires Asked(e, paths, s, steps, place, edits)
    ensures Asked(e, paths, s, steps + [step], place, edits)
  {
    hide Asks, Run;
    var m :| 0 <= m < |steps| && Asks(Run(e, paths, s, steps[..m]), steps[m], place, edits);
    assert (steps + [step])[..m] == steps[..m] && (steps + [step])[m] == steps[m];
  }

  lemma AskedNow<V>(e: Engines<V>, paths: Paths, s: State, steps: seq<Step>, step: Step, place: Place, edits: seq<Edit>)
    requires Asks(Run(e, paths, s, steps), step, place, edits)
    ensures Asked(e, paths, s, steps + [step], place, edits)
  {
    hide Asks, Run;
    var n := |steps|;
    assert (steps + [step])[..n] == steps && (steps + [step])[n] == step;
  }

  // Every operator commit of a branch, and every clone that may become one, was asked for.
  ghost predicate AllAsked<V>(e: Engines<V>, paths: Paths, s: State, steps: seq<Step>, place: Place, r: GitRemote.State)
  {
    && (forall k | 0 <= k < |r.log| && r.log[k].author.Operator? :: Asked(e, paths, s, steps, place, r.log[k].author.edits))
    && (forall w | w in r.clones :: Asked(e, paths, s, steps, place, r.clones[w].edits))
  }

  lemma AllAskedGrows<V>(e: Engines<V>, paths: Paths, s: State, steps: seq<Step>, step: Step,
                         place: Place, r: GitRemote.State, on: GitRemote.Step)
    requires AllAsked(e, paths, s, steps, place, r)
    requires on.TakeClone? ==> Asks(Run(e, paths, s, steps), step, place, on.edits)
    ensures AllAsked(e, paths, s, steps + [step], place, r)
    ensures AllAsked(e, paths, s, steps + [step], place, GitRemote.Next(paths, r, on))
  {
    hide Asks, Run, Asked, Staged, GitRemote.CommitOf;
    forall edits | Asked(e, paths, s, steps, place, edits)
      ensures Asked(e, paths, s, steps + [step], place, edits)
    {
      AskedGrows(e, paths, s, steps, step, place, edits);
    }
    if on.TakeClone? { AskedNow(e, paths, s, steps, step, place, on.edits); }
  }

  // Branches on which the operator has not been yet.
  ghost predicate Untouched(s: State)
  {
    && s.policies == map[]
    && forall place | place in s.remotes ::
         && s.remotes[place].clones == map[]
         && forall k | 0 <= k < |s.remotes[place].log| :: s.remotes[place].log[k].author.Foreign?
  }

  lemma {:induction false} EverythingAsked<V>(e: Engines<V>, paths: Paths, s: State, steps: seq<Step>, place: Place)
    requires Untouched(s)
    ensures var t := Run(e, paths, s, steps);
            place in t.remotes <==> place in s.remotes
    ensures var t := Run(e, paths, s, steps);
            place in t.remotes ==> AllAsked(e, paths, s, steps, place, t.remotes[place])
    decreases |steps|
  {
    if steps != [] {
      var n := |steps| - 1;
      var before, step := Run(e, paths, s, steps[..n]), steps[n];
      EverythingAsked(e, paths, s, steps[..n], place);
      assert steps == steps[..n] + [step];
      hide Run, AllAsked, Asks;
      if place in before.remotes {
        var on := RemoteStep(e, paths, before, step, place);
        AllAskedGrows(e, paths, s, steps[..n], step, place, before.remotes[place], on);
      }
      SameRemotes(e, paths, before, step);
      assert Run(e, paths, s, steps) == Next(e, paths, before, step) by { RunOneMore(e, paths, s, steps); }
    }
  }

  lemma RunOneMore<V>(e: Engines<V>, paths: Paths, s: State, steps: seq<Step>)
    requires steps != []
    ensures Run(e, paths, s, steps)
         == Next(e, paths, Run(e, paths, s, steps[..|steps| - 1]), steps[|steps| - 1])
  {}

  lemma SameRemotes<V>(e: Engines<V>, paths: Paths, s: State, step: Step)
    ensures Next(e, paths, s, step).remotes.Keys == s.remotes.Keys
  {
    hide Asks, WritesToGit, LivePatch, GitRemote.Next, PolicyStatus.Next;
  }

  // What a step of the operator is to one branch: a step of that branch's own machine, a
  // push by nobody when it does not concern it.
  lemma RemoteStep<V>(e: Engines<V>, paths: Paths, s: State, step: Step, place: Place) returns (on: GitRemote.Step)
    requires place in s.remotes
    ensures place in Next(e, paths, s, step).remotes
    ensures on.TakeClone? ==> Asks(s, step, place, on.edits)
    ensures on.ForeignPush? ==> step.ForeignPush? && on.files == step.files
    ensures Next(e, paths, s, step).remotes[place] in {s.remotes[place], GitRemote.Next(paths, s.remotes[place], on)}
  {
    hide Asks, WritesToGit, LivePatch, GitRemote.Next, PolicyStatus.Next;
    on := match step
      case ForeignPush(p, files) => GitRemote.ForeignPush(files)
      case Push(p, w) => GitRemote.Push(w)
      case Reconcile(_, w, edits) =>
        if Asks(s, step, place, edits) then GitRemote.TakeClone(w, edits) else GitRemote.Push(w)
      case _ => GitRemote.Push(0);
  }
}
