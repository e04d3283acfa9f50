// Safety and convergence of whole runs of the operator: internal/controller.
module OperatorLaws {
  import opened Text
  import opened TagPolicy
  import opened ImageRef
  import PolicyStatus
  import opened Workload
  import opened WorkloadReconcile
  import opened WorkloadLaws
  import opened WorkloadTexts
  import opened GitWriteBack
  import opened Operator
  import GitRemote

  // ---- Approval in Git ----------------------------------------------------------

  // The edit aims where the annotations say, writes repository and latest tag of the policy
  // its container is bound to, a tag that a scan selected, under the keys annotated for it,
  // and the mode of that moment allows it.
  ghost predicate Approved<V>(e: Engines<V>, s: State, name: string, place: Place, edit: Edit)
  {
    name in s.workloads
    && var a := s.workloads[name].pod.annotations;
       && ByGit(a) && AimsAt(a, place) && TargetsText(a, edit.target)
       && Gives(a, "image-updater.saphire.com/helm.image-name." + edit.container, edit.helmNameKey)
       && Gives(a, "image-updater.saphire.com/helm.image-tag." + edit.container, edit.helmTagKey)
       && exists policy :: BoundTo(a, edit.container, policy) && policy in s.policies
                           && ApprovedTexts(e, s.policies[policy], a, edit)
  }

  ghost predicate ApprovedTexts<V>(e: Engines<V>, p: PolicyStatus.State, a: Annotations, edit: Edit)
  {
    && edit.repository == p.stored.spec.repository && edit.tag == p.stored.status.latestTag
    && (exists repository :: Selects(e, p, repository, edit.tag))
    && !ModeIs("DryRun", p.stored.spec.updateMode, a)
    && (ModeIs("Approval", p.stored.spec.updateMode, a) ==>
          Says(a, "image-updater.saphire.com/approve." + edit.container, edit.tag))
  }

  lemma ConsentIsApproved<V>(e: Engines<V>, p: PolicyStatus.State, a: Annotations, edit: Edit)
    requires PolicyStatus.Invariant(e, p) && p.stored.status.latestImage != ""
    requires Consents(a, edit.container, Shown(p)) && EditSays(a, edit, Shown(p))
    ensures ApprovedTexts(e, p, a, edit)
  {
    hide PolicyStatus.Invariant, Selects, ModeIs, Says, TargetsText, Gives;
    var repository := LatestIsSelected(e, p);
  }

  lemma AskedIsApproved<V>(e: Engines<V>, s: State, step: Step, place: Place, edits: seq<Edit>, i: nat)
    requires Sound(e, s) && Asks(s, step, place, edits) && i < |edits|
    ensures Approved(e, s, step.name, place, edits[i])
  {
    hide PolicyStatus.Invariant, WritesToGit, GitTarget, TargetsText, ByGit, AimsAt, PlaceOf, BoundTo, Consents, ApprovedTexts,
         Gives, Wants;
    var w := s.workloads[step.name];
    var a := w.pod.annotations;
    GitInTexts(a);
    RepoNamed(a);
    PlaceInTexts(a, place);
    EditsInTexts(w.pod, Snapshot(s), w.mutable, GitTarget(a).value, edits);
    assert Justified(w.pod, Snapshot(s), w.mutable, edits[i]);
    var p :| Cleared(w.pod, Snapshot(s), w.mutable, edits[i].container, p) && EditSays(a, edits[i], p);
    var policy :| BoundTo(a, edits[i].container, policy) && policy in Snapshot(s) && Snapshot(s)[policy] == p;
    ConsentIsApproved(e, s.policies[policy], a, edits[i]);
  }

  // Every edit of every operator commit on any branch, whatever others did in between, was
  // approved at the reconcile that took the clone.
  lemma GitApprovalOverRuns<V>(e: Engines<V>, paths: Paths, s: State, steps: seq<Step>, place: Place, k: nat, i: nat)
    requires Untouched(s) && place in Run(e, paths, s, steps).remotes
    requires var log := Run(e, paths, s, steps).remotes[place].log;
             k < |log| && log[k].author.Operator? && i < |log[k].author.edits|
    ensures var edits := Run(e, paths, s, steps).remotes[place].log[k].author.edits;
            exists m :: 0 <= m < |steps| && steps[m].Reconcile?
                        && Approved(e, Run(e, paths, s, steps[..m]), steps[m].name, place, edits[i])
  {
    hide Run, Approved, Asks, Sound;
    EverythingAsked(e, paths, s, steps, place);
    var edits := Run(e, paths, s, steps).remotes[place].log[k].author.edits;
    assert Asked(e, paths, s, steps, place, edits);
    var m :| 0 <= m < |steps| && Asks(Run(e, paths, s, steps[..m]), steps[m], place, edits);
    RunKeepsSound(e, paths, s, steps[..m]);
    AskedIsApproved(e, Run(e, paths, s, steps[..m]), steps[m], place, edits, i);
    AsksReconciles(Run(e, paths, s, steps[..m]), steps[m], place, edits);
  }

  lemma AsksReconciles(s: State, step: Step, place: Place, edits: seq<Edit>)
    requires Asks(s, step, place, edits)
    ensures step.Reconcile?
  {}

  // ---- Branches keep their own invariant ----------------------------------------

  ghost predicate ReadablePushes(steps: seq<Step>)
  {
    forall i | 0 <= i < |steps| :: steps[i].ForeignPush? ==> CanonFiles(steps[i].files)
  }

  // Also when policies and workloads change around it, each branch keeps a history in
  // which every operator commit is its parent with exactly its own edits applied.
  lemma {:induction false} BranchesOverRuns<V>(e: Engines<V>, paths: Paths, s: State, steps: seq<Step>, place: Place)
    requires place in s.remotes && GitRemote.Invariant(paths, s.remotes[place]) && ReadablePushes(steps)
    ensures var t := Run(e, paths, s, steps);
            place in t.remotes && GitRemote.Invariant(paths, t.remotes[place])
            && s.remotes[place].log <= t.remotes[place].log
    decreases |steps|
  {
    if steps != [] {
      var n := |steps| - 1;
      assert ReadablePushes(steps[..n]);
      BranchesOverRuns(e, paths, s, steps[..n], place);
      var before, step := Run(e, paths, s, steps[..n]), steps[n];
      hide Run, GitRemote.Invariant, Next, CanonFiles;
      RunOneMore(e, paths, s, steps);
      var on := RemoteStep(e, paths, before, step, place);
      ReadableStep(e, paths, before, step, place, on);
    }
  }

  lemma ReadableStep<V>(e: Engines<V>, paths: Paths, s: State, step: Step, place: Place, on: GitRemote.Step)
    requires place in s.remotes && GitRemote.Invariant(paths, s.remotes[place])
    requires step.ForeignPush? ==> CanonFiles(step.files)
    requires on.ForeignPush? ==> step.ForeignPush? && on.files == step.files
    requires place in Next(e, paths, s, step).remotes
    requires Next(e, paths, s, step).remotes[place] in {s.remotes[place], GitRemote.Next(paths, s.remotes[place], on)}
    ensures GitRemote.Invariant(paths, Next(e, paths, s, step).remotes[place])
    ensures s.remotes[place].log <= Next(e, paths, s, step).remotes[place].log
  {
    hide Next, GitRemote.Invariant, GitRemote.Next, CanonFiles;
    assert GitRemote.Readable([on]);
    GitRemote.NextKeeps(paths, s.remotes[place], on);
  }

  // Safe edits need one undisturbed round: afterwards the branch shows every edit that could
  // be made, and a commit was added exactly if it did not carry them before.
  lemma RoundConverges<V>(e: Engines<V>, paths: Paths, s: State, step: Step, place: Place, t: Target)
    requires place in s.remotes && GitRemote.Invariant(paths, s.remotes[place])
    requires step.Reconcile? && Asks(s, step, place, step.edits)
    requires SafeEdits(paths, GitRemote.Head(s.remotes[place].log), step.edits, t)
    ensures var after := Next(e, paths, Next(e, paths, s, step), Push(place, step.worker));
            && place in after.remotes
            && var was, log := s.remotes[place].log, after.remotes[place].log;
               && was != [] && log != []
               && Carries(paths, GitRemote.Head(log), step.edits)
               && Delivers(paths, GitRemote.Head(was), GitRemote.Head(log), step.edits)
               && (log == was <==> Carries(paths, GitRemote.Head(was), step.edits))
  {
    hide GitTarget, IsEditList, WritesToGit, CanonFiles, Carries, Delivers, SafeEdits, GitRemote.Faithful, Staged, GitRemote.CommitOf;
    var r := s.remotes[place];
    GitRemote.OneRoundConverges(paths, r, step.worker, step.edits, t);
    RoundIs(paths, r, step.worker, step.edits);
    RoundGrows(paths, r, step.worker, step.edits);
  }

  // A manifest write-back needs no guard for that.
  lemma ManifestRoundConverges<V>(e: Engines<V>, paths: Paths, s: State, step: Step, place: Place, t: Target)
    requires place in s.remotes && GitRemote.Invariant(paths, s.remotes[place])
    requires step.Reconcile? && Asks(s, step, place, step.edits) && t.kind == ToManifest
    requires GitTarget(s.workloads[step.name].pod.annotations) == Some(t)
    ensures var after := Next(e, paths, Next(e, paths, s, step), Push(place, step.worker));
            && place in after.remotes
            && var was, log := s.remotes[place].log, after.remotes[place].log;
               && was != [] && log != []
               && Carries(paths, GitRemote.Head(log), step.edits)
               && Delivers(paths, GitRemote.Head(was), GitRemote.Head(log), step.edits)
               && (log == was <==> Carries(paths, GitRemote.Head(was), step.edits))
  {
    var w, head := s.workloads[step.name], GitRemote.Head(s.remotes[place].log);
    assert CanonFiles(head);
    assert IsEditList(w.pod, Snapshot(s), w.mutable, t, step.edits);
    hide *;
    ManifestEditsAreSafe(w.pod, Snapshot(s), w.mutable, t, step.edits, paths, head);
    RoundConverges(e, paths, s, step, place, t);
  }

  lemma RoundIs(paths: Paths, r: GitRemote.State, w: nat, edits: seq<Edit>)
    ensures GitRemote.Run(paths, r, [GitRemote.TakeClone(w, edits), GitRemote.Push(w)])
         == GitRemote.Next(paths, GitRemote.Next(paths, r, GitRemote.TakeClone(w, edits)), GitRemote.Push(w))
  {
    hide GitRemote.Next;
    var steps := [GitRemote.TakeClone(w, edits), GitRemote.Push(w)];
    var cloned := GitRemote.Next(paths, r, steps[0]);
    assert steps[1..] == [GitRemote.Push(w)] && [GitRemote.Push(w)][1..] == [];
    assert GitRemote.Run(paths, cloned, [GitRemote.Push(w)])
        == GitRemote.Run(paths, GitRemote.Next(paths, cloned, GitRemote.Push(w)), []);
  }

  lemma RoundGrows(paths: Paths, r: GitRemote.State, w: nat, edits: seq<Edit>)
    ensures r.log <= GitRemote.Next(paths, GitRemote.Next(paths, r, GitRemote.TakeClone(w, edits)), GitRemote.Push(w)).log
  {
    hide Staged, GitRemote.CommitOf;
  }

  // ---- Git falls silent ---------------------------------------------------------

  // The head of its branch carries every edit a Git workload could now ask for.
  ghost predicate HeadCarries(paths: Paths, s: State, name: string)
    requires name in s.workloads
  {
    var w := s.workloads[name];
    var a := w.pod.annotations;
    WritesToGit(a) && GitTarget(a).Some? && PlaceOf(a) in s.remotes && s.remotes[PlaceOf(a)].log != [] ==>
      forall n | Wants(w.pod, Snapshot(s), w.mutable, n).Some? ::
        var edit := EditFor(a, GitTarget(a).value, n, Wants(w.pod, Snapshot(s), w.mutable, n).value);
        var head := GitRemote.Head(s.remotes[PlaceOf(a)].log);
        Fails(paths, head, edit) || ShownIn(paths, head, edit)
  }

  ghost predicate GitSettled(paths: Paths, s: State)
  {
    && (forall place | place in s.remotes :: GitRemote.Settled(paths, s.remotes[place]))
    && (forall name | name in s.workloads :: HeadCarries(paths, s, name))
  }

  lemma AskedIsCarried(paths: Paths, s: State, step: Step, place: Place, edits: seq<Edit>)
    requires Asks(s, step, place, edits) && HeadCarries(paths, s, step.name)
    requires place in s.remotes && s.remotes[place].log != []
    ensures Carries(paths, GitRemote.Head(s.remotes[place].log), edits)
  {
    hide Wants, Fails, ShownIn, WritesToGit, GitTarget;
    forall i | 0 <= i < |edits|
      ensures Fails(paths, GitRemote.Head(s.remotes[place].log), edits[i])
              || ShownIn(paths, GitRemote.Head(s.remotes[place].log), edits[i])
    {
      assert Wants(s.workloads[step.name].pod, Snapshot(s), s.workloads[step.name].mutable, edits[i].container).Some?;
    }
  }

  // One step of one settled branch.
  lemma BranchStays(paths: Paths, r: GitRemote.State, on: GitRemote.Step)
    requires GitRemote.Settled(paths, r) && !on.ForeignPush?
    requires on.TakeClone? ==> Carries(paths, GitRemote.Head(r.log), on.edits)
    ensures var q := GitRemote.Next(paths, r, on);
            q.log == r.log && GitRemote.Settled(paths, q)
  {
    hide Carries, GitRemote.Next, GitRemote.Settled;
    SettledHasLog(paths, r);
    assert GitRemote.Reconciles(paths, GitRemote.Head(r.log), [on]);
    GitRemote.NoFurtherCommit(paths, r, [on]);
    assert [on][1..] == [];
    assert GitRemote.Run(paths, r, [on]) == GitRemote.Run(paths, GitRemote.Next(paths, r, on), []);
  }

  lemma SettledHasLog(paths: Paths, r: GitRemote.State)
    requires GitRemote.Settled(paths, r)
    ensures r.log != []
  {}

  // What a reconcile or a push leaves of the parts that HeadCarries looks at.
  lemma OwnStep<V>(e: Engines<V>, paths: Paths, s: State, step: Step)
    requires step.Reconcile? || step.Push?
    ensures var t := Next(e, paths, s, step);
            && t.policies == s.policies && t.workloads.Keys == s.workloads.Keys
            && forall name | name in s.workloads ::
                 var w := s.workloads[name];
                 t.workloads[name] == w
                 || (!WritesToGit(w.pod.annotations) && t.workloads[name] == w.(pod := LivePatch(w.pod, Snapshot(s), w.mutable)))
  {
    hide Asks, WritesToGit, LivePatch, GitRemote.Next;
  }

  lemma StaysLive(pod: Pod, policies: Policies, mutable: bool)
    requires !WritesToGit(pod.annotations)
    ensures !WritesToGit(LivePatch(pod, policies, mutable).annotations)
  {
    hide WritesToGit, Desired, Marks;
    SettingsKept(pod.annotations, Desired(pod, policies, mutable), "", "");
  }

  // A settled step changes no log and keeps everything settled.
  lemma SilentStep<V>(e: Engines<V>, paths: Paths, s: State, step: Step)
    requires GitSettled(paths, s) && (step.Reconcile? || step.Push?)
    ensures var t := Next(e, paths, s, step);
            && t.remotes.Keys == s.remotes.Keys && GitSettled(paths, t)
            && forall place | place in s.remotes :: t.remotes[place].log == s.remotes[place].log
  {
    hide Asks, WritesToGit, LivePatch, GitRemote.Next, GitRemote.Settled, HeadCarries, Next;
    var t := Next(e, paths, s, step);
    SameRemotes(e, paths, s, step);
    OwnStep(e, paths, s, step);
    forall place | place in s.remotes
      ensures t.remotes[place].log == s.remotes[place].log && GitRemote.Settled(paths, t.remotes[place])
    {
      var on := RemoteStep(e, paths, s, step, place);
      SettledHasLog(paths, s.remotes[place]);
      if on.TakeClone? {
        AsksKnows(s, step, place, on.edits);
        AskedIsCarried(paths, s, step, place, on.edits);
      }
      BranchStays(paths, s.remotes[place], on);
    }
    forall name | name in t.workloads
      ensures HeadCarries(paths, t, name)
    {
      assert name in t.workloads.Keys;
      if t.workloads[name] != s.workloads[name] { StaysLive(s.workloads[name].pod, Snapshot(s), s.workloads[name].mutable); }
      CarriesStill(paths, s, t, name);
    }
  }

  lemma AsksKnows(s: State, step: Step, place: Place, edits: seq<Edit>)
    requires Asks(s, step, place, edits)
    ensures step.Reconcile? && step.name in s.workloads
  {}

  lemma CarriesStill(paths: Paths, s: State, t: State, name: string)
    requires name in s.workloads && name in t.workloads && HeadCarries(paths, s, name)
    requires t.policies == s.policies && t.remotes.Keys == s.remotes.Keys
    requires forall place | place in s.remotes :: t.remotes[place].log == s.remotes[place].log
    requires t.workloads[name] == s.workloads[name] || !WritesToGit(t.workloads[name].pod.annotations)
    ensures HeadCarries(paths, t, name)
  {
    hide WritesToGit, Wants, Fails, ShownIn, GitTarget, EditFor, PlaceOf;
    assert Snapshot(t) == Snapshot(s);
    var place := PlaceOf(t.workloads[name].pod.annotations);
    assert place in t.remotes ==> place in s.remotes.Keys;
    if t.workloads[name] == s.workloads[name] && place in s.remotes { assert t.remotes[place].log == s.remotes[place].log; }
  }

  // Once every branch shows what its workloads select, no number of reconciles and pushes,
  // of any workloads in any order, adds a commit anywhere.
  lemma {:induction false} GitFallsSilent<V>(e: Engines<V>, paths: Paths, s: State, steps: seq<Step>)
    requires GitSettled(paths, s)
    requires forall i | 0 <= i < |steps| :: steps[i].Reconcile? || steps[i].Push?
    ensures var t := Run(e, paths, s, steps);
            && t.remotes.Keys == s.remotes.Keys && GitSettled(paths, t)
            && forall place | place in s.remotes :: t.remotes[place].log == s.remotes[place].log
    decreases |steps|
  {
    if steps != [] {
      var n := |steps| - 1;
      GitFallsSilent(e, paths, s, steps[..n]);
      hide Run, Next, GitSettled;
      RunOneMore(e, paths, s, steps);
      SilentStep(e, paths, Run(e, paths, s, steps[..n]), steps[n]);
    }
  }

  // ---- The cluster settles ------------------------------------------------------

  // Workloads no live reconcile may touch: they write to Git, cannot be patched, or are
  // set to a dry run.
  predicate OffLimits(w: Live)
  {
    WritesToGit(w.pod.annotations) || !w.mutable
    || (UPDATE_MODE in w.pod.annotations && w.pod.annotations[UPDATE_MODE] == "DryRun")
  }

  lemma OffLimitsIdle(w: Live, policies: Policies)
    requires OffLimits(w)
    ensures LivePatch(w.pod, policies, w.mutable) == w.pod
  {
    LivePatchCases(w.pod, policies, w.mutable);
    PatchNothing(w.pod);
    DesiredIs(w.pod, policies, w.mutable);
    hide PatchTo, LivePatch, Desired, PolicyOf, Named;
    if !WritesToGit(w.pod.annotations) {
      forall n
        ensures n !in Desired(w.pod, policies, w.mutable)
      {
        assert Wants(w.pod, policies, w.mutable, n).None?;
      }
      assert Desired(w.pod, policies, w.mutable).Keys == {};
    }
  }

  ghost predicate LeavesAlone(step: Step, name: string)
  {
    !(step.ApplyWorkload? && step.name == name) && !(step.DeleteWorkload? && step.name == name)
  }

  lemma LeftAlone<V>(e: Engines<V>, paths: Paths, s: State, step: Step, name: string)
    requires name in s.workloads && LeavesAlone(step, name)
    ensures var w := s.workloads[name];
            name in Next(e, paths, s, step).workloads
            && Next(e, paths, s, step).workloads[name]
               in {w, w.(pod := LivePatch(w.pod, Snapshot(s), w.mutable))}
  {
    hide Asks, WritesToGit, LivePatch, GitRemote.Next, PolicyStatus.Next;
  }

  // No run of the operator changes such a workload; only its owner does.
  lemma {:induction false} HandsOff<V>(e: Engines<V>, paths: Paths, s: State, steps: seq<Step>, name: string)
    requires name in s.workloads && OffLimits(s.workloads[name])
    requires forall i | 0 <= i < |steps| :: LeavesAlone(steps[i], name)
    ensures var t := Run(e, paths, s, steps);
            name in t.workloads && t.workloads[name] == s.workloads[name]
    decreases |steps|
  {
    if steps != [] {
      hide Next, OffLimits, LivePatch, LeavesAlone;
      var n := |steps| - 1;
      HandsOff(e, paths, s, steps[..n], name);
      LeftAlone(e, paths, Run(e, paths, s, steps[..n]), steps[n], name);
      OffLimitsIdle(s.workloads[name], Snapshot(Run(e, paths, s, steps[..n])));
    }
  }

  ghost predicate Reconciled(steps: seq<Step>, name: string)
  {
    exists i :: 0 <= i < |steps| && steps[i].Reconcile? && steps[i].name == name
  }

  // Nothing but reconciles: in whatever order and however often they come, every workload
  // that was looked at ends as one live patch leaves it, and every other as it was.
  lemma {:induction false} ReconcilesSettle<V>(e: Engines<V>, paths: Paths, s: State, steps: seq<Step>)
    requires forall i | 0 <= i < |steps| :: steps[i].Reconcile?
    ensures var t := Run(e, paths, s, steps);
            && t.policies == s.policies && t.workloads.Keys == s.workloads.Keys
            && forall n | n in s.workloads ::
                 t.workloads[n] == var w := s.workloads[n];
                                   if Reconciled(steps, n) then w.(pod := LivePatch(w.pod, Snapshot(s), w.mutable)) else w
    decreases |steps|
  {
    if steps != [] {
      var k := |steps| - 1;
      var before, step := Run(e, paths, s, steps[..k]), steps[k];
      ReconcilesSettle(e, paths, s, steps[..k]);
      forall n
        ensures Reconciled(steps, n) == (Reconciled(steps[..k], n) || step.name == n)
      {
        ReconciledOneMore(steps, n);
      }
      RunOneMore(e, paths, s, steps);
      hide Run, Reconciled, LivePatch, AfterReconcile;
      OwnStep(e, paths, before, step);
      SnapshotOf(s, before);
      if step.name in s.workloads {
        ReconcileOne(e, paths, before, step);
        PatchTwice(s.workloads[step.name].pod, Snapshot(s), s.workloads[step.name].mutable);
      } else {
        ReconcileNone(e, paths, before, step);
      }
    }
  }

  lemma SnapshotOf(s: State, t: State)
    requires s.policies == t.policies
    ensures Snapshot(s) == Snapshot(t)
  {}

  lemma ReconcileNone<V>(e: Engines<V>, paths: Paths, s: State, step: Step)
    requires step.Reconcile? && step.name !in s.workloads
    ensures Next(e, paths, s, step) == s
  {}

  lemma ReconciledOneMore(steps: seq<Step>, name: string)
    requires steps != [] && steps[|steps| - 1].Reconcile?
    ensures Reconciled(steps, name) == (Reconciled(steps[..|steps| - 1], name) || steps[|steps| - 1].name == name)
  {
    var k := |steps| - 1;
    if Reconciled(steps[..k], name) {
      var i :| 0 <= i < k && steps[..k][i].Reconcile? && steps[..k][i].name == name;
      assert steps[i].name == name;
    }
    if Reconciled(steps, name) && steps[k].name != name {
      var i :| 0 <= i < |steps| && steps[i].Reconcile? && steps[i].name == name;
      assert steps[..k][i].name == name;
    }
  }

  lemma PatchTwice(pod: Pod, policies: Policies, mutable: bool)
    ensures LivePatch(LivePatch(pod, policies, mutable), policies, mutable) == LivePatch(pod, policies, mutable)
  {
    hide PatchTo, Desired, WritesToGit;
    if !WritesToGit(pod.annotations) { LiveFixedPoint(pod, policies, mutable); }
  }

  // ---- From the registry to the cluster -----------------------------------------

  // The container is bound to a policy that is Ready at its current generation, and the
  // gate of a live workload lets it through.
  ghost predicate ReadyFor(t: State, workload: string, name: string)
  {
    workload in t.workloads
    && var w := t.workloads[workload];
       && !WritesToGit(w.pod.annotations) && Named(w.pod.containers, name).Some?
       && Bound(w.pod.annotations, name).Some? && Bound(w.pod.annotations, name).value in t.policies
       && Gate(w.pod.annotations, w.mutable, name, Snapshot(t)[Bound(w.pod.annotations, name).value])
       && var p := t.policies[Bound(w.pod.annotations, name).value].stored;
          && PolicyStatus.ReadyOf(p.status.conditions).Some?
          && PolicyStatus.ReadyOf(p.status.conditions).value.status
          && p.status.observedGeneration == p.generation
  }

  // The container runs the current repository with a tag that the current rule selected
  // from tags a scan listed.
  ghost predicate UpToDate<V>(e: Engines<V>, t: State, workload: string, name: string)
  {
    workload in t.workloads
    && var pod := t.workloads[workload].pod;
       && Named(pod.containers, name).Some?
       && Bound(pod.annotations, name).Some? && Bound(pod.annotations, name).value in t.policies
       && var p := t.policies[Bound(pod.annotations, name).value];
          && pod.containers[Named(pod.containers, name).value].image
             == JoinImage(p.stored.spec.repository, p.stored.status.latestTag)
          && exists k :: 0 <= k < |p.records|
                         && Selected(e, p.records[k].tags, p.stored.spec.rule) == Ok(p.stored.status.latestTag)
  }

  // Whatever happened before, one reconcile is enough.
  lemma ReadyReachesCluster<V>(e: Engines<V>, paths: Paths, s: State, steps: seq<Step>, step: Step, name: string)
    requires s.policies == map[] && step.Reconcile?
    ensures var t := Run(e, paths, s, steps);
            ReadyFor(t, step.name, name) ==> UpToDate(e, Next(e, paths, t, step), step.name, name)
  {
    hide Run, PolicyStatus.Invariant, PolicyStatus.ReadyOf, Selected, LivePatch, Gate, WritesToGit, Bound, Named, Desired, AfterReconcile;
    var t := Run(e, paths, s, steps);
    RunKeepsSound(e, paths, s, steps);
    if ReadyFor(t, step.name, name) {
      var w := t.workloads[step.name];
      var p := t.policies[Bound(w.pod.annotations, name).value];
      PolicyStatus.ReadyByInvariant(e, p);
      ReconcileOne(e, paths, t, step);
      ReconcileKeepsPolicies(paths, t, step);
      LiveExactly(w.pod, Snapshot(t), w.mutable, name);
      StillBound(w.pod, Snapshot(t), w.mutable, name);
    }
  }

  lemma StillBound(pod: Pod, policies: Policies, mutable: bool, name: string)
    ensures var after := LivePatch(pod, policies, mutable);
            Bound(after.annotations, name) == Bound(pod.annotations, name)
            && Named(after.containers, name) == Named(pod.containers, name)
  {
    LivePatchCases(pod, policies, mutable);
    hide LivePatch, Bound, Named, Desired, PatchTo;
    PolicyKept(pod, policies, mutable, Desired(pod, policies, mutable), name);
  }

  // ---- Git and the cluster ------------------------------------------------------

  lemma SameRepository(a: string, b: string, tag: string)
    ensures JoinImage(a, tag) == JoinImage(b, tag) <==> a == b
  {
    if JoinImage(a, tag) == JoinImage(b, tag) {
      assert |a| == |b|;
      assert a == JoinImage(a, tag)[..|a|];
      assert b == JoinImage(b, tag)[..|b|];
    }
  }

  // A Git edit writes the policy's present repository with its latest tag; the reconcile
  // waits for the image of the last good scan. They are one image exactly when the
  // repository has not been edited since that scan.
  lemma GitWritesWhatIsAwaited<V>(e: Engines<V>, p: PolicyStatus.State)
    requires PolicyStatus.Invariant(e, p) && p.records != []
    ensures var o := p.stored;
            JoinImage(o.spec.repository, o.status.latestTag) == o.status.latestImage
            <==> o.spec.repository == p.records[|p.records| - 1].spec.repository
  {
    hide Selected, PolicyStatus.ReadyShows, JoinImage;
    SameRepository(p.stored.spec.repository, p.records[|p.records| - 1].spec.repository, p.stored.status.latestTag);
  }

  // Once a container of a Git workload runs what the edit wrote, the reconcile has nothing
  // left to ask for exactly when the repository is still that of the last good scan.
  lemma SyncedIsQuietIff<V>(e: Engines<V>, s: State, workload: string, name: string)
    requires Sound(e, s) && workload in s.workloads
    requires var pod := s.workloads[workload].pod;
             && Bound(pod.annotations, name).Some? && Bound(pod.annotations, name).value in s.policies
             && Named(pod.containers, name).Some?
             && var o := s.policies[Bound(pod.annotations, name).value].stored;
                && o.status.latestImage != ""
                && pod.containers[Named(pod.containers, name).value].image == JoinImage(o.spec.repository, o.status.latestTag)
                && Gate(pod.annotations, s.workloads[workload].mutable, name, Snapshot(s)[Bound(pod.annotations, name).value])
    ensures var w, p := s.workloads[workload], s.policies[Bound(s.workloads[workload].pod.annotations, name).value];
            && p.records != []
            && (Wants(w.pod, Snapshot(s), w.mutable, name).None?
                <==> p.stored.spec.repository == p.records[|p.records| - 1].spec.repository)
  {
    hide Gate, Named, Bound, JoinImage, PolicyStatus.Invariant;
    var p := s.policies[Bound(s.workloads[workload].pod.annotations, name).value];
    assert PolicyStatus.Invariant(e, p);
    ScannedBefore(e, p);
    GitWritesWhatIsAwaited(e, p);
  }

  lemma ScannedBefore<V>(e: Engines<V>, p: PolicyStatus.State)
    requires PolicyStatus.Invariant(e, p) && p.stored.status.latestImage != ""
    ensures p.records != []
  {
    hide PolicyStatus.ReadyShows, Selected;
  }

  function AnyTag(repository: string): PolicyStatus.PolicySpec
  {
    PolicyStatus.PolicySpec(repository, Spec(None, Rules(None, None, None, Some(ASC))), "", false)
  }

  lemma OneTagSelected<V>(e: Engines<V>, tag: string)
    ensures Selected(e, [tag], AnyTag("a").rule) == Ok(tag)
  {}

  const GOOD_SCAN := PolicyStatus.Finish(0, PolicyStatus.Listed(["1"]), 0)

  // One good scan of repository a.
  lemma ScannedOnce<V>(e: Engines<V>)
    ensures var s0 := PolicyStatus.Created(AnyTag("a"));
            var s := PolicyStatus.Next(e, PolicyStatus.Next(e, s0, PolicyStatus.Read(0)), GOOD_SCAN);
            s.records != [] && s.stored.spec == AnyTag("a")
            && s.stored.status.latestTag == "1" && s.stored.status.latestImage == JoinImage("a", "1")
  {
    OneTagSelected(e, "1");
    hide PolicyStatus.ReadySet, Selected, JoinImage;
  }

  lemma ThreeSteps<V>(e: Engines<V>, s: PolicyStatus.State, a: PolicyStatus.Step, b: PolicyStatus.Step, c: PolicyStatus.Step)
    ensures PolicyStatus.Run(e, s, [a, b, c])
         == PolicyStatus.Next(e, PolicyStatus.Next(e, PolicyStatus.Next(e, s, a), b), c)
  {
    hide PolicyStatus.Next;
    var s1 := PolicyStatus.Next(e, s, a);
    var s2 := PolicyStatus.Next(e, s1, b);
    assert [a, b, c][1..] == [b, c] && [b, c][1..] == [c] && [c][1..] == [];
    assert PolicyStatus.Run(e, s2, [c]) == PolicyStatus.Run(e, PolicyStatus.Next(e, s2, c), []);
    assert PolicyStatus.Run(e, s1, [b, c]) == PolicyStatus.Run(e, s2, [c]);
  }

  // And the gap does open: one good scan, then an edit of the repository.
  lemma RepositoryEditOpensGap<V>(e: Engines<V>)
    ensures exists spec, steps ::
      var p := PolicyStatus.Run(e, PolicyStatus.Created(spec), steps);
      p.records != [] && JoinImage(p.stored.spec.repository, p.stored.status.latestTag) != p.stored.status.latestImage
  {
    var s0 := PolicyStatus.Created(AnyTag("a"));
    var edit := PolicyStatus.EditSpec(AnyTag("b"));
    ScannedOnce(e);
    ThreeSteps(e, s0, PolicyStatus.Read(0), GOOD_SCAN, edit);
    SameRepository("a", "b", "1");
    assert "b"[0] != "a"[0];
    assert AnyTag("b").repository == "b" && AnyTag("a").repository == "a";
    var scanned := PolicyStatus.Next(e, PolicyStatus.Next(e, s0, PolicyStatus.Read(0)), GOOD_SCAN);
    hide PolicyStatus.Created, PolicyStatus.Run, JoinImage, Selected, PolicyStatus.ReadySet;
    assert PolicyStatus.Next(e, scanned, edit).records == scanned.records;
    assert PolicyStatus.Next(e, scanned, edit).stored.status == scanned.stored.status;
    assert PolicyStatus.Next(e, scanned, edit).stored.spec == AnyTag("b");
    var p := PolicyStatus.Run(e, s0, [PolicyStatus.Read(0), GOOD_SCAN, edit]);
    assert p.records != [] && JoinImage(p.stored.spec.repository, p.stored.status.latestTag) != p.stored.status.latestImage;
  }
}
