// One undisturbed round for each workload that awaits Git settles every branch:
// internal/controller/workload_controller.go:202-281 over all workloads.
module GitSettles {
  import opened Text
  import opened TagPolicy
  import opened Workload
  import opened WorkloadReconcile
  import opened GitWriteBack
  import GitRemote
  import opened Operator
  import opened OperatorLaws

  // ---- Files that another target's edits leave alone ----------------------------

  // The target leads to the same file, with the same content.
  ghost predicate SameSubject(paths: Paths, before: Files, after: Files, t: Target)
  {
    && after.Keys == before.Keys
    && TargetFile(paths, after, t) == TargetFile(paths, before, t)
    && var path := TargetFile(paths, before, t);
       path.Some? && path.value in before ==> path.value in after && after[path.value] == before[path.value]
  }

  predicate ApartFiles(paths: Paths, files: Files, t: Target, o: Target)
  {
    TargetFile(paths, files, t) == None || TargetFile(paths, files, t) != TargetFile(paths, files, o)
  }

  // Which file a target leads to depends on which files there are, not on what they say.
  lemma TargetByKeys(paths: Paths, before: Files, after: Files, t: Target)
    requires after.Keys == before.Keys
    ensures TargetFile(paths, after, t) == TargetFile(paths, before, t)
  {
    assert forall p :: p in after <==> p in before;
  }

  lemma OtherFileKept(paths: Paths, files: Files, edits: seq<Edit>, t: Target, o: Target)
    requires CanonFiles(files) && OneTarget(edits, t) && ApartFiles(paths, files, t, o)
    ensures SameSubject(paths, files, AfterAll(paths, files, edits), o)
  {
    hide AfterAll, CanonFiles, TargetFile;
    RunOnOneFile(paths, files, edits, t);
    TargetByKeys(paths, files, AfterAll(paths, files, edits), o);
  }

  // What is asked of the target then stays as safe, and as done, as it was.
  lemma SubjectDecides(paths: Paths, before: Files, after: Files, edits: seq<Edit>, t: Target)
    requires SameSubject(paths, before, after, t) && OneTarget(edits, t)
    ensures CanonFiles(after) && SafeEdits(paths, before, edits, t) ==> SafeEdits(paths, after, edits, t)
    ensures forall i | 0 <= i < |edits| ::
      Fails(paths, after, edits[i]) == Fails(paths, before, edits[i])
      && ShownIn(paths, after, edits[i]) == ShownIn(paths, before, edits[i])
  {
    hide TargetFile, Safe, EditFile, Shows, CanonFiles;
  }

  // ---- One round of one branch --------------------------------------------------

  function AfterRound(paths: Paths, r: GitRemote.State, w: nat, edits: seq<Edit>): GitRemote.State
  {
    GitRemote.Next(paths, GitRemote.Next(paths, r, GitRemote.TakeClone(w, edits)), GitRemote.Push(w))
  }

  lemma RoundSettles(paths: Paths, r: GitRemote.State, w: nat, edits: seq<Edit>, t: Target)
    requires GitRemote.Settled(paths, r) && SafeEdits(paths, GitRemote.Head(r.log), edits, t)
    ensures var q, head := AfterRound(paths, r, w, edits), GitRemote.Head(r.log);
            && GitRemote.Settled(paths, q)
            && GitRemote.Head(q.log) == AfterAll(paths, head, edits)
            && GitRemote.Head(q.log).Keys == head.Keys
            && Carries(paths, GitRemote.Head(q.log), edits) && Delivers(paths, head, GitRemote.Head(q.log), edits)
  {
    hide AfterAll, Carries, Delivers, CanonFiles, OneTarget, Safe, TargetFile, GitRemote.Next;
    GitRemote.OneUndisturbed(paths, r, w, edits);
    RunConverges(paths, GitRemote.Head(r.log), edits, t);
    GitRemote.UnstagedKept(paths, GitRemote.Head(r.log), edits);
    var q := AfterRound(paths, r, w, edits);
    assert |q.log| == |r.log| ==> q.log == r.log;
  }

  // ---- The rounds of all workloads ----------------------------------------------

  // A reconcile that finds edits to make on a branch there is.
  ghost predicate Turn(s: State, step: Step)
  {
    && step.Reconcile? && step.name in s.workloads
    && PlaceOf(s.workloads[step.name].pod.annotations) in s.remotes
    && Asks(s, step, PlaceOf(s.workloads[step.name].pod.annotations), step.edits)
  }

  ghost function PlaceFor(s: State, step: Step): (place: Place)
    requires Turn(s, step)
    ensures place in s.remotes
  {
    PlaceOf(s.workloads[step.name].pod.annotations)
  }

  ghost function TargetFor(s: State, step: Step): Target
    requires Turn(s, step)
  {
    GitTarget(s.workloads[step.name].pod.annotations).value
  }

  // Each of these reconciles followed by its push.
  ghost function Rounds(s: State, turns: seq<Step>): seq<Step>
    requires forall i | 0 <= i < |turns| :: Turn(s, turns[i])
    decreases |turns|
  {
    if turns == [] then []
    else
      var last := turns[|turns| - 1];
      Rounds(s, turns[..|turns| - 1]) + [last, Push(PlaceFor(s, last), last.worker)]
  }

  ghost predicate Started(paths: Paths, s: State)
  {
    forall place | place in s.remotes :: s.remotes[place].log != [] && GitRemote.Settled(paths, s.remotes[place])
  }

  // The edits of every turn are safe, and two turns on one branch edit different files.
  ghost predicate Compatible(paths: Paths, s: State, turns: seq<Step>)
    requires Started(paths, s)
  {
    && (forall i | 0 <= i < |turns| ::
          && Turn(s, turns[i])
          && SafeEdits(paths, GitRemote.Head(s.remotes[PlaceFor(s, turns[i])].log), turns[i].edits, TargetFor(s, turns[i])))
    && (forall i, j | 0 <= i < |turns| && 0 <= j < |turns| && i != j && PlaceFor(s, turns[i]) == PlaceFor(s, turns[j]) ::
          ApartFiles(paths, GitRemote.Head(s.remotes[PlaceFor(s, turns[i])].log), TargetFor(s, turns[i]), TargetFor(s, turns[j])))
  }

  // Branches move, nothing else does.
  ghost predicate OnlyBranches(paths: Paths, s: State, t: State)
    requires Started(paths, s)
  {
    && t.policies == s.policies && t.workloads == s.workloads && t.remotes.Keys == s.remotes.Keys
    && Started(paths, t)
    && forall place | place in s.remotes ::
         GitRemote.Head(t.remotes[place].log).Keys == GitRemote.Head(s.remotes[place].log).Keys
  }

  // What became of one turn's edits: all done, or their file still as it was.
  ghost predicate Delivered(paths: Paths, before: Files, after: Files, edits: seq<Edit>)
  {
    Carries(paths, after, edits) && Delivers(paths, before, after, edits)
  }

  ghost predicate Midway(paths: Paths, s: State, t: State, turns: seq<Step>, k: nat)
    requires Started(paths, s) && Compatible(paths, s, turns) && OnlyBranches(paths, s, t)
  {
    forall i | 0 <= i < |turns| ::
      var place := PlaceFor(s, turns[i]);
      var before, after := GitRemote.Head(s.remotes[place].log), GitRemote.Head(t.remotes[place].log);
      if i < k then Delivered(paths, before, after, turns[i].edits)
      else SameSubject(paths, before, after, TargetFor(s, turns[i]))
  }

  // ---- One turn -----------------------------------------------------------------

  // A turn asks for the same whatever the branches have become.
  lemma TurnStays(s: State, t: State, turn: Step)
    requires Turn(s, turn) && t.policies == s.policies && t.workloads == s.workloads && t.remotes.Keys == s.remotes.Keys
    ensures Turn(t, turn) && PlaceFor(t, turn) == PlaceFor(s, turn) && TargetFor(t, turn) == TargetFor(s, turn)
  {
    hide IsEditList, GitTarget, WritesToGit, PlaceOf;
    SnapshotOf(s, t);
    assert PlaceOf(s.workloads[turn.name].pod.annotations) in t.remotes.Keys;
  }

  lemma OneTurn<V>(e: Engines<V>, paths: Paths, t: State, turn: Step)
    requires Turn(t, turn)
    ensures var place := PlaceFor(t, turn);
            Next(e, paths, Next(e, paths, t, turn), Push(place, turn.worker))
            == t.(remotes := t.remotes[place := AfterRound(paths, t.remotes[place], turn.worker, turn.edits)])
  {
    hide IsEditList, GitTarget, WritesToGit, GitRemote.Next, PlaceOf;
    var place, r := PlaceFor(t, turn), t.remotes[PlaceFor(t, turn)];
    var cloned := GitRemote.Next(paths, r, GitRemote.TakeClone(turn.worker, turn.edits));
    assert Next(e, paths, t, turn) == t.(remotes := t.remotes[place := cloned]);
    assert t.remotes[place := cloned][place := GitRemote.Next(paths, cloned, GitRemote.Push(turn.worker))]
        == t.remotes[place := GitRemote.Next(paths, cloned, GitRemote.Push(turn.worker))];
  }

  // The other turn of the same branch, after this one.
  lemma OtherTurnKept(paths: Paths, first: Files, before: Files, edits: seq<Edit>, t: Target,
                      others: seq<Edit>, o: Target, done: bool)
    requires CanonFiles(before) && CanonFiles(AfterAll(paths, before, edits))
    requires OneTarget(edits, t) && OneTarget(others, o)
    requires before.Keys == first.Keys && ApartFiles(paths, first, o, t)
    requires if done then Delivered(paths, first, before, others) else SameSubject(paths, first, before, o)
    ensures var after := AfterAll(paths, before, edits);
            if done then Delivered(paths, first, after, others) else SameSubject(paths, first, after, o)
  {
    hide AfterAll, CanonFiles, TargetFile, Fails, ShownIn, SafeEdits, OneTarget;
    var after := AfterAll(paths, before, edits);
    TargetByKeys(paths, first, before, t);
    TargetByKeys(paths, first, before, o);
    OtherFileKept(paths, before, edits, t, o);
    SubjectDecides(paths, before, after, others, o);
  }

  lemma TurnTarget(s: State, turn: Step)
    requires Turn(s, turn)
    ensures OneTarget(turn.edits, TargetFor(s, turn))
  {
    hide WritesToGit, GitTarget, PlaceOf, Wants;
    var w := s.workloads[turn.name];
    assert IsEditList(w.pod, Snapshot(s), w.mutable, TargetFor(s, turn), turn.edits);
  }

  // One more turn: its edits are delivered, and nobody else's are disturbed.
  lemma MidwayStep(paths: Paths, s: State, t: State, turns: seq<Step>, k: nat)
    requires k < |turns| && Started(paths, s) && Compatible(paths, s, turns)
    requires OnlyBranches(paths, s, t) && Midway(paths, s, t, turns, k)
    ensures var turn, place := turns[k], PlaceFor(s, turns[k]);
            var u := t.(remotes := t.remotes[place := AfterRound(paths, t.remotes[place], turn.worker, turn.edits)]);
            OnlyBranches(paths, s, u) && Midway(paths, s, u, turns, k + 1)
  {
    hide AfterRound, GitRemote.Settled, SafeEdits, SameSubject, Delivered, ApartFiles, AfterAll, CanonFiles,
         Asks, PlaceOf, GitTarget;
    var turn, place, target := turns[k], PlaceFor(s, turns[k]), TargetFor(s, turns[k]);
    var r := t.remotes[place];
    var q := AfterRound(paths, r, turn.worker, turn.edits);
    var u := t.(remotes := t.remotes[place := q]);
    var first, head := GitRemote.Head(s.remotes[place].log), GitRemote.Head(r.log);
    TurnTarget(s, turn);
    HeadCanon(paths, r);
    SubjectDecides(paths, first, head, turn.edits, target);
    RoundSettles(paths, r, turn.worker, turn.edits, target);
    HeadCanon(paths, q);
    assert OnlyBranches(paths, s, u);
    forall i | 0 <= i < |turns|
      ensures var at := PlaceFor(s, turns[i]);
              var before, after := GitRemote.Head(s.remotes[at].log), GitRemote.Head(u.remotes[at].log);
              if i < k + 1 then Delivered(paths, before, after, turns[i].edits)
              else SameSubject(paths, before, after, TargetFor(s, turns[i]))
    {
      if i == k {
        FirstDelivers(paths, first, head, GitRemote.Head(q.log), turn.edits, target);
      } else if PlaceFor(s, turns[i]) == place {
        TurnTarget(s, turns[i]);
        OtherTurnKept(paths, first, head, turn.edits, target, turns[i].edits, TargetFor(s, turns[i]), i < k);
      }
    }
  }

  lemma HeadCanon(paths: Paths, r: GitRemote.State)
    requires GitRemote.Settled(paths, r)
    ensures r.log != [] && CanonFiles(GitRemote.Head(r.log))
  {}

  lemma FirstDelivers(paths: Paths, first: Files, before: Files, after: Files, edits: seq<Edit>, t: Target)
    requires SameSubject(paths, first, before, t) && OneTarget(edits, t)
    requires Carries(paths, after, edits) && Delivers(paths, before, after, edits)
    ensures Delivered(paths, first, after, edits)
  {
    hide SameSubject, OneTarget, Fails, ShownIn, SafeEdits, CanonFiles;
    SubjectDecides(paths, first, before, edits, t);
  }

  // ---- All turns ----------------------------------------------------------------

  lemma {:induction false} RoundsMidway<V>(e: Engines<V>, paths: Paths, s: State, turns: seq<Step>, k: nat)
    requires k <= |turns| && Started(paths, s) && Compatible(paths, s, turns)
    ensures var t := Run(e, paths, s, Rounds(s, turns[..k]));
            OnlyBranches(paths, s, t) && Midway(paths, s, t, turns, k)
  {
    if k == 0 {
      SameAsItself(paths, s, turns);
    } else {
      hide Run, Next, OnlyBranches, Midway, Compatible, AfterRound, Asks, PlaceOf;
      RoundsMidway(e, paths, s, turns, k - 1);
      var t := Run(e, paths, s, Rounds(s, turns[..k - 1]));
      RoundsOneMore(e, paths, s, turns, k);
      BranchesOnly(paths, s, t);
      CompatibleTurns(paths, s, turns, k - 1);
      TurnStays(s, t, turns[k - 1]);
      OneTurn(e, paths, t, turns[k - 1]);
      MidwayStep(paths, s, t, turns, k - 1);
    }
  }

  lemma BranchesOnly(paths: Paths, s: State, t: State)
    requires Started(paths, s) && OnlyBranches(paths, s, t)
    ensures t.policies == s.policies && t.workloads == s.workloads && t.remotes.Keys == s.remotes.Keys
  {}

  lemma CompatibleTurns(paths: Paths, s: State, turns: seq<Step>, k: nat)
    requires Started(paths, s) && Compatible(paths, s, turns) && k < |turns|
    ensures Turn(s, turns[k])
  {}

  lemma SameAsItself(paths: Paths, s: State, turns: seq<Step>)
    requires Started(paths, s) && Compatible(paths, s, turns)
    ensures OnlyBranches(paths, s, s) && Midway(paths, s, s, turns, 0)
  {
    hide GitRemote.Settled, TargetFile, Asks, PlaceOf, GitTarget, SafeEdits, ApartFiles;
  }

  lemma RoundsOneMore<V>(e: Engines<V>, paths: Paths, s: State, turns: seq<Step>, k: nat)
    requires 0 < k <= |turns| && forall i | 0 <= i < |turns| :: Turn(s, turns[i])
    ensures Run(e, paths, s, Rounds(s, turns[..k]))
         == Next(e, paths, Next(e, paths, Run(e, paths, s, Rounds(s, turns[..k - 1])), turns[k - 1]),
                 Push(PlaceFor(s, turns[k - 1]), turns[k - 1].worker))
  {
    hide Next, Asks, PlaceOf;
    var last := turns[k - 1];
    var rest, push := Rounds(s, turns[..k - 1]), Push(PlaceFor(s, last), last.worker);
    assert turns[..k][..k - 1] == turns[..k - 1];
    var steps := rest + [last, push];
    assert Rounds(s, turns[..k]) == steps;
    assert steps[..|steps| - 1] == rest + [last];
    assert (rest + [last])[..|rest|] == rest;
    RunOneMore(e, paths, s, steps);
    RunOneMore(e, paths, s, rest + [last]);
  }

  // Some container of this Git workload has an image to write to a branch there is.
  ghost predicate AwaitsGit(s: State, name: string)
    requires name in s.workloads
  {
    var w := s.workloads[name];
    var a := w.pod.annotations;
    WritesToGit(a) && GitTarget(a).Some? && PlaceOf(a) in s.remotes && exists n :: Wants(w.pod, Snapshot(s), w.mutable, n).Some?
  }

  // One undisturbed round for each workload that awaits Git, in any order, ends where no
  // reconcile and no push adds a commit any more; every edit that could be made is made.
  lemma RoundsSettleGit<V>(e: Engines<V>, paths: Paths, s: State, turns: seq<Step>)
    requires Started(paths, s) && Compatible(paths, s, turns)
    requires forall name | name in s.workloads && AwaitsGit(s, name) :: exists i :: 0 <= i < |turns| && turns[i].name == name
    ensures var t := Run(e, paths, s, Rounds(s, turns));
            && t.policies == s.policies && t.workloads == s.workloads && t.remotes.Keys == s.remotes.Keys
            && GitSettled(paths, t)
            && forall i | 0 <= i < |turns| ::
                 var place := PlaceFor(s, turns[i]);
                 t.remotes[place].log != []
                 && Delivers(paths, GitRemote.Head(s.remotes[place].log), GitRemote.Head(t.remotes[place].log), turns[i].edits)
  {
    hide Run, Rounds, Delivers, Carries, GitRemote.Settled, SameSubject, SafeEdits, ApartFiles, Asks, PlaceOf, AwaitsGit,
         HeadCarries;
    RoundsMidway(e, paths, s, turns, |turns|);
    assert turns[..|turns|] == turns;
    var t := Run(e, paths, s, Rounds(s, turns));
    forall name | name in t.workloads
      ensures HeadCarries(paths, t, name)
    {
      if AwaitsGit(s, name) {
        var i :| 0 <= i < |turns| && turns[i].name == name;
        TurnStays(s, t, turns[i]);
        CarriedHead(paths, t, turns[i]);
      } else {
        NothingAwaited(paths, s, t, name);
      }
    }
    forall place | place in t.remotes
      ensures t.remotes[place].log != []
    {
      HeadCanon(paths, t.remotes[place]);
    }
  }

  lemma CarriedHead(paths: Paths, t: State, turn: Step)
    requires Turn(t, turn) && t.remotes[PlaceFor(t, turn)].log != []
    requires Carries(paths, GitRemote.Head(t.remotes[PlaceFor(t, turn)].log), turn.edits)
    ensures HeadCarries(paths, t, turn.name)
  {
    hide Wants, Fails, ShownIn, WritesToGit, GitTarget, PlaceOf, EditFor;
  }

  lemma NothingAwaited(paths: Paths, s: State, t: State, name: string)
    requires name in s.workloads && !AwaitsGit(s, name)
    requires t.policies == s.policies && t.workloads == s.workloads && t.remotes.Keys == s.remotes.Keys
    ensures HeadCarries(paths, t, name)
  {
    hide Wants, Fails, ShownIn, WritesToGit, GitTarget, PlaceOf, EditFor;
    SnapshotOf(s, t);
    var place := PlaceOf(s.workloads[name].pod.annotations);
    assert place in t.remotes <==> place in s.remotes.Keys;
  }
}
