// The write-back protocol against a branch that others push to as well:
// internal/controller/workload_controller.go:206-281, internal/gitwriteback/git.go:92-146.
module GitRemote {
  import opened Text
  import opened YamlTree
  import opened YamlPath
  import opened YamlFile
  import opened HelmTarget
  import opened YamlWrites
  import opened GitWriteBack

  datatype Author = Foreign | Operator(edits: seq<Edit>)

  datatype Commit = Commit(files: Files, author: Author)

  // A shallow clone: how many commits the branch had, and what is to be written.
  datatype Clone = Clone(base: nat, edits: seq<Edit>)

  datatype State = State(log: seq<Commit>, clones: map<nat, Clone>)

  // Others push; a reconcile clones the head; a reconcile commits and pushes its clone.
  datatype Step = ForeignPush(files: Files) | TakeClone(worker: nat, edits: seq<Edit>) | Push(worker: nat)

  function Head(log: seq<Commit>): Files
    requires log != []
  {
    log[|log| - 1].files
  }

  // The commit of a clone: only staged paths differ from the cloned tree.
  function CommitOf(paths: Paths, base: Files, edits: seq<Edit>): Files
  {
    var after, staged := AfterAll(paths, base, edits), Staged(paths, base, edits);
    map p | p in base :: if p in staged && p in after then after[p] else base[p]
  }

  // A commit whose files are those of its parent, byte for byte, is refused. A push is not
  // forced: it only succeeds on top of the commit that was cloned. A step of a worker
  // without a clone does nothing.
  function Next(paths: Paths, s: State, step: Step): State
  {
    match step
    case ForeignPush(files) => s.(log := s.log + [Commit(files, Foreign)])
    case TakeClone(w, edits) => s.(clones := s.clones[w := Clone(|s.log|, edits)])
    case Push(w) =>
      if w !in s.clones || !(0 < s.clones[w].base <= |s.log|) then s
      else
        var c := s.clones[w];
        var base := s.log[c.base - 1].files;
        var rest := s.(clones := s.clones - {w});
        if Staged(paths, base, c.edits) == {} || CommitOf(paths, base, c.edits) == base || |s.log| != c.base then rest
        else rest.(log := s.log + [Commit(CommitOf(paths, base, c.edits), Operator(c.edits))])
  }

  function Run(paths: Paths, s: State, steps: seq<Step>): State
    decreases |steps|
  {
    if steps == [] then s else Run(paths, Next(paths, s, steps[0]), steps[1..])
  }

  // ---- What every run keeps -----------------------------------------------------

  // The paths that were not staged are as they were cloned, so staging them is enough.
  lemma {:induction false} UnstagedKept(paths: Paths, files: Files, edits: seq<Edit>)
    requires CanonFiles(files)
    ensures AfterAll(paths, files, edits).Keys == files.Keys && CanonFiles(AfterAll(paths, files, edits))
    ensures Staged(paths, files, edits) <= files.Keys
    ensures forall p | p in files && p !in Staged(paths, files, edits) ::
      AfterAll(paths, files, edits)[p] == files[p]
    decreases |edits|
  {
    hide EditFile, CanonFile;
    if edits != [] {
      AfterEditCanon(paths, files, edits[0]);
      var after := AfterEdit(paths, files, edits[0]);
      UnstagedKept(paths, after, edits[1..]);
      assert forall p | p in files && Some(p) != ChangedPath(paths, files, edits[0]) :: after[p] == files[p];
    }
  }

  lemma CommitIsWorkTree(paths: Paths, base: Files, edits: seq<Edit>)
    requires CanonFiles(base)
    ensures CommitOf(paths, base, edits) == AfterAll(paths, base, edits)
  {
    hide AfterAll, Staged, CanonFiles;
    UnstagedKept(paths, base, edits);
  }

  // Every operator commit is its parent with exactly its workload's edits applied, it was
  // made because some edit reported a change, and it differs from its parent.
  ghost predicate Faithful(paths: Paths, log: seq<Commit>, k: nat)
    requires k < |log|
  {
    log[k].author.Operator? ==>
      && k > 0
      && log[k].files == AfterAll(paths, log[k - 1].files, log[k].author.edits)
      && Staged(paths, log[k - 1].files, log[k].author.edits) != {}
      && log[k].files != log[k - 1].files
  }

  ghost predicate Invariant(paths: Paths, s: State)
  {
    && s.log != []
    && (forall k | 0 <= k < |s.log| :: CanonFiles(s.log[k].files) && Faithful(paths, s.log, k))
    && (forall w | w in s.clones :: 0 < s.clones[w].base <= |s.log|)
  }

  // What others push is, like everything, read through the parser.
  ghost predicate Readable(steps: seq<Step>)
  {
    forall i | 0 <= i < |steps| :: steps[i].ForeignPush? ==> CanonFiles(steps[i].files)
  }

  lemma FaithfulGrows(paths: Paths, log: seq<Commit>, c: Commit)
    requires forall k | 0 <= k < |log| :: Faithful(paths, log, k)
    requires Faithful(paths, log + [c], |log|)
    ensures forall k | 0 <= k < |log| + 1 :: Faithful(paths, log + [c], k)
  {
    hide AfterAll, Staged;
    forall k | 0 <= k < |log|
      ensures Faithful(paths, log + [c], k)
    {
      assert Faithful(paths, log, k);
      assert (log + [c])[k] == log[k] && (k > 0 ==> (log + [c])[k - 1] == log[k - 1]);
    }
  }

  lemma NextKeeps(paths: Paths, s: State, step: Step)
    requires Invariant(paths, s) && Readable([step])
    ensures Invariant(paths, Next(paths, s, step))
    ensures s.log <= Next(paths, s, step).log
  {
    hide AfterAll, Staged, CanonFiles, Faithful, CommitOf;
    assert [step][0] == step;
    var t := Next(paths, s, step);
    if |t.log| > |s.log| {
      var c := t.log[|s.log|];
      assert t.log == s.log + [c];
      if step.ForeignPush? {
        FaithfulForeign(paths, t.log, |s.log|);
      } else {
        var clone := s.clones[step.worker];
        var base := s.log[clone.base - 1].files;
        CommitIsWorkTree(paths, base, clone.edits);
        UnstagedKept(paths, base, clone.edits);
        FaithfulCommit(paths, t.log, |s.log|);
      }
      FaithfulGrows(paths, s.log, c);
    }
  }

  lemma FaithfulForeign(paths: Paths, log: seq<Commit>, k: nat)
    requires k < |log| && log[k].author.Foreign?
    ensures Faithful(paths, log, k)
  {}

  lemma FaithfulCommit(paths: Paths, log: seq<Commit>, k: nat)
    requires 0 < k < |log| && log[k].author.Operator?
    requires log[k].files == AfterAll(paths, log[k - 1].files, log[k].author.edits)
    requires Staged(paths, log[k - 1].files, log[k].author.edits) != {}
    requires log[k].files != log[k - 1].files
    ensures Faithful(paths, log, k)
  {}

  // Over any interleaving of clones, pushes and foreign commits: the history only grows,
  // and every operator commit in it stays faithful to its parent.
  lemma {:induction false} RunKeeps(paths: Paths, s: State, steps: seq<Step>)
    requires Invariant(paths, s) && Readable(steps)
    ensures Invariant(paths, Run(paths, s, steps))
    ensures s.log <= Run(paths, s, steps).log
    decreases |steps|
  {
    if steps != [] {
      hide Next, Invariant;
      assert Readable([steps[0]]) && Readable(steps[1..]) by {
        assert forall i | 0 <= i < |steps[1..]| :: steps[1..][i] == steps[i + 1];
      }
      NextKeeps(paths, s, steps[0]);
      RunKeeps(paths, Next(paths, s, steps[0]), steps[1..]);
    }
  }

  // A branch the operator has not touched is a start for all of this.
  lemma ForeignBranch(paths: Paths, log: seq<Commit>)
    requires log != [] && forall k | 0 <= k < |log| :: log[k].author.Foreign? && CanonFiles(log[k].files)
    ensures Invariant(paths, State(log, map[])) && Settled(paths, State(log, map[]))
  {
    hide CanonFiles, AfterAll, Staged;
  }

  // ---- What an operator commit does ---------------------------------------------

  // Every operator commit a run made, whatever its edits, differs from its parent and came
  // of some edit that reported a change.
  lemma OperatorCommitDiffers(paths: Paths, s: State, steps: seq<Step>, k: nat)
    requires Invariant(paths, s) && Readable(steps)
    requires k < |Run(paths, s, steps).log| && Run(paths, s, steps).log[k].author.Operator?
    ensures var log := Run(paths, s, steps).log;
            && k > 0 && log[k].files != log[k - 1].files
            && log[k].files.Keys == log[k - 1].files.Keys
            && !Carries(paths, log[k - 1].files, log[k].author.edits)
  {
    hide Run, AfterAll, Staged, Carries, CanonFiles;
    RunKeeps(paths, s, steps);
    var log := Run(paths, s, steps).log;
    assert Faithful(paths, log, k);
    var parent, edits := log[k - 1].files, log[k].author.edits;
    UnstagedKept(paths, parent, edits);
    StagedUnlessCarried(paths, parent, edits);
  }

  // Where its edits are safe on the parent, it differs in the target's file and nowhere
  // else, and it shows every edit that could be made on the parent.
  lemma OperatorCommit(paths: Paths, s: State, steps: seq<Step>, k: nat, t: Target)
    requires Invariant(paths, s) && Readable(steps)
    requires var log := Run(paths, s, steps).log;
             k < |log| && log[k].author.Operator?
             && (k > 0 ==> SafeEdits(paths, log[k - 1].files, log[k].author.edits, t))
    ensures var log := Run(paths, s, steps).log;
            && k > 0 && log[k].files != log[k - 1].files
            && log[k].files.Keys == log[k - 1].files.Keys
            && (forall p | p in log[k].files && Some(p) != TargetFile(paths, log[k - 1].files, t) ::
                  log[k].files[p] == log[k - 1].files[p])
            && Delivers(paths, log[k - 1].files, log[k].files, log[k].author.edits)
  {
    hide Run, AfterAll, Staged, Carries, Delivers, TargetFile, Safe, CanonFiles, OneTarget;
    RunKeeps(paths, s, steps);
    var log := Run(paths, s, steps).log;
    assert Faithful(paths, log, k);
    var parent, edits := log[k - 1].files, log[k].author.edits;
    RunConverges(paths, parent, edits, t);
    RunOnOneFile(paths, parent, edits, t);
  }

  // ---- Convergence --------------------------------------------------------------

  // The head carries the edits of every clone that could still be pushed.
  ghost predicate Settled(paths: Paths, s: State)
  {
    && s.log != [] && CanonFiles(Head(s.log))
    && forall w | w in s.clones ::
         0 < s.clones[w].base <= |s.log|
         && (s.clones[w].base == |s.log| ==> Carries(paths, Head(s.log), s.clones[w].edits))
  }

  // Reconciles, of any workloads whose edits the head carries already; nobody else pushes.
  ghost predicate Reconciles(paths: Paths, head: Files, steps: seq<Step>)
  {
    forall i | 0 <= i < |steps| ::
      !steps[i].ForeignPush? && (steps[i].TakeClone? ==> Carries(paths, head, steps[i].edits))
  }

  // Once the head carries the selections, no later reconcile adds a commit, however the
  // reconciles of different workloads interleave.
  lemma {:induction false} NoFurtherCommit(paths: Paths, s: State, steps: seq<Step>)
    requires Settled(paths, s) && Reconciles(paths, Head(s.log), steps)
    ensures Run(paths, s, steps).log == s.log && Settled(paths, Run(paths, s, steps))
    decreases |steps|
  {
    if steps != [] {
      hide Carries, AfterAll, Staged, CommitOf, CanonFiles;
      var t := Next(paths, s, steps[0]);
      if steps[0].Push? && steps[0].worker in s.clones {
        var c := s.clones[steps[0].worker];
        if c.base == |s.log| { StagedUnlessCarried(paths, Head(s.log), c.edits); }
      }
      assert t.log == s.log && Settled(paths, t);
      assert forall i | 0 <= i < |steps[1..]| :: steps[1..][i] == steps[i + 1];
      NoFurtherCommit(paths, t, steps[1..]);
    }
  }

  // One undisturbed reconcile is enough: afterwards the head shows every edit that could
  // be made, and a commit was added exactly if it did not carry them before.
  lemma OneRoundConverges(paths: Paths, s: State, w: nat, edits: seq<Edit>, t: Target)
    requires Invariant(paths, s) && SafeEdits(paths, Head(s.log), edits, t)
    ensures var after := Run(paths, s, [TakeClone(w, edits), Push(w)]);
            && after.log != [] && SafeEdits(paths, Head(after.log), edits, t)
            && Carries(paths, Head(after.log), edits)
            && Delivers(paths, Head(s.log), Head(after.log), edits)
            && (|after.log| == |s.log| <==> Carries(paths, Head(s.log), edits))
  {
    hide AfterAll, Staged, CommitOf, SafeEdits, Carries, Delivers, CanonFiles, Faithful;
    var cloned := Next(paths, s, TakeClone(w, edits));
    var pushed := Next(paths, cloned, Push(w));
    assert [TakeClone(w, edits), Push(w)][1..] == [Push(w)] && [Push(w)][1..] == [];
    assert Run(paths, s, [TakeClone(w, edits), Push(w)]) == Run(paths, cloned, [Push(w)]);
    assert Run(paths, cloned, [Push(w)]) == Run(paths, pushed, []) == pushed;
    var head := Head(s.log);
    CommitIsWorkTree(paths, head, edits);
    RunConverges(paths, head, edits, t);
    StagedUnlessCarried(paths, head, edits);
  }

  // ---- The code, with others pushing in between ---------------------------------

  datatype Outcome = NothingToCommit | CommitRefused | PushRejected | Committed

  function ForeignCommits(pushed: seq<Files>): (r: seq<Commit>)
    ensures |r| == |pushed|
  {
    seq(|pushed|, i requires 0 <= i < |pushed| => Commit(pushed[i], Foreign))
  }

  // One reconcile in the machine: a clone, what others push meanwhile, and the push.
  function OneReconcile(w: nat, edits: seq<Edit>, meanwhile: seq<Files>): seq<Step>
  {
    [TakeClone(w, edits)] + ForeignPushes(meanwhile) + [Push(w)]
  }

  class Branch {
    var log: seq<Commit>

    constructor (log: seq<Commit>)
      ensures this.log == log
    {
      this.log := log;
    }

    // Clone, edit, commit, push; meanwhile is what others push after the clone was taken.
    method WriteBackGit(paths: Paths, edits: seq<Edit>, meanwhile: seq<Files>) returns (r: Outcome)
      requires log != [] && CanonFiles(Head(log))
      modifies this
      ensures var head := Head(old(log));
              r == if Staged(paths, head, edits) == {} then NothingToCommit
                   else if AfterAll(paths, head, edits) == head then CommitRefused
                   else if meanwhile != [] then PushRejected
                   else Committed
      ensures log == old(log) + ForeignCommits(meanwhile)
                     + if r == Committed then [Commit(AfterAll(paths, Head(old(log)), edits), Operator(edits))] else []
      ensures log == Run(paths, State(old(log), map[]), OneReconcile(0, edits, meanwhile)).log
    {
      hide AfterAll, Staged, CanonFiles, Run, CommitOf;
      var base, cloned := Head(log), |log|;
      ReconcileIs(paths, log, edits, meanwhile);
      CommitIsWorkTree(paths, base, edits);
      var tree := new WorkTree(base);
      var staged := tree.ApplyAll(paths, edits);
      log := log + ForeignCommits(meanwhile);
      if staged == {} {
        return NothingToCommit;
      }
      var after := tree.files;
      var commit := map p | p in base :: if p in staged && p in after then after[p] else base[p];
      CommitIs(paths, base, edits, commit);
      if commit == base {
        return CommitRefused;
      }
      if |log| != cloned {
        return PushRejected;
      }
      log := log + [Commit(commit, Operator(edits))];
      return Committed;
    }
  }

  lemma CommitIs(paths: Paths, base: Files, edits: seq<Edit>, commit: Files)
    requires commit == map p | p in base ::
      if p in Staged(paths, base, edits) && p in AfterAll(paths, base, edits) then AfterAll(paths, base, edits)[p] else base[p]
    ensures commit == CommitOf(paths, base, edits)
  {}

  lemma {:induction false} RunConcat(paths: Paths, s: State, a: seq<Step>, b: seq<Step>)
    ensures Run(paths, s, a + b) == Run(paths, Run(paths, s, a), b)
    decreases |a|
  {
    hide Next;
    if a == [] {
      assert a + b == b;
    } else {
      assert (a + b)[0] == a[0] && (a + b)[1..] == a[1..] + b;
      RunConcat(paths, Next(paths, s, a[0]), a[1..], b);
    }
  }

  function ForeignPushes(pushed: seq<Files>): (r: seq<Step>)
    ensures |r| == |pushed|
  {
    seq(|pushed|, i requires 0 <= i < |pushed| => ForeignPush(pushed[i]))
  }

  lemma {:induction false} OthersPush(paths: Paths, s: State, pushed: seq<Files>)
    ensures Run(paths, s, ForeignPushes(pushed)) == s.(log := s.log + ForeignCommits(pushed))
    decreases |pushed|
  {
    hide CommitOf, Staged;
    if pushed == [] {
      assert s.log + ForeignCommits(pushed) == s.log;
    } else {
      var s1 := Next(paths, s, ForeignPush(pushed[0]));
      OthersPush(paths, s1, pushed[1..]);
      assert ForeignPushes(pushed)[1..] == ForeignPushes(pushed[1..]);
      assert s1.log + ForeignCommits(pushed[1..]) == s.log + ForeignCommits(pushed);
    }
  }

  // What such a reconcile does to the log of the machine.
  lemma ReconcileIs(paths: Paths, log: seq<Commit>, edits: seq<Edit>, meanwhile: seq<Files>)
    requires log != []
    ensures var head := Head(log);
            Run(paths, State(log, map[]), OneReconcile(0, edits, meanwhile)).log
            == log + ForeignCommits(meanwhile)
               + if Staged(paths, head, edits) != {} && CommitOf(paths, head, edits) != head && meanwhile == []
                 then [Commit(CommitOf(paths, head, edits), Operator(edits))] else []
  {
    hide CommitOf, Staged, Run;
    var s := State(log, map[]);
    var cloned := Next(paths, s, TakeClone(0, edits));
    assert OneReconcile(0, edits, meanwhile) == [TakeClone(0, edits)] + (ForeignPushes(meanwhile) + [Push(0)]);
    RunConcat(paths, s, [TakeClone(0, edits)], ForeignPushes(meanwhile) + [Push(0)]);
    RunConcat(paths, cloned, ForeignPushes(meanwhile), [Push(0)]);
    RunOne(paths, s, TakeClone(0, edits));
    OthersPush(paths, cloned, meanwhile);
    var pushed := cloned.(log := log + ForeignCommits(meanwhile));
    RunOne(paths, pushed, Push(0));
    assert pushed.log[|log| - 1] == log[|log| - 1];
    assert meanwhile == [] ==> pushed.log == log;
  }

  lemma RunOne(paths: Paths, s: State, step: Step)
    ensures Run(paths, s, [step]) == Next(paths, s, step)
  {
    hide Next;
    assert Run(paths, s, [step]) == Run(paths, Next(paths, s, step), []);
  }

  // ---- Where the guard is needed ------------------------------------------------

  // The smallest values file whose "image" key is a mapping, as a first edit left it.
  function MappingLeaf(): Tree { Tree(Mapping, STR, "", []) }

  function MappingFile(): File { File([Doc(Tree(Mapping, MAP, "", [Str("image"), MappingLeaf()]))], false, true) }

  lemma MappingFileIsCanon()
    ensures CanonFile(MappingFile())
  {
    var root := Tree(Mapping, MAP, "", [Str("image"), MappingLeaf()]);
    assert IsCanon(MappingLeaf()) && IsCanon(Str("image"));
    assert IsCanon(root);
    assert IsCanon(Doc(root));
  }

  lemma MappingLeafPut()
    ensures var root := Tree(Mapping, MAP, "", [Str("image"), MappingLeaf()]);
            Put(root, ["image"], "1")
            == Done(root.(content := [Str("image"), MappingLeaf().(value := "1")]), true)
  {
    var root := Tree(Mapping, MAP, "", [Str("image"), MappingLeaf()]);
    assert KeyFrom(root.content, "image", 0) == Some(1);
    assert root.content[1 := MappingLeaf().(value := "1")] == [Str("image"), MappingLeaf().(value := "1")];
  }

  lemma MappingLeafLost()
    ensures var root := Tree(Mapping, MAP, "", [Str("image"), MappingLeaf()]);
            Canon(root.(content := [Str("image"), MappingLeaf().(value := "1")])) == root
  {
    var root := Tree(Mapping, MAP, "", [Str("image"), MappingLeaf()]);
    var t := root.(content := [Str("image"), MappingLeaf().(value := "1")]);
    assert Canon(Str("image")) == Str("image");
    assert Canon(MappingLeaf().(value := "1")) == MappingLeaf();
    assert Canon(t).content == root.content;
  }

  lemma MappingLeafEdit()
    ensures SplitDots("image") == ["image"]
    ensures Helm(MappingFile(), "r", "1", "", "image") == Edited(MappingFile(), true)
  {
    var root := Tree(Mapping, MAP, "", [Str("image"), MappingLeaf()]);
    hide Put, Canon;
    assert HelmWrites("r", "1", "", "image") == [Write(["image"], "1")];
    MappingLeafPut();
    MappingLeafLost();
    PutAllStep(root, [Write(["image"], "1")]);
    CanonOfDoc(Put(root, ["image"], "1").tree);
  }

  // The edit reports a change and writes the file that is there already.
  predicate Stuck(paths: Paths, files: Files, e: Edit)
  {
    var path := ChangedPath(paths, files, e);
    path.Some? && path.value in files && EditFile(files[path.value], e).file == files[path.value]
  }

  lemma StuckCommit(paths: Paths, files: Files, e: Edit)
    requires Stuck(paths, files, e)
    ensures Staged(paths, files, [e]) != {} && AfterAll(paths, files, [e]) == files && CommitOf(paths, files, [e]) == files
  {
    hide EditFile;
    assert [e][1..] == [];
    assert AfterEdit(paths, files, e) == files;
  }

  // The same reconcile over and over, with nobody else pushing.
  function Rounds(w: nat, edits: seq<Edit>, n: nat): seq<Step>
  {
    if n == 0 then [] else [TakeClone(w, edits), Push(w)] + Rounds(w, edits, n - 1)
  }

  lemma RoundsUnfold(paths: Paths, s: State, w: nat, edits: seq<Edit>, n: nat)
    requires n > 0
    ensures Run(paths, s, Rounds(w, edits, n))
         == Run(paths, Next(paths, Next(paths, s, TakeClone(w, edits)), Push(w)), Rounds(w, edits, n - 1))
  {
    hide Next;
    RunConcat(paths, s, [TakeClone(w, edits), Push(w)], Rounds(w, edits, n - 1));
    assert [TakeClone(w, edits), Push(w)] == [TakeClone(w, edits)] + [Push(w)];
    RunConcat(paths, s, [TakeClone(w, edits)], [Push(w)]);
    RunOne(paths, s, TakeClone(w, edits));
    RunOne(paths, Next(paths, s, TakeClone(w, edits)), Push(w));
  }

  // Rounds whose commit is refused leave the branch alone.
  lemma {:induction false} RefusedForever(paths: Paths, s: State, w: nat, edits: seq<Edit>, n: nat)
    requires s.log != [] && CommitOf(paths, Head(s.log), edits) == Head(s.log)
    ensures Run(paths, s, Rounds(w, edits, n)).log == s.log
    decreases n
  {
    hide Staged, CommitOf;
    if n > 0 {
      RoundsUnfold(paths, s, w, edits, n);
      hide Run, Rounds;
      RefusedForever(paths, Next(paths, Next(paths, s, TakeClone(w, edits)), Push(w)), w, edits, n - 1);
    }
  }

  // One undisturbed round: the head is the old one with the edits applied, and there is at
  // most one more commit.
  lemma OneUndisturbed(paths: Paths, s: State, w: nat, edits: seq<Edit>)
    requires s.log != [] && CanonFiles(Head(s.log))
    ensures var t := Next(paths, Next(paths, s, TakeClone(w, edits)), Push(w));
            && t.clones == s.clones - {w}
            && s.log <= t.log && |t.log| <= |s.log| + 1
            && t.log != [] && Head(t.log) == AfterAll(paths, Head(s.log), edits)
  {
    hide AfterAll, Staged, CommitOf, CanonFiles;
    CommitIsWorkTree(paths, Head(s.log), edits);
    UnstagedKept(paths, Head(s.log), edits);
    if Staged(paths, Head(s.log), edits) == {} {
      StagedUnlessCarried(paths, Head(s.log), edits);
    }
  }

  // The edit sets the tag alone, at a key that leads to a mapping or a list.
  ghost predicate Unguarded(paths: Paths, files: Files, e: Edit)
  {
    && CanonFiles(files) && e.target.kind == ToHelm && e.helmNameKey == "" && e.tag != ""
    && Subject(paths, files, e).Some?
    && var f := files[Subject(paths, files, e).value];
       && EditFile(f, e).Edited?
       && NoAlias(ParseDoc(f).root, SplitDots(e.helmTagKey))
       && !WritesScalar(ParseDoc(f).root, SplitDots(e.helmTagKey))
  }

  lemma UnguardedGetsStuck(paths: Paths, files: Files, e: Edit)
    requires Unguarded(paths, files, e)
    ensures CanonFiles(files)
    ensures ChangedPath(paths, files, e).Some? && Stuck(paths, AfterEdit(paths, files, e), e)
  {
    hide Helm, NoAlias, WritesScalar, SplitDots, CanonFile, ParseDoc;
    var path := Subject(paths, files, e);
    var f := files[path.value];
    UnguardedChanges(f, e.repository, e.tag, e.helmTagKey);
    TagOnlySettlesIff(f, e.repository, e.tag, e.helmTagKey);
    SubjectStable(paths, files, e, e);
  }

  // Such an edit never becomes idle: there is something to stage in every one of any number
  // of undisturbed rounds, yet all of them together add at most one commit.
  lemma TagOnlyNeverIdle(paths: Paths, s: State, w: nat, e: Edit, n: nat)
    requires s.log != [] && Unguarded(paths, Head(s.log), e)
    ensures var log := Run(paths, s, Rounds(w, [e], n)).log;
            && s.log <= log && |log| <= |s.log| + 1
            && Staged(paths, Head(log), [e]) != {}
  {
    hide *;
    if n == 0 {
      UnguardedGetsStuck(paths, Head(s.log), e);
      StagesOne(paths, Head(s.log), e);
      NoRounds(paths, s, w, [e]);
    } else {
      FirstRound(paths, s, w, e);
      RoundsUnfold(paths, s, w, [e], n);
      StuckRounds(paths, Next(paths, Next(paths, s, TakeClone(w, [e])), Push(w)), w, e, n - 1);
    }
  }

  lemma FirstRound(paths: Paths, s: State, w: nat, e: Edit)
    requires s.log != [] && Unguarded(paths, Head(s.log), e)
    ensures var t := Next(paths, Next(paths, s, TakeClone(w, [e])), Push(w));
            t.log != [] && Stuck(paths, Head(t.log), e) && s.log <= t.log && |t.log| <= |s.log| + 1
  {
    hide *;
    UnguardedGetsStuck(paths, Head(s.log), e);
    StagesOne(paths, Head(s.log), e);
    OneUndisturbed(paths, s, w, [e]);
  }

  lemma StuckRounds(paths: Paths, s: State, w: nat, e: Edit, n: nat)
    requires s.log != [] && Stuck(paths, Head(s.log), e)
    ensures Run(paths, s, Rounds(w, [e], n)).log == s.log && Staged(paths, Head(s.log), [e]) != {}
  {
    hide *;
    StuckCommit(paths, Head(s.log), e);
    RefusedForever(paths, s, w, [e], n);
  }

  lemma NoRounds(paths: Paths, s: State, w: nat, edits: seq<Edit>)
    ensures Run(paths, s, Rounds(w, edits, 0)) == s
  {}

  lemma StagesOne(paths: Paths, files: Files, e: Edit)
    requires ChangedPath(paths, files, e).Some?
    ensures Staged(paths, files, [e]) != {} && AfterAll(paths, files, [e]) == AfterEdit(paths, files, e)
  {
    hide ChangedPath;
    assert [e][1..] == [];
    assert ChangedPath(paths, files, e).value in Staged(paths, files, [e]);
  }

  // The smallest case, in a file the encoder wrote: something to stage in every round, and
  // no commit ever.
  lemma MappingLeafNeverSettles()
    ensures exists paths: Paths, files: Files, e: Edit ::
      CanonFiles(files) && Staged(paths, files, [e]) != {}
      && forall n: nat :: Run(paths, State([Commit(files, Foreign)], map[]), Rounds(0, [e], n)).log == [Commit(files, Foreign)]
  {
    var paths := Paths((p: string) => Some(p), (d: string, n: string) => n);
    var files: Files := map["v" := MappingFile()];
    var e := Edit(Target(ToHelm, "v"), "r", "1", "c", "", "image");
    hide Helm, MappingFile, CanonFile;
    MappingLeafEdit();
    MappingFileIsCanon();
    assert EditFile(MappingFile(), e) == Edited(MappingFile(), true);
    assert ChangedPath(paths, files, e) == Some("v");
    StuckCommit(paths, files, e);
    hide Staged, CommitOf, Run, Rounds;
    forall n: nat
      ensures Run(paths, State([Commit(files, Foreign)], map[]), Rounds(0, [e], n)).log == [Commit(files, Foreign)]
    {
      RefusedForever(paths, State([Commit(files, Foreign)], map[]), 0, [e], n);
    }
  }
}
