// The ImagePolicy scan loop and the status it keeps:
// internal/controller/imagepolicy_controller.go:76-194.
module PolicyStatus {
  import opened Text
  import opened TagPolicy
  import opened ImageRef

  const READY := "Ready"

  datatype Condition = Condition(name: string, status: bool, reason: string,
                                 observedGeneration: nat, lastTransition: int)

  datatype Status = Status(latestTag: string, latestImage: string, lastScan: Option<int>, scannedTags: nat,
                           observedGeneration: nat, conditions: seq<Condition>)

  datatype PolicySpec = PolicySpec(repository: string, rule: Spec, updateMode: string, suspend: bool)

  // What loading credentials and listing tags came to.
  datatype Scan = AuthFailed | ListFailed | Listed(tags: seq<string>)

  // ---- Conditions ---------------------------------------------------------------

  // Position of the first Ready condition at or after i.
  function ReadyFrom(cs: seq<Condition>, i: nat): (r: nat)
    requires i <= |cs|
    decreases |cs| - i
    ensures i <= r <= |cs|
    ensures r < |cs| ==> cs[r].name == READY
    ensures forall k | i <= k < r :: cs[k].name != READY
  {
    if i == |cs| || cs[i].name == READY then i else ReadyFrom(cs, i + 1)
  }

  // The Ready condition is replaced where it stands, or appended; its transition time is
  // kept when the status does not flip.
  function ReadySet(cs: seq<Condition>, status: bool, reason: string, generation: nat, now: int): seq<Condition>
  {
    var i := ReadyFrom(cs, 0);
    var latest := Condition(READY, status, reason, generation, now);
    if i == |cs| then cs + [latest]
    else cs[i := if cs[i].status == status then latest.(lastTransition := cs[i].lastTransition) else latest]
  }

  // The Ready condition, if there is one.
  function ReadyOf(cs: seq<Condition>): Option<Condition>
  {
    if ReadyFrom(cs, 0) < |cs| then Some(cs[ReadyFrom(cs, 0)]) else None
  }

  ghost predicate OneReady(cs: seq<Condition>)
  {
    forall i, j | 0 <= i < j < |cs| :: cs[i].name != READY || cs[j].name != READY
  }

  ghost predicate OthersKept(cs: seq<Condition>, ds: seq<Condition>)
  {
    && |cs| <= |ds|
    && (forall i | 0 <= i < |cs| && cs[i].name != READY :: ds[i] == cs[i])
    && (forall i | 0 <= i < |ds| && ds[i].name != READY :: i < |cs| && cs[i] == ds[i])
  }

  lemma ReadySetPlace(cs: seq<Condition>, status: bool, reason: string, generation: nat, now: int)
    ensures var ds := ReadySet(cs, status, reason, generation, now);
            |ds| > ReadyFrom(cs, 0) && ReadyFrom(ds, 0) == ReadyFrom(cs, 0)
  {
    var i, ds := ReadyFrom(cs, 0), ReadySet(cs, status, reason, generation, now);
    assert ds[i].name == READY;
    assert forall k | 0 <= k < i :: ds[k] == cs[k];
  }

  // At most one Ready condition, every other condition where it was, and a transition time
  // that moves exactly when the status flips.
  lemma ReadySetIs(cs: seq<Condition>, status: bool, reason: string, generation: nat, now: int)
    requires OneReady(cs)
    ensures var ds := ReadySet(cs, status, reason, generation, now);
            && OneReady(ds) && OthersKept(cs, ds)
            && ReadyOf(ds) == Some(Condition(READY, status, reason, generation,
                 if ReadyOf(cs).Some? && ReadyOf(cs).value.status == status then ReadyOf(cs).value.lastTransition else now))
  {
    ReadySetPlace(cs, status, reason, generation, now);
    var i := ReadyFrom(cs, 0);
    assert forall k | 0 <= k < i :: ReadySet(cs, status, reason, generation, now)[k] == cs[k];
  }

  // ---- One scan -----------------------------------------------------------------

  function Failure(s: Status, generation: nat, reason: string, now: int): Status
  {
    s.(conditions := ReadySet(s.conditions, false, reason, generation, now), observedGeneration := generation)
  }

  function Success(s: Status, spec: PolicySpec, generation: nat, selected: string, scanned: nat, now: int): Status
  {
    Status(selected, JoinImage(spec.repository, selected), Some(now), scanned, generation,
           ReadySet(s.conditions, true, "ScanSucceeded", generation, now))
  }

  // The tag a scan selects, when it selects one.
  function Chosen<V>(e: Engines<V>, spec: PolicySpec, scan: Scan): Option<string>
  {
    if scan.Listed? && Selected(e, scan.tags, spec.rule).Ok? && Selected(e, scan.tags, spec.rule).tag != ""
    then Some(Selected(e, scan.tags, spec.rule).tag) else None
  }

  function FailureReason<V>(e: Engines<V>, spec: PolicySpec, scan: Scan): string
  {
    match scan
    case AuthFailed => "AuthError"
    case ListFailed => "ScanError"
    case Listed(tags) => if Selected(e, tags, spec.rule).Err? then "PolicyError" else "NoMatch"
  }

  function StatusAfter<V>(e: Engines<V>, s: Status, spec: PolicySpec, generation: nat, scan: Scan, now: int): Status
  {
    var chosen := Chosen(e, spec, scan);
    if chosen.Some? then
      Success(s, spec, generation, chosen.value, |scan.tags|, now)
    else Failure(s, generation, FailureReason(e, spec, scan), now)
  }

  // The object a reconcile works on, read from the API server.
  class ImagePolicy {
    var spec: PolicySpec
    var generation: nat
    var latestTag: string
    var latestImage: string
    var lastScan: Option<int>
    var scannedTags: nat
    var observedGeneration: nat
    var conditions: seq<Condition>

    constructor (spec: PolicySpec, generation: nat, s: Status)
      ensures this.spec == spec && this.generation == generation && StatusOf() == s
    {
      this.spec, this.generation := spec, generation;
      latestTag, latestImage, lastScan := s.latestTag, s.latestImage, s.lastScan;
      scannedTags, observedGeneration, conditions := s.scannedTags, s.observedGeneration, s.conditions;
    }

    function StatusOf(): Status
      reads this
    {
      Status(latestTag, latestImage, lastScan, scannedTags, observedGeneration, conditions)
    }

    method SetReady(status: bool, reason: string, now: int)
      modifies this`conditions
      ensures conditions == ReadySet(old(conditions), status, reason, generation, now)
    {
      var cond := Condition(READY, status, reason, generation, now);
      var i := 0;
      while i < |conditions|
        invariant 0 <= i <= |conditions| && conditions == old(conditions)
        invariant ReadyFrom(conditions, 0) == ReadyFrom(conditions, i)
      {
        if conditions[i].name == READY {
          if conditions[i].status == status {
            cond := cond.(lastTransition := conditions[i].lastTransition);
          }
          conditions := conditions[i := cond];
          return;
        }
        i := i + 1;
      }
      conditions := conditions + [cond];
    }

    method Fail(reason: string, now: int)
      modifies this
      ensures spec == old(spec) && generation == old(generation)
      ensures StatusOf() == Failure(old(StatusOf()), generation, reason, now)
    {
      SetReady(false, reason, now);
      observedGeneration := generation;
    }

    // write says whether the status is sent to the API server.
    method Reconcile<V>(e: Engines<V>, scan: Scan, now: int) returns (write: bool)
      modifies this
      ensures spec == old(spec) && generation == old(generation)
      ensures write == !spec.suspend
      ensures StatusOf() == if spec.suspend then old(StatusOf())
                            else StatusAfter(e, old(StatusOf()), spec, generation, scan, now)
    {
      hide ReadySet, Selected;
      if spec.suspend {
        return false;
      }
      if scan.AuthFailed? {
        Fail("AuthError", now);
        return true;
      }
      if scan.ListFailed? {
        Fail("ScanError", now);
        return true;
      }
      var selected := Select(e, scan.tags, spec.rule);
      if selected.Err? {
        Fail("PolicyError", now);
        return true;
      }
      if selected.tag == "" {
        Fail("NoMatch", now);
        return true;
      }
      latestTag := selected.tag;
      latestImage := JoinImage(spec.repository, selected.tag);
      lastScan := Some(now);
      scannedTags := |scan.tags|;
      observedGeneration := generation;
      SetReady(true, "ScanSucceeded", now);
      return true;
    }
  }

  // ---- The API server and everyone who writes to it -----------------------------

  datatype Stored = Stored(spec: PolicySpec, generation: nat, version: nat, status: Status)

  // One scan that selected a tag and whose status was stored.
  datatype Record = Record(spec: PolicySpec, generation: nat, tags: seq<string>, selected: string)

  // One stored Ready status with its time.
  datatype Mark = Mark(ready: bool, time: int)

  // The object, the copies reconciles have read, and the history of stored statuses.
  datatype State = State(stored: Stored, copies: map<nat, Stored>, records: seq<Record>, marks: seq<Mark>)

  // A user edits the spec, perhaps in fields that are not modelled; someone touches metadata;
  // a reconcile reads, and later finishes its scan and updates the status.
  datatype Step = EditSpec(spec: PolicySpec) | Touch | Read(worker: nat) | Finish(worker: nat, scan: Scan, now: int)

  function Next<V>(e: Engines<V>, s: State, step: Step): State
  {
    var o := s.stored;
    match step
    case EditSpec(spec) =>
      s.(stored := o.(spec := spec, generation := o.generation + 1, version := o.version + 1))
    case Touch => s.(stored := o.(version := o.version + 1))
    case Read(w) => s.(copies := s.copies[w := o])
    case Finish(w, scan, now) =>
      if w !in s.copies then s
      else
        var c := s.copies[w];
        var rest := s.(copies := s.copies - {w});
        // A status update against another version than the stored one is refused.
        if c.spec.suspend || c.version != o.version then rest
        else
          var chosen := Chosen(e, c.spec, scan);
          State(o.(status := StatusAfter(e, c.status, c.spec, c.generation, scan, now), version := o.version + 1),
                rest.copies,
                if chosen.Some? && scan.Listed? then s.records + [Record(c.spec, c.generation, scan.tags, chosen.value)]
                else s.records,
                s.marks + [Mark(chosen.Some?, now)])
  }

  function Run<V>(e: Engines<V>, s: State, steps: seq<Step>): State
    decreases |steps|
  {
    if steps == [] then s else Run(e, Next(e, s, steps[0]), steps[1..])
  }

  function Created(spec: PolicySpec): State
  {
    State(Stored(spec, 1, 1, Status("", "", None, 0, 0, [])), map[], [], [])
  }

  // ---- The invariant ------------------------------------------------------------

  // The time of the last flip in a history of Ready statuses.
  function FlipTime(marks: seq<Mark>): int
    requires marks != []
    decreases |marks|
  {
    var n := |marks|;
    if n > 1 && marks[n - 1].ready == marks[n - 2].ready then FlipTime(marks[..n - 1]) else marks[n - 1].time
  }

  // The last good pair is that of the last scan that selected a tag.
  ghost predicate LastGood<V>(e: Engines<V>, o: Stored, records: seq<Record>)
  {
    if records == [] then o.status.latestTag == "" && o.status.latestImage == ""
    else
      var r := records[|records| - 1];
      && r.selected != "" && Selected(e, r.tags, r.spec.rule) == Ok(r.selected)
      && o.status.latestTag == r.selected
      && o.status.latestImage == JoinImage(r.spec.repository, r.selected)
      && r.generation <= o.generation && (r.generation == o.generation ==> r.spec == o.spec)
  }

  // There is at most one Ready condition; it shows the last stored status and the time of
  // its last flip; when it is true, the last good pair is from the observed generation.
  ghost predicate ReadyShows(o: Stored, records: seq<Record>, marks: seq<Mark>)
  {
    && OneReady(o.status.conditions)
    && o.status.observedGeneration <= o.generation
    && var ready := ReadyOf(o.status.conditions);
       && (ready.None? <==> marks == [])
       && (ready.Some? ==>
             && ready.value.status == marks[|marks| - 1].ready
             && ready.value.lastTransition == FlipTime(marks)
             && ready.value.observedGeneration == o.status.observedGeneration
             && (ready.value.status ==>
                   records != [] && records[|records| - 1].generation == o.status.observedGeneration))
  }

  ghost predicate Invariant<V>(e: Engines<V>, s: State)
  {
    && LastGood(e, s.stored, s.records)
    && ReadyShows(s.stored, s.records, s.marks)
    && (forall w | w in s.copies :: s.copies[w].version <= s.stored.version)
    && (forall w | w in s.copies && s.copies[w].version == s.stored.version :: s.copies[w] == s.stored)
  }

  lemma FlipTimeGrows(marks: seq<Mark>, m: Mark)
    ensures FlipTime(marks + [m])
         == if marks != [] && marks[|marks| - 1].ready == m.ready then FlipTime(marks) else m.time
  {
    assert (marks + [m])[..|marks|] == marks;
  }

  lemma FinishKeeps<V>(e: Engines<V>, s: State, scan: Scan, now: int)
    requires LastGood(e, s.stored, s.records) && ReadyShows(s.stored, s.records, s.marks)
    ensures var o, chosen := s.stored, Chosen(e, s.stored.spec, scan);
            var after := o.(status := StatusAfter(e, o.status, o.spec, o.generation, scan, now), version := o.version + 1);
            var records := if chosen.Some? && scan.Listed?
                           then s.records + [Record(o.spec, o.generation, scan.tags, chosen.value)] else s.records;
            LastGood(e, after, records) && ReadyShows(after, records, s.marks + [Mark(chosen.Some?, now)])
  {
    hide Selected, ReadySet, ReadyOf, OneReady, JoinImage;
    var o, chosen := s.stored, Chosen(e, s.stored.spec, scan);
    var reason := if chosen.Some? then "ScanSucceeded" else FailureReason(e, o.spec, scan);
    ReadySetIs(o.status.conditions, chosen.Some?, reason, o.generation, now);
    FlipTimeGrows(s.marks, Mark(chosen.Some?, now));
  }

  lemma NextKeeps<V>(e: Engines<V>, s: State, step: Step)
    requires Invariant(e, s)
    ensures Invariant(e, Next(e, s, step))
  {
    hide LastGood, ReadyShows, StatusAfter, Chosen;
    match step {
      case EditSpec(spec) => SpecEditKeeps(e, s, spec);
      case Touch => TouchKeeps(e, s);
      case Read(w) =>
      case Finish(w, scan, now) =>
        FinishKeeps(e, s, scan, now);
    }
  }

  lemma SpecEditKeeps<V>(e: Engines<V>, s: State, spec: PolicySpec)
    requires LastGood(e, s.stored, s.records) && ReadyShows(s.stored, s.records, s.marks)
    ensures var o := s.stored.(spec := spec, generation := s.stored.generation + 1, version := s.stored.version + 1);
            LastGood(e, o, s.records) && ReadyShows(o, s.records, s.marks)
  {
    hide Selected, ReadyOf, OneReady, FlipTime, JoinImage;
  }

  lemma TouchKeeps<V>(e: Engines<V>, s: State)
    requires LastGood(e, s.stored, s.records) && ReadyShows(s.stored, s.records, s.marks)
    ensures var o := s.stored.(version := s.stored.version + 1);
            LastGood(e, o, s.records) && ReadyShows(o, s.records, s.marks)
  {
    hide Selected, ReadyOf, OneReady, FlipTime, JoinImage;
  }

  lemma {:induction false} RunKeeps<V>(e: Engines<V>, s: State, steps: seq<Step>)
    requires Invariant(e, s)
    ensures Invariant(e, Run(e, s, steps))
    decreases |steps|
  {
    if steps != [] {
      hide Next, Invariant;
      NextKeeps(e, s, steps[0]);
      RunKeeps(e, Next(e, s, steps[0]), steps[1..]);
    }
  }

  // Under any interleaving of scans, spec edits and other writes: a policy that is Ready at
  // its current generation shows a tag selected, under the current spec, from tags that a
  // scan listed, and the image joins the current repository with that tag.
  lemma ReadyMeansSelected<V>(e: Engines<V>, spec: PolicySpec, steps: seq<Step>)
    ensures ReadyIsCurrent(e, Run(e, Created(spec), steps))
  {
    hide Run, Selected;
    CreatedHolds(e, spec);
    RunKeeps(e, Created(spec), steps);
    ReadyByInvariant(e, Run(e, Created(spec), steps));
  }

  ghost predicate ReadyIsCurrent<V>(e: Engines<V>, s: State)
  {
    var o, ready := s.stored, ReadyOf(s.stored.status.conditions);
    ready.Some? && ready.value.status && o.status.observedGeneration == o.generation ==>
      && o.status.latestTag != ""
      && o.status.latestImage == JoinImage(o.spec.repository, o.status.latestTag)
      && exists k :: 0 <= k < |s.records| && s.records[k].generation == o.generation
                     && Selected(e, s.records[k].tags, o.spec.rule) == Ok(o.status.latestTag)
  }

  lemma ReadyByInvariant<V>(e: Engines<V>, s: State)
    requires Invariant(e, s)
    ensures ReadyIsCurrent(e, s)
  {
    hide Selected;
    if s.records != [] { assert s.records[|s.records| - 1] in s.records; }
  }

  lemma CreatedHolds<V>(e: Engines<V>, spec: PolicySpec)
    ensures Invariant(e, Created(spec))
  {}

  // Also under any interleaving: one Ready condition at most, its time that of the last
  // flip, and a pair that is empty or joins the repository of the last good scan.
  lemma StatusOverRuns<V>(e: Engines<V>, spec: PolicySpec, steps: seq<Step>)
    ensures var s := Run(e, Created(spec), steps);
            && OneReady(s.stored.status.conditions)
            && (ReadyOf(s.stored.status.conditions).Some? ==>
                  s.marks != [] && ReadyOf(s.stored.status.conditions).value.lastTransition == FlipTime(s.marks))
            && LastGood(e, s.stored, s.records)
  {
    hide Run, Selected, LastGood, FlipTime, OneReady;
    CreatedHolds(e, spec);
    RunKeeps(e, Created(spec), steps);
  }

  // A failed scan keeps the last good pair, and the time and count that go with it.
  lemma FailureKeepsPair<V>(e: Engines<V>, s: Status, spec: PolicySpec, generation: nat, scan: Scan, now: int)
    requires Chosen(e, spec, scan).None?
    ensures var t := StatusAfter(e, s, spec, generation, scan, now);
            && t.latestTag == s.latestTag && t.latestImage == s.latestImage
            && t.lastScan == s.lastScan && t.scannedTags == s.scannedTags
            && ReadyOf(t.conditions).Some? && !ReadyOf(t.conditions).value.status
            && t.observedGeneration == generation
  {
    hide Selected;
    ReadySetPlace(s.conditions, false, FailureReason(e, spec, scan), generation, now);
  }

  // ---- Scans that leave no trace ------------------------------------------------

  lemma SuspendedStep<V>(e: Engines<V>, s: State, step: Step)
    requires Invariant(e, s) && s.stored.spec.suspend && !step.EditSpec?
    ensures Invariant(e, Next(e, s, step))
    ensures Next(e, s, step).stored.spec == s.stored.spec && Next(e, s, step).stored.status == s.stored.status
  {
    hide LastGood, ReadyShows, StatusAfter, Chosen;
    NextKeeps(e, s, step);
  }

  // However scans that were under way finish, a suspended policy keeps its status.
  lemma {:induction false} SuspendedStays<V>(e: Engines<V>, s: State, steps: seq<Step>)
    requires Invariant(e, s) && s.stored.spec.suspend && forall i | 0 <= i < |steps| :: !steps[i].EditSpec?
    ensures Run(e, s, steps).stored.spec == s.stored.spec && Run(e, s, steps).stored.status == s.stored.status
    decreases |steps|
  {
    if steps != [] {
      hide Next, Invariant;
      SuspendedStep(e, s, steps[0]);
      SuspendedStays(e, Next(e, s, steps[0]), steps[1..]);
    }
  }

  // A scan that read the object before someone wrote it stores nothing.
  lemma StaleScanIsLost<V>(e: Engines<V>, s: State, worker: nat, between: Step, scan: Scan, now: int)
    requires between.EditSpec? || between.Touch?
    ensures var written := Next(e, Next(e, s, Read(worker)), between);
            Next(e, written, Finish(worker, scan, now)) == written.(copies := written.copies - {worker})
  {
    hide StatusAfter, Chosen;
  }

  // ---- A scan told by its outcome -----------------------------------------------

  // The first condition named Ready.
  ghost predicate ReadyIs(cs: seq<Condition>, status: bool, reason: string, generation: nat)
  {
    exists i :: 0 <= i < |cs| && cs[i].name == "Ready" && (forall k | 0 <= k < i :: cs[k].name != "Ready")
                && cs[i].status == status && cs[i].reason == reason && cs[i].observedGeneration == generation
  }

  lemma ReadySetShows(cs: seq<Condition>, status: bool, reason: string, generation: nat, now: int)
    ensures ReadyIs(ReadySet(cs, status, reason, generation, now), status, reason, generation)
  {
    ReadySetPlace(cs, status, reason, generation, now);
  }

  // The whole status after each outcome of a scan.
  lemma ScanInTexts<V>(e: Engines<V>, s: Status, spec: PolicySpec, generation: nat, scan: Scan, now: int, tag: string)
    ensures var t := StatusAfter(e, s, spec, generation, scan, now);
            && t.observedGeneration == generation
            && (scan.Listed? && tag != "" && Selected(e, scan.tags, spec.rule) == Ok(tag) ==>
                  && t.latestTag == tag && t.latestImage == spec.repository + ":" + tag
                  && t.lastScan == Some(now) && t.scannedTags == |scan.tags|
                  && ReadyIs(t.conditions, true, "ScanSucceeded", generation))
            && (!scan.Listed? || Selected(e, scan.tags, spec.rule).Err? || Selected(e, scan.tags, spec.rule) == Ok("") ==>
                  && t.latestTag == s.latestTag && t.latestImage == s.latestImage
                  && t.lastScan == s.lastScan && t.scannedTags == s.scannedTags
                  && ReadyIs(t.conditions, false,
                             match scan
                             case AuthFailed => "AuthError"
                             case ListFailed => "ScanError"
                             case Listed(tags) => if Selected(e, tags, spec.rule).Err? then "PolicyError" else "NoMatch",
                             generation))
  {
    hide Selected, ReadySet, ReadyIs;
    var chosen := Chosen(e, spec, scan);
    ReadySetShows(s.conditions, chosen.Some?, if chosen.Some? then "ScanSucceeded" else FailureReason(e, spec, scan), generation, now);
  }

  // A scan that nobody disturbs stores what it selected, and leaves the spec alone.
  lemma ScanIsStored<V>(e: Engines<V>, s: State, worker: nat, tags: seq<string>, tag: string, now: int)
    requires !s.stored.spec.suspend && tag != "" && Selected(e, tags, s.stored.spec.rule) == Ok(tag)
    ensures var t := Next(e, Next(e, s, Read(worker)), Finish(worker, Listed(tags), now));
            && t.stored.spec == s.stored.spec && t.stored.generation == s.stored.generation
            && t.stored.status.latestTag == tag && t.stored.status.latestImage == s.stored.spec.repository + ":" + tag
  {
    hide Selected, StatusAfter;
    var o := s.stored;
    ScanInTexts(e, o.status, o.spec, o.generation, Listed(tags), now, tag);
  }
}
