// One reconcile of a workload: internal/controller/workload_controller.go:79-281,309-347.
module WorkloadReconcile {
  import opened Text
  import opened Workload
  import opened GitWriteBack

  // What a reconcile reads of an ImagePolicy.
  datatype Policy = Policy(repository: string, updateMode: string, latestTag: string, latestImage: string)

  type Policies = map<string, Policy>

  datatype Ctr = Ctr(name: string, image: string)

  // The annotations, and the init containers followed by the others.
  datatype Pod = Pod(annotations: Annotations, containers: seq<Ctr>)

  // ---- What a reconcile wants ---------------------------------------------------

  // The container a name stands for: of several with one name, the last.
  function Named(cs: seq<Ctr>, name: string): (r: Option<nat>)
    ensures r.Some? ==> r.value < |cs| && cs[r.value].name == name
                        && forall k | r.value < k < |cs| :: cs[k].name != name
    ensures r.None? ==> forall k | 0 <= k < |cs| :: cs[k].name != name
  {
    if cs == [] then None
    else if cs[|cs| - 1].name == name then Some(|cs| - 1)
    else Named(cs[..|cs| - 1], name)
  }

  function Gate(a: Annotations, mutable: bool, name: string, p: Policy): bool
  {
    (WritesToGit(a) || mutable)
    && match EffectiveMode(p.updateMode, a)
       case DryRun => false
       case Approval => ApprovedTag(a, name) == Some(p.latestTag)
       case Automatic => true
  }

  // The policy a container is bound to, when the container and the policy both exist.
  function PolicyOf(pod: Pod, policies: Policies, name: string): Option<Policy>
  {
    var bound := Bound(pod.annotations, name);
    if bound.Some? && Named(pod.containers, name).Some? && bound.value in policies
    then Some(policies[bound.value]) else None
  }

  // The policy whose image the container is about to get.
  function Wants(pod: Pod, policies: Policies, mutable: bool, name: string): Option<Policy>
  {
    var p := PolicyOf(pod, policies, name);
    if p.Some? && p.value.latestImage != ""
       && pod.containers[Named(pod.containers, name).value].image != p.value.latestImage
       && Gate(pod.annotations, mutable, name, p.value)
    then p else None
  }

  predicate AwaitsScan(pod: Pod, policies: Policies, name: string)
  {
    PolicyOf(pod, policies, name).Some? && PolicyOf(pod, policies, name).value.latestImage == ""
  }

  // A bound container whose policy has not been scanned asks for another look soon.
  ghost predicate Unscanned(pod: Pod, policies: Policies, names: set<string>)
  {
    exists n :: n in names && AwaitsScan(pod, policies, n)
  }

  function Desired(pod: Pod, policies: Policies, mutable: bool): map<string, string>
  {
    map n | n in BoundNames(pod.annotations) && Wants(pod, policies, mutable, n).Some? ::
      Wants(pod, policies, mutable, n).value.latestImage
  }

  lemma DesiredIs(pod: Pod, policies: Policies, mutable: bool)
    ensures forall n :: n in Desired(pod, policies, mutable) <==> Wants(pod, policies, mutable, n).Some?
  {
    forall n | Wants(pod, policies, mutable, n).Some?
      ensures n in BoundNames(pod.annotations)
    {
      BoundIsNamed(pod.annotations, n);
    }
  }

  // ---- The live patch -----------------------------------------------------------

  // One annotation for every image, under the prefix.
  function Marks(prefix: string, images: map<string, string>): (r: Annotations)
    ensures forall k :: k in r <==> HasPrefix(k, prefix) && k[|prefix|..] in images
    ensures forall k | k in r :: |prefix| <= |k| && r[k] == images[k[|prefix|..]]
  {
    var keys := set n | n in images :: prefix + n;
    assert forall n :: (prefix + n)[|prefix|..] == n && (prefix + n)[..|prefix|] == prefix;
    assert forall k | HasPrefix(k, prefix) :: k == prefix + k[|prefix|..];
    map k | k in keys :: images[k[|prefix|..]]
  }

  lemma MarkOneMore(prefix: string, images: map<string, string>, name: string, image: string)
    ensures Marks(prefix, images[name := image]) == Marks(prefix, images)[prefix + name := image]
  {
    assert (prefix + name)[..|prefix|] == prefix && (prefix + name)[|prefix|..] == name;
    assert forall k | HasPrefix(k, prefix) :: k == prefix + k[|prefix|..];
  }

  // The containers with the given images.
  function SetImages(cs: seq<Ctr>, images: map<string, string>): (r: seq<Ctr>)
    ensures |r| == |cs| && forall i | 0 <= i < |cs| :: r[i].name == cs[i].name
  {
    seq(|cs|, i requires 0 <= i < |cs| =>
      if cs[i].name in images && Named(cs, cs[i].name) == Some(i) then Ctr(cs[i].name, images[cs[i].name]) else cs[i])
  }

  // The pod with the given images and nothing else changed but their marks.
  function PatchTo(pod: Pod, images: map<string, string>): Pod
  {
    Pod(pod.annotations + Marks(LAST_UPDATED, images), SetImages(pod.containers, images))
  }

  function LivePatch(pod: Pod, policies: Policies, mutable: bool): Pod
  {
    if WritesToGit(pod.annotations) then pod else PatchTo(pod, Desired(pod, policies, mutable))
  }

  lemma SameNames(cs: seq<Ctr>, ds: seq<Ctr>, name: string)
    requires |cs| == |ds| && forall i | 0 <= i < |cs| :: cs[i].name == ds[i].name
    ensures Named(cs, name) == Named(ds, name)
  {}

  // Patching one more container.
  lemma PatchOneMore(pod: Pod, images: map<string, string>, name: string, image: string)
    requires Named(pod.containers, name).Some?
    ensures var before := PatchTo(pod, images);
            var at := Named(pod.containers, name).value;
            at < |before.containers| &&
            PatchTo(pod, images[name := image])
            == Pod(before.annotations[LAST_UPDATED + name := image],
                   before.containers[at := Ctr(name, image)])
  {
    hide Marks, SetImages;
    MarkOneMore(LAST_UPDATED, images, name, image);
    ImageOneMore(pod.containers, images, name, image);
    AddLast(pod.annotations, Marks(LAST_UPDATED, images), LAST_UPDATED + name, image);
  }

  lemma AddLast(a: Annotations, b: Annotations, key: string, value: string)
    ensures a + b[key := value] == (a + b)[key := value]
  {}

  lemma ImageOneMore(cs: seq<Ctr>, images: map<string, string>, name: string, image: string)
    requires Named(cs, name).Some?
    ensures var at := Named(cs, name).value;
            SetImages(cs, images[name := image]) == SetImages(cs, images)[at := Ctr(name, image)]
  {
    var at := Named(cs, name).value;
    assert SetImages(cs, images[name := image]) == SetImages(cs, images)[at := Ctr(name, image)];
  }

  lemma NoMarks(prefix: string)
    ensures Marks(prefix, map[]) == map[]
  {
    assert Marks(prefix, map[]).Keys == {};
  }

  lemma PatchNothing(pod: Pod)
    ensures PatchTo(pod, map[]) == pod
  {
    assert SetImages(pod.containers, map[]) == pod.containers;
    NoMarks(LAST_UPDATED);
  }

  // ---- The Git write-back -------------------------------------------------------

  // The target the annotations configure.
  function GitTarget(a: Annotations): Option<Target>
  {
    if Read(a, GIT_REPO) == "" || Read(a, WRITE_BACK_TARGET) == "" then None
    else ParseTarget(Read(a, WRITE_BACK_TARGET))
  }

  function EditFor(a: Annotations, t: Target, name: string, p: Policy): Edit
  {
    Edit(t, p.repository, p.latestTag, name, Read(a, HELM_NAME + name), Read(a, HELM_TAG + name))
  }

  // Exactly one edit for every container that wants one, in some order.
  ghost predicate IsEditList(pod: Pod, policies: Policies, mutable: bool, t: Target, edits: seq<Edit>)
  {
    && (forall i, j | 0 <= i < j < |edits| :: edits[i].container != edits[j].container)
    && (forall i | 0 <= i < |edits| ::
          var p := Wants(pod, policies, mutable, edits[i].container);
          p.Some? && edits[i] == EditFor(pod.annotations, t, edits[i].container, p.value))
    && (forall n | Wants(pod, policies, mutable, n).Some? ::
          exists i :: 0 <= i < |edits| && edits[i].container == n)
  }

  // ---- The code -----------------------------------------------------------------

  datatype Outcome = Nothing | Patched | Misconfigured | WriteBack(edits: seq<Edit>)

  // What a reconcile of this pod comes to.
  ghost predicate Follows(pod: Pod, policies: Policies, mutable: bool, r: Outcome)
  {
    if Desired(pod, policies, mutable) == map[] then r == Nothing
    else if !WritesToGit(pod.annotations) then r == Patched
    else if GitTarget(pod.annotations) == None then r == Misconfigured
    else r.WriteBack? && IsEditList(pod, policies, mutable, GitTarget(pod.annotations).value, r.edits)
  }

  class Container {
    const name: string
    var image: string

    constructor (name: string, image: string)
      ensures this.name == name && this.image == image
    {
      this.name, this.image := name, image;
    }
  }

  ghost function Ctrs(cs: seq<Container>, cells: set<Container>): (r: seq<Ctr>)
    requires forall i | 0 <= i < |cs| :: cs[i] in cells
    reads cells
    ensures |r| == |cs|
  {
    seq(|cs|, i requires 0 <= i < |cs| reads cells => Ctr(cs[i].name, cs[i].image))
  }

  datatype Pending = Pending(name: string, container: Container, policy: Policy)

  // The index sends every name in use to the container it stands for.
  ghost predicate Indexes(index: map<string, Container>, cs: seq<Ctr>, all: seq<Container>)
    requires |cs| == |all|
  {
    && (forall n :: n in index <==> Named(cs, n).Some?)
    && (forall n | n in index :: index[n] == all[Named(cs, n).value])
  }

  lemma IndexOneMore(index: map<string, Container>, cs: seq<Ctr>, all: seq<Container>, i: nat)
    requires |cs| == |all| && i < |cs| && Indexes(index, cs[..i], all[..i])
    ensures Indexes(index[cs[i].name := all[i]], cs[..i + 1], all[..i + 1])
  {
    assert cs[..i + 1][..i] == cs[..i];
    forall n
      ensures Named(cs[..i + 1], n) == if cs[i].name == n then Some(i) else Named(cs[..i], n)
    {
    }
  }

  // Every pending update holds the container it is about.
  ghost predicate Located(pendings: seq<Pending>, cs: seq<Ctr>, all: seq<Container>)
    requires |cs| == |all|
  {
    forall i | 0 <= i < |pendings| ::
      Named(cs, pendings[i].name).Some? && pendings[i].container == all[Named(cs, pendings[i].name).value]
  }

  // The pending updates ask for exactly these images.
  ghost predicate AsksFor(pendings: seq<Pending>, want: map<string, string>)
  {
    && (forall i | 0 <= i < |pendings| ::
          pendings[i].name in want && want[pendings[i].name] == pendings[i].policy.latestImage)
    && (forall n | n in want :: exists i :: 0 <= i < |pendings| && pendings[i].name == n)
  }

  lemma NothingLocated(cs: seq<Ctr>, all: seq<Container>)
    requires |cs| == |all|
    ensures Located([], cs, all)
  {}

  lemma LocatedOneMore(pendings: seq<Pending>, one: Pending, cs: seq<Ctr>, all: seq<Container>)
    requires |cs| == |all| && Located(pendings, cs, all) && Located([one], cs, all)
    ensures Located(pendings + [one], cs, all)
  {
    assert [one][0] == one;
  }

  class WorkloadObject {
    var annotations: Annotations
    const mutable: bool
    const initContainers: seq<Container>
    const containers: seq<Container>

    ghost const all: seq<Container>
    ghost const cells: set<Container>

    constructor (annotations: Annotations, mutable: bool, initContainers: seq<Container>, containers: seq<Container>)
      requires forall i, j | 0 <= i < j < |initContainers + containers| ::
                 (initContainers + containers)[i] != (initContainers + containers)[j]
      ensures Valid()
      ensures this.annotations == annotations && this.mutable == mutable && all == initContainers + containers
      ensures cells == set c | c in all
    {
      this.annotations, this.mutable := annotations, mutable;
      this.initContainers, this.containers := initContainers, containers;
      this.all := initContainers + containers;
      this.cells := set c | c in initContainers + containers;
    }

    // Every container, the init ones first, is an object of its own.
    ghost predicate Valid()
    {
      && all == initContainers + containers
      && (forall i | 0 <= i < |all| :: all[i] in cells)
      && (forall i, j | 0 <= i < j < |all| :: all[i] != all[j])
    }

    ghost function View(): (r: Pod)
      requires Valid()
      reads this, cells
      ensures r.annotations == annotations && |r.containers| == |all|
    {
      Pod(annotations, Ctrs(all, cells))
    }

    method AllContainers() returns (out: seq<Container>)
      requires Valid()
      ensures out == all
    {
      out := [];
      for i := 0 to |initContainers|
        invariant out == initContainers[..i]
      {
        out := out + [initContainers[i]];
      }
      for i := 0 to |containers|
        invariant out == initContainers + containers[..i]
      {
        out := out + [containers[i]];
      }
    }

    // A later container of the same name takes the place of an earlier one.
    method IndexContainers() returns (index: map<string, Container>)
      requires Valid()
      ensures Indexes(index, View().containers, all)
    {
      index := map[];
      var cs := AllContainers();
      ghost var views := Ctrs(all, cells);
      assert Indexes(index, views[..0], all[..0]);
      hide Indexes;
      for i := 0 to |cs|
        invariant Indexes(index, views[..i], all[..i])
      {
        IndexOneMore(index, views, all, i);
        index := index[cs[i].name := cs[i]];
      }
      assert views[..|all|] == views && all[..|all|] == all;
    }

    method SetLastUpdated(name: string, image: string)
      modifies this`annotations
      ensures annotations == old(annotations)[LAST_UPDATED + name := image]
    {
      annotations := annotations[LAST_UPDATED + name := image];
    }

    method PatchOne(p: Pending, ghost at: nat)
      requires Valid() && at < |all| && p.container == all[at]
      modifies this`annotations, p.container
      ensures View() == Pod(old(View()).annotations[LAST_UPDATED + p.name := p.policy.latestImage],
                            old(View()).containers[at := Ctr(p.container.name, p.policy.latestImage)])
    {
      ghost var before := View();
      p.container.image := p.policy.latestImage;
      SetLastUpdated(p.name, p.policy.latestImage);
      assert View().containers == before.containers[at := Ctr(p.container.name, p.policy.latestImage)];
    }

    // want names the image of every pending container.
    method PatchLive(pendings: seq<Pending>, ghost want: map<string, string>)
      requires Valid() && Located(pendings, View().containers, all)
      requires AsksFor(pendings, want)
      modifies this`annotations, cells
      ensures View() == PatchTo(old(View()), want)
    {
      hide PatchTo, Named;
      ghost var was := View();
      ghost var done: map<string, string> := map[];
      PatchNothing(was);
      for i := 0 to |pendings|
        invariant View() == PatchTo(was, done)
        invariant forall n :: n in done <==> exists j :: 0 <= j < i && pendings[j].name == n
        invariant forall n | n in done :: n in want && done[n] == want[n]
      {
        var p := pendings[i];
        PatchOneMore(was, done, p.name, p.policy.latestImage);
        PatchOne(p, Named(was.containers, p.name).value);
        done := done[p.name := p.policy.latestImage];
      }
      assert done == want;
    }

    // The bindings are visited in whatever order the map is walked.
    method Reconcile(policies: Policies) returns (r: Outcome, requeue: bool)
      requires Valid()
      modifies this`annotations, cells
      ensures View() == LivePatch(old(View()), policies, mutable)
      ensures requeue == Unscanned(old(View()), policies, BoundNames(old(annotations)))
      ensures Follows(old(View()), policies, mutable, r)
    {
      ghost var pod := View();
      ghost var want := Desired(pod, policies, mutable);
      assert pod.annotations == annotations;
      LivePatchCases(pod, policies, mutable);
      FollowsCases(pod, policies, mutable);
      hide *;
      var pendings: seq<Pending>;
      pendings, requeue := Collect(policies);
      GatheredAsks(pod, policies, mutable, pendings);
      if pendings == [] {
        return Nothing, requeue;
      }
      if WritesToGit(annotations) {
        var target := GitTarget(annotations);
        if target == None {
          return Misconfigured, requeue;
        }
        var edits := Edits(policies, target.value, pendings);
        return WriteBack(edits), requeue;
      }
      PatchLive(pendings, want);
      return Patched, requeue;
    }

    method Edits(policies: Policies, t: Target, pendings: seq<Pending>) returns (edits: seq<Edit>)
      requires Valid() && Gathered(View(), policies, mutable, BoundNames(annotations), pendings)
      ensures IsEditList(View(), policies, mutable, t, edits)
    {
      ghost var pod := View();
      edits := [];
      for i := 0 to |pendings|
        invariant |edits| == i
        invariant forall k | 0 <= k < i :: edits[k] == EditFor(pod.annotations, t, pendings[k].name, pendings[k].policy)
      {
        edits := edits + [EditFor(annotations, t, pendings[i].name, pendings[i].policy)];
      }
      GatheredEdits(pod, policies, mutable, t, pendings, edits);
    }

    // One binding: the pending update it leads to, and whether its policy awaits a scan.
    method Visit(policies: Policies, index: map<string, Container>, name: string, policyName: string)
      returns (pending: Option<Pending>, unscanned: bool)
      requires Valid() && Bound(annotations, name) == Some(policyName)
      requires Indexes(index, View().containers, all)
      ensures var p := Wants(View(), policies, mutable, name);
              if p.Some? then pending.Some? && pending.value == Pending(name, pending.value.container, p.value)
              else pending == None
      ensures pending.Some? ==> Located([pending.value], View().containers, all)
      ensures unscanned == AwaitsScan(View(), policies, name)
    {
      hide Gate, Bound, Named;
      if name !in index {
        return None, false;
      }
      if policyName !in policies {
        return None, false;
      }
      var container, ip := index[name], policies[policyName];
      if ip.latestImage == "" {
        return None, true;
      }
      if container.image == ip.latestImage {
        return None, false;
      }
      if !Gate(annotations, mutable, name, ip) {
        return None, false;
      }
      return Some(Pending(name, container, ip)), false;
    }

    // The pending containers, each with the object to patch and its policy. The bindings
    // are visited in whatever order the map is walked.
    method Collect(policies: Policies) returns (pendings: seq<Pending>, requeue: bool)
      requires Valid()
      ensures Gathered(View(), policies, mutable, BoundNames(annotations), pendings)
      ensures Located(pendings, View().containers, all)
      ensures requeue == Unscanned(View(), policies, BoundNames(annotations))
    {
      ghost var pod := View();
      assert pod.annotations == annotations;
      hide Wants, AwaitsScan, Named, Bound, BoundNames, Gathered, Unscanned, Ctrs, Indexes, Located, Valid;
      var bindings := ContainerPolicies(annotations);
      var index := IndexContainers();
      pendings, requeue := [], false;
      var names := bindings.Keys;
      NothingGathered(pod, policies, mutable);
      assert Located(pendings, pod.containers, all) by { NothingLocated(pod.containers, all); }
      assert bindings.Keys - names == {};
      while names != {}
        invariant names <= bindings.Keys && View() == pod
        invariant Gathered(pod, policies, mutable, bindings.Keys - names, pendings)
        invariant Located(pendings, pod.containers, all)
        invariant requeue == Unscanned(pod, policies, bindings.Keys - names)
        decreases |names|
      {
        var name :| name in names;
        ghost var seen := bindings.Keys - names;
        var pending, unscanned := Visit(policies, index, name, bindings[name]);
        GatherOne(pod, policies, mutable, seen, pendings, name, pending);
        if pending.Some? {
          LocatedOneMore(pendings, pending.value, pod.containers, all);
          pendings := pendings + [pending.value];
        }
        requeue := requeue || unscanned;
        names := names - {name};
        assert bindings.Keys - names == seen + {name};
      }
      assert bindings.Keys - names == bindings.Keys;
      AllBound(pod, policies, mutable, bindings.Keys, pendings);
    }
  }

  // What the walk over the bindings has collected once it has seen these names.
  ghost predicate Gathered(pod: Pod, policies: Policies, mutable: bool, seen: set<string>, pendings: seq<Pending>)
  {
    && (forall i, j | 0 <= i < j < |pendings| :: pendings[i].name != pendings[j].name)
    && (forall i | 0 <= i < |pendings| ::
          pendings[i].name in seen && Wants(pod, policies, mutable, pendings[i].name) == Some(pendings[i].policy))
    && (forall n | n in seen && Wants(pod, policies, mutable, n).Some? ::
          exists i :: 0 <= i < |pendings| && pendings[i].name == n)
  }

  lemma NothingGathered(pod: Pod, policies: Policies, mutable: bool)
    ensures Gathered(pod, policies, mutable, {}, []) && !Unscanned(pod, policies, {})
  {}

  lemma GatherOne(pod: Pod, policies: Policies, mutable: bool, seen: set<string>, pendings: seq<Pending>,
                  name: string, one: Option<Pending>)
    requires Gathered(pod, policies, mutable, seen, pendings) && name !in seen
    requires var p := Wants(pod, policies, mutable, name);
             if p.Some? then one.Some? && one.value.name == name && one.value.policy == p.value else one == None
    ensures Gathered(pod, policies, mutable, seen + {name}, if one.Some? then pendings + [one.value] else pendings)
    ensures Unscanned(pod, policies, seen + {name}) == (Unscanned(pod, policies, seen) || AwaitsScan(pod, policies, name))
  {
    hide Wants, AwaitsScan;
    var after := if one.Some? then pendings + [one.value] else pendings;
    forall n | n in seen + {name} && Wants(pod, policies, mutable, n).Some?
      ensures exists i :: 0 <= i < |after| && after[i].name == n
    {
      if n == name {
        assert after[|pendings|].name == n;
      } else {
        var i :| 0 <= i < |pendings| && pendings[i].name == n;
        assert after[i].name == n;
      }
    }
  }

  // The names worth a visit are exactly those the annotations bind.
  lemma AllBound(pod: Pod, policies: Policies, mutable: bool, names: set<string>, pendings: seq<Pending>)
    requires forall n :: n in names <==> Bound(pod.annotations, n).Some?
    requires Gathered(pod, policies, mutable, names, pendings)
    ensures Gathered(pod, policies, mutable, BoundNames(pod.annotations), pendings)
    ensures Unscanned(pod, policies, names) == Unscanned(pod, policies, BoundNames(pod.annotations))
  {
    hide Gate, Named, BoundNames;
    forall n | n in names
      ensures n in BoundNames(pod.annotations)
    {
      BoundIsNamed(pod.annotations, n);
    }
  }

  lemma LivePatchCases(pod: Pod, policies: Policies, mutable: bool)
    ensures var want := Desired(pod, policies, mutable);
            LivePatch(pod, policies, mutable)
            == if WritesToGit(pod.annotations) || want == map[] then pod else PatchTo(pod, want)
  {
    PatchNothing(pod);
  }

  lemma FollowsCases(pod: Pod, policies: Policies, mutable: bool)
    ensures Desired(pod, policies, mutable) == map[] ==> Follows(pod, policies, mutable, Nothing)
    ensures Desired(pod, policies, mutable) != map[] && !WritesToGit(pod.annotations) ==>
              Follows(pod, policies, mutable, Patched)
    ensures Desired(pod, policies, mutable) != map[] && WritesToGit(pod.annotations) ==>
              var t := GitTarget(pod.annotations);
              if t == None then Follows(pod, policies, mutable, Misconfigured)
              else forall edits | IsEditList(pod, policies, mutable, t.value, edits) ::
                     Follows(pod, policies, mutable, WriteBack(edits))
  {
    hide Desired, WritesToGit, GitTarget, IsEditList;
  }

  lemma GatheredAsks(pod: Pod, policies: Policies, mutable: bool, pendings: seq<Pending>)
    requires Gathered(pod, policies, mutable, BoundNames(pod.annotations), pendings)
    ensures AsksFor(pendings, Desired(pod, policies, mutable))
    ensures pendings == [] <==> Desired(pod, policies, mutable) == map[]
  {
    hide Wants, BoundNames;
    var want := Desired(pod, policies, mutable);
    assert pendings != [] ==> pendings[0].name in want;
    assert pendings == [] ==> want.Keys == {};
  }

  lemma GatheredEdits(pod: Pod, policies: Policies, mutable: bool, t: Target, pendings: seq<Pending>, edits: seq<Edit>)
    requires Gathered(pod, policies, mutable, BoundNames(pod.annotations), pendings)
    requires |edits| == |pendings|
    requires forall k | 0 <= k < |edits| :: edits[k] == EditFor(pod.annotations, t, pendings[k].name, pendings[k].policy)
    ensures IsEditList(pod, policies, mutable, t, edits)
  {
    DesiredIs(pod, policies, mutable);
    hide Wants;
    forall n | Wants(pod, policies, mutable, n).Some?
      ensures exists i :: 0 <= i < |edits| && edits[i].container == n
    {
      var i :| 0 <= i < |pendings| && pendings[i].name == n;
      assert edits[i].container == n;
    }
  }
}
