// Applying edits to a clone and pushing the result: internal/gitwriteback/apply.go,
// internal/gitwriteback/git.go:107-146, internal/controller/workload_controller.go:202-281.
module GitWriteBack {
  import opened Text
  import opened ImageRef
  import opened YamlTree
  import opened YamlFile
  import opened HelmTarget
  import opened KustomizeLaws
  import KustomizeTarget
  import ManifestTarget
  import opened ManifestLaws

  datatype TargetKind = ToHelm | ToKustomize | ToManifest

  datatype Target = Target(kind: TargetKind, path: string)

  // strings.Cut at the first colon, a known kind, and a path.
  function ParseTarget(s: string): Option<Target>
  {
    var colon := IndexOf(s, ':');
    if colon < 0 || s[colon + 1..] == "" then None
    else if s[..colon] == "helm" then Some(Target(ToHelm, s[colon + 1..]))
    else if s[..colon] == "kustomize" then Some(Target(ToKustomize, s[colon + 1..]))
    else if s[..colon] == "manifest" then Some(Target(ToManifest, s[colon + 1..]))
    else None
  }

  datatype Edit = Edit(target: Target, repository: string, tag: string, container: string,
                       helmNameKey: string, helmTagKey: string)

  // Path cleaning: the place inside the clone, unless the path escapes it, and the place
  // of a file in a directory.
  datatype Paths = Paths(clean: string -> Option<string>, join: (string, string) -> string)

  type Files = map<string, File>

  // ---- One edit -----------------------------------------------------------------

  function TargetFile(paths: Paths, files: Files, t: Target): Option<string>
  {
    var clean := paths.clean(t.path);
    if clean.None? then None
    else if t.kind != ToKustomize then clean
    else if paths.join(clean.value, "kustomization.yaml") in files then
      Some(paths.join(clean.value, "kustomization.yaml"))
    else if paths.join(clean.value, "kustomization.yml") in files then
      Some(paths.join(clean.value, "kustomization.yml"))
    else None
  }

  function EditFile(f: File, e: Edit): EditResult
  {
    match e.target.kind
    case ToHelm => Helm(f, e.repository, e.tag, e.helmNameKey, e.helmTagKey)
    case ToKustomize => KustomizeTarget.Kustomize(f, e.repository, e.tag)
    case ToManifest => ManifestTarget.Manifest(f, ManifestTarget.ManifestEdit(e.repository, e.tag, e.container))
  }

  // The file an edit is about, when it can be read.
  function Subject(paths: Paths, files: Files, e: Edit): Option<string>
  {
    var path := TargetFile(paths, files, e.target);
    if path.Some? && path.value in files then path else None
  }

  // The path to stage, when the edit changed its file without an error.
  function ChangedPath(paths: Paths, files: Files, e: Edit): Option<string>
  {
    var path := Subject(paths, files, e);
    if path.Some? && EditFile(files[path.value], e).Edited? && EditFile(files[path.value], e).changed then path else None
  }

  function AfterEdit(paths: Paths, files: Files, e: Edit): Files
  {
    var path := ChangedPath(paths, files, e);
    if path.None? then files else files[path.value := EditFile(files[path.value], e).file]
  }

  ghost predicate CanonFiles(files: Files) { forall p | p in files :: CanonFile(files[p]) }

  lemma EditFileCanon(f: File, e: Edit)
    requires CanonFile(f)
    ensures CanonFile(FileAfter(f, EditFile(f, e)))
    ensures EditFile(f, e).Edited? && !EditFile(f, e).changed ==> EditFile(f, e).file == f
  {
    hide Canon, IsCanon, ManifestTarget.Rewrite;
    forall t: Tree
      ensures IsCanon(Canon(t))
    {
      CanonIsCanon(t);
    }
  }

  lemma AfterEditCanon(paths: Paths, files: Files, e: Edit)
    requires CanonFiles(files)
    ensures CanonFiles(AfterEdit(paths, files, e))
    ensures AfterEdit(paths, files, e).Keys == files.Keys
  {
    hide EditFile, CanonFile;
    var path := ChangedPath(paths, files, e);
    if path.Some? { EditFileCanon(files[path.value], e); }
  }

  // ---- A run of edits -----------------------------------------------------------

  function AfterAll(paths: Paths, files: Files, edits: seq<Edit>): Files
    decreases |edits|
  {
    if edits == [] then files else AfterAll(paths, AfterEdit(paths, files, edits[0]), edits[1..])
  }

  // The paths some edit of the run reports as changed.
  function Staged(paths: Paths, files: Files, edits: seq<Edit>): set<string>
    decreases |edits|
  {
    if edits == [] then {}
    else
      var path := ChangedPath(paths, files, edits[0]);
      (if path.Some? then {path.value} else {}) + Staged(paths, AfterEdit(paths, files, edits[0]), edits[1..])
  }

  // The clone in its temporary directory.
  class WorkTree {
    var files: Files

    constructor (files: Files)
      ensures this.files == files
    {
      this.files := files;
    }

    // Writes the file back only when the edit changed it and reported no error.
    method Apply(paths: Paths, e: Edit) returns (rel: Option<string>, failed: bool)
      requires CanonFiles(files)
      modifies this
      ensures files == AfterEdit(paths, old(files), e) && CanonFiles(files)
      ensures rel == ChangedPath(paths, old(files), e) && (failed ==> rel == None)
      ensures failed == (Subject(paths, old(files), e).None?
                         || EditFile(old(files)[Subject(paths, old(files), e).value], e).EditFailed?)
    {
      hide Helm, KustomizeTarget.Kustomize, ManifestTarget.Manifest, CanonFile;
      AfterEditCanon(paths, files, e);
      var path := TargetFile(paths, files, e.target);
      if path.None? {
        return None, true;
      }
      if path.value !in files {
        return None, true;
      }
      var content := files[path.value];
      var out: EditResult;
      match e.target.kind {
        case ToHelm =>
          out := EditHelmValues(content, e.repository, e.tag, e.helmNameKey, e.helmTagKey);
        case ToKustomize =>
          out := KustomizeTarget.EditKustomization(content, e.repository, e.tag);
        case ToManifest =>
          out := ManifestTarget.EditManifest(content, ManifestTarget.ManifestEdit(e.repository, e.tag, e.container));
      }
      if out.EditFailed? {
        return None, true;
      }
      if !out.changed {
        return None, false;
      }
      files := files[path.value := out.file];
      return path, false;
    }

    // The loop over the pending containers: an error skips that container only.
    method ApplyAll(paths: Paths, edits: seq<Edit>) returns (changed: set<string>)
      requires CanonFiles(files)
      modifies this
      ensures files == AfterAll(paths, old(files), edits) && CanonFiles(files)
      ensures changed == Staged(paths, old(files), edits)
    {
      hide AfterEdit, ChangedPath, CanonFiles;
      changed := {};
      assert edits[0..] == edits;
      for i := 0 to |edits|
        invariant CanonFiles(files)
        invariant AfterAll(paths, old(files), edits) == AfterAll(paths, files, edits[i..])
        invariant Staged(paths, old(files), edits) == changed + Staged(paths, files, edits[i..])
      {
        assert edits[i..][0] == edits[i] && edits[i..][1..] == edits[i + 1..];
        var rel, failed := Apply(paths, edits[i]);
        if !failed && rel.Some? {
          changed := changed + {rel.value};
        }
      }
    }
  }

  // ---- One file, many edits -----------------------------------------------------

  predicate QuietEdit(f: File, e: Edit) { QuietResult(EditFile(f, e)) }

  function HelmEdits(es: seq<Edit>): (r: seq<HelmEdit>)
    ensures |r| == |es|
  {
    seq(|es|, i requires 0 <= i < |es| => HelmEdit(es[i].repository, es[i].tag, es[i].helmNameKey, es[i].helmTagKey))
  }

  function ImageEdits(es: seq<Edit>): (r: seq<ImageEdit>)
    ensures |r| == |es|
  {
    seq(|es|, i requires 0 <= i < |es| => ImageEdit(es[i].repository, es[i].tag))
  }

  function ManifestEdits(es: seq<Edit>): (r: seq<ManifestTarget.ManifestEdit>)
    ensures |r| == |es|
  {
    seq(|es|, i requires 0 <= i < |es| => ManifestTarget.ManifestEdit(es[i].repository, es[i].tag, es[i].container))
  }

  // The edits of one file do not conflict, and none of them writes where it cannot read
  // back. For a manifest that is only: every edit names its own container.
  ghost predicate Safe(kind: TargetKind, f: File, es: seq<Edit>)
  {
    && (forall i | 0 <= i < |es| :: es[i].target.kind == kind)
    && match kind
       case ToHelm => HelmSafe(f, HelmEdits(es))
       case ToKustomize => KustomizeSafe(f, ImageEdits(es))
       case ToManifest => ManifestSafe(f, ManifestEdits(es))
  }

  lemma SafeIsCanon(kind: TargetKind, f: File, es: seq<Edit>)
    requires Safe(kind, f, es)
    ensures CanonFile(f)
  {}

  lemma SafeStep(kind: TargetKind, f: File, es: seq<Edit>, m: nat)
    requires Safe(kind, f, es) && m < |es|
    ensures var g := FileAfter(f, EditFile(f, es[m]));
            && Safe(kind, g, es) && QuietEdit(g, es[m])
            && (forall k | 0 <= k < |es| && QuietEdit(f, es[k]) :: QuietEdit(g, es[k]))
            && (forall k | 0 <= k < |es| :: EditFile(g, es[k]).EditFailed? == EditFile(f, es[k]).EditFailed?)
  {
    hide HelmSafe, KustomizeSafe, ManifestSafe, Helm, KustomizeTarget.Kustomize, ManifestTarget.Manifest;
    match kind
    case ToHelm =>
      HelmStep(f, HelmEdits(es), m);
      assert forall g, k | 0 <= k < |es| :: EditFile(g, es[k]) == HelmOf(g, HelmEdits(es)[k]);
    case ToKustomize =>
      KustomizeStep(f, ImageEdits(es), m);
      assert forall g, k | 0 <= k < |es| :: EditFile(g, es[k]) == KustomizeOf(g, ImageEdits(es)[k]);
    case ToManifest =>
      ManifestStep(f, ManifestEdits(es), m);
      assert forall g, k | 0 <= k < |es| :: EditFile(g, es[k]) == ManifestTarget.Manifest(g, ManifestEdits(es)[k]);
  }

  function FileRun(f: File, es: seq<Edit>): File
    decreases |es|
  {
    if es == [] then f else FileRun(FileAfter(f, EditFile(f, es[0])), es[1..])
  }

  // One pass over a safe set leaves nothing for a second pass to do.
  lemma {:induction false} FileRunSettles(kind: TargetKind, f: File, all: seq<Edit>, done: nat)
    requires Safe(kind, f, all) && done <= |all|
    requires forall k | 0 <= k < done :: QuietEdit(f, all[k])
    ensures Safe(kind, FileRun(f, all[done..]), all)
    ensures forall k | 0 <= k < |all| :: QuietEdit(FileRun(f, all[done..]), all[k])
    ensures forall k | 0 <= k < |all| ::
      EditFile(FileRun(f, all[done..]), all[k]).EditFailed? == EditFile(f, all[k]).EditFailed?
    decreases |all| - done
  {
    hide Safe, EditFile, QuietEdit, FileAfter;
    if done < |all| {
      SafeStep(kind, f, all, done);
      assert all[done..][0] == all[done] && all[done..][1..] == all[done + 1..];
      FileRunSettles(kind, FileAfter(f, EditFile(f, all[done])), all, done + 1);
    }
  }

  // ---- The whole clone ----------------------------------------------------------

  // All edits of a write-back share the workload's one target.
  ghost predicate OneTarget(edits: seq<Edit>, t: Target) { forall i | 0 <= i < |edits| :: edits[i].target == t }

  lemma SubjectStable(paths: Paths, files: Files, e: Edit, o: Edit)
    ensures Subject(paths, AfterEdit(paths, files, e), o) == Subject(paths, files, o)
    ensures AfterEdit(paths, files, e).Keys == files.Keys
  {
    hide EditFile;
    var after := AfterEdit(paths, files, e);
    assert after.Keys == files.Keys;
    assert forall p :: p in after <==> p in files;
  }

  // With one target, a run touches that file and nothing else.
  lemma {:induction false} RunOnOneFile(paths: Paths, files: Files, edits: seq<Edit>, t: Target)
    requires OneTarget(edits, t) && CanonFiles(files)
    ensures var after := AfterAll(paths, files, edits);
            var path := TargetFile(paths, files, t);
            && after.Keys == files.Keys
            && (forall p | p in files && Some(p) != path :: after[p] == files[p])
            && (path.Some? && path.value in files ==> after[path.value] == FileRun(files[path.value], edits))
    decreases |edits|
  {
    hide EditFile, CanonFile;
    if edits != [] {
      var path := TargetFile(paths, files, t);
      var after := AfterEdit(paths, files, edits[0]);
      SubjectStable(paths, files, edits[0], edits[0]);
      AfterEditCanon(paths, files, edits[0]);
      assert TargetFile(paths, after, t) == path;
      RunOnOneFile(paths, after, edits[1..], t);
      if path.Some? && path.value in files {
        EditFileCanon(files[path.value], edits[0]);
      }
    }
  }

  // The file says what the edit asks for.
  ghost predicate Shows(f: File, e: Edit)
  {
    match e.target.kind
    case ToHelm => HelmShows(f, HelmEdit(e.repository, e.tag, e.helmNameKey, e.helmTagKey))
    case ToKustomize => KustomizeShows(f, ImageEdit(e.repository, e.tag))
    case ToManifest => ManifestShows(f, ManifestTarget.ManifestEdit(e.repository, e.tag, e.container))
  }

  // There is no such file, or it cannot be edited like this.
  predicate Fails(paths: Paths, files: Files, e: Edit)
  {
    Subject(paths, files, e).None? || EditFile(files[Subject(paths, files, e).value], e).EditFailed?
  }

  ghost predicate ShownIn(paths: Paths, files: Files, e: Edit)
  {
    Subject(paths, files, e).Some? && Shows(files[Subject(paths, files, e).value], e)
  }

  // The files carry the selections: every edit that can be made is shown.
  ghost predicate Carries(paths: Paths, files: Files, edits: seq<Edit>)
  {
    forall i | 0 <= i < |edits| :: Fails(paths, files, edits[i]) || ShownIn(paths, files, edits[i])
  }

  // Every edit that could be made before is shown afterwards, and the others still fail.
  ghost predicate Delivers(paths: Paths, before: Files, after: Files, edits: seq<Edit>)
  {
    forall i | 0 <= i < |edits| ::
      if Fails(paths, before, edits[i]) then Fails(paths, after, edits[i]) else ShownIn(paths, after, edits[i])
  }

  lemma UnchangedIffShows(f: File, e: Edit)
    requires CanonFile(f)
    ensures EditFile(f, e).Edited? && !EditFile(f, e).changed <==> Shows(f, e)
  {
    hide Helm, KustomizeTarget.Kustomize, ManifestTarget.Manifest, HelmShows, KustomizeShows, ManifestShows, CanonFile;
    match e.target.kind {
      case ToHelm => HelmUnchangedIffShows(f, HelmEdit(e.repository, e.tag, e.helmNameKey, e.helmTagKey));
      case ToKustomize => KustomizeUnchangedIffShows(f, ImageEdit(e.repository, e.tag));
      case ToManifest => ManifestUnchangedIffShows(f, ManifestTarget.ManifestEdit(e.repository, e.tag, e.container));
    }
  }

  // Files carry the selections exactly when no edit reports a change on them.
  lemma CarriesIffIdle(paths: Paths, files: Files, edits: seq<Edit>)
    requires CanonFiles(files)
    ensures Carries(paths, files, edits) <==> forall i | 0 <= i < |edits| :: ChangedPath(paths, files, edits[i]).None?
  {
    hide EditFile, Shows, CanonFile;
    forall i | 0 <= i < |edits|
      ensures ChangedPath(paths, files, edits[i]).None? <==> Fails(paths, files, edits[i]) || ShownIn(paths, files, edits[i])
    {
      var path := Subject(paths, files, edits[i]);
      if path.Some? { UnchangedIffShows(files[path.value], edits[i]); }
    }
  }

  // The edits, aimed at one file of the clone, are safe there.
  ghost predicate SafeEdits(paths: Paths, files: Files, edits: seq<Edit>, t: Target)
  {
    && CanonFiles(files) && OneTarget(edits, t)
    && var path := TargetFile(paths, files, t);
       path.Some? && path.value in files ==> Safe(t.kind, files[path.value], edits)
  }

  lemma {:induction false} IdleRun(paths: Paths, files: Files, edits: seq<Edit>)
    requires forall i | 0 <= i < |edits| :: ChangedPath(paths, files, edits[i]).None?
    ensures AfterAll(paths, files, edits) == files && Staged(paths, files, edits) == {}
    decreases |edits|
  {
    hide ChangedPath;
    if edits != [] {
      assert forall i | 0 <= i < |edits[1..]| :: edits[1..][i] == edits[i + 1];
      IdleRun(paths, files, edits[1..]);
    }
  }

  lemma {:induction false} NothingStaged(paths: Paths, files: Files, edits: seq<Edit>)
    requires Staged(paths, files, edits) == {}
    ensures forall i | 0 <= i < |edits| :: ChangedPath(paths, files, edits[i]).None?
    decreases |edits|
  {
    hide ChangedPath;
    if edits != [] {
      NothingStaged(paths, AfterEdit(paths, files, edits[0]), edits[1..]);
      assert forall i | 1 <= i < |edits| :: edits[i] == edits[1..][i - 1];
    }
  }

  // A run stages something exactly when the files do not carry its edits yet.
  lemma StagedUnlessCarried(paths: Paths, files: Files, edits: seq<Edit>)
    requires CanonFiles(files)
    ensures Staged(paths, files, edits) == {} <==> Carries(paths, files, edits)
    ensures Carries(paths, files, edits) ==> AfterAll(paths, files, edits) == files
  {
    hide AfterAll, Staged, ChangedPath, Carries, CanonFiles;
    CarriesIffIdle(paths, files, edits);
    if Carries(paths, files, edits) { IdleRun(paths, files, edits); }
    if Staged(paths, files, edits) == {} { NothingStaged(paths, files, edits); }
  }

  // After one run of safe edits, the files show every edit that could be made, and if the
  // run staged anything, the files are no longer what they were.
  lemma RunConverges(paths: Paths, files: Files, edits: seq<Edit>, t: Target)
    requires SafeEdits(paths, files, edits, t)
    ensures var after := AfterAll(paths, files, edits);
            && SafeEdits(paths, after, edits, t) && Carries(paths, after, edits)
            && Delivers(paths, files, after, edits)
            && (Staged(paths, files, edits) != {} <==> after != files)
  {
    hide EditFile, Safe, CanonFile, FileRun, Shows;
    var after := AfterAll(paths, files, edits);
    var path := TargetFile(paths, files, t);
    RunOnOneFile(paths, files, edits, t);
    assert forall p :: p in after <==> p in files;
    assert TargetFile(paths, after, t) == path;
    if path.Some? && path.value in files {
      var f := files[path.value];
      assert edits[0..] == edits;
      FileRunSettles(t.kind, f, edits, 0);
      SafeIsCanon(t.kind, after[path.value], edits);
    }
    forall p | p in after
      ensures CanonFile(after[p])
    {
      assert p in files;
    }
    CarriesIffIdle(paths, after, edits);
    StagedUnlessCarried(paths, files, edits);
    DeliversWhenCarried(paths, files, after, edits, t);
  }

  lemma DeliversWhenCarried(paths: Paths, files: Files, after: Files, edits: seq<Edit>, t: Target)
    requires OneTarget(edits, t) && Carries(paths, after, edits)
    requires var path := TargetFile(paths, files, t);
             && TargetFile(paths, after, t) == path && after.Keys == files.Keys
             && (path.Some? && path.value in files ==>
                   && path.value in after
                   && forall k | 0 <= k < |edits| ::
                        EditFile(after[path.value], edits[k]).EditFailed? == EditFile(files[path.value], edits[k]).EditFailed?)
    ensures Delivers(paths, files, after, edits)
  {
    hide EditFile, Shows, TargetFile;
    assert forall p :: p in after <==> p in files;
  }
}
