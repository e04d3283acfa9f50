# A verified model of the image updater operator

The operator watches image repositories, selects a tag for each ImagePolicy, and brings
workloads to the selected image, either by patching the live object or by committing an
edit to the Git repository a GitOps controller syncs from. This project models the code
that decides what is selected, what is written and when, and proves what it guarantees.
`dafny verify dfyconfig.toml` checks everything.

- **Tag selection** (`Text`, `NaturalOrder`, `StableSort`, `Winners`, `TagPolicy`,
  `RuleTexts`, `NumericTags`): the chunked natural comparator, the stable sort whose end is
  the answer, and the four rules, each loop proved against one linear scan. Regular
  expressions and semantic versions are functions of an `Engines` value; the only law
  assumed of them is that version precedence is a total preorder (section 11 of Semantic
  Versioning 2.0.0).
- **YAML editing** (`YamlTree`, `YamlPath`, `PathTexts`, `YamlNodes`, `YamlEdit`,
  `YamlWrites`, `YamlFile`, `HelmTarget`, `KeyTexts`, `KustomizeTarget`, `KustomizeLaws`,
  `ManifestTarget`, `ManifestLaws`, `FileTexts`, `FileDocuments`, `ImageRef`): node trees
  are heap objects with a ghost shape and a view to an immutable tree (the representation
  graph of section 3.2.1 of YAML 1.2.2). Every editing routine changes them in place and is
  proved to do what a pure function on views does; the laws are then proved about those
  functions. `Canon` is what is left of a tree once it is written out and parsed again. A
  file is its documents, whether the parser gives up after them, and whether its text is the
  encoder's own (`own`): two files of the encoder's own with the same documents are the same
  bytes, one with another layout differs from both.
- **Git write-back** (`GitWriteBack`, `GitTexts`, `GitRemote`, `HelmOrder`, `HelmLayout`,
  `KustomizeOrder`, `GitOrder`): one edit applied to a clone, a run of edits, and a branch
  as a log of file trees on which clones, operator pushes and other people's pushes
  interleave. A commit that would equal its parent is refused, as the git library does.
- **The operator** (`PolicyStatus`, `Workload`, `WorkloadReconcile`, `WorkloadLaws`,
  `WorkloadTexts`, `Operator`, `OperatorLaws`, `GitSettles`, `EndToEnd`): policies whose
  status is written under optimistic locking, workloads with annotations and containers, and
  one machine in which users, scans, reconciles and other writers take steps in any order.

The modules whose names end in `Texts`, and `EndToEnd`, tell each operation again from the
outside: in annotation keys and values, rule texts, key paths, list indexes as they are
written, and image references, without the functions the operation is computed with.

Abstract inputs: registry answers, secrets and clocks are arguments of the steps (one clock
reading serves a whole scan); path cleaning and joining are functions in `Paths`; what others
push, and when, is any sequence of steps. A `char` stands for a byte.

## Findings

Where the code does not do what one would expect, the exact condition is proved.

- `upsertScalar` keeps kind and content of an existing leaf, `setScalar` does not. An edit of
  the tag alone settles exactly when its key does not lead to a mapping or a list
  (`TagOnlySettlesIff`). Otherwise it never becomes idle: any number of undisturbed rounds
  leaves something to stage, yet all of them together add at most one commit, since the git
  library refuses one that equals its parent (`TagOnlyNeverIdle`); every such round ends in an
  error event. `MappingLeafNeverSettles` is the smallest case, with no commit at all.
- `upsertScalar` keeps an alias an alias, so the new text takes the place of its anchor's name,
  and a parser may find no such anchor. That happens exactly when the written leaf was an alias
  under a mapping (`AliasRenamedIff`).
- `EditHelmValues` with both keys settles exactly when they lead to different, unnested places
  that are absent or scalars (`HelmSettlesIff`); `EditKustomization` exactly when the entry's
  `newTag` is absent or a scalar and, with no entry yet, `images` is absent or a list
  (`KustomizeSettlesIff`).
- A `numerical` policy orders all tags. The program's README.md:448 says non-numeric tags
  are ignored; a word beats any number under `desc` (`WordBeatsNumber`). With a number among
  the tags, the policy selects what it selects among the numbers alone exactly when no other
  tag outdoes them all: under `desc` one that starts above '9' or with a run of digits of at
  least the greatest value, under `asc` an empty one or one that starts below '0' or with a
  run of smaller value than the least (`NumbersDecideIff`).
- The comment on `walkContainers` (internal/gitwriteback/edit.go:327) asks for both `name`
  and `image`; the code tests `image` only. Only named mappings are edited exactly when the
  edit is scoped to a container, or its repository contains '@' and nothing can match
  (`NamedIffScoped`).
- `yaml.Unmarshal` reads the first document only. A Helm or kustomize edit keeps the documents
  of its file exactly when it changes nothing or there is one document (`HelmDocuments`,
  `KustomizeDocuments`, `SecondDocumentLost`); a manifest edit always keeps them.
- A Git edit writes the policy's current repository with its latest tag, while the reconcile
  waits for the image of the last good scan. The two differ exactly from an edit of the
  repository until the next good scan (`GitWritesWhatIsAwaited`, `SyncedIsQuietIff`,
  `RepositoryEditOpensGap`).

## Model

| member | source | states |
|---|---|---|
| NaturalOrder.IsDigits | internal/policy/policy.go:220-230 | true exactly for non-empty strings of ASCII digits |
| NaturalOrder.ChunksLoseNothing | internal/policy/policy.go:175-179 | the chunks of a tag, joined, are the tag |
| NaturalOrder.ChunksAlternate | internal/policy/policy.go:175-179 | chunks are maximal runs: each all digits or free of digits, neighbours of different kind |
| NaturalOrder.ChunksOfConcat | internal/policy/policy.go:175-179 | an alternating list of runs is the chunking of its own concatenation, so the decomposition is unique |
| NaturalOrder.NaturalCompare | internal/policy/policy.go:177-218 | the early-return loop computes the recursive comparison the laws below are about |
| NaturalOrder.MixedChunks | internal/policy/policy.go:201-208 | all digit runs fall on the same side of any chunk without digits, decided by that chunk's first byte |
| NaturalOrder.TotalPreorder | internal/policy/policy.go:177-218 | the comparison is reflexive, sign-antisymmetric and transitive on all strings, strictness included |
| NaturalOrder.DigitRunsByValue | internal/policy/policy.go:185-200 | for digit runs of any length, trim, compare lengths, compare text has the sign of comparing decimal values |
| NaturalOrder.TieIffSameNormalForm | internal/policy/policy.go:175-218 | two tags tie exactly when they agree once every maximal digit run is written without leading zeros |
| RuleTexts.BytesDecide | internal/policy/policy.go:168-169 | the text comparison is the byte-wise one: agree up to a place where the first ends or has the smaller byte |
| RuleTexts.NaturalInTexts | internal/policy/policy.go:175-218 | for tags written as alternating runs: the first is below the second exactly when the runs tie up to a place where it ends or has the lesser run, digits by value, anything else by bytes |
| StableSort.SliceStable | internal/policy/policy.go:137-139 | the in-place sort leaves the array as the specification sort of its old contents |
| StableSort.SortIsStable | internal/policy/policy.go:137-139 | the result is sorted and, for every element, the elements tied with it appear in input order |
| StableSort.StableSortIsUnique | internal/policy/policy.go:137-159 | any two sorted sequences with the same tie classes in the same order are equal, so every stable sort gives this result |
| StableSort.SortEnds | internal/policy/policy.go:141-164 | the first element after the sort is the first minimal input, the last element is the last maximal input |
| Winners.ScanConcat | internal/policy/policy.go:86-100 | scanning a concatenation is deciding between the winners of the parts |
| TagPolicy.Filter | internal/policy/policy.go:69-77 | keeps exactly the matching tags, in order |
| TagPolicy.SelectSemver | internal/policy/policy.go:80-102 | an error for a bad range, otherwise the scan winner among tags that parse (one leading v cut) and satisfy it, or empty |
| TagPolicy.TakeEnd | internal/policy/policy.go:133-145 | sorting pairs in place and taking the end the order asks for gives the original tag that wins the scan by keys |
| TagPolicy.SelectRegex | internal/policy/policy.go:107-146 | an error for a bad pattern, otherwise the original tag that wins among the matching ones, or empty |
| TagPolicy.SelectOrdered | internal/policy/policy.go:150-165 | the winner among all tags in the chosen order, or empty |
| TagPolicy.Select | internal/policy/policy.go:37-60 | filter first, then the first rule set; errors and empty answers as specified |
| TagPolicy.PairLessIsOrder | internal/policy/policy.go:133-139 | both comparators are strict weak orders, which is what the sort demands |
| TagPolicy.SelectedIsTheWinner | internal/policy/policy.go:37-165 | a non-empty answer is the tag at a winning position and every winning position carries it; empty exactly when no tag passes filter and rule |
| TagPolicy.WinningPosition | internal/policy/policy.go:80-165 | winning means: semver, first of the newest admitted versions; asc, first of the least keys; otherwise last of the greatest keys |
| TagPolicy.SelectConcat | internal/policy/policy.go:37-165 | selecting from two lists of non-empty tags is selecting from their winners, for every rule and with exact ties |
| TagPolicy.DropLoser | internal/policy/policy.go:37-165 | removing a tag that does not win leaves the winner |
| TagPolicy.NewTagsNeverLower | internal/policy/policy.go:37-165 | more tags never lower a semver or desc winner |
| RuleTexts.AlphabeticalInTexts | internal/policy/policy.go:150-165 | with order "asc" the first of the byte-wise least tags the filter lets through, with any other text the last of the greatest |
| RuleTexts.NumericalInTexts | internal/policy/policy.go:150-165 | the same by naturalCompare, whatever an alphabetical rule beside it says |
| RuleTexts.RegexInTexts | internal/policy/policy.go:107-146 | the same among the tags the pattern matches, on what the template extracts where there is one, by naturalCompare when numeric is set and by bytes when not, whatever ordered rules are beside it |
| RuleTexts.SemverInTexts | internal/policy/policy.go:80-102 | the first of the newest versions in the range, one leading v ignored, whatever other rules are set |
| NumericTags.TagAgainstNumber | internal/policy/policy.go:177-218 | a tag that is no number is above a number exactly when it starts above '9' or with a run of digits of at least that value, and otherwise below; it never ties |
| NumericTags.NumbersDecideIff | internal/policy/policy.go:53-54 | with a number admitted, a numerical policy selects what it selects among the numbers alone exactly when no other admitted tag outdoes them all |
| NumericTags.WordBeatsNumber | internal/policy/policy.go:150-165 | desc on a number and a word selects the word, against the program's README.md:448 |
| ImageRef.JoinThenRepo | internal/gitwriteback/edit.go:166-175 | stripping repository:tag gives the repository exactly when it has no @ and the tag, up to its own digest, has no colon and no slash; ports are fine |
| FileTexts.RepoOfReference | internal/gitwriteback/edit.go:166-175 | of a repository, ports included, with a tag, a digest, both or neither, the repository is what is left |
| ImageRef.StrippersAgree | internal/webhook/providers.go:108-115 | repoOf and stripTag agree exactly when what stripTag keeps has no @, in particular on every reference without @ |
| YamlTree.PutChildCommute | internal/gitwriteback/edit.go:247-269 | replacing two different existing children commutes |
| PathTexts.IndexTexts | internal/gitwriteback/edit.go:258-262 | the index texts are an optional sign and digits, a minus before zero only, and none stands for two elements |
| PathTexts.ElementInTexts | internal/gitwriteback/edit.go:258-266 | in a list every text of n, zeros and plus sign included, writes element n and no other, and is out of range past the end |
| PathTexts.NoElement | internal/gitwriteback/edit.go:259-262 | any other text is out of range |
| PathTexts.GetInTexts | internal/gitwriteback/edit.go:240-298 | a path resolves by the first key with each segment's text, or the element it numbers |
| PathTexts.PutInTexts | internal/gitwriteback/edit.go:240-325 | a write succeeds with a tree exactly when that tree has one child replaced at each step, or a plain "!!str" key with an "!!map" or "!!str" value added where the key is missing, and the text at the end |
| PathTexts.FailureInTexts | internal/gitwriteback/edit.go:240-272 | it fails exactly when the path is empty, has an index no element has, or goes on below something that holds nothing |
| YamlPath.PutThenGet | internal/gitwriteback/edit.go:240-325 | after a successful write the path reads the value, tagged as a string if anything changed, and reads a scalar exactly when the leaf was absent, a scalar, or a list element |
| YamlPath.PutKeepsKind | internal/gitwriteback/edit.go:313-325 | without that guard the leaf keeps the non-scalar kind it had |
| YamlPath.AliasRenamedIff | internal/gitwriteback/edit.go:313-325 | the written leaf is an alias afterwards, named by the new text, exactly when it was an alias under a mapping |
| YamlPath.ChangedIffDifferent | internal/gitwriteback/edit.go:240-325 | the flag is true exactly when the tree differs, created mappings included |
| YamlPath.PutTwice | internal/gitwriteback/edit.go:240-325 | a second identical write reports no change |
| YamlPath.UnchangedIffReads | internal/gitwriteback/edit.go:240-325 | a write reports no change exactly when the path leads to its text, in a list to a scalar with it |
| YamlPath.FreshNeverFails | internal/gitwriteback/edit.go:252-256 | below a mapping just created every non-empty rest of a path succeeds |
| YamlPath.PutFrame | internal/gitwriteback/edit.go:247-269 | nodes not at or below the written location keep kind, tag and text, and scalars and aliases are kept whole |
| YamlPath.PutIsLocated | internal/gitwriteback/edit.go:240-272 | a written path has a location afterwards, so the frame covers every successful write |
| YamlPath.DivergeByLocation | internal/gitwriteback/edit.go:258-266 | two paths to existing nodes are independent exactly when neither resolved location is at or below the other, whatever the index texts |
| YamlPath.PutsCommute | internal/gitwriteback/edit.go:240-272 | writes to existing independent places give the same tree in either order |
| YamlPath.DivergingUnaffected | internal/gitwriteback/edit.go:240-272 | a write changes neither what an independent path reads nor what writing there would do, errors included |
| YamlPath.OrderDoesNotShow | internal/gitwriteback/edit.go:240-325 | independent writes that also create keys show the same at every path in either order |
| YamlEdit.MappingValue | internal/gitwriteback/edit.go:288-298 | returns the node of the first value under the key, or null when there is none |
| YamlEdit.SetMappingValue | internal/gitwriteback/edit.go:301-310 | replaces the value or appends key and value, in place |
| YamlEdit.UpsertScalar | internal/gitwriteback/edit.go:313-325 | in place, the one-segment write of the specification, with its flag |
| YamlEdit.SetScalar | internal/gitwriteback/edit.go:275-285 | in place, a plain scalar, and whether that changed anything |
| YamlEdit.SetByPath | internal/gitwriteback/edit.go:240-272 | the loop moving a pointer down does the pure write to the whole tree; on any error the whole tree is as before; the return after the loop is reached for an empty path only |
| YamlWrites.PutAllSettles | internal/gitwriteback/edit.go:79-90 | after independent writes each of them finds nothing to do |
| YamlWrites.PutAllOutcome | internal/gitwriteback/edit.go:79-90 | independent writes fail together exactly when one alone would, and report a change exactly when one alone would |
| YamlWrites.RunSettles | internal/controller/workload_controller.go:241-259 | one pass over conflict-free edits leaves nothing for a second |
| YamlFile.PutSurvives | internal/gitwriteback/edit.go:209-218 | a guarded write survives writing and parsing; any written leaf but an alias comes back as its written form |
| YamlFile.CanonPaths | internal/gitwriteback/edit.go:177-218 | paths resolve and meet in the written file as they did in the tree |
| YamlFile.Encode | internal/gitwriteback/edit.go:220-233 | writes out exactly the written form of the node tree |
| HelmTarget.EditHelmValues | internal/gitwriteback/edit.go:70-92 | both keys or nothing: an error at either gives no file |
| KeyTexts.SplitThenJoin | internal/gitwriteback/edit.go:80-86 | the parts of a key have no dots and, joined by dots, are the key |
| KeyTexts.JoinThenSplit | internal/gitwriteback/edit.go:80-86 | a key joined from parts without dots splits into them |
| KeyTexts.HelmInTexts | internal/gitwriteback/edit.go:70-92 | with keys joined from parts: the repository is written along the first, then the tag along the second, and the file is that tree, or untouched when neither changed anything |
| KeyTexts.TagInTexts | internal/gitwriteback/edit.go:70-92 | with no name key, the tag alone |
| KeyTexts.HelmFailsInTexts | internal/gitwriteback/edit.go:79-90 | a key that is blocked leaves no file, whichever of the two it is |
| KeyTexts.HelmReadsInTexts | internal/gitwriteback/edit.go:70-92 | after a safe edit the path of those parts leads to a scalar with the repository, and to one with the tag |
| HelmTarget.HelmReadsBack | internal/gitwriteback/edit.go:70-92 | after a safe edit both keys read back from the file as scalars |
| HelmTarget.HelmSettlesIff | internal/gitwriteback/edit.go:70-92 | run again on its own output it reports no change exactly when the keys lead to different, unnested places that are absent or scalars |
| HelmTarget.TagOnlySettlesIff | internal/gitwriteback/edit.go:68-92 | with no name key, the second run on the written file reports a change exactly when the tag key led to a mapping or a list |
| HelmTarget.SafeIffSettles | internal/gitwriteback/edit.go:70-92 | of one edit with both keys, the guard used for several edits says no more than that it settles |
| HelmTarget.TagSafeIffSettles | internal/gitwriteback/edit.go:70-92 | the same of an edit of the tag alone |
| HelmTarget.HelmUnchangedIffShows | internal/gitwriteback/edit.go:70-92 | on every file: no change exactly when every key asked for reads its value |
| HelmTarget.HelmStep | internal/gitwriteback/edit.go:70-92 | one edit of a safe set keeps the set safe, is done, and leaves every other failing or not as before, done if it was done, and with as much to do unless the two share a write |
| KustomizeTarget.FindImage | internal/gitwriteback/edit.go:106-110 | finds the first mapping in the list that is named by the repository |
| KustomizeTarget.UpsertImage | internal/gitwriteback/edit.go:101-118 | in place, the upsert of the specification, with its flag |
| KustomizeTarget.EditKustomization | internal/gitwriteback/edit.go:96-120 | from file to file, the same upsert; an unchanged file is returned as it was |
| FileTexts.KustomizeInTexts | internal/gitwriteback/edit.go:96-120 | exactly: newTag is written in the first mapping whose name is the repository, or an entry of name and newTag is added, under the first images key or an "!!seq" added for it |
| FileTexts.KustomizeFileInTexts | internal/gitwriteback/edit.go:96-120 | and the file is that document, or untouched when it has it already |
| FileTexts.ReadableIff | internal/gitwriteback/edit.go:177-190 | a file is read exactly when its first document is a mapping, whatever follows it |
| KustomizeLaws.UpsertEntryIsCorrect | internal/gitwriteback/edit.go:106-119 | the first entry of that name carries the tag; an entry is added exactly when none matched; all others keep content and order; the flag is exact; a second run changes nothing |
| KustomizeLaws.UpsertIsCorrect | internal/gitwriteback/edit.go:96-120 | the same for the whole document: every other key is as before |
| KustomizeLaws.KustomizeSettlesIff | internal/gitwriteback/edit.go:96-120 | run again on the written file it reports no change exactly when newTag is absent or a scalar or, with no entry, images is absent or a list |
| KustomizeLaws.SafeIffSettles | internal/gitwriteback/edit.go:96-120 | of one edit, the guard used for several says no more than that it settles |
| KustomizeLaws.KustomizeUnchangedIffShows | internal/gitwriteback/edit.go:96-120 | no change exactly when the first entry of that name has the tag |
| ManifestTarget.Editor.Visit | internal/gitwriteback/edit.go:133-152 | the callback sets one mapping's image in place and raises the captured flag exactly on a change |
| ManifestTarget.Editor.Walk | internal/gitwriteback/edit.go:329-341 | the walk with that callback rewrites the whole tree and the flag is exact |
| ManifestTarget.EditManifest | internal/gitwriteback/edit.go:125-162 | all documents are rewritten, or the file is returned unchanged, or nothing on a parse error |
| FileTexts.ManifestInTexts | internal/gitwriteback/edit.go:125-162 | in every document of the file, at every place: the first image value of a mapping, with that repository and, when a container is given, that name, reads repository:tag as "!!str"; everything else is as it was |
| ManifestLaws.RewriteExactly | internal/gitwriteback/edit.go:133-152 | every node keeps place, kind and number of children; targets read repository:tag; all other nodes keep tag and text |
| ManifestLaws.ChangesIffDifferent | internal/gitwriteback/edit.go:131-156 | changed is true exactly when the tree differs |
| ManifestLaws.RepositoriesKept | internal/gitwriteback/edit.go:137-151 | for a well-formed reference no node's repository changes |
| ManifestLaws.ShowsIffUnchanged | internal/gitwriteback/edit.go:131-156 | no change exactly when every image the edit is about reads repository:tag |
| ManifestLaws.EndsWithImageIff | internal/gitwriteback/edit.go:131-152 | for a well-formed reference, some image the edit is about reads repository:tag afterwards exactly when the document had one to set |
| ManifestLaws.NamedIffScoped | internal/gitwriteback/edit.go:327-341 | only mappings with a name are edited exactly when the edit names a container or no image can match |
| ManifestLaws.RewriteTwice | internal/gitwriteback/edit.go:125-162 | a second run changes nothing |
| ManifestLaws.RewritesCommute | internal/gitwriteback/edit.go:133-152 | edits scoped to different containers commute exactly, on every tree |
| ManifestLaws.AnyOrder | internal/controller/workload_controller.go:241-259 | any order of container-scoped edits gives the same tree |
| FileDocuments.HelmDocuments | internal/gitwriteback/edit.go:177-218 | a Helm edit keeps the number of documents exactly when it changes nothing or there is one |
| FileDocuments.KustomizeDocuments | internal/gitwriteback/edit.go:177-218 | the same for a kustomization |
| FileDocuments.ManifestDocuments | internal/gitwriteback/edit.go:192-233 | a manifest edit keeps the number of documents |
| FileDocuments.SecondDocumentLost | internal/gitwriteback/edit.go:177-218 | a values file whose second document, whatever it is, is gone after one edit |
| GitWriteBack.WorkTree.Apply | internal/gitwriteback/apply.go:42-77 | the file is written only when the edit reported a change and no error; the path is returned exactly then |
| GitWriteBack.WorkTree.ApplyAll | internal/controller/workload_controller.go:239-259 | an error skips its container only; the staged paths are those some edit changed |
| GitWriteBack.RunOnOneFile | internal/controller/workload_controller.go:241-259 | with one target a run touches that file and nothing else |
| GitWriteBack.CarriesIffIdle | internal/gitwriteback/apply.go:42-77 | every edit fails or is shown by its file exactly when no edit reports a change |
| GitWriteBack.StagedUnlessCarried | internal/controller/workload_controller.go:241-263 | a run stages nothing exactly when the files carry the selections already, and then it leaves them alone |
| GitWriteBack.RunConverges | internal/controller/workload_controller.go:241-263 | after a run of safe edits the files show every edit that could be made, the others still fail, and the files differ exactly if anything was staged |
| GitTexts.FileInTexts | internal/gitwriteback/apply.go:79-101 | the file of an edit is the target's own path, or the kustomization.yaml of its directory, or else its kustomization.yml, when it is there |
| GitTexts.ShownInTexts | internal/gitwriteback/edit.go:70-162 | "the branch shows the edit" means: the parts of its keys lead to repository and tag; the first entry of that name has the newTag; every image it is about reads repository:tag |
| GitRemote.CommitIsWorkTree | internal/gitwriteback/git.go:123-133 | staging only the changed paths commits the whole work tree |
| GitRemote.RunKeeps | internal/gitwriteback/git.go:93-146 | in every interleaving of clones, pushes and foreign commits the log only grows, and every operator commit is its parent with exactly its own edits applied and differs from it |
| GitRemote.ForeignBranch | internal/gitwriteback/git.go:93-146 | any branch the operator has not touched is a start for all of this |
| GitRemote.OperatorCommitDiffers | internal/gitwriteback/git.go:117-133 | with no guard on its edits, every operator commit of a run differs from its parent, which did not carry its edits |
| GitRemote.OperatorCommit | internal/controller/workload_controller.go:239-275 | with safe edits it differs in the target file alone, and shows every edit that could be made on the parent |
| GitRemote.NoFurtherCommit | internal/controller/workload_controller.go:202-263 | once the head shows every edit that can be made on it, no later reconcile adds a commit, however reconciles interleave |
| GitRemote.OneRoundConverges | internal/controller/workload_controller.go:206-281 | after one undisturbed round the head shows every edit that could be made, and a commit was added exactly if it did not before |
| GitRemote.Branch.WriteBackGit | internal/controller/workload_controller.go:206-281 | nothing staged, nothing committed; a commit equal to its parent is refused (git.go:128-133); a branch that moved since the clone refuses the push; otherwise one commit on top of it; the log is that of the machine after clone, the others' pushes and push |
| GitRemote.TagOnlyNeverIdle | internal/gitwriteback/edit.go:313-325 | a tag-only edit whose key leads to a mapping or a list has something to stage after any number of undisturbed rounds, which add at most one commit in all |
| GitRemote.MappingLeafNeverSettles | internal/gitwriteback/edit.go:313-325 | a file and such an edit with something to stage in every round and no commit ever |
| HelmOrder.AnyOrderShowsTheSame | internal/controller/workload_controller.go:241-259 | any number of conflict-free all-or-nothing edits, failing ones included, show the same at every path in any order |
| HelmOrder.HelmOrderDoesNotShow | internal/gitwriteback/edit.go:70-92 | the same for the values file itself |
| HelmLayout.RunGrows | internal/gitwriteback/edit.go:247-325 | whatever edits are run, failing ones included: key nodes and the values of repeated keys stay as and where they were, and added keys are plain and not repeated |
| HelmLayout.OnlyAddedPairsMove | internal/gitwriteback/edit.go:70-92 | in any two orders of safe edits the values files are node for node the same but for the order of the added pairs |
| KustomizeOrder.AnyOrder | internal/gitwriteback/edit.go:96-120 | any order of upserts gives the same entries, and the same entry for every name |
| KustomizeOrder.KustomizeOrderDoesNotShow | internal/gitwriteback/edit.go:96-120 | for the file itself: the two documents are the same node for node but for the order of the image entries |
| KustomizeOrder.OtherKeysSame | internal/gitwriteback/edit.go:96-120 | so every key other than images leads to the same place and value |
| GitOrder.SameEdits | internal/controller/workload_controller.go:101-133 | two walks over one workload's bindings find the same edits in another order |
| GitOrder.StagingOrder | internal/controller/workload_controller.go:241-263 | whether a run has anything to commit does not depend on its order, with no guard |
| GitOrder.CommitOrderDoesNotShow | internal/controller/workload_controller.go:101-133 | for every kind of target the order decides neither whether a commit is made nor any file but the target; values files read the same at every path, kustomizations differ in the order of image entries only |
| GitOrder.ManifestOrderDoesNotShow | internal/controller/workload_controller.go:101-133 | for a manifest the files are identical, with no guard |
| PolicyStatus.ReadySetIs | internal/controller/imagepolicy_controller.go:175-194 | at most one Ready condition, all other conditions kept, and a transition time that moves exactly on a flip |
| PolicyStatus.ImagePolicy.SetReady | internal/controller/imagepolicy_controller.go:175-194 | the loop over the conditions overwrites or appends as specified |
| PolicyStatus.ImagePolicy.Reconcile | internal/controller/imagepolicy_controller.go:77-137 | the whole new status in every case: suspended, four failures, success |
| PolicyStatus.ScanInTexts | internal/controller/imagepolicy_controller.go:77-173 | after each outcome of a scan the whole status: tag, repository:tag, time and count of a good one; kept, with the reason of the failure under Ready, otherwise |
| PolicyStatus.FailureKeepsPair | internal/controller/imagepolicy_controller.go:159-173 | a failed scan keeps tag, image, time and count of the last good one and turns Ready off |
| PolicyStatus.RunKeeps | internal/controller/imagepolicy_controller.go:77-194 | the status invariant holds in every interleaving of scans, spec edits (of any field: each raises the generation) and other writes, a write succeeding only against the version read |
| PolicyStatus.ReadyMeansSelected | internal/controller/imagepolicy_controller.go:112-122 | Ready at the current generation means: the tag was selected under the current spec from tags a scan listed, and the image is the current repository with it |
| PolicyStatus.StatusOverRuns | internal/controller/imagepolicy_controller.go:159-194 | over every run: one Ready condition at most, its time that of the last flip, and a pair from the last good scan |
| PolicyStatus.SuspendedStays | internal/controller/imagepolicy_controller.go:87-90 | whatever scans finish on a suspended policy, its status stays |
| PolicyStatus.StaleScanIsLost | internal/controller/imagepolicy_controller.go:124-128 | a scan that read the object before somebody wrote it stores nothing |
| Workload.ContainerPolicies | internal/workload/workload.go:137-145 | exactly the non-empty bindings, whatever order the map is walked in |
| Workload.OwnKeysApart | internal/workload/workload.go:31-85 | none of the annotations the operator reads, the Git branch and secret included, has the prefix of the ones it writes |
| WorkloadReconcile.WorkloadObject.IndexContainers | internal/controller/workload_controller.go:309-315 | every name leads to the last container of that name, init containers first |
| WorkloadReconcile.WorkloadObject.Collect | internal/controller/workload_controller.go:98-133 | exactly one pending update for every container that wants one, each with its own container object, and the requeue flag |
| WorkloadReconcile.WorkloadObject.PatchLive | internal/controller/workload_controller.go:183-200 | writing through the container pointers and the annotation map sets the wanted images and their marks and nothing else |
| WorkloadReconcile.WorkloadObject.Reconcile | internal/controller/workload_controller.go:79-143 | the new object is the live patch of the old one, independent of map order; git method leaves it alone and hands over one edit per pending container |
| WorkloadTexts.WantsInTexts | internal/controller/workload_controller.go:98-181 | a container is pending exactly when its binding, its last namesake, the scanned image, the method or mutability, and mode and approval annotations say so, key by key |
| WorkloadTexts.ModeDecides | internal/controller/workload_controller.go:296-307 | the update-mode annotation if it is one of the three texts, else the policy's own: "DryRun" changes nothing, "Approval" waits for the approve annotation to be the latest tag, anything else takes the policy's image |
| WorkloadTexts.DueImage | internal/controller/workload_controller.go:183-200 | a live container that is pending ends with the policy's image and its last-updated annotation |
| WorkloadTexts.NotDue | internal/controller/workload_controller.go:79-200 | and no other container changes |
| WorkloadTexts.OtherAnnotations | internal/controller/workload_controller.go:317-324 | nor any annotation but those |
| WorkloadTexts.TargetInTexts | internal/gitwriteback/edit.go:54-65 | a target is "helm", "kustomize" or "manifest", a colon and a path, and nothing else is one |
| WorkloadTexts.PlaceInTexts | internal/workload/workload.go:116-129 | the branch is the annotated one, or main |
| WorkloadTexts.HandedOver | internal/controller/workload_controller.go:206-250 | by method git exactly the pending containers are handed over, each with its policy's repository and tag and the two Helm keys annotated for it; misconfigured only without repository or target |
| WorkloadReconcile.PatchOneMore | internal/controller/workload_controller.go:188-191 | one more pending container is one more image and one more mark of the patch |
| WorkloadLaws.SettingsKept | internal/workload/workload.go:31-85 | bindings, approvals, mode, and all write-back settings (method, repository, branch, secret, target, Helm keys) survive every patch |
| WorkloadLaws.LiveExactly | internal/controller/workload_controller.go:101-200 | a bound, present container whose policy is scanned and whose gate opens ends with the policy's image, with its mark when that is new; otherwise image and mark are kept |
| WorkloadLaws.OthersKept | internal/controller/workload_controller.go:188-191 | shadowed containers and all annotations that are no marks are kept |
| WorkloadLaws.LiveFixedPoint | internal/controller/workload_controller.go:79-200 | after one live reconcile the next one wants nothing and changes nothing |
| WorkloadLaws.ChangedImage | internal/controller/workload_controller.go:147-181 | an image changes only on a mutable live workload, to its policy's image, never in a dry run, with the approve annotation equal to the tag when approval is asked for; ModeDecides has it in texts |
| WorkloadLaws.IndexWorkload | internal/controller/workload_controller.go:339-347 | the index lists exactly the policies the bindings name |
| WorkloadLaws.IndexIsComplete | internal/controller/workload_controller.go:339-364 | the outcome of a reconcile depends on no other policy |
| WorkloadLaws.ManifestEditsAreScoped | internal/controller/workload_controller.go:241-250 | the edits of one reconcile name different containers each, so in a manifest they never conflict |
| Operator.ApprovalOverRuns | internal/controller/workload_controller.go:101-200 | whatever happened before, an image changed by a reconcile is R:T with T selected by a scan under repository R, on a mutable live workload, for the last container of the name the policy annotation binds; neither the update-mode annotation nor, without one, the policy asks for a dry run, and T is the approve annotation where they ask for approval |
| Operator.EverythingAsked | internal/controller/workload_controller.go:202-281 | every operator commit on every branch goes back to a reconcile of the run that found exactly its edits |
| OperatorLaws.GitApprovalOverRuns | internal/controller/workload_controller.go:147-281 | every edit of every such commit aims at the annotated repository, branch and target, writes its policy's repository and a selected tag under the two annotated Helm keys, and passed mode and approval, in texts, at the step that took the clone |
| OperatorLaws.BranchesOverRuns | internal/controller/workload_controller.go:202-281 | branches keep their invariant while policies and workloads change around them |
| OperatorLaws.RoundConverges | internal/controller/workload_controller.go:206-281 | for every kind of target, one undisturbed reconcile and push of safe edits leaves a head that shows every edit that could be made, with a commit exactly if it did not before |
| OperatorLaws.ManifestRoundConverges | internal/controller/workload_controller.go:206-281 | the same for a manifest workload with no guard on its edits |
| GitSettles.RoundsSettleGit | internal/controller/workload_controller.go:79-281 | with no clone outstanding that the head does not carry, one undisturbed round for each Git workload that awaits one, in any order, with safe edits of different files, makes every edit that could be made and ends where GitFallsSilent starts |
| OperatorLaws.GitFallsSilent | internal/controller/workload_controller.go:79-281 | once every branch shows what its workloads select, no number of reconciles and pushes of any workloads adds a commit anywhere |
| OperatorLaws.HandsOff | internal/controller/workload_controller.go:147-166 | no run changes a workload that writes to Git, cannot be patched, or carries the dry-run override |
| OperatorLaws.ReconcilesSettle | internal/controller/workload_controller.go:79-143 | any sequence of reconciles leaves each workload it met as one live patch does, and every other as it was |
| OperatorLaws.ReadyReachesCluster | internal/controller/workload_controller.go:101-200 | when a policy is Ready at its generation and the gate opens, one reconcile gives the container the current repository with a tag the current rule selected |
| OperatorLaws.GitWritesWhatIsAwaited | internal/controller/workload_controller.go:243-250 | the image a Git edit writes is the one the reconcile waits for exactly when the repository is that of the last good scan |
| OperatorLaws.SyncedIsQuietIff | internal/controller/workload_controller.go:123-126 | a container of a Git workload that runs what the edit wrote has nothing pending exactly when the repository is still that of the last good scan |
| OperatorLaws.RepositoryEditOpensGap | internal/controller/workload_controller.go:243-250 | a run in which the two images differ |
| EndToEnd.ScanReachesCluster | internal/controller/workload_controller.go:79-200 | from any state: one scan that selects a tag and one reconcile give a bound live container repository:tag, unless a dry run is asked for or an approval is missing |
| EndToEnd.FromNothing | internal/controller/workload_controller.go:79-200 | a policy created, scanned once, and a workload applied and reconciled: the bound container has repository:tag |
| EndToEnd.Deleted | internal/controller/workload_controller.go:79-122 | a deleted policy moves no container any more, and a reconcile does not bring back a deleted workload |
| EndToEnd.ScanReachesGit | internal/controller/workload_controller.go:79-281 | from any state: one scan, one reconcile and its push, of safe edits, leave a branch that says the policy's repository and the selected tag under the annotated keys of the annotated target, unless that edit could not be made |
| EndToEnd.OthersWin | internal/gitwriteback/git.go:134-144 | when somebody pushes between clone and push, the branch ends with their commit and not the operator's |

## Left out

- YAML text: scanning, printing, comments, styles, anchors. Parsing what was written is taken to give the same kinds, tags, keys and texts (`Canon`); an alias is a leaf that is never followed.
- Regular expressions and semantic versions beyond the functions in `Engines`; registry access, keychains, secrets, SSH and HTTPS authentication, temporary directories, file modes.
- KustomizeTarget.EditKustomization: asks for a file that came from the parser, because a mapping with a key but no value cannot be read.
- HelmTarget.HelmStep: a safe set may hold two edits that write one text to one path, not two that write it to nested paths or to one place under two spellings of an index.
- HelmTarget.HelmSettlesIff: speaks of edits with both keys (TagOnlySettlesIff has the others), of two non-empty, different texts and of keys that name no alias; with an alias, or one text for both keys, two writes can agree by accident.
- HelmTarget.TagOnlySettlesIff: asks for a non-empty tag and a key that names no alias, for the same reason.
- NumericTags.NumbersDecideIff: needs a number among the admitted tags, since "the numbers alone" has no greatest one otherwise.
- KustomizeLaws.KustomizeSettlesIff: asks for a non-empty tag and a `newTag` that is no alias, for the same reason.
- TagPolicy.SelectConcat: speaks of non-empty tags; an empty tag cannot be told from no match.
- TagPolicy.SelectOrdered: sorts pairs of tag and key, as the regex rule does, with the tag as its own key.
- GitRemote.RunKeeps: of a file's bytes only the documents and `own` are kept; comments and styles, which an edit carries over as they are, are not. Histories are not rewritten by others, and a push by the operator is not forced.
- YamlFile.PutSurvives: says nothing of an alias that is written over, since anchors are not modelled; AliasRenamedIff has the exact condition.
- GitSettles.RoundsSettleGit: asks that the rounds of one branch edit different files; for several workloads with one file RoundConverges holds of each round on its own.
- Path cleaning and the escape check of `targetFile`, which are a function from target path to place; file reads and writes that fail for reasons other than a missing file.
- The 64-bit range of list indices: an index too large for it is out of range either way.
- WorkloadReconcile.WorkloadObject.Reconcile: reads all policies at one moment and patches the object it read; cache staleness, merge patches and a refused patch are not modelled. The annotations of an object without any are an empty map.
- Event texts, log lines, condition and commit messages, scan intervals, and the namespaces of workloads and policies.
- The webhook receiver apart from `stripTag`, the dashboard, deployment manifests, and watch plumbing apart from the policy index.
