# Verified model of the NVIDIA Container Toolkit's pure cores

A Dafny model of the parts of the toolkit that compute rather than call out:

- **CDI specification simplifier** (`CdiSpec`, `JsonText`, `Transforms`, `Transformers`, `Pipelines`, `SimplifierTheory`,
  `Sorting`, `Overwrites`, `Application`, `Environment`, `Places`). `Transformers` and `Pipelines` hold the in-place code:
  a class for the specification, arrays for the lists that are sorted where they are. `Transforms` says on values what each
  pass computes; `SimplifierTheory` proves what becomes of the entities. `Application` applies edits to a container, where
  entries overwrite each other by variable name or by path (`Overwrites`); `Environment` and `Places` prove what the passes
  change in the env entries, device nodes and mounts that a container ends up with.
- **Mount-spec pipelines** of the Tegra support (`MountSpecs`, `DeviceNodePipelines`). Pipelines refer to mutable maps; a
  pure meaning `Den` is given for every pipeline, and evaluation, which overwrites the source map, is proved to agree.
- **Requirement strings** (`Constraints`, `Semver`): parser, printer, evaluator, and the version order.
- **Walks over graphs with cycles** (`Ldconfig`, `Symlinks`): the include worklist and symlink chains.
- **ld.so.cache** (`LdCache`): the binary format, decoded and encoded, and the library lists.
- **Runtime arguments** (`Args`): two scans that agree on which arguments are option values.

`Sequences`, `Strings`, `Paths`, `Numbers` and `Wrappers` hold what these share. What stands for a function of Go's library
is tied down by its effect on the text: `Strings.LessIff`, `SplitOfJoin` and `TrimSpaceAway`; `Paths.CleanSkips`,
`CleanStepsBack`, `CleanRoot`, `CleanRelative`, `CleanTrailing` and `CleanKeeps`, which together determine `Clean`, and
`DirOf`, `BaseOf`, `BaseTrailing`, `JoinTwoOf`; `JsonText.QuoteOfPlain`, `ShortEscapes`, `HtmlEscapes`, `LineEscapes`, `ControlEscapes`,
`ArrayText`, `DigitsOf` and `DecimalText`.

Conventions. A list of Go pointers is a sequence of options, None for nil. Errors are `Result` or `Option` values.
Methods follow the loops of the code; a ghost argument such as `v` names the value a structure stands for, and `footprint`
the arrays it may refer to. Theorems about the simplifier are stated for every outcome an unstable sort may give.

Where code and comments disagree the model follows the code: the comments on sorting promise a tie-break by host path that
the comparison does not make (`HostPathBreaksNoTie`).

Some promises fail on some inputs and are stated with their exact condition:

- Removing common entities loses one when an env entry on one side is the JSON text of a node, hook or mount on the other
  (`RemovalIsHarmlessIff`, `MeaningPreservedIff`, `ClashLosesNode`); env entries that start with anything but a brace cannot
  do that (`NoBraceNoClash`).
- Deduplicating an env list changes the outcome when a value is set, changed and set back (`DedupeKeepsEnvironmentIff`,
  `SetBackIsLost`); `PipelineKeepsEnvironmentIff` gives the condition for the whole simplifier and all selections of devices.
- The sort by name changes the order in which a whole specification is applied (`ModifyKeepsEnvironmentIff`, `OrderShows`).
- Ties of the unstable sort show in a container where a list has several nodes or mounts at one path (`NodePlacesKeptIff`,
  `MountPlacesKeptIff`).

`dafny verify dfyconfig.toml` checks the whole project.

## Model

| member | source | states |
|---|---|---|
| CdiSpec.IdCollision | pkg/nvcdi/transform/edits.go:141-166 | two entities that share an id are an env entry and something else: ids of nodes, hooks and mounts are injective and differ between these kinds |
| CdiSpec.IdsInjective | pkg/nvcdi/transform/edits.go:143-166 | for each struct kind, equal JSON texts come from equal structs, up to nil and empty lists |
| CdiSpec.IdStartsWithBrace | pkg/nvcdi/transform/edits.go:143-166 | a text that can collide with an env entry starts with a brace |
| JsonText.MarshalInjective | pkg/nvcdi/transform/edits.go:143-146 | the JSON text of a flat struct determines all its fields, dropped ones included |
| CdiSpec.NodeIdText | pkg/nvcdi/transform/edits.go:143-146 | the id of a device node, character by character: a JSON object with the path and whatever else is not empty, zero or nil, in the order of the fields |
| CdiSpec.MountIdText | pkg/nvcdi/transform/edits.go:156-159 | the same for a mount: host path and container path always, options and type if not empty |
| CdiSpec.HookIdText | pkg/nvcdi/transform/edits.go:163-166 | the same for a hook: name and path always, arguments, environment and timeout if given |
| CdiSpec.EmptyIff | pkg/nvcdi/transform/edits.go:29-45 | edits are empty exactly if no device node, env entry, hook or mount is listed |
| Transformers.DeduplicateEntities | pkg/nvcdi/transform/deduplicate.go:88-106 | keeps the first occurrence of each non-nil entity, deciding by id |
| Transformers.DeduplicateList | pkg/nvcdi/transform/deduplicate.go:108-120 | keeps the first occurrence of each entry |
| Transformers.DeduplicateAdditionalGIDs | pkg/nvcdi/transform/deduplicate.go:162-176 | the distinct group ids in ascending order |
| Transformers.DedupeTransformEdits | pkg/nvcdi/transform/deduplicate.go:54-86 | deduplicates every list into newly made lists; net devices and RDT settings stay |
| Transformers.DedupeTransform | pkg/nvcdi/transform/deduplicate.go:35-52 | deduplicates all devices and the common edits; every list of the result is new, no list of the caller is written |
| Transforms.SortNatsSorts | pkg/nvcdi/transform/deduplicate.go:173-173 | the ascending arrangement is ordered and a permutation |
| Sequences.UniqueKeepsOrder | pkg/nvcdi/transform/deduplicate.go:91-105 | survivors of deduplication stand in the order of their first occurrences |
| Transformers.GetEntityIds | pkg/nvcdi/transform/edits.go:47-91 | one id set for the non-nil nodes, env entries, hooks and mounts together |
| Transformers.EntityIdsByKind | pkg/nvcdi/transform/edits.go:93-139 | that set is the union of the four per-kind id sets |
| Transformers.RemoveFromList | pkg/nvcdi/transform/remove.go:56-67 | keeps exactly the entities whose id is not to be removed, in order |
| Transformers.RemoveFromEnv | pkg/nvcdi/transform/remove.go:69-77 | the same for env entries |
| Transformers.RemoveTransformEdits | pkg/nvcdi/transform/remove.go:51-106 | all four lists filtered into new lists, the rest kept |
| Transformers.RemoveTransform | pkg/nvcdi/transform/remove.go:36-49 | only the common edits of the specification change: the edited device copies are dropped |
| Transformers.SimplifyDevice | pkg/nvcdi/transform/simplify.go:58-73 | a device loses its common entities, or keeps its edits if nothing would be left |
| Transformers.SimplifyTransform | pkg/nvcdi/transform/simplify.go:41-78 | deduplicates, then strips each device of the common ids; every list of the result is new |
| Sorting.PathLessIsTotal | pkg/nvcdi/transform/sorter.go:72-96 | the sort order, depth of the cleaned path then path, is a strict total order on paths |
| Sorting.AncestorFirst | pkg/nvcdi/transform/sorter.go:70-81 | a clean absolute path sorts before every path below it, the root included |
| Sorting.SortedAncestorsFirst | pkg/nvcdi/transform/sorter.go:84-96 | in a sorted list an ancestor stands before its descendants |
| SimplifierTheory.HostPathBreaksNoTie | pkg/nvcdi/transform/sorter.go:70-82 | both orders of two nodes with one container path count as sorted: the host path named in the comment is not compared |
| Sorting.PathLessIff | pkg/nvcdi/transform/sorter.go:72-96 | the order compares the numbers of separators of the cleaned paths, then the paths themselves |
| SimplifierTheory.SortedListsInOrder | pkg/nvcdi/transform/sorter.go:84-96 | in a sorted list a mount stands before every mount whose container path lies beneath its own, and a device node likewise by path; both lists ascend in that order |
| SimplifierTheory.OutcomeInOrder | pkg/nvcdi/transform/sorter.go:38-96 | in every outcome of the simplifier this holds for the common edits and for each device, group ids ascend strictly, and devices ascend by name |
| Transformers.SortEdits | pkg/nvcdi/transform/sorter.go:57-61 | every listed node and mount array is sorted where it is, shared arrays included |
| Transformers.SortDevices | pkg/nvcdi/transform/sorter.go:63-68 | devices end up sorted by name, a permutation of what was given |
| Transformers.SorterTransform | pkg/nvcdi/transform/sorter.go:38-55 | sorts nodes and mounts of the common edits and of every device, then the devices |
| Sequences.SortedUpToTies | pkg/nvcdi/transform/sorter.go:64-66 | two sorted permutations of one list agree on their keys: ties are the only freedom of an unstable sort |
| Transforms.SimplifierRuns | pkg/nvcdi/transform/simplify.go:31-37 | running the three passes in sequence is what the theorems call simplifying |
| Pipelines.MergeTransform | pkg/nvcdi/transform/merge.go:29-36 | transformers run one after the other; after the first rebuild only lists made on the way are written |
| Pipelines.SimplifierTransform | pkg/nvcdi/transform/simplify.go:31-78 | whatever arrays devices share on entry, the outcome depends on contents only and none of those arrays is written |
| Pipelines.MergeDeviceSpecs | pkg/nvcdi/transform/merged-device.go:104-126 | no device if the name is taken; otherwise one with the concatenation of all edits |
| Transforms.MergedInOrder | pkg/nvcdi/transform/merged-device.go:113-119 | each of the six lists of the merged edits is the lists of the devices in their order, and the last RDT setting counts |
| Pipelines.MergedDeviceTransform | pkg/nvcdi/transform/merged-device.go:77-100 | a taken name leaves the specification alone and fails unless told to skip; otherwise the merged device is added and the result simplified |
| SimplifierTheory.RemovedEntities | pkg/nvcdi/transform/remove.go:51-106 | removal takes away exactly the entities whose id is in the set |
| SimplifierTheory.SimplifiedEntities | pkg/nvcdi/transform/simplify.go:67-72 | either all entities of a device are common and stay, or exactly the common ids go |
| SimplifierTheory.RemovalIsHarmlessIff | pkg/nvcdi/transform/simplify.go:51-75 | a device and the common edits together keep their entities if and only if the device is all common or no env entry on one side is the JSON text of an entity on the other |
| SimplifierTheory.NoBraceNoClash | pkg/nvcdi/transform/edits.go:148-152 | without env entries starting with a brace there is no such text |
| SimplifierTheory.ClashLosesNode | pkg/nvcdi/transform/simplify.go:51-72 | a concrete clash: a device node is lost because a common env entry is its JSON text |
| SimplifierTheory.MeaningPreserved | pkg/nvcdi/transform/simplify.go:31-78 | for every device name the set of device nodes, env entries, hooks and mounts among the edits of the device and the common edits is unchanged, for any specification without clashes |
| SimplifierTheory.MeaningPreservedIff | pkg/nvcdi/transform/simplify.go:31-78 | with unique device names the meaning is unchanged if and only if no device clashes with the common edits |
| SimplifierTheory.GidsKept | pkg/nvcdi/transform/simplify.go:31-78 | the group ids of each device name and of the common edits are each unchanged |
| SimplifierTheory.AllOrNothingShared | pkg/nvcdi/transform/simplify.go:67-75 | after simplification the ids of a device are disjoint from the common ids or contained in them |
| SimplifierTheory.DevicesStayNonEmpty | pkg/nvcdi/transform/simplify.go:67-72 | a device with at least one non-nil entity stays non-empty |
| SimplifierTheory.NamesKept | pkg/nvcdi/transform/simplify.go:57-75 | the multiset of device names is kept |
| SimplifierTheory.EnvOrderKept | pkg/nvcdi/transform/remove.go:69-77 | env entries keep the order in which the device first listed them |
| SimplifierTheory.HookOrderKept | pkg/nvcdi/transform/remove.go:79-90 | hooks keep the order in which the device first listed them |
| SimplifierTheory.SimplifiedIsSettled | pkg/nvcdi/transform/simplify.go:31-78 | deduplicating and stripping a simplified specification changes nothing |
| SimplifierTheory.SecondRunOnlyReordersTies | pkg/nvcdi/transform/sorter.go:38-96 | a second run changes at most the order of entries tied on their sort key |
| SimplifierTheory.SecondRunIdentity | pkg/nvcdi/transform/simplify.go:31-78 | with distinct names and paths a second run changes nothing |
| SimplifierTheory.MergedDeviceMeaning | pkg/nvcdi/transform/merged-device.go:77-126 | after adding the merged device all others keep their entities and group ids, and the new one has those of all devices and the common edits |
| Application.OciSpec.ApplyEdits | vendor/tags.cncf.io/container-device-interface/pkg/cdi/container-edits.go:72-130 | env entries overwrite by name, device nodes and mounts by container path, each list in order |
| Application.NameIs | vendor/github.com/opencontainers/runtime-tools/generate/generate.go:532-539 | an entry is filed under a name without = exactly if it is that name alone or the name followed by = and a value |
| Application.EnvIsOverwritten | vendor/tags.cncf.io/container-device-interface/pkg/cdi/container-edits.go:81-83 | each variable ends with the last entry that sets it, all others keep what they had |
| Application.NodesAreOverwritten | vendor/tags.cncf.io/container-device-interface/pkg/cdi/container-edits.go:85-106 | each path ends with the last device node listed with it, all others keep theirs |
| Application.MountsAreOverwritten | vendor/tags.cncf.io/container-device-interface/pkg/cdi/container-edits.go:123-129 | each container path ends with the last mount listed with it, all others keep theirs |
| Application.KeyedStays | vendor/github.com/opencontainers/runtime-tools/generate/generate.go:544-553 | a table with every entry under the variable it sets stays so, and no second entry for a variable remains |
| Application.OciSpec.Modify | internal/modifier/cdi/spec.go:38-50 | the edits of the devices are applied in the order of the specification, the common edits last, independently for env entries, device nodes and mounts |
| Application.ModifiedEnv | internal/modifier/cdi/spec.go:38-50 | that overwriting is by the env entries of the devices in order, followed by those of the common edits |
| Application.ModifiedNodes | internal/modifier/cdi/spec.go:38-50 | the same for device nodes by path |
| Application.ModifiedMounts | internal/modifier/cdi/spec.go:38-50 | the same for mounts by container path |
| Application.ModifiedIsFinal | internal/modifier/cdi/spec.go:38-50 | applying a specification is selecting all its devices in the order in which it lists them |
| Application.ModifiedBySimplified | internal/modifier/cdi/spec.go:38-50 | where selections agree, applying the simplified specification applies the original devices in the order of their names |
| Overwrites.AppliedAgreeIff | internal/modifier/cdi/spec.go:38-50 | two specifications leave the same tables for all selections of devices exactly if the common lists end alike for every key, and every device list does where the common list is silent |
| Overwrites.LastStaysIff | pkg/nvcdi/transform/deduplicate.go:91-105 | deduplicating and dropping leaves the last entry of a key as it was exactly if it stays and no entry that stays was introduced after it |
| Environment.RemovalKeepsEnvironment | pkg/nvcdi/transform/simplify.go:51-75 | dropping entries that the common edits hold never changes the final environment, for any sequence of lists |
| Environment.DedupeKeepsEnvironmentIff | pkg/nvcdi/transform/deduplicate.go:108-120 | deduplicating a list keeps every environment if and only if the last value of each name is the one introduced last |
| Environment.NoConflictIsNewest | pkg/nvcdi/transform/deduplicate.go:108-120 | one value for each name in a list is enough for that |
| Environment.SetBackIsLost | pkg/nvcdi/transform/deduplicate.go:108-120 | a value set, changed and set back ends as the value in between |
| Environment.PipelineKeepsEnvironmentIff | pkg/nvcdi/transform/simplify.go:31-78 | every selection of devices ends with the environment it ended with before if and only if the common edits set no value back and, in each device, the last value of a variable that the common edits leave unset stays and is the newest of those that stay |
| Environment.PipelineKeepsEnvironment | pkg/nvcdi/transform/simplify.go:31-78 | so no selection shows a difference if no device is harmed by a clash and no list sets a value back |
| Environment.ModifyKeepsEnvironmentIff | internal/modifier/cdi/spec.go:38-50 | applying the simplified specification as a whole gives every environment that the original gives if and only if the common edits set no value back and, for each variable they leave unset, the last setter in the order of the specification leaves what the last remaining setter in the order of names leaves |
| Environment.OrderShows | pkg/nvcdi/transform/sorter.go:63-68 | two devices that set one variable, listed against the order of their names: the second wins before simplifying, the first wins after, in every outcome |
| Places.NodePlacesKeptIff | pkg/nvcdi/transform/sorter.go:72-82 | every outcome of the simplifier leaves, for every selection of devices, the same device node at each path if and only if each path has one node in the common edits and, in each device that reaches a path the common edits leave free, only the last one stays |
| Places.MountPlacesKeptIff | pkg/nvcdi/transform/sorter.go:86-96 | the same for mounts |
| Places.ArrangeLastSorts | pkg/nvcdi/transform/sorter.go:72-96 | a sort may leave any of the entries with one key last |
| Places.Realize | pkg/nvcdi/transform/simplify.go:31-37 | any choice of sorted lists for the common edits and the devices is an outcome of the simplifier |
| MountSpecs.NormalForm | internal/platform-support/tegra/mount_specs.go:73-95 | a stack of transforms means one filter on its base |
| MountSpecs.FiltersCommute | internal/platform-support/tegra/mount_specs.go:80-90 | transformers may be reordered and repeated |
| MountSpecs.StackingIsAppending | internal/platform-support/tegra/mount_specs.go:73-90 | transforming a transform is listing both transformers |
| MountSpecs.MergeDistributes | internal/platform-support/tegra/mount_specs.go:97-121 | filtering a merge is merging the filtered sources, order within each type included |
| MountSpecs.ApplyByType | internal/platform-support/tegra/filter.go:120-129 | overwrites each list of the map with its filtered list, whatever order the map is walked in |
| MountSpecs.ApplyWithout | internal/platform-support/tegra/filter.go:131-137 | removes the paths matched by the patterns of another pipeline |
| MountSpecs.ApplyIgnoreSymlinks | internal/platform-support/tegra/filter.go:42-61 | filters only the symlink list |
| MountSpecs.ApplyAll | internal/platform-support/tegra/mount_specs.go:82-90 | applies the transformers in sequence to one map; nil ones are skipped |
| MountSpecs.MergeSources | internal/platform-support/tegra/mount_specs.go:106-117 | concatenates the lists of the sources type by type into a new map; nil sources are skipped |
| MountSpecs.EvaluateTransform | internal/platform-support/tegra/mount_specs.go:119-121 | evaluating a transform yields its pure meaning and leaves that meaning unchanged although its source map is overwritten |
| MountSpecs.MountSpecPathsByType | internal/platform-support/tegra/mount_specs.go:45-47 | evaluating any pipeline yields its pure meaning; a pipeline over a raw map answers with that very map |
| MountSpecs.MergeSharedSource | internal/platform-support/tegra/mount_specs.go:106-117 | one raw map feeding a filtered and an unfiltered source yields the filtered lists twice, so the pipelines above must not share maps |
| MountSpecs.EvaluateRepeatedly | internal/platform-support/tegra/mount_specs.go:45-121 | however often a pipeline is evaluated, each answer is what it meant before the first evaluation |
| MountSpecs.PatternLaws | internal/platform-support/tegra/filter.go:28-40 | a pattern after ** and a separator is matched against the last component of a path, any other against the whole path |
| MountSpecs.AnyPattern | internal/platform-support/tegra/filter.go:28-40 | a path is matched if any pattern matches it |
| DeviceNodePipelines.PipelineMeansExpected | pkg/nvcdi/lib-csv.go:178-218 | the dGPU, iGPU and default pipelines mean exactly the stated device nodes, whatever the CSV files list |
| DeviceNodePipelines.DeviceNodeMountSpecs | pkg/nvcdi/lib-csv.go:178-218 | building and evaluating the pipeline of a mode gives exactly those nodes, every time |
| DeviceNodePipelines.RegularNodesAreNumbered | internal/platform-support/tegra/mount_specs.go:151-155 | the regular device nodes are /dev/nvidia followed by a decimal number of any length |
| Constraints.OperatorAtIsLongest | internal/requirements/constraints/factory.go:106-134 | trying the operators in this order finds the longest; a bare exclamation mark is none |
| Constraints.ParseFactor | internal/requirements/constraints/factory.go:101-143 | reads a factor as the specification function says: blank and unsupported factors are skipped |
| Constraints.FactorText | internal/requirements/constraints/factory.go:101-143 | name, operator and value written together are read as that comparison if the name is supported and the value accepted, skipped if it is not supported, refused if it is not accepted |
| Constraints.FactorWithoutOperator | internal/requirements/constraints/factory.go:101-108 | a factor without an operator is skipped if it is blank and refused otherwise |
| Constraints.PrintOfParse | internal/requirements/constraints/factory.go:101-143 | with keys equal to names, printing a parsed comparison gives back the text |
| Constraints.ReparsesIff | internal/requirements/constraints/binary.go:32-34 | a printed comparison is read back as itself if and only if the name has no operator character, the value is accepted, and the value does not start with = after < or > |
| Constraints.NewConstraintFromRequirement | internal/requirements/constraints/factory.go:61-97 | space-separated terms of comma-separated factors; single factors and terms are not wrapped; the first failure is returned |
| Constraints.RequirementMeans | internal/requirements/constraints/factory.go:61-97 | the constraint of one requirement holds iff nothing in it is supported or some term with a supported factor has all its supported factors hold |
| Constraints.TextMeans | internal/requirements/constraints/factory.go:61-97 | a requirement put together from factors with commas and terms with spaces is met, or unreadable, exactly as its factors say |
| Constraints.New | internal/requirements/constraints/factory.go:32-55 | fails iff some factor of a non-blank requirement cannot be read; otherwise the constraint holds iff every requirement is met |
| Constraints.Assert | internal/requirements/constraints/logical.go:31-81 | reports no error iff the constraint is satisfied; a conjunction reports its first unsatisfied operand |
| Constraints.PrintedOperands | internal/requirements/constraints/logical.go:63-90 | operands print with && or \|\| between them |
| Constraints.StringComparison | internal/requirements/constraints/property.go:80-92 | each operator on a string property decides equality or the order of strings; any other operator is an error |
| Constraints.VersionComparison | internal/requirements/constraints/property.go:80-99 | each operator on a version property decides precedence; a property value that is no version comes before every version |
| Constraints.VersionPrefix | internal/requirements/constraints/property.go:128-130 | a leading v is added once |
| Constraints.NumbersDecide | internal/requirements/constraints/property.go:109-117 | versions without pre-release compare by their three numbers, what is left out counting as zero |
| Constraints.MinorDecides | internal/requirements/constraints/property.go:109-117 | with equal major numbers, the minor numbers of two-part versions decide every operator |
| Semver.CompareIsTotalPreorder | vendor/golang.org/x/mod/semver/semver.go:113-141 | comparison is a total preorder; ties are versions equal up to build metadata, or invalid ones, which come first |
| Semver.CompareIntIsNumeric | vendor/golang.org/x/mod/semver/semver.go:322-337 | comparing numerals by length and then by characters compares the numbers |
| Semver.CompareIsPrecedence | vendor/golang.org/x/mod/semver/semver.go:119-141 | comparison is the precedence of section 11 of Semantic Versioning 2.0.0, with invalid versions least |
| Semver.ParsedIsWellFormed | vendor/golang.org/x/mod/semver/semver.go:178-276 | parsed versions have numerals without leading zeros and good pre-release identifiers |
| Semver.ParseIff | vendor/golang.org/x/mod/semver/semver.go:178-310 | a text parses to a version exactly if it is v, a major number, and, each optional after the one before, a minor number, and a patch number with pre-release and build |
| Semver.IdentsAreSplit | vendor/golang.org/x/mod/semver/semver.go:363-367 | the identifiers of a pre-release are what its dots separate |
| Semver.ValueIsDecimal | vendor/golang.org/x/mod/semver/semver.go:322-337 | the number by which numerals compare is the one that their digits write in base ten |
| Ldconfig.ProcessLdsoconfFile | internal/ldconfig/ldconfig.go:344-375 | the directories and the included names of a file, in order; a missing file gives none, an unreadable one an error; a line too long for the scanner ends the file |
| Ldconfig.LineSays | internal/ldconfig/ldconfig.go:357-371 | a trimmed line that is empty or starts with # gives nothing, one that starts with include and a space gives the files its rest stands for, any other gives itself |
| Ldconfig.GraphByText | internal/ldconfig/ldconfig.go:344-375 | the directories and files that a name contributes are those its lines give, up to the first line too long for the scanner |
| Ldconfig.GetLdsoconfDirectories | internal/ldconfig/ldconfig.go:297-333 | terminates on every include graph, cycles included; yields exactly the system paths and the directories of all reachable files, and fails iff a reachable file cannot be read |
| Ldconfig.ConfiguredByText | internal/ldconfig/ldconfig.go:297-333 | a directory is in the result exactly if it is a system path or a line gives it in a file that a chain of include lines leads to |
| Ldconfig.DropInIsConfigured | internal/ldconfig/ldconfig.go:297-333 | what a file lists that the include line of a reachable file stands for is in the result |
| Ldconfig.InvStep | internal/ldconfig/ldconfig.go:305-331 | what every step of the worklist keeps: all it holds is reachable, what processed files include is processed or queued, the directories are those of processed files |
| Ldconfig.InvDone | internal/ldconfig/ldconfig.go:305-332 | with the queue empty the processed files are exactly the reachable ones |
| Ldconfig.FilterDirectories | internal/ldconfig/ldconfig.go:222-237 | the directories not yet configured, each once, in order; fails exactly when reading the configuration does |
| Ldconfig.OutputListToFile | internal/ldconfig/ldconfig.go:268-281 | one line for each distinct directory |
| Ldconfig.WrittenReadsBackIff | internal/ldconfig/ldconfig.go:268-281 | reading the written file gives back the directories iff each is non-empty, trimmed, on one line that the scanner can hold, and neither a comment nor an include |
| Ldconfig.WrittenLines | internal/ldconfig/ldconfig.go:268-281 | the lines of a written file are the directories written, up to the first that is too long |
| Symlinks.ResolveChain | pkg/lookup/symlinks/symlink.go:41-63 | terminates on every finite file system; yields the names met until the first repetition, or an error if one is missing |
| Symlinks.FollowDirectly | pkg/lookup/symlinks/symlink.go:26-38 | a regular file leads to itself, an absolute link to its target as written, a missing name nowhere |
| Symlinks.FollowRelative | pkg/lookup/symlinks/symlink.go:56-61 | a relative target is taken from the directory that holds the link, and cleaned |
| Symlinks.FollowUpwards | pkg/lookup/symlinks/symlink.go:56-61 | so a target that starts with .. leads out of that directory |
| Symlinks.WalkIsChain | pkg/lookup/symlinks/symlink.go:41-63 | the result starts at the name, has distinct elements, each the resolution of its predecessor, the last one leading back into it |
| Symlinks.ChainIsUnique | pkg/lookup/symlinks/symlink.go:41-63 | there is only one such chain |
| Symlinks.WalkFailsIff | pkg/lookup/symlinks/symlink.go:45-49 | resolution fails iff following the links some number of times comes to a missing name |
| Symlinks.Locate | pkg/lookup/symlinks.go:65-93 | with its skips, yields exactly the deduplicated concatenation of the full chains of all candidates, and fails iff one of them fails |
| LdCache.DecodeInvertsEncode | internal/ldcache/ldcache.go:172-184 | bytes decode to a table iff they are the encoding of that well-formed table |
| LdCache.PaddingReachesNextAligned | internal/ldcache/ldcache.go:165-166 | the skipped padding ends at the least multiple of the alignment that is not before the old entries |
| LdCache.FileDecodesIff | internal/ldcache/ldcache.go:149-184 | a file decodes to a table iff it is the encoding of the table, alone or after any old table and its padding |
| LdCache.TableByBytes | internal/ldcache/ldcache.go:172-184 | which bytes are a new table, and at which offsets its counts, records and strings stand |
| LdCache.NewPartByBytes | internal/ldcache/ldcache.go:152-172 | the new table starts at the first multiple of eight after the header and records of an old one, and at once if there is none |
| LdCache.LibrariesRoundTrip | internal/ldcache/ldcache.go:193-237 | writing libraries into a cache file, old table or not, and decoding it gives back the libraries that count |
| LdCache.FlagsByBytes | internal/ldcache/ldcache.go:197-214 | which flag bytes mean an ELF library and which word size, listed in full |
| LdCache.AcceptedIff | internal/ldcache/ldcache.go:193-237 | which entries give a library, and which name, word size and value |
| LdCache.TextUpToZero | internal/ldcache/ldcache.go:259-266 | a text ends at its first zero byte and counts as empty without one |
| LdCache.Cache.Parse | internal/ldcache/ldcache.go:149-184 | succeeds exactly on the files that decode and then holds their entries; a failed parse leaves no entry that would be listed |
| LdCache.Cache.GetEntries | internal/ldcache/ldcache.go:193-237 | the accepted entries in order; no offset is out of range for any bytes |
| LdCache.Cache.List | internal/ldcache/ldcache.go:241-255 | the distinct rooted paths, each in the list of the word size of its first entry |
| LdCache.PathByText | internal/ldcache/ldcache.go:241-255 | the path of a library is its value under the root, cleaned |
| LdCache.ListsPartition | internal/ldcache/ldcache.go:241-255 | both lists are duplicate-free, disjoint, and together hold exactly the paths of the accepted entries |
| Args.GetBundleDirFromArgs | internal/oci/args.go:46-75 | the directory given last, by an argument that is not itself a value; fails iff the last argument is a bundle flag lacking its value |
| Args.LastGivenIsUnique | internal/oci/args.go:46-75 | the directory given last is determined by the arguments |
| Args.BundleFlagIff | internal/oci/args.go:86-93 | a bundle flag is one or more dashes and then b or bundle |
| Args.GivesIff | internal/oci/args.go:46-75 | an argument that is no value gives a directory exactly if it is a bundle flag, = and the directory |
| Args.BundleValueIff | internal/oci/args.go:46-75 | an argument is a value exactly if an odd number of bundle flags stands right before it |
| Args.HasCreateSubcommand | internal/oci/args.go:96-115 | true iff some create argument is not the value of a bundle flag in the sense of the other scan |

## Left out

- CdiSpec.IdsInjective: strings are sequences of characters, so the replacement of invalid UTF-8 by encoding/json, which
  maps distinct byte strings to one text, is not modelled; nor are errors from json.Marshal, which these structs cannot cause.
- Transformers.SorterTransform: node arrays of all devices are sorted first, then mount arrays, where the code alternates
  device by device; the arrays are disjoint by type, so the outcome is the same. Nil entries would crash the comparison and
  are excluded, as the preceding passes remove them.
- Transformers.RemoveTransform: nil entries would crash and are excluded for the same reason.
- Sorting.SortSlice: stands for sort.Slice and slices.Sort; only its contract, a sorted permutation, is used.
- Transformers.DedupeTransform: an array stands for a whole slice, so slices that overlap in part are not modelled; env,
  hook and group-id lists, which nothing sorts in place, are sequences. The specification's own version, kind and
  annotations are left alone by the code and left out.
- Pipelines.MergeDeviceSpecs: appending is concatenation into new arrays; the default name and its validation are left out.
- SimplifierTheory.MeaningPreservedIff: stated for unique device names, as the CDI specification demands; with a repeated name
  a namesake can make up for what a device loses. One direction, MeaningPreserved, needs no unique names.
- Application.OciSpec.Modify: env entries are a map from name to entry and device nodes and mounts maps from path to entry,
  without positions in a list; what the host adds to a node, hooks, group ids, net devices, RDT settings, and the override in
  enrichDevice, which sets fields of device nodes only, are left out. Nil entries would crash and are excluded.
- Environment.PipelineKeepsEnvironmentIff, Environment.ModifyKeepsEnvironmentIff, Places.NodePlacesKeptIff and
  Places.MountPlacesKeptIff are stated for unique device names, so that a name selects one device.
- MountSpecs.ApplyWithout: requires that the pattern pipeline does not refer to the map being filtered; MergeSharedSource
  shows why pipelines must not share raw maps. The callers in this repository share none.
- MountSpecs.ApplyAll: requires that no pattern map is the map being filtered or occurs twice, for the same reason.
- MountSpecs.MergeSources: requires that no raw map occurs in two sources, for the same reason.
- MountSpecs.MountSpecPathsByType: requires that no raw map occurs twice, for the same reason.
- MountSpecs.EvaluateRepeatedly: requires one pipeline for each raw map and pattern maps other than the source; the code
  has no such check, and its callers meet it.
- MountSpecs.EvaluateTransform: requires that no raw map occurs twice, for the same reason. The input is evaluated before
  the pattern pipelines; since they share no map the order cannot be observed. filepath.Match is a parameter.
- DeviceNodePipelines.DeviceNodeMountSpecs: reading the CSV files is left out; the map they give is arbitrary.
- Constraints.New: a comparison without a property, which the parser never builds, and logging are left out; error texts are
  shortened.
- Semver.CompareIsPrecedence: strings are compared by characters, which for the ASCII text of valid versions is by bytes.
- Ldconfig.GetLdsoconfDirectories: files are a finite map that does not change during the walk, and filepath.Glob is a
  parameter.
- Symlinks.ResolveChain: the file system is a finite map from names to nodes that does not change; lstat through symlinked
  directories and a failing getwd are left out.
- LdCache.Cache.Parse: mapping the file is left out, as is running out of memory for a huge entry count; offsets are 64-bit,
  and the alignment of the header is 8, as on 64-bit platforms.
- Hardware and foreign calls (NVML, nvsandboxutils, dxcore, CUDA), mounts, exec, the installer, container-runtime
  configuration editing, discoverer wrappers and command-line plumbing: no pure core behind them.
