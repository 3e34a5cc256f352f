# terraform-atlantis-config: the project-list engine, modelled in Dafny

terraform-atlantis-config scans a repository for Terraform root modules and
writes an `atlantis.yaml` listing one Atlantis project per root module. This
project models the engine behind its `generate` command: everything from the
parsed modules up to the final, ordered project list.

- **Local module sources** (`ParseTf`, from `cmd/parse_tf.go`). A module call
  is local when its source starts with `./`, `../`, `.\` or `..\`, and it is
  excluded when an entry of the exclusion list occurs in it. Each local,
  non-excluded call contributes one `<dir>/<source>/*.tf*` glob.
- **Locals** (`ParseLocals`, from `cmd/parse_locals.go`). The `atlantis`
  local object is read field by field, each field under its own type check.
- **Project building** (`Lists` and `Projects`, from `cmd/generate.go`).
  - `uniqueStrings`, `sliceUnion` and `makePathAbsolute`.
  - `getDependencies`.
  - `createProject`: skip handling, local-over-default precedence, the
    project directory, the watch list (`when_modified`), and the
    project and workspace name (`ProjectNames`).
- **Generation** (`Generate`, `ExecutionOrder` and `Sorting`, from `main` in
  `cmd/generate.go`).
  1. The discovered root-module paths are deduplicated.
  2. Every created project is merged into the configuration. With
     `--preserve-projects`, the first project with the same directory is
     replaced, and otherwise the project is appended.
  3. The list is sorted by directory.
  4. Optionally, the `execution_order_group` of each project is computed by a
     bounded fixed-point loop. The list is then sorted by group, then by
     directory.

Paths are slash-separated strings (`Paths`). Go's `filepath.Clean`, `Join`,
`Dir` and `Rel` are modelled lexically, as they behave on a Unix host. A
parsed Terraform module (`Terraform.Module`) is a record with these fields:

- its source directory;
- its locals, where the `atlantis` local is either an evaluation error or an
  object of values;
- the source address of each module call;
- whether it declares a backend.

The configuration object `Generate.AtlantisConfig` is a class. The merge, the
two sorts and the execution-order pass update its `projects` field in place.
Each of these methods is proved against a specification function:

- `Merged` and `MergeAll` for the merge;
- `SortedBy` plus a permutation for the sorts;
- `ExecutionOrder.Pass` and `ExecutionOrder.Solve` for the solver.

The properties the code promises are proved as lemmas about those functions.

In a few places the code does something other than its comments or its
evident intent suggest. The model follows the code:

- `getDependencies` builds `nonEmptyDeps` under the comment about filtering
  out empty dependencies (cmd/generate.go:87-98). It then returns the
  unfiltered `dependencies` (line 99). The model returns what the code
  returns.
- The comment at cmd/generate.go:129 treats a `nil` dependency list as a
  sign to skip the project, and lines 79-81 and 125-127 pass an extractor
  error through. But `getDependencies` never returns `nil` on success, and
  `parseTerraformLocalModuleSource` always returns a nil error
  (cmd/parse_tf.go:53). Both branches of `createProject` are therefore dead,
  and `Projects.GetDependencies` returns a plain list.
- `resolveLocals` guards each field with a type check, but these checks are
  wider than `AsString` accepts:
  - `workflow` and `terraform_version` are checked only for a primitive type
    (cmd/parse_locals.go:57, 72);
  - the two list fields are checked only for a tuple type (lines 95, 106).

  So a number or a bool in the first two, or a tuple element that is not a
  string, reaches `AsString`, which panics on any value that is not a
  string. `ParseLocals.ResolveLocals` returns `Err(NotAString(key))` there,
  naming the first such key in reading order, and `createProject` passes it
  on as `LocalsPanic`.
- The comment at cmd/generate.go:196-201 speaks of names made of letters,
  numbers, `-` and `_`. The regex `[^a-zA-Z0-9_-]+` at line 202 replaces
  each maximal run of other characters with a single `_`
  (`ProjectNames.ProjectNameCollapsesRun`).

The comment "projects should be unique" (cmd/generate.go:363) holds in both
modes, and `Generate.Generate` states it for the list sorted by directory
(`Generate.SortedDirsUnique`):

- With `--preserve-projects`, the merge replaces the project with the same
  directory, so a preserved list with distinct directories keeps them
  distinct (`Generate.MergeAllKeepsDirsUnique`).
- Without it, every project is appended. The directories still come out
  distinct for three reasons:
  - the root-module paths are deduplicated (cmd/generate.go:261-275);
  - each module's source directory is its walk path;
  - distinct paths at or below the root get distinct directories
    (`Projects.DirOfInjective`).

## Model

| member | source | states |
|---|---|---|
| Lists.Unique | cmd/generate.go:38-48 | The result has no repeats, holds exactly the elements of the input, and is no longer than the input. |
| Lists.UniqueStrings | cmd/generate.go:38-48 | The map-and-append loop builds exactly `Unique` of its input. |
| Lists.UniqueFirstOccurrenceOrder | cmd/generate.go:38-48 | The kept elements appear in the order of their first occurrence in the input. |
| Lists.UniqueOfNoDup | cmd/generate.go:38-48 | A list without repeats comes back unchanged. |
| Lists.UniqueIdempotent | cmd/generate.go:38-48 | Applying uniqueStrings twice gives the same list as applying it once. |
| Lists.Missing | cmd/generate.go:58-62 | The elements of `b` that the second loop appends are exactly those not in `a`, and their number is at most the length of `b`. |
| Lists.SliceUnion | cmd/generate.go:51-64 | The result is `a` unchanged, followed by the elements of `b` that are not in `a`, in `b`'s order. Repeats within `b` are kept, because the map is not updated while appending. |
| Lists.ElementSet | cmd/generate.go:52-56 | The map built from `a` holds exactly the elements of `a`. |
| Lists.MissingDisjoint | cmd/generate.go:72-74 | When no element of `b` is in `a`, the union appends all of `b`. With `a` empty, getDependencies therefore starts with the extra dependencies verbatim. |
| Lists.SliceUnionNoDup | cmd/generate.go:51-64 | When both lists are free of repeats, so is their union. |
| Lists.Flatten | cmd/generate.go:263-268 | A path occurs in the concatenated batches exactly when it occurs in some batch. |
| Lists.DedupRootModulePaths | cmd/generate.go:261-275 | The root-module paths of all working paths, each kept once in order of first discovery. This is `Unique` of their concatenation. |
| Lists.DedupBatch | cmd/generate.go:268-274 | Processing one batch extends the ordered list to `Unique` of everything seen so far, and the seen set tracks exactly those paths. |
| Sorting.SortStrings | cmd/generate.go:82 | sort.Strings: the result is in ascending string order and is a permutation of the input. A list without repeats stays without repeats. |
| Sorting.SortSlice | cmd/generate.go:388 | sort.Slice under any strict order: the result is sorted by it and is a permutation of the input. |
| Sorting.AscendingUnique | cmd/generate.go:82 | Two ascending lists without repeats and with the same elements are equal, so sorting the distinct globs fixes their order. |
| Sorting.StrLessIsStrictOrder | cmd/generate.go:388 | Go's `<` on strings is irreflexive and transitive, so it is a strict order that sorting can use. |
| ParseTf.JoinPath | cmd/parse_tf.go:16-18 | Joining is empty only when both parts are, and stays absolute under an absolute base. |
| ParseTf.ModuleGlob | cmd/parse_tf.go:23-25 | The glob of a call under an absolute module directory is absolute. |
| ParseTf.IsLocalTerraformModuleSource | cmd/parse_tf.go:66-74 | True exactly when the address starts with one of `./`, `../`, `.\`, `..\`. |
| ParseTf.IsExcludedSubModule | cmd/parse_tf.go:56-64 | True exactly when some exclusion entry occurs as a substring of the address. An empty exclusion list never excludes. |
| ParseTf.LocalSourceGlobsMembership | cmd/parse_tf.go:22-30 | A glob is produced exactly when some call is local, is not excluded, and yields that glob as `joinPath(joinPath(dir, source), "*.tf*")`. |
| ParseTf.NonQualifyingCallContributesNothing | cmd/parse_tf.go:23 | Inserting a non-local or excluded call anywhere leaves the set of globs unchanged. |
| ParseTf.LocalSourceSet | cmd/parse_tf.go:22-30 | The loop fills the source map with exactly the globs of the qualifying calls. |
| ParseTf.SetToSeq | cmd/parse_tf.go:48-51 | The keys of the map, listed without repeats and without losing any. |
| ParseTf.ParseTerraformLocalModuleSource | cmd/parse_tf.go:20-54 | The result has no repeats and holds exactly the globs of the local, non-excluded calls. Every qualifying call's glob appears once. Nothing is read from submodules, and no error is ever returned. |
| ParseLocals.ResolveLocals | cmd/parse_locals.go:39-115 | Without an `atlantis` local, or when its evaluation fails, the result is all defaults. It fails exactly where AsString panics: `workflow` or `terraform_version` is a non-string primitive, or `apply_requirements` or `extra_dependencies` is a tuple with a non-string element. The error names the first such key in reading order. Otherwise each field is set exactly when its key is present with the field's type, and then holds that key's value. This covers the two strings, the number, and the autoplan and skip booleans. The two lists are set only from non-empty tuples, element by element. Every other field keeps its default. |
| ParseLocals.TupleStrings | cmd/parse_locals.go:96-100 | AsString over the elements of a tuple succeeds exactly when every element is a string, and then gives the strings position by position. |
| ParseLocals.UnknownKeysIgnored | cmd/parse_locals.go:53-113 | Adding or changing a key that resolveLocals does not read leaves the result unchanged. |
| ParseLocals.WrongTypedSkipAffectsOnlySkip | cmd/parse_locals.go:85-91 | A `skip` value that is not a bool resolves exactly as if the key were absent. Every field is independent of it. |
| ProjectNames.ProjectNameChars | cmd/generate.go:202-203 | A project name consists only of `[a-zA-Z0-9_-]` characters. |
| ProjectNames.ProjectNameKeepsValidNames | cmd/generate.go:202-203 | A directory made only of allowed characters is its own project name. |
| ProjectNames.ProjectNameIdempotent | cmd/generate.go:202-203 | Renaming a project name again changes nothing. |
| ProjectNames.ProjectNameCollapsesRun | cmd/generate.go:202-203 | A whole run of disallowed characters between allowed ones becomes a single `_`. |
| Projects.MakePathAbsolute | cmd/generate.go:28-34 | A path already under the repository root is returned unchanged. With an absolute parent directory and repository root, the result is always absolute. |
| Projects.RelativeDependency | cmd/generate.go:139-146 | For an absolute module directory and repository root, filepath.Rel of the dependency never fails. |
| Projects.GetDependencies | cmd/generate.go:67-107 | The extra dependencies come first, in their given order. Unless local submodules are ignored, the local-source globs follow, sorted, without repeats, and exactly those of the qualifying calls. The list is never nil and holds exactly the module's dependency set. |
| Projects.DependenciesOfUnique | cmd/generate.go:70-85 | The description getDependencies meets (extras in order, then the globs in ascending order) fixes one list only. |
| Projects.DirOf | cmd/generate.go:151-156 | The project directory is never empty. |
| Projects.DirOfModuleBelowRoot | cmd/generate.go:151-156 | A module at `gitRoot + rel` gets `rel` as its directory. |
| Projects.DirOfRootModule | cmd/generate.go:154-156 | The module at the repository root itself gets `.`. |
| Projects.RelativeDependenciesElements | cmd/generate.go:138-149 | Converting the dependencies succeeds exactly when every dependency has a relative form, and then holds those forms position by position. |
| Projects.RelativeDependenciesOfAbsolute | cmd/generate.go:138-149 | For an absolute module directory and repository root, the conversion always succeeds. |
| Projects.AppendRelativeDependencies | cmd/generate.go:135-149 | The loop appends each dependency's relative form after the base globs. It fails, with the Rel error, exactly when one dependency has no relative form. |
| Projects.WatchList | cmd/generate.go:135-149 | `uniqueStrings` of the base globs followed by the relative dependencies has these properties: it starts with the base globs, has no repeats, and holds exactly the base globs and the relative forms of the module's dependencies. |
| Projects.AssembleProject | cmd/generate.go:151-213 | Workflow and terraform version: the local value when non-empty, else the default. Apply requirements: the local list when set, else none for an empty default, else the default. Autoplan: the local flag when set, else the global one. Group: the local value only when positive. Name and workspace: the project name of the directory, each only when its flag is set. The watch list without repeats. |
| Projects.ProjectFromLocals | cmd/generate.go:123-213 | On success the project is the one the locals and options describe. Its watch list is `uniqueStrings` of the base globs followed by the relative form of each dependency, in the order getDependencies returns them. The only error is a failing Rel, and there is none for absolute paths. |
| Projects.BuiltFromUnique | cmd/generate.go:110-214 | The locals and the options fix the project createProject builds completely, including the order of its watch list. |
| Projects.CreateProject | cmd/generate.go:110-214 | A panicking locals read is reported. There is no project and no error exactly when `skip` is true. Any project returned is the one its locals and the options describe, watch list order included. For absolute paths, readable locals never fail. |
| Projects.DirOfInjective | cmd/generate.go:152-156 | Two root-module paths at or below the repository root that get the same directory are the same path. |
| ExecutionOrder.Candidate | cmd/generate.go:401-418 | The group a project asks for is never negative. |
| ExecutionOrder.CandidateIsMax | cmd/generate.go:401-418 | The candidate is at least each recognised dependency's group plus one, and equals one of them or 0. |
| ExecutionOrder.CandidateFrame | cmd/generate.go:410-418 | Writing a group the project does not depend on leaves its candidate alone. |
| ExecutionOrder.Pass | cmd/generate.go:399-424 | One pass changes no group count. A pass that reports no change leaves the groups exactly as they were. |
| ExecutionOrder.PassUnchanged | cmd/generate.go:419-423 | After a pass with no change, every project's group equals its candidate. |
| ExecutionOrder.Solve | cmd/generate.go:397-425 | The loop always ends, after at most `len + 1` passes, and warns only when it used all of them. |
| ExecutionOrder.SolveFixedPoint | cmd/generate.go:397-429 | When the loop ends without the warning, the groups are a fixed point: each project's group is its candidate. |
| ExecutionOrder.PassSettles | cmd/generate.go:398-424 | On an acyclic dependency graph, each pass settles one more rank of projects. |
| ExecutionOrder.SolveSettles | cmd/generate.go:397-429 | From a state where every rank below the pass number is settled, the loop ends without the warning. |
| ExecutionOrder.AcyclicConverges | cmd/generate.go:427-429 | For an acyclic dependency graph, with each project writing its own group, the "should be unreachable" warning is never reached. |
| ExecutionOrder.ChainExample | cmd/generate.go:397-425 | A project depending on another ends in group 1 and its dependency in group 0, after two passes, without the warning. |
| ExecutionOrder.CycleExample | cmd/generate.go:427-429 | Two projects depending on each other exhaust the passes and raise the warning. |
| ExecutionOrder.CycleSolve | cmd/generate.go:397-429 | The two-project cycle warns from any pass number and from any start. |
| ExecutionOrder.CyclePass | cmd/generate.go:398-424 | From any start, one pass over the two-project cycle raises the second project past the first and reports a change, because the second project sees the first one's group as just written. |
| ExecutionOrder.FixedPointIsDepth | cmd/generate.go:401-423 | At a fixed point where each project writes its own group, each group is one more than the largest group among the project's dependencies, or 0 when there are none. |
| Generate.FirstDirIndex | cmd/generate.go:357-367 | The index of the first project with the directory, or none when no project has it. |
| Generate.MergeReplacesFirstOrAppends | cmd/generate.go:353-376 | With preservation, the first project with the same directory is replaced and every other entry is unchanged. When no project has the directory, or without preservation, the project is appended. The list grows by at most one, and the new project is always in it. |
| Generate.MergeKeepsDirsUnique | cmd/generate.go:363-365 | With preservation, merging keeps the directories distinct: "projects should be unique". |
| Generate.MergeAllKeepsDirsUnique | cmd/generate.go:353-376 | With preservation, a list with distinct directories keeps them distinct through every merge. |
| Generate.DropKeepsDirsUnique | cmd/generate.go:363 | Removing one project from a list with distinct directories leaves the other directories distinct and different from the removed one's. |
| Generate.PermutationKeepsDirsUnique | cmd/generate.go:388 | Reordering a list with distinct directories, as the sort does, keeps them distinct. |
| Generate.ByDirIsStrictOrder | cmd/generate.go:388 | Ordering by directory is a strict order. |
| Generate.ByGroupAndDirIsStrictOrder | cmd/generate.go:433-438 | Ordering by group, then directory, is a strict order. |
| Generate.GroupsAscend | cmd/generate.go:433-438 | A list sorted by group and directory lists the groups in ascending order. |
| Generate.LastDirIndex | cmd/generate.go:391-394 | The directory map keeps the last project with each directory, or none when no project has it. |
| Generate.DepDirs | cmd/generate.go:403-404 | One owning directory per when_modified entry. |
| Generate.OwnerList | cmd/generate.go:403-418 | The projects a project depends on are valid indices. |
| Generate.OwnerListMembership | cmd/generate.go:403-414 | A project is a dependency exactly when some watch list entry lies in its directory, that directory is not the project's own, and the directory map keeps that project for it. Self-references and unknown directories are skipped. |
| Generate.DirIndex | cmd/generate.go:391-394 | The map sends each directory to the last project with it, and holds no other directory. |
| Generate.DependencyGroup | cmd/generate.go:401-418 | The inner loop over the watch list computes the project's candidate group from the current groups. |
| Generate.RunPass | cmd/generate.go:399-424 | One pass over the projects, with earlier writes visible to later projects, gives exactly the groups and change flag of `Pass`. |
| Generate.SolveGroups | cmd/generate.go:396-425 | The bounded outer loop gives exactly the groups, final change flag and pass count of `Solve`. |
| Generate.GroupsAreDependencyDepth | cmd/generate.go:396-429 | When the solver ends without the warning over distinct directories, each project's group is at least each recognised dependency's group plus one. It is exactly one more than the largest of them, or 0 when there are none. |
| Generate.AcyclicProjectsConverge | cmd/generate.go:427-429 | Over distinct directories with an acyclic dependency graph, the warning is never reached. |
| Generate.OwnerGroupBelow | cmd/generate.go:401-418 | Without the warning over distinct directories, each project's group is above the group of every project it depends on. |
| Generate.CycleWarns | cmd/generate.go:427-429 | Over distinct directories, any cycle in the dependency graph makes the solver warn: "Probably cycle exists". |
| Generate.AtlantisConfig.constructor | cmd/generate.go:303-314 | Version 3, with auto-merge and parallel plan/apply copied from the options. Workflows and projects come from the old configuration only when it exists and the matching preserve flag is set. |
| Generate.AtlantisConfig.MergeProject | cmd/generate.go:353-376 | The in-place scan-and-overwrite or append leaves exactly `Merged` of the old list. |
| Generate.AtlantisConfig.SortByDir | cmd/generate.go:388 | The projects end sorted by directory, as a permutation of the old list. |
| Generate.AtlantisConfig.SortByGroupAndDir | cmd/generate.go:433-438 | The projects end sorted by group, then directory, as a permutation of the old list. |
| Generate.AtlantisConfig.AssignExecutionOrderGroups | cmd/generate.go:389-430 | Each project's group is replaced by the solver's result on the list as it stood, and the warning is reported exactly when the solver ran out of passes. |
| Generate.CreatedAllAt | cmd/generate.go:328-345 | Every processed root module has the outcome its createProject describes. |
| Generate.CreateAndMerge | cmd/generate.go:336-379 | On success, the outcome is the one createProject describes, and a project, unless skipped, is merged into the list. On error, the list is unchanged. For absolute paths, the only error is a panicking locals read. |
| Generate.CollectProjects | cmd/generate.go:321-385 | Root modules are processed in order until the first error. The list is the merge of every created project into the starting list. The run succeeds exactly when every module was processed. |
| Generate.CreatedDirs | cmd/generate.go:152-182 | Every created project's directory is the one its module's source directory gives. |
| Generate.DirsOfDistinct | cmd/generate.go:152-156 | Distinct walk paths, each its module's source directory and at or below the root, give distinct directories. |
| Generate.AppendedDirsUnique | cmd/generate.go:353-376 | Without preservation every project is appended, and projects with distinct directories give a list with distinct directories. |
| Generate.SortedDirsUnique | cmd/generate.go:353-388 | The list sorted by directory has distinct directories. With preservation this needs a distinct preserved list. Without it, each module's source directory must be its path at or below the root. |
| Generate.Generate | cmd/generate.go:289-438 | It succeeds exactly when createProject succeeds on every deduplicated root module. The result then has version 3, auto-merge and parallel plan/apply from the options, and the old workflows only when they are preserved. After the first sort its projects are sorted by directory, and are a permutation of the starting projects merged with every created one. Their directories are distinct with preservation when the preserved list's are. Without preservation they are distinct when each module's source directory is its walk path at or below the root. Without execution order groups that is the final list. With them, the list is re-sorted by group and directory. It is then a permutation of that list with the solver's groups, and the warning is the solver's. |

## Left out

- Concurrency in `main`: the `errgroup`, the semaphore, the mutex, and the `singleflight` coalescing in `getDependencies`. Root modules are processed one after another in discovery order. The real merge order depends on which goroutine finishes first, and that order is not modelled.
- Generate.CollectProjects and Generate.Generate stop at the first error in path order. In Go nothing is cancelled: the errgroup's context is discarded (cmd/generate.go:318) and the semaphore uses the background context (line 331). So `createProject` runs for every root module, and `Wait` returns the error that happened first in time. Two things are not modelled: which module's error is reported, and that a panicking locals read aborts the whole process (errgroup does not recover panics) rather than coming back as an error. The model reports it as `LocalsPanic`.
- The Terraform parser (`configs.NewParser(nil).LoadConfigDir`) is the parameter `parse`. Its diagnostics are ignored, as `createProject` ignores them.
- The directory walk `FindRootModulesInPath`, `filepath.Glob` for the filter and `filepath.Abs`. Their results are the parameter `batches`, one list of absolute root-module paths per working path.
- `readOldConfig`, YAML encoding, the Windows line-ending rewrite, writing the file and all logging. The old configuration is a parameter, and the cycle warning is the `warned` result.
- The CLI wiring, the flag globals and the `gitRoot` set-up with `filepath.Abs`. They are the `Options` record, and `gitRoot` is taken to be absolute with a trailing separator.
- cty values are reduced to strings, integers, booleans, tuples of such values and "other". `AsBigFloat().Int64()` is taken to give the integer itself.
- ParseLocals.ResolveLocals: the `atlantis` local is modelled only as an evaluation error or an object. `AsValueMap` (cmd/parse_locals.go:53) panics on any other value that evaluates without errors: a string, number, bool or null, or a non-empty tuple or list, whose keys are numbers. An empty collection gives all defaults. That panic path is not modelled. The `markedProject` field of `ResolvedLocals` is never set by the code and is not modelled.
- Windows path semantics: backslash separators, volume names and `filepath.ToSlash` are left out. `ToSlash` is the identity on a Unix host.
- Paths.Clean, Paths.Join, Paths.Dir and Paths.Rel: lexical models of Go's `filepath` functions. Their contracts state only what the rest of the model uses (never empty, absolute in gives absolute out, Rel defined on absolute paths), not the full behaviour of the Go library.
- Generate.AtlantisConfig.SortByDir and Generate.AtlantisConfig.SortByGroupAndDir: `sort.Slice` is not stable, and the model does not fix the order of projects that compare equal. Only sortedness and the permutation are stated.
- Generate.AtlantisConfig.AssignExecutionOrderGroups: the solver writes each group through the pointer in `projectsMap` as soon as it is computed. The model runs the same passes on a vector of groups, with the same visibility of earlier writes within a pass, and writes the vector back into the projects once the loop ends.
- Workflow definitions of a preserved configuration are carried as opaque strings.
- The `nonEmptyDeps` list in `getDependencies` is computed and discarded, so it is not modelled.
- The error path of `getDependencies` and the `dependencies == nil` skip in `createProject` are not modelled, because neither can happen.
- `relativeDependencies := autoPlanFileList` may share the backing array of the global list. The model treats it as a fresh copy.
- Projects.DirOf: the model states only that the directory is never empty, and what it is for a module below or at the root (the two lemmas). A module directory outside the repository root is not characterised.
- Generate.Generate: the success case is characterised up to permutation after each sort, following `sort.Slice`.
- ExecutionOrder.Candidate and Generate.DependencyGroup: Go's `depProject.ExecutionOrderGroup + 1` (cmd/generate.go:415-416) is a machine `int` and wraps at its maximum. The model's integers are unbounded, so a group near the maximum taken from the locals is not modelled as wrapping.
