/** One module turned into one Atlantis project (cmd/generate.go:26-214). */
module Projects {
  import opened Wrappers
  import opened Paths
  import opened Sorting
  import opened Lists
  import opened Terraform
  import opened ParseTf
  import opened ParseLocals
  import opened ProjectNames

  /** The command-line settings, parsed once and passed around.  `gitRoot`
      is the absolute repository root with a trailing separator. */
  datatype Options = Options(
    gitRoot: string,
    autoPlan: bool,
    autoPlanFileList: seq<string>,
    autoMerge: bool,
    ignoreLocalSubModules: bool,
    localSubModulesExclude: seq<string>,
    parallel: bool,
    createWorkspace: bool,
    createProjectName: bool,
    defaultTerraformVersion: string,
    defaultWorkflow: string,
    preserveWorkflows: bool,
    preserveProjects: bool,
    defaultApplyRequirements: seq<string>,
    executionOrderGroups: bool)

  datatype AutoplanConfig = AutoplanConfig(enabled: bool, whenModified: seq<string>)

  /** AtlantisProject; "" stands for an unset name or workspace. */
  datatype Project = Project(
    dir: string,
    workflow: string,
    terraformVersion: string,
    applyRequirements: Option<seq<string>>,
    autoplan: AutoplanConfig,
    name: string,
    workspace: string,
    executionOrderGroup: int)

  datatype ProjectError =
    | LocalsPanic(panic: Panic)
    | RelError(base: string, target: string)

  /** makePathAbsolute: a path already under the repository root is kept,
      anything else is joined onto `parentPath`. */
  function MakePathAbsolute(path: string, parentPath: string, gitRoot: string): (r: string)
    ensures HasPrefix(path, gitRoot) ==> r == path
    ensures IsAbs(parentPath) && IsAbs(gitRoot) ==> IsAbs(r)
  {
    if HasPrefix(path, gitRoot) then path else Join(parentPath, path)
  }

  /** A dependency as an absolute path: absolute ones are kept. */
  function AbsoluteDependency(dep: string, sourceDir: string, gitRoot: string): (r: string)
    ensures IsAbs(sourceDir) && IsAbs(gitRoot) ==> IsAbs(r)
  {
    if IsAbs(dep) then dep else MakePathAbsolute(dep, sourceDir, gitRoot)
  }

  /** A dependency relative to the module's directory, as written into
      when_modified; None where filepath.Rel fails. */
  function RelativeDependency(dep: string, sourceDir: string, gitRoot: string): (r: Option<string>)
    ensures IsAbs(sourceDir) && IsAbs(gitRoot) ==> r.Some?
  {
    Rel(sourceDir + "/", AbsoluteDependency(dep, sourceDir, gitRoot))
  }

  /** The module's extra_atlantis_dependencies, none when unset. */
  function ExtraDependencies(locals: ResolvedLocals): seq<string> {
    if locals.extraAtlantisDependencies.Some? then locals.extraAtlantisDependencies.value else []
  }

  /** The dependencies a module has, as a set: its extra dependencies and,
      unless local submodules are ignored, the globs of its local calls. */
  function DependencySet(m: Module, locals: ResolvedLocals, opts: Options): set<string> {
    (set d | d in ExtraDependencies(locals))
      + (if opts.ignoreLocalSubModules then {}
         else LocalSourceGlobs(m.sourceDir, m.moduleCalls, opts.localSubModulesExclude))
  }

  /** The list getDependencies returns: the extra dependencies in their
      given order, then, unless local submodules are ignored, the globs of
      the local calls in ascending order. */
  ghost predicate DependenciesOf(deps: seq<string>, m: Module, l: ResolvedLocals, opts: Options) {
    var extra := ExtraDependencies(l);
    && |extra| <= |deps|
    && deps[..|extra|] == extra
    && (opts.ignoreLocalSubModules ==> deps == extra)
    && (!opts.ignoreLocalSubModules ==>
          && Ascending(deps[|extra|..])
          && forall g :: g in deps[|extra|..] <==> g in LocalSourceGlobs(m.sourceDir, m.moduleCalls, opts.localSubModulesExclude))
  }

  /** DependenciesOf describes one list only. */
  lemma DependenciesOfUnique(d1: seq<string>, d2: seq<string>, m: Module, l: ResolvedLocals, opts: Options)
    requires DependenciesOf(d1, m, l, opts) && DependenciesOf(d2, m, l, opts)
    ensures d1 == d2
  {
    var n := |ExtraDependencies(l)|;
    if !opts.ignoreLocalSubModules {
      AscendingUnique(d1[n..], d2[n..]);
      assert d1 == d1[..n] + d1[n..] && d2 == d2[..n] + d2[n..];
    }
  }

  /** getDependencies: the extra dependencies in their given order, then the
      local-call globs sorted; never nil and never an error. */
  method GetDependencies(m: Module, locals: ResolvedLocals, opts: Options) returns (dependencies: seq<string>)
    ensures DependenciesOf(dependencies, m, locals, opts)
    ensures forall d :: d in dependencies <==> d in DependencySet(m, locals, opts)
  {
    dependencies := [];
    if locals.extraAtlantisDependencies.Some? {
      dependencies := SliceUnion(dependencies, locals.extraAtlantisDependencies.value);
      MissingDisjoint(locals.extraAtlantisDependencies.value, []);
    }
    ghost var extra := dependencies;
    if !opts.ignoreLocalSubModules {
      var ls := ParseTerraformLocalModuleSource(m, opts.localSubModulesExclude);
      var sorted := SortStrings(ls);
      forall g ensures g in sorted <==> g in ls {
        assert g in sorted <==> g in multiset(sorted);
      }
      dependencies := dependencies + sorted;
      assert dependencies[|extra|..] == sorted;
    }
    assert dependencies[..|extra|] == extra;
  }

  /** The project directory: the module directory relative to the
      repository root without a trailing separator, or "." for the root. */
  function DirOf(sourceDir: string, gitRoot: string): (r: string)
    ensures r != ""
  {
    var relative := TrimSuffix(TrimPrefix(sourceDir + "/", gitRoot), "/");
    if relative == "" then "." else relative
  }

  /** A module below the root gets its path under the root as directory. */
  lemma {:induction false} DirOfModuleBelowRoot(gitRoot: string, rel: string)
    requires rel != ""
    ensures DirOf(gitRoot + rel, gitRoot) == rel
  {
    assert gitRoot + rel + "/" == gitRoot + (rel + "/");
    assert TrimPrefix(gitRoot + rel + "/", gitRoot) == rel + "/";
  }

  /** The module at the root itself gets ".". */
  lemma {:induction false} DirOfRootModule(rootDir: string)
    ensures DirOf(rootDir, rootDir + "/") == "."
  {
  }

  /** A root-module path as the directory walk yields it: the root itself,
      without its trailing separator, or a path below the root whose part
      after the root is neither empty nor ".". */
  predicate UnderRoot(path: string, gitRoot: string) {
    || path + "/" == gitRoot
    || (HasPrefix(path, gitRoot) && path[|gitRoot|..] != "" && path[|gitRoot|..] != ".")
  }

  /** Distinct root-module paths get distinct directories. */
  lemma {:induction false} DirOfInjective(a: string, b: string, gitRoot: string)
    requires UnderRoot(a, gitRoot) && UnderRoot(b, gitRoot)
    requires DirOf(a, gitRoot) == DirOf(b, gitRoot)
    ensures a == b
  {
    if a + "/" == gitRoot {
      DirOfRootModule(a);
    } else {
      assert a == gitRoot + a[|gitRoot|..];
      DirOfModuleBelowRoot(gitRoot, a[|gitRoot|..]);
    }
    if b + "/" == gitRoot {
      DirOfRootModule(b);
    } else {
      assert b == gitRoot + b[|gitRoot|..];
      DirOfModuleBelowRoot(gitRoot, b[|gitRoot|..]);
    }
    if a + "/" == gitRoot && b + "/" == gitRoot {
      assert a == (a + "/")[..|a|] && b == (b + "/")[..|b|];
    }
  }

  /** The dependencies made relative to the module directory, in order;
      None when one of them has no relative form. */
  function RelativeDependencies(deps: seq<string>, sourceDir: string, gitRoot: string): (r: Option<seq<string>>)
    ensures r.Some? ==> |r.value| == |deps|
  {
    MapAll(deps, d => RelativeDependency(d, sourceDir, gitRoot))
  }

  /** RelativeDependencies succeeds exactly when every dependency has a
      relative form, and then holds those forms position by position. */
  lemma RelativeDependenciesElements(deps: seq<string>, sourceDir: string, gitRoot: string)
    ensures RelativeDependencies(deps, sourceDir, gitRoot).Some? <==>
      forall k :: 0 <= k < |deps| ==> RelativeDependency(deps[k], sourceDir, gitRoot).Some?
    ensures RelativeDependencies(deps, sourceDir, gitRoot).Some? ==>
      forall k :: 0 <= k < |deps| ==>
        RelativeDependency(deps[k], sourceDir, gitRoot) == Some(RelativeDependencies(deps, sourceDir, gitRoot).value[k])
  {
    MapAllElements(deps, d => RelativeDependency(d, sourceDir, gitRoot));
  }

  /** One more dependency: its relative form is appended, or the whole
      list has none. */
  lemma RelativeDependenciesSnoc(deps: seq<string>, i: nat, sourceDir: string, gitRoot: string)
    requires i < |deps|
    ensures var init := RelativeDependencies(deps[..i], sourceDir, gitRoot);
            var last := RelativeDependency(deps[i], sourceDir, gitRoot);
            RelativeDependencies(deps[..i + 1], sourceDir, gitRoot)
              == if init.None? || last.None? then None else Some(init.value + [last.value])
  {
    assert deps[..i + 1][..i] == deps[..i];
  }

  /** A dependency without a relative form makes the whole list fail. */
  lemma RelativeDependenciesNoneAt(deps: seq<string>, i: nat, sourceDir: string, gitRoot: string)
    requires i < |deps| && RelativeDependency(deps[i], sourceDir, gitRoot).None?
    ensures RelativeDependencies(deps, sourceDir, gitRoot).None?
  {
    RelativeDependenciesElements(deps, sourceDir, gitRoot);
  }

  /** For an absolute module directory and repository root every
      dependency has a relative form. */
  lemma RelativeDependenciesOfAbsolute(deps: seq<string>, sourceDir: string, gitRoot: string)
    requires IsAbs(sourceDir) && IsAbs(gitRoot)
    ensures RelativeDependencies(deps, sourceDir, gitRoot).Some?
  {
    RelativeDependenciesElements(deps, sourceDir, gitRoot);
  }

  /** The loop of createProject that appends each dependency, made
      absolute and then relative to the module directory, to `base`. */
  method AppendRelativeDependencies(base: seq<string>, dependencies: seq<string>, sourceDir: string, gitRoot: string)
    returns (r: Result<seq<string>, ProjectError>)
    ensures r.Ok? <==> RelativeDependencies(dependencies, sourceDir, gitRoot).Some?
    ensures r.Ok? ==> r.value == base + RelativeDependencies(dependencies, sourceDir, gitRoot).value
    ensures r.Err? ==> r.error.RelError?
  {
    var absoluteSourceDir := sourceDir + "/";
    var relativeDependencies := base;
    ghost var rels: seq<string> := [];
    var i := 0;
    while i < |dependencies|
      invariant 0 <= i <= |dependencies|
      invariant relativeDependencies == base + rels
      invariant RelativeDependencies(dependencies[..i], sourceDir, gitRoot) == Some(rels)
    {
      var dependencyPath := dependencies[i];
      var relativePath := RelativeDependency(dependencyPath, sourceDir, gitRoot);
      if relativePath.None? {
        RelativeDependenciesNoneAt(dependencies, i, sourceDir, gitRoot);
        return Err(RelError(absoluteSourceDir, AbsoluteDependency(dependencyPath, sourceDir, gitRoot)));
      }
      RelativeDependenciesSnoc(dependencies, i, sourceDir, gitRoot);
      relativeDependencies := relativeDependencies + [relativePath.value];
      rels := rels + [relativePath.value];
      i := i + 1;
    }
    assert dependencies[..i] == dependencies;
    return Ok(relativeDependencies);
  }

  /** The watch list createProject builds has the shape WatchListOf states. */
  lemma {:induction false} WatchList(m: Module, l: ResolvedLocals, opts: Options, dependencies: seq<string>,
                                     rels: seq<string>, w: seq<string>)
    requires forall d :: d in dependencies <==> d in DependencySet(m, l, opts)
    requires RelativeDependencies(dependencies, m.sourceDir, opts.gitRoot) == Some(rels)
    requires w == Unique(opts.autoPlanFileList + rels)
    ensures WatchListOf(w, m, l, opts)
  {
    RelativeDependenciesElements(dependencies, m.sourceDir, opts.gitRoot);
    UniqueOfAppendHasPrefix(opts.autoPlanFileList, rels);
    forall x ensures x in rels <==>
      exists d :: d in DependencySet(m, l, opts) && RelativeDependency(d, m.sourceDir, opts.gitRoot) == Some(x)
    {
      if x in rels {
        var k :| 0 <= k < |rels| && rels[k] == x;
        assert dependencies[k] in DependencySet(m, l, opts);
      }
      if d :| d in DependencySet(m, l, opts) && RelativeDependency(d, m.sourceDir, opts.gitRoot) == Some(x) {
        var k :| 0 <= k < |dependencies| && dependencies[k] == d;
        assert rels[k] == x;
      }
    }
  }

  /** What createProject builds from a module, its resolved locals and the
      options: a local value beats the default, an empty default list of
      apply requirements means none, and the watch list starts with the
      base globs and holds each dependency relative to the module once. */
  ghost predicate BuiltFrom(p: Project, m: Module, l: ResolvedLocals, opts: Options) {
    && FieldsFrom(p, m, l, opts)
    && WatchListFrom(p.autoplan.whenModified, m, l, opts)
    && WatchListOf(p.autoplan.whenModified, m, l, opts)
  }

  /** The watch list itself: uniqueStrings of the base globs followed by the
      relative form of each dependency getDependencies returns, in order. */
  ghost predicate WatchListFrom(w: seq<string>, m: Module, l: ResolvedLocals, opts: Options) {
    exists deps :: && DependenciesOf(deps, m, l, opts)
                   && RelativeDependencies(deps, m.sourceDir, opts.gitRoot).Some?
                   && w == Unique(opts.autoPlanFileList + RelativeDependencies(deps, m.sourceDir, opts.gitRoot).value)
  }

  /** createProject is deterministic: its locals and the options fix every
      field of the project, the watch list and its order included. */
  lemma BuiltFromUnique(p: Project, q: Project, m: Module, l: ResolvedLocals, opts: Options)
    requires BuiltFrom(p, m, l, opts) && BuiltFrom(q, m, l, opts)
    ensures p == q
  {
    var dp :| && DependenciesOf(dp, m, l, opts)
              && RelativeDependencies(dp, m.sourceDir, opts.gitRoot).Some?
              && p.autoplan.whenModified == Unique(opts.autoPlanFileList + RelativeDependencies(dp, m.sourceDir, opts.gitRoot).value);
    var dq :| && DependenciesOf(dq, m, l, opts)
              && RelativeDependencies(dq, m.sourceDir, opts.gitRoot).Some?
              && q.autoplan.whenModified == Unique(opts.autoPlanFileList + RelativeDependencies(dq, m.sourceDir, opts.gitRoot).value);
    DependenciesOfUnique(dp, dq, m, l, opts);
  }

  /** The fields of a project other than its watch list. */
  ghost predicate FieldsFrom(p: Project, m: Module, l: ResolvedLocals, opts: Options) {
    && p.dir == DirOf(m.sourceDir, opts.gitRoot)
    && p.workflow == (if l.atlantisWorkflow != "" then l.atlantisWorkflow else opts.defaultWorkflow)
    && p.terraformVersion == (if l.terraformVersion != "" then l.terraformVersion else opts.defaultTerraformVersion)
    && p.applyRequirements == (if l.applyRequirements.Some? then l.applyRequirements
                               else if |opts.defaultApplyRequirements| == 0 then None
                               else Some(opts.defaultApplyRequirements))
    && p.autoplan.enabled == (if l.autoPlan.Some? then l.autoPlan.value else opts.autoPlan)
    && p.executionOrderGroup == (if l.executionOrderGroup > 0 then l.executionOrderGroup else 0)
    && p.name == (if opts.createProjectName then ProjectName(p.dir) else "")
    && p.workspace == (if opts.createWorkspace then ProjectName(p.dir) else "")
  }

  /** The watch list of a project: the base globs first, no repeats, and
      exactly the base globs and the relative forms of the module's
      dependencies. */
  ghost predicate WatchListOf(w: seq<string>, m: Module, l: ResolvedLocals, opts: Options) {
    && Distinct(w)
    && |Unique(opts.autoPlanFileList)| <= |w|
    && w[..|Unique(opts.autoPlanFileList)|] == Unique(opts.autoPlanFileList)
    && forall x :: x in w <==>
         || x in opts.autoPlanFileList
         || exists d :: d in DependencySet(m, l, opts) && RelativeDependency(d, m.sourceDir, opts.gitRoot) == Some(x)
  }

  /** The second half of createProject: the project's fields from the
      resolved locals and the defaults, and the watch list without repeats. */
  method AssembleProject(m: Module, locals: ResolvedLocals, opts: Options, relativeDependencies: seq<string>)
    returns (project: Project)
    ensures FieldsFrom(project, m, locals, opts)
    ensures project.autoplan.whenModified == Unique(relativeDependencies)
  {
    var relativeSourceDir := DirOf(m.sourceDir, opts.gitRoot);

    var workflow := opts.defaultWorkflow;
    if locals.atlantisWorkflow != "" {
      workflow := locals.atlantisWorkflow;
    }
    var applyRequirements := Some(opts.defaultApplyRequirements);
    if |opts.defaultApplyRequirements| == 0 {
      applyRequirements := None;
    }
    if locals.applyRequirements.Some? {
      applyRequirements := locals.applyRequirements;
    }
    var resolvedAutoPlan := opts.autoPlan;
    if locals.autoPlan.Some? {
      resolvedAutoPlan := locals.autoPlan.value;
    }
    var terraformVersion := opts.defaultTerraformVersion;
    if locals.terraformVersion != "" {
      terraformVersion := locals.terraformVersion;
    }

    var whenModified := UniqueStrings(relativeDependencies);
    var executionOrderGroup := 0;
    if locals.executionOrderGroup > 0 {
      executionOrderGroup := locals.executionOrderGroup;
    }
    var projectName := ProjectName(relativeSourceDir);
    var name, workspace := "", "";
    if opts.createProjectName {
      name := projectName;
    }
    if opts.createWorkspace {
      workspace := projectName;
    }
    project := Project(relativeSourceDir, workflow, terraformVersion, applyRequirements,
                       AutoplanConfig(resolvedAutoPlan, whenModified), name, workspace, executionOrderGroup);
  }

  /** createProject once the locals are resolved and `skip` is not set:
      an error only where filepath.Rel fails, which it cannot for an
      absolute module directory and repository root. */
  method ProjectFromLocals(m: Module, locals: ResolvedLocals, opts: Options) returns (r: Result<Project, ProjectError>)
    ensures r.Ok? ==> BuiltFrom(r.value, m, locals, opts)
    ensures r.Err? ==> r.error.RelError?
    ensures IsAbs(m.sourceDir) && IsAbs(opts.gitRoot) ==> r.Ok?
  {
    var dependencies := GetDependencies(m, locals, opts);
    if IsAbs(m.sourceDir) && IsAbs(opts.gitRoot) {
      RelativeDependenciesOfAbsolute(dependencies, m.sourceDir, opts.gitRoot);
    }
    var relativized := AppendRelativeDependencies(opts.autoPlanFileList, dependencies, m.sourceDir, opts.gitRoot);
    if relativized.Err? {
      return Err(relativized.error);
    }
    var relativeDependencies := relativized.value;
    var project := AssembleProject(m, locals, opts, relativeDependencies);
    WatchList(m, locals, opts, dependencies, RelativeDependencies(dependencies, m.sourceDir, opts.gitRoot).value,
              project.autoplan.whenModified);
    return Ok(project);
  }

  /** createProject: no project (and no error) exactly when the module's
      `skip` local is true; a panic while reading the locals or a failing
      filepath.Rel is an error; otherwise the project BuiltFrom describes. */
  method CreateProject(m: Module, opts: Options) returns (r: Result<Option<Project>, ProjectError>)
    ensures ResolveLocals(m).Err? ==> r == Err(LocalsPanic(ResolveLocals(m).error))
    ensures ResolveLocals(m).Ok? && ResolveLocals(m).value.skip == Some(true) ==> r == Ok(None)
    ensures r == Ok(None) ==> ResolveLocals(m).Ok? && ResolveLocals(m).value.skip == Some(true)
    ensures r.Ok? && r.value.Some? ==> ResolveLocals(m).Ok? && BuiltFrom(r.value.value, m, ResolveLocals(m).value, opts)
    ensures IsAbs(m.sourceDir) && IsAbs(opts.gitRoot) && ResolveLocals(m).Ok? ==> r.Ok?
  {
    var resolved := ResolveLocals(m);
    if resolved.Err? {
      return Err(LocalsPanic(resolved.error));
    }
    var locals := resolved.value;
    if locals.skip.Some? && locals.skip.value {
      return Ok(None);
    }
    var project := ProjectFromLocals(m, locals, opts);
    if project.Err? {
      return Err(project.error);
    }
    return Ok(Some(project.value));
  }
}
