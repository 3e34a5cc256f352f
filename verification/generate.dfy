/** The generate command's project list (cmd/generate.go:243-438): the
    root-module paths are deduplicated, each becomes a project, the
    projects are merged into the configuration one after another, sorted
    by directory and, when execution order groups are wanted, given their
    groups and sorted again by group and directory. */
module Generate {
  import opened Wrappers
  import opened Paths
  import opened Sorting
  import opened Lists
  import opened Terraform
  import opened ParseLocals
  import opened Projects
  import opened ExecutionOrder

  /** The parts of an existing atlantis.yaml that can be preserved; the
      workflow bodies are kept as uninterpreted text. */
  datatype OldConfig = OldConfig(workflows: map<string, string>, projects: seq<Project>)

  /** No two projects share a directory. */
  predicate UniqueDirs(ps: seq<Project>) {
    forall i, j :: 0 <= i < j < |ps| ==> ps[i].dir != ps[j].dir
  }

  // ---------------------------------------------------------------------
  // Merging one project into the list (cmd/generate.go:353-376)

  /** The first project with directory `dir`. */
  function FirstDirIndex(ps: seq<Project>, dir: string): (r: Option<nat>)
    ensures r.Some? ==> r.value < |ps| && ps[r.value].dir == dir
    ensures r.Some? ==> forall j :: 0 <= j < r.value ==> ps[j].dir != dir
    ensures r.None? ==> forall j :: 0 <= j < |ps| ==> ps[j].dir != dir
  {
    if |ps| == 0 then None
    else if ps[0].dir == dir then Some(0)
    else
      var r := FirstDirIndex(ps[1..], dir);
      if r.None? then None else Some(r.value + 1)
  }

  /** The project list after `p` is merged in: with `preserve` the first
      project with the same directory is replaced, otherwise (or when there
      is none) `p` is appended. */
  function Merged(ps: seq<Project>, p: Project, preserve: bool): seq<Project> {
    if !preserve then ps + [p]
    else
      var i := FirstDirIndex(ps, p.dir);
      if i.None? then ps + [p] else ps[i.value := p]
  }

  /** Only the first project with p's directory is replaced, every other
      entry stays where it was, and the list grows by one exactly when
      nothing was replaced. */
  lemma MergeReplacesFirstOrAppends(ps: seq<Project>, p: Project, preserve: bool)
    ensures var r := Merged(ps, p, preserve);
      && (|r| == |ps| + 1 <==> !preserve || forall j :: 0 <= j < |ps| ==> ps[j].dir != p.dir)
      && (|r| == |ps| || |r| == |ps| + 1)
      && (|r| == |ps| + 1 ==> r[|ps|] == p)
      && p in r
      && forall j :: 0 <= j < |ps| ==>
           r[j] == (if preserve && ps[j].dir == p.dir && (forall i :: 0 <= i < j ==> ps[i].dir != p.dir) then p else ps[j])
  {
    var r := Merged(ps, p, preserve);
    var i := FirstDirIndex(ps, p.dir);
    if preserve && i.Some? {
      assert r[i.value] == p;
    } else {
      assert r[|ps|] == p;
    }
  }

  /** "projects should be unique": merging with `preserve` keeps the
      directories distinct. */
  lemma MergeKeepsDirsUnique(ps: seq<Project>, p: Project)
    requires UniqueDirs(ps)
    ensures UniqueDirs(Merged(ps, p, true))
  {
    var r := Merged(ps, p, true);
    var i := FirstDirIndex(ps, p.dir);
    if i.Some? {
      forall a, b | 0 <= a < b < |r| ensures r[a].dir != r[b].dir {
        if a == i.value {
          assert ps[a].dir == p.dir;
        } else if b == i.value {
          assert ps[b].dir == p.dir;
        }
      }
    }
  }

  /** The projects of the configuration after every created project has
      been merged in, in discovery order; None stands for a skipped module. */
  function MergeAll(ps: seq<Project>, created: seq<Option<Project>>, preserve: bool): seq<Project> {
    if |created| == 0 then ps
    else
      var m := MergeAll(ps, created[..|created| - 1], preserve);
      var c := created[|created| - 1];
      if c.None? then m else Merged(m, c.value, preserve)
  }

  /** With `preserve`, a configuration whose directories were distinct
      keeps them distinct however many projects are merged in. */
  lemma {:induction false} MergeAllKeepsDirsUnique(ps: seq<Project>, created: seq<Option<Project>>)
    requires UniqueDirs(ps)
    ensures UniqueDirs(MergeAll(ps, created, true))
  {
    if |created| > 0 {
      var init := created[..|created| - 1];
      MergeAllKeepsDirsUnique(ps, init);
      var c := created[|created| - 1];
      if c.Some? {
        MergeKeepsDirsUnique(MergeAll(ps, init, true), c.value);
      }
    }
  }

  /** Dropping one project keeps the others' directories distinct and
      different from the dropped one's. */
  lemma DropKeepsDirsUnique(a: seq<Project>, k: nat)
    requires UniqueDirs(a) && k < |a|
    ensures var rest := a[..k] + a[k + 1..];
      && multiset(rest) == multiset(a) - multiset{a[k]}
      && UniqueDirs(rest)
      && forall m :: 0 <= m < |rest| ==> rest[m].dir != a[k].dir
  {
    var rest := a[..k] + a[k + 1..];
    assert a == a[..k] + [a[k]] + a[k + 1..];
    forall m | 0 <= m < |rest| ensures rest[m] == a[if m < k then m else m + 1] { }
  }

  /** Reordering a list keeps its directories distinct. */
  lemma {:induction false} PermutationKeepsDirsUnique(a: seq<Project>, b: seq<Project>)
    requires UniqueDirs(a) && multiset(a) == multiset(b)
    ensures UniqueDirs(b)
    decreases |b|
  {
    if |b| > 0 {
      var x := b[0];
      assert x in multiset(a);
      var k :| 0 <= k < |a| && a[k] == x;
      var rest := a[..k] + a[k + 1..];
      DropKeepsDirsUnique(a, k);
      assert b == [x] + b[1..];
      assert multiset(b[1..]) == multiset(b) - multiset{x};
      PermutationKeepsDirsUnique(rest, b[1..]);
      forall j | 0 < j < |b| ensures b[j].dir != x.dir {
        assert b[j] == b[1..][j - 1];
        assert b[j] in multiset(rest);
      }
    }
  }

  // ---------------------------------------------------------------------
  // The orders the two sort.Slice calls use (cmd/generate.go:388, 433-438)

  predicate ByDir(p: Project, q: Project) {
    StrLess(p.dir, q.dir)
  }

  predicate ByGroupAndDir(p: Project, q: Project) {
    if p.executionOrderGroup == q.executionOrderGroup then StrLess(p.dir, q.dir)
    else p.executionOrderGroup < q.executionOrderGroup
  }

  lemma {:induction false} ByDirIsStrictOrder()
    ensures StrictOrder(ByDir)
  {
    forall p: Project { StrLessIrreflexive(p.dir); }
    forall p: Project, q: Project, s: Project | ByDir(p, q) && ByDir(q, s)
      ensures ByDir(p, s)
    {
      StrLessTransitive(p.dir, q.dir, s.dir);
    }
  }

  lemma {:induction false} ByGroupAndDirIsStrictOrder()
    ensures StrictOrder(ByGroupAndDir)
  {
    forall p: Project { StrLessIrreflexive(p.dir); }
    forall p: Project, q: Project, s: Project | ByGroupAndDir(p, q) && ByGroupAndDir(q, s)
      ensures ByGroupAndDir(p, s)
    {
      if p.executionOrderGroup == q.executionOrderGroup == s.executionOrderGroup {
        StrLessTransitive(p.dir, q.dir, s.dir);
      }
    }
  }

  /** A list sorted by (group, directory) lists the groups in ascending order. */
  lemma GroupsAscend(ps: seq<Project>)
    requires SortedBy(ps, ByGroupAndDir)
    ensures forall i, j :: 0 <= i < j < |ps| ==> ps[i].executionOrderGroup <= ps[j].executionOrderGroup
  {
    forall i, j | 0 <= i < j < |ps|
      ensures ps[i].executionOrderGroup <= ps[j].executionOrderGroup
    {
      assert !ByGroupAndDir(ps[j], ps[i]);
    }
  }

  // ---------------------------------------------------------------------
  // The projects as an instance of the execution order solver
  // (cmd/generate.go:390-430)

  /** The project the directory map keeps for `dir`: the last one with
      that directory, since later assignments overwrite earlier ones. */
  function LastDirIndex(ps: seq<Project>, dir: string): (r: Option<nat>)
    ensures r.Some? ==> r.value < |ps| && ps[r.value].dir == dir
    ensures r.Some? ==> forall j :: r.value < j < |ps| ==> ps[j].dir != dir
    ensures r.None? ==> forall j :: 0 <= j < |ps| ==> ps[j].dir != dir
  {
    if |ps| == 0 then None
    else if ps[|ps| - 1].dir == dir then Some(|ps| - 1)
    else LastDirIndex(ps[..|ps| - 1], dir)
  }

  /** `projectsMap` maps every directory of `ps` to the last project with it. */
  ghost predicate DirIndexOf(ps: seq<Project>, projectsMap: map<string, nat>) {
    forall d :: LastDirIndex(ps, d) == (if d in projectsMap then Some(projectsMap[d]) else None)
  }

  /** The directory a when_modified entry of the project in `dir` lies in. */
  function DepDir(dir: string, dep: string): string {
    Dir(Join(dir, dep))
  }

  /** The directories the entries of a watch list lie in. */
  function DepDirs(dir: string, deps: seq<string>): (r: seq<string>)
    ensures |r| == |deps|
  {
    seq(|deps|, i requires 0 <= i < |deps| => DepDir(dir, deps[i]))
  }

  /** The projects a project in `dir` depends on, given the directories of
      its watch list entries, in order: entries in its own directory and
      entries in directories without a project are skipped. */
  function OwnerList(ps: seq<Project>, dir: string, depDirs: seq<string>): (os: seq<nat>)
    ensures forall j :: 0 <= j < |os| ==> os[j] < |ps|
  {
    if |depDirs| == 0 then []
    else
      var os := OwnerList(ps, dir, depDirs[..|depDirs| - 1]);
      var depPath := depDirs[|depDirs| - 1];
      if depPath == dir then os
      else
        var owner := LastDirIndex(ps, depPath);
        if owner.None? then os else os + [owner.value]
  }

  /** A project is among the owners exactly when some watch list entry lies
      in its directory, that directory is not the project's own, and the
      directory map keeps that project for it. */
  lemma {:induction false} OwnerListMembership(ps: seq<Project>, dir: string, depDirs: seq<string>, o: nat)
    ensures o in OwnerList(ps, dir, depDirs) <==>
      exists j :: 0 <= j < |depDirs| && depDirs[j] != dir && LastDirIndex(ps, depDirs[j]) == Some(o)
  {
    if |depDirs| > 0 {
      var init := depDirs[..|depDirs| - 1];
      OwnerListMembership(ps, dir, init, o);
      assert forall j :: 0 <= j < |init| ==> init[j] == depDirs[j];
      if o in OwnerList(ps, dir, depDirs) && o !in OwnerList(ps, dir, init) {
        assert depDirs[|depDirs| - 1] != dir && LastDirIndex(ps, depDirs[|depDirs| - 1]) == Some(o);
      }
    }
  }

  function Owners(ps: seq<Project>): (ow: seq<seq<nat>>)
    ensures |ow| == |ps|
  {
    seq(|ps|, k requires 0 <= k < |ps| => OwnerList(ps, ps[k].dir, DepDirs(ps[k].dir, ps[k].autoplan.whenModified)))
  }

  /** Where each project's group is written: projectsMap[project.Dir]. */
  function Targets(ps: seq<Project>): (tg: seq<nat>)
    ensures |tg| == |ps|
  {
    seq(|ps|, k requires 0 <= k < |ps| => LastDirIndex(ps, ps[k].dir).value)
  }

  function Groups(ps: seq<Project>): (g: seq<int>)
    ensures |g| == |ps|
  {
    seq(|ps|, k requires 0 <= k < |ps| => ps[k].executionOrderGroup)
  }

  /** `ps` with its groups replaced by `g`. */
  function WithGroups(ps: seq<Project>, g: seq<int>): (r: seq<Project>)
    requires |g| == |ps|
    ensures |r| == |ps|
  {
    seq(|ps|, k requires 0 <= k < |ps| => ps[k].(executionOrderGroup := g[k]))
  }

  lemma ProjectsInstance(ps: seq<Project>, g: seq<int>)
    requires |g| == |ps|
    ensures Instance(g, Owners(ps), Targets(ps))
  {
  }

  /** The solver run on the projects as they stand after the sort by directory. */
  function SolveProjects(ps: seq<Project>): (r: Outcome)
    ensures |r.groups| == |ps|
  {
    ProjectsInstance(ps, Groups(ps));
    Solve(Groups(ps), Owners(ps), Targets(ps), 0)
  }

  /** Distinct directories: every project's group is written to itself. */
  lemma UniqueDirsOwnTargets(ps: seq<Project>)
    requires UniqueDirs(ps)
    ensures OwnTargets(Targets(ps))
  {
    forall k | 0 <= k < |ps| ensures Targets(ps)[k] == k {
      assert LastDirIndex(ps, ps[k].dir).Some?;
    }
  }

  /** When the solver ends without the warning over distinct directories,
      each project's group is one more than the largest group among the
      projects it depends on, or 0 when it depends on none. */
  lemma GroupsAreDependencyDepth(ps: seq<Project>)
    requires UniqueDirs(ps) && !SolveProjects(ps).warned
    ensures var g := SolveProjects(ps).groups;
      var ow := Owners(ps);
      forall k :: 0 <= k < |ps| ==>
        && (forall j :: 0 <= j < |ow[k]| ==> g[ow[k][j]] + 1 <= g[k])
        && (g[k] == 0 || exists j :: 0 <= j < |ow[k]| && g[k] == g[ow[k][j]] + 1)
  {
    var ow, tg := Owners(ps), Targets(ps);
    ProjectsInstance(ps, Groups(ps));
    assert SolveProjects(ps) == Solve(Groups(ps), ow, tg, 0);
    var g := SolveProjects(ps).groups;
    UniqueDirsOwnTargets(ps);
    SolveFixedPoint(Groups(ps), ow, tg, 0);
    ProjectsInstance(ps, g);
    FixedPointIsDepth(g, ow, tg);
  }

  /** "Should be unreachable": over distinct directories whose dependency
      graph is acyclic the solver never reaches the warning. */
  lemma AcyclicProjectsConverge(ps: seq<Project>, rank: seq<nat>)
    requires UniqueDirs(ps) && Ranked(Owners(ps), rank)
    ensures !SolveProjects(ps).warned
  {
    ProjectsInstance(ps, Groups(ps));
    UniqueDirsOwnTargets(ps);
    AcyclicConverges(Groups(ps), Owners(ps), Targets(ps), rank);
  }

  /** Without the warning, a project's group is above every group it
      depends on. */
  lemma OwnerGroupBelow(ps: seq<Project>, k: nat, o: nat)
    requires UniqueDirs(ps) && !SolveProjects(ps).warned
    requires k < |ps| && o in Owners(ps)[k]
    ensures o < |ps| && SolveProjects(ps).groups[o] + 1 <= SolveProjects(ps).groups[k]
  {
    GroupsAreDependencyDepth(ps);
    var j :| 0 <= j < |Owners(ps)[k]| && Owners(ps)[k][j] == o;
  }

  /** "Probably cycle exists": over distinct directories, a cycle in the
      dependency graph makes the solver warn, since without the warning
      every group would be above the next one round the cycle. */
  lemma CycleWarns(ps: seq<Project>, cyc: seq<nat>)
    requires UniqueDirs(ps) && |cyc| >= 1
    requires forall i :: 0 <= i < |cyc| ==> cyc[i] < |ps|
    requires forall i :: 0 <= i < |cyc| - 1 ==> cyc[i + 1] in Owners(ps)[cyc[i]]
    requires cyc[0] in Owners(ps)[cyc[|cyc| - 1]]
    ensures SolveProjects(ps).warned
  {
    if !SolveProjects(ps).warned {
      var g := SolveProjects(ps).groups;
      var i := 0;
      while i < |cyc| - 1
        invariant 0 <= i < |cyc| && g[cyc[i]] + i <= g[cyc[0]]
      {
        OwnerGroupBelow(ps, cyc[i], cyc[i + 1]);
        i := i + 1;
      }
      OwnerGroupBelow(ps, cyc[|cyc| - 1], cyc[0]);
      assert false;
    }
  }

  /** The map from directory to project the solver looks dependencies up in. */
  method DirIndex(ps: seq<Project>) returns (projectsMap: map<string, nat>)
    ensures DirIndexOf(ps, projectsMap)
  {
    projectsMap := map[];
    var i := 0;
    while i < |ps|
      invariant i <= |ps| && DirIndexOf(ps[..i], projectsMap)
    {
      assert ps[..i + 1][..i] == ps[..i];
      projectsMap := projectsMap[ps[i].dir := i];
      i := i + 1;
    }
    assert ps[..|ps|] == ps;
  }

  lemma OwnerListStep(ps: seq<Project>, dir: string, depDirs: seq<string>, j: nat)
    requires j < |depDirs|
    ensures var os := OwnerList(ps, dir, depDirs[..j]);
      var depPath := depDirs[j];
      OwnerList(ps, dir, depDirs[..j + 1])
        == if depPath == dir || LastDirIndex(ps, depPath).None? then os else os + [LastDirIndex(ps, depPath).value]
  {
    assert depDirs[..j + 1][..j] == depDirs[..j];
  }

  lemma CandidateStep(g: seq<int>, os: seq<nat>, o: nat)
    requires InRange(g, os) && o < |g|
    ensures InRange(g, os + [o])
    ensures Candidate(g, os + [o]) == if g[o] + 1 > Candidate(g, os) then g[o] + 1 else Candidate(g, os)
  {
    assert (os + [o])[..|os|] == os;
  }

  /** One entry of the watch list: an entry in another project's directory
      adds that project to the owners and raises the candidate to its
      group plus one; any other entry changes nothing. */
  lemma DependencyStep(ps0: seq<Project>, projectsMap: map<string, nat>, g: seq<int>, dir: string, depDirs: seq<string>, j: nat)
    requires DirIndexOf(ps0, projectsMap) && |g| == |ps0| && j < |depDirs|
    ensures var os := OwnerList(ps0, dir, depDirs[..j]);
      var next := OwnerList(ps0, dir, depDirs[..j + 1]);
      var depPath := depDirs[j];
      && InRange(g, os) && InRange(g, next)
      && (depPath != dir && depPath in projectsMap ==>
            && projectsMap[depPath] < |g|
            && Candidate(g, next) == if g[projectsMap[depPath]] + 1 > Candidate(g, os) then g[projectsMap[depPath]] + 1 else Candidate(g, os))
      && (depPath == dir || depPath !in projectsMap ==> next == os)
  {
    var depPath := depDirs[j];
    OwnerListStep(ps0, dir, depDirs, j);
    if depPath != dir && depPath in projectsMap {
      assert LastDirIndex(ps0, depPath) == Some(projectsMap[depPath]);
      CandidateStep(g, OwnerList(ps0, dir, depDirs[..j]), projectsMap[depPath]);
    } else {
      assert depPath == dir || LastDirIndex(ps0, depPath).None?;
    }
  }

  /** The group the inner loop computes for project k: the candidate over
      the projects it depends on, read from the groups as they stand. */
  method DependencyGroup(projects: seq<Project>, projectsMap: map<string, nat>, groups: seq<int>, k: nat)
    returns (executionOrderGroup: int)
    requires |groups| == |projects| && k < |projects| && DirIndexOf(projects, projectsMap)
    ensures InRange(groups, Owners(projects)[k]) && executionOrderGroup == Candidate(groups, Owners(projects)[k])
  {
    var project := projects[k];
    var deps := project.autoplan.whenModified;
    ghost var depDirs := DepDirs(project.dir, deps);
    executionOrderGroup := 0;
    var j := 0;
    while j < |deps|
      invariant j <= |deps| && InRange(groups, OwnerList(projects, project.dir, depDirs[..j]))
      invariant executionOrderGroup == Candidate(groups, OwnerList(projects, project.dir, depDirs[..j]))
    {
      var depPath := DepDir(project.dir, deps[j]);
      assert depPath == depDirs[j];
      DependencyStep(projects, projectsMap, groups, project.dir, depDirs, j);
      if depPath != project.dir && depPath in projectsMap {
        var depProject := projectsMap[depPath];
        if groups[depProject] + 1 > executionOrderGroup {
          executionOrderGroup := groups[depProject] + 1;
        }
      }
      j := j + 1;
    }
    assert depDirs[..|deps|] == depDirs;
  }

  /** One pass of the solver: every project in turn computes its group
      and writes it through the directory map when it differs. */
  method RunPass(projects: seq<Project>, projectsMap: map<string, nat>, groups0: seq<int>)
    returns (changed: bool, groups: seq<int>)
    requires |groups0| == |projects| && DirIndexOf(projects, projectsMap)
    ensures Instance(groups0, Owners(projects), Targets(projects))
    ensures Pass(groups0, Owners(projects), Targets(projects), 0) == PassResult(groups, changed)
  {
    ghost var ow, tg := Owners(projects), Targets(projects);
    ProjectsInstance(projects, groups0);
    changed := false;
    groups := groups0;
    var k := 0;
    while k < |projects|
      invariant k <= |projects| && |groups| == |projects| && Instance(groups, ow, tg)
      invariant Pass(groups0, ow, tg, 0).groups == Pass(groups, ow, tg, k).groups
      invariant Pass(groups0, ow, tg, 0).changed == (changed || Pass(groups, ow, tg, k).changed)
    {
      var executionOrderGroup := DependencyGroup(projects, projectsMap, groups, k);
      var t := projectsMap[projects[k].dir];
      assert t == tg[k] by {
        assert LastDirIndex(projects, projects[k].dir) == Some(t);
      }
      if groups[t] != executionOrderGroup {
        groups := groups[t := executionOrderGroup];
        changed := true;
      }
      k := k + 1;
    }
  }

  /** The outer loop of the solver: passes run while the previous one
      changed something, |projects| + 1 of them at most. */
  method SolveGroups(projects: seq<Project>, groups0: seq<int>)
    returns (groups: seq<int>, hasChanges: bool, passes: nat)
    requires |groups0| == |projects|
    ensures Instance(groups0, Owners(projects), Targets(projects))
    ensures Solve(groups0, Owners(projects), Targets(projects), 0) == Outcome(groups, hasChanges, passes)
  {
    ghost var ow, tg := Owners(projects), Targets(projects);
    ProjectsInstance(projects, groups0);
    var projectsMap := DirIndex(projects);
    groups := groups0;
    hasChanges := true;
    var i := 0;
    while hasChanges && i <= |projects|
      invariant i <= |projects| + 1 && |groups| == |projects| && Instance(groups, ow, tg)
      invariant hasChanges ==> Solve(groups, ow, tg, i) == Solve(groups0, ow, tg, 0)
      invariant !hasChanges ==> Solve(groups0, ow, tg, 0) == Outcome(groups, false, i)
      decreases |projects| + 1 - i
    {
      ghost var before := groups;
      hasChanges, groups := RunPass(projects, projectsMap, groups);
      SolveStep(before, ow, tg, i);
      i := i + 1;
    }
    passes := i;
  }

  class AtlantisConfig {
    var version: int
    var autoMerge: bool
    var parallelPlan: bool
    var parallelApply: bool
    var workflows: map<string, string>
    var projects: seq<Project>

    /** The configuration main starts from (cmd/generate.go:303-314). */
    constructor (opts: Options, oldConfig: Option<OldConfig>)
      ensures version == 3 && autoMerge == opts.autoMerge
      ensures parallelPlan == opts.parallel && parallelApply == opts.parallel
      ensures workflows == if oldConfig.Some? && opts.preserveWorkflows then oldConfig.value.workflows else map[]
      ensures projects == if oldConfig.Some? && opts.preserveProjects then oldConfig.value.projects else []
    {
      version := 3;
      autoMerge := opts.autoMerge;
      parallelPlan := opts.parallel;
      parallelApply := opts.parallel;
      workflows := map[];
      projects := [];
      if oldConfig.Some? && opts.preserveWorkflows {
        workflows := oldConfig.value.workflows;
      }
      if oldConfig.Some? && opts.preserveProjects {
        projects := oldConfig.value.projects;
      }
    }

    /** Adds one created project (cmd/generate.go:353-376). */
    method MergeProject(project: Project, preserveProjects: bool)
      modifies this`projects
      ensures projects == Merged(old(projects), project, preserveProjects)
    {
      if preserveProjects {
        var updateProject := false;
        var i := 0;
        while i < |projects|
          invariant i <= |projects| && projects == old(projects) && !updateProject
          invariant forall j :: 0 <= j < i ==> projects[j].dir != project.dir
        {
          if projects[i].dir == project.dir {
            updateProject := true;
            projects := projects[i := project];
            break;
          }
          i := i + 1;
        }
        if !updateProject {
          projects := projects + [project];
        }
      } else {
        projects := projects + [project];
      }
    }

    /** sort.Slice by directory (cmd/generate.go:388). */
    method SortByDir()
      modifies this`projects
      ensures SortedBy(projects, ByDir)
      ensures multiset(projects) == multiset(old(projects))
    {
      ByDirIsStrictOrder();
      projects := SortSlice(projects, ByDir);
    }

    /** sort.Slice by group, then directory (cmd/generate.go:433-438). */
    method SortByGroupAndDir()
      modifies this`projects
      ensures SortedBy(projects, ByGroupAndDir)
      ensures multiset(projects) == multiset(old(projects))
    {
      ByGroupAndDirIsStrictOrder();
      projects := SortSlice(projects, ByGroupAndDir);
    }

    /** The execution order loop (cmd/generate.go:389-430): the groups the
        solver computes from the projects as they stand, and whether the
        loop ran out of passes with changes still being made. */
    method AssignExecutionOrderGroups() returns (warned: bool)
      modifies this`projects
      ensures var s := SolveProjects(old(projects));
        projects == WithGroups(old(projects), s.groups) && warned == s.warned
    {
      var groups, passes;
      groups, warned, passes := SolveGroups(projects, Groups(projects));
      projects := WithGroups(projects, groups);
    }
  }

  /** The project list main starts from. */
  function Initial(opts: Options, oldConfig: Option<OldConfig>): seq<Project> {
    if oldConfig.Some? && opts.preserveProjects then oldConfig.value.projects else []
  }

  /** What createProject reports for module `m`, when it does not fail:
      no project exactly when `skip` is set, otherwise the project its
      locals and the options describe. */
  ghost predicate Created(c: Option<Project>, m: Module, opts: Options) {
    && ResolveLocals(m).Ok?
    && (c.None? <==> ResolveLocals(m).value.skip == Some(true))
    && (c.Some? ==> BuiltFrom(c.value, m, ResolveLocals(m).value, opts))
  }

  /** The body of one goroutine of main: createProject on one root module
      and, unless it is skipped, the merge of its project into the
      projects merged so far. */
  method CreateAndMerge(config: AtlantisConfig, m: Module, opts: Options,
                        ghost ps0: seq<Project>, ghost before: seq<Option<Project>>)
    returns (err: Option<ProjectError>, ghost created: Option<Project>)
    requires config.projects == MergeAll(ps0, before, opts.preserveProjects)
    modifies config`projects
    ensures err.None? ==> Created(created, m, opts)
    ensures err.None? ==> config.projects == MergeAll(ps0, before + [created], opts.preserveProjects)
    ensures err.Some? ==> config.projects == old(config.projects)
    ensures err.Some? && IsAbs(m.sourceDir) && IsAbs(opts.gitRoot) ==>
      ResolveLocals(m).Err? && err.value == LocalsPanic(ResolveLocals(m).error)
  {
    var project := CreateProject(m, opts);
    if project.Err? {
      return Some(project.error), None;
    }
    assert (before + [project.value])[..|before|] == before;
    if project.value.Some? {
      config.MergeProject(project.value.value, opts.preserveProjects);
    }
    return None, project.value;
  }

  /** created[i] is what createProject reports for root module paths[i],
      for every path processed so far. */
  ghost predicate CreatedAll(created: seq<Option<Project>>, paths: seq<string>, parse: string -> Module, opts: Options)
    decreases |created|
  {
    && |created| <= |paths|
    && (|created| > 0 ==>
          && CreatedAll(created[..|created| - 1], paths, parse, opts)
          && Created(created[|created| - 1], parse(paths[|created| - 1]), opts))
  }

  /** CreatedAll holds path by path. */
  lemma {:induction false} CreatedAllAt(created: seq<Option<Project>>, paths: seq<string>, parse: string -> Module, opts: Options, i: nat)
    requires CreatedAll(created, paths, parse, opts) && i < |created|
    ensures i < |paths| && Created(created[i], parse(paths[i]), opts)
    decreases |created|
  {
    if i < |created| - 1 {
      var init := created[..|created| - 1];
      CreatedAllAt(init, paths, parse, opts, i);
      assert init[i] == created[i];
    }
  }

  /** Each created project's directory is its module's. */
  lemma CreatedDirs(created: seq<Option<Project>>, paths: seq<string>, parse: string -> Module, opts: Options)
    requires CreatedAll(created, paths, parse, opts)
    ensures |created| <= |paths|
    ensures forall i :: 0 <= i < |created| && created[i].Some? ==>
      created[i].value.dir == DirOf(parse(paths[i]).sourceDir, opts.gitRoot)
  {
    forall i | 0 <= i < |created| && created[i].Some?
      ensures created[i].value.dir == DirOf(parse(paths[i]).sourceDir, opts.gitRoot)
    {
      CreatedAllAt(created, paths, parse, opts, i);
    }
  }

  /** The directories the root modules get. */
  function DirsOf(paths: seq<string>, parse: string -> Module, gitRoot: string): (r: seq<string>)
    ensures |r| == |paths|
    ensures forall i :: 0 <= i < |paths| ==> r[i] == DirOf(parse(paths[i]).sourceDir, gitRoot)
  {
    seq(|paths|, i requires 0 <= i < |paths| => DirOf(parse(paths[i]).sourceDir, gitRoot))
  }

  /** Distinct walk paths, each the source directory of its module, get
      distinct directories. */
  lemma DirsOfDistinct(paths: seq<string>, parse: string -> Module, gitRoot: string)
    requires Distinct(paths)
    requires forall i :: 0 <= i < |paths| ==> parse(paths[i]).sourceDir == paths[i] && UnderRoot(paths[i], gitRoot)
    ensures Distinct(DirsOf(paths, parse, gitRoot))
  {
    var ds := DirsOf(paths, parse, gitRoot);
    forall i, j | 0 <= i < j < |ds| ensures ds[i] != ds[j] {
      if ds[i] == ds[j] {
        DirOfInjective(paths[i], paths[j], gitRoot);
      }
    }
  }

  /** Without `--preserve-projects` every project is appended; when the
      projects come with distinct directories the list keeps them distinct. */
  lemma {:induction false} AppendedDirsUnique(created: seq<Option<Project>>, ds: seq<string>)
    requires |created| <= |ds| && Distinct(ds)
    requires forall i :: 0 <= i < |created| && created[i].Some? ==> created[i].value.dir == ds[i]
    ensures UniqueDirs(MergeAll([], created, false))
    ensures forall j :: 0 <= j < |MergeAll([], created, false)| ==> MergeAll([], created, false)[j].dir in ds[..|created|]
    decreases |created|
  {
    if |created| > 0 {
      var n := |created| - 1;
      var init := created[..n];
      AppendedDirsUnique(init, ds);
      var m := MergeAll([], init, false);
      assert forall j :: 0 <= j < |m| ==> m[j].dir in ds[..n];
      assert ds[..n] == ds[..n + 1][..n];
      if created[n].Some? {
        forall j | 0 <= j < |m| ensures m[j].dir != ds[n] {
          var i :| 0 <= i < n && ds[..n][i] == m[j].dir;
          assert ds[i] == m[j].dir;
        }
      }
    }
  }

  /** Runs createProject on each root module in order and merges each
      project into the configuration; stops at the first error. */
  method CollectProjects(config: AtlantisConfig, paths: seq<string>, parse: string -> Module, opts: Options)
    returns (err: Option<ProjectError>, ghost created: seq<Option<Project>>)
    modifies config`projects
    ensures |created| <= |paths|
    ensures err.None? <==> |created| == |paths|
    ensures CreatedAll(created, paths, parse, opts)
    ensures config.projects == MergeAll(old(config.projects), created, opts.preserveProjects)
    ensures err.Some? ==> var m := parse(paths[|created|]);
      IsAbs(m.sourceDir) && IsAbs(opts.gitRoot) ==> ResolveLocals(m).Err? && err.value == LocalsPanic(ResolveLocals(m).error)
  {
    created := [];
    var i := 0;
    while i < |paths|
      invariant i <= |paths| && |created| == i
      invariant CreatedAll(created, paths, parse, opts)
      invariant config.projects == MergeAll(old(config.projects), created, opts.preserveProjects)
    {
      var e, c := CreateAndMerge(config, parse(paths[i]), opts, old(config.projects), created);
      if e.Some? {
        return e, created;
      }
      assert (created + [c])[..i] == created;
      created := created + [c];
      i := i + 1;
    }
    err := None;
  }

  /** The list sorted by directory has distinct directories: with
      `--preserve-projects` when the preserved list had them, and without it
      when each root module's source directory is its walk path. */
  lemma SortedDirsUnique(opts: Options, oldConfig: Option<OldConfig>, paths: seq<string>, parse: string -> Module,
                         created: seq<Option<Project>>, byDir: seq<Project>)
    requires CreatedAll(created, paths, parse, opts) && Distinct(paths)
    requires multiset(byDir) == multiset(MergeAll(Initial(opts, oldConfig), created, opts.preserveProjects))
    ensures opts.preserveProjects && UniqueDirs(Initial(opts, oldConfig)) ==> UniqueDirs(byDir)
    ensures !opts.preserveProjects
      && (forall p :: p in paths ==> parse(p).sourceDir == p && UnderRoot(p, opts.gitRoot))
      ==> UniqueDirs(byDir)
  {
    var merged := MergeAll(Initial(opts, oldConfig), created, opts.preserveProjects);
    if opts.preserveProjects && UniqueDirs(Initial(opts, oldConfig)) {
      MergeAllKeepsDirsUnique(Initial(opts, oldConfig), created);
      PermutationKeepsDirsUnique(merged, byDir);
    }
    if !opts.preserveProjects
      && (forall p :: p in paths ==> parse(p).sourceDir == p && UnderRoot(p, opts.gitRoot))
    {
      CreatedDirs(created, paths, parse, opts);
      DirsOfDistinct(paths, parse, opts.gitRoot);
      AppendedDirsUnique(created, DirsOf(paths, parse, opts.gitRoot));
      PermutationKeepsDirsUnique(merged, byDir);
    }
  }

  /** The project list of the generate command (cmd/generate.go:289-438),
      with the root modules found by the directory walk given as `batches`
      (one per working path) and the module parser as `parse`. */
  method Generate(opts: Options, oldConfig: Option<OldConfig>, batches: seq<seq<string>>, parse: string -> Module)
    returns (r: Result<AtlantisConfig, ProjectError>, warned: bool,
             ghost created: seq<Option<Project>>, ghost byDir: seq<Project>)
    ensures var paths := Unique(Flatten(batches));
      && (r.Ok? <==> |created| == |paths|)
      && |created| <= |paths|
      && CreatedAll(created, paths, parse, opts)
    ensures r.Err? ==> var m := parse(Unique(Flatten(batches))[|created|]);
      IsAbs(m.sourceDir) && IsAbs(opts.gitRoot) ==> ResolveLocals(m).Err? && r.error == LocalsPanic(ResolveLocals(m).error)
    ensures r.Ok? ==> fresh(r.value) && r.value.version == 3
    ensures r.Ok? ==>
      && r.value.autoMerge == opts.autoMerge
      && r.value.parallelPlan == opts.parallel && r.value.parallelApply == opts.parallel
      && r.value.workflows == if oldConfig.Some? && opts.preserveWorkflows then oldConfig.value.workflows else map[]
    ensures r.Ok? ==>
      && SortedBy(byDir, ByDir)
      && multiset(byDir) == multiset(MergeAll(Initial(opts, oldConfig), created, opts.preserveProjects))
    ensures r.Ok? && opts.preserveProjects && UniqueDirs(Initial(opts, oldConfig)) ==> UniqueDirs(byDir)
    ensures r.Ok? && !opts.preserveProjects
      && (forall p :: p in Unique(Flatten(batches)) ==> parse(p).sourceDir == p && UnderRoot(p, opts.gitRoot))
      ==> UniqueDirs(byDir)
    ensures r.Ok? && !opts.executionOrderGroups ==> r.value.projects == byDir && !warned
    ensures r.Ok? && opts.executionOrderGroups ==>
      && SortedBy(r.value.projects, ByGroupAndDir)
      && multiset(r.value.projects) == multiset(WithGroups(byDir, SolveProjects(byDir).groups))
      && warned == SolveProjects(byDir).warned
  {
    var paths := DedupRootModulePaths(batches);
    var config := new AtlantisConfig(opts, oldConfig);
    var err;
    err, created := CollectProjects(config, paths, parse, opts);
    warned := false;
    byDir := [];
    if err.Some? {
      r := Err(err.value);
      return;
    }
    config.SortByDir();
    byDir := config.projects;
    SortedDirsUnique(opts, oldConfig, paths, parse, created, byDir);
    if opts.executionOrderGroups {
      warned := config.AssignExecutionOrderGroups();
      config.SortByGroupAndDir();
    }
    r := Ok(config);
  }
}
