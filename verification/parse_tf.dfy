/** Local module-call sources of a module (cmd/parse_tf.go). */
module ParseTf {
  import opened Paths
  import opened Sorting
  import opened Terraform

  const LocalModuleSourcePrefixes: seq<string> := ["./", "../", ".\\", "..\\"]

  /** A relative source address: it starts with one of the four prefixes. */
  predicate IsLocalSource(raw: string) {
    exists prefix :: prefix in LocalModuleSourcePrefixes && HasPrefix(raw, prefix)
  }

  /** Some exclusion entry occurs in the address. */
  predicate IsExcluded(addr: string, exclude: seq<string>) {
    exists e :: e in exclude && Contains(addr, e)
  }

  /** joinPath: filepath.Join followed by ToSlash (the identity here). */
  function JoinPath(a: string, b: string): (r: string)
    ensures r == "" <==> a == "" && b == ""
    ensures IsAbs(a) ==> IsAbs(r)
  {
    Join(a, b)
  }

  /** The glob that matches every Terraform file of a called module. */
  function ModuleGlob(sourceDir: string, addr: string): (r: string)
    ensures IsAbs(sourceDir) ==> IsAbs(r)
  {
    JoinPath(JoinPath(sourceDir, addr), "*.tf*")
  }

  predicate Qualifies(addr: string, exclude: seq<string>) {
    IsLocalSource(addr) && !IsExcluded(addr, exclude)
  }

  /** The globs contributed by the calls in `calls`, accumulated in call order. */
  function LocalSourceGlobs(sourceDir: string, calls: seq<string>, exclude: seq<string>): set<string> {
    if |calls| == 0 then {}
    else
      var last := calls[|calls| - 1];
      LocalSourceGlobs(sourceDir, calls[..|calls| - 1], exclude)
        + (if Qualifies(last, exclude) then {ModuleGlob(sourceDir, last)} else {})
  }

  /** A glob is produced exactly when some local, non-excluded call yields it. */
  lemma {:induction false} LocalSourceGlobsMembership(sourceDir: string, calls: seq<string>, exclude: seq<string>, g: string)
    ensures g in LocalSourceGlobs(sourceDir, calls, exclude)
        <==> exists addr :: addr in calls && Qualifies(addr, exclude) && g == ModuleGlob(sourceDir, addr)
  {
    if |calls| > 0 {
      var init := calls[..|calls| - 1];
      LocalSourceGlobsMembership(sourceDir, init, exclude, g);
      assert calls == init + [calls[|calls| - 1]];
    }
  }

  /** A non-local or excluded call adds nothing, wherever it stands. */
  lemma {:induction false} NonQualifyingCallContributesNothing(sourceDir: string, before: seq<string>, addr: string, after: seq<string>, exclude: seq<string>)
    requires !Qualifies(addr, exclude)
    ensures LocalSourceGlobs(sourceDir, before + [addr] + after, exclude)
         == LocalSourceGlobs(sourceDir, before + after, exclude)
  {
    forall g ensures g in LocalSourceGlobs(sourceDir, before + [addr] + after, exclude)
                 <==> g in LocalSourceGlobs(sourceDir, before + after, exclude)
    {
      LocalSourceGlobsMembership(sourceDir, before + [addr] + after, exclude, g);
      LocalSourceGlobsMembership(sourceDir, before + after, exclude, g);
      forall a | a in before + [addr] + after && a != addr ensures a in before + after { }
      forall a | a in before + after ensures a in before + [addr] + after { }
    }
  }

  /** isLocalTerraformModuleSource. */
  method IsLocalTerraformModuleSource(raw: string) returns (local: bool)
    ensures local <==> HasPrefix(raw, "./") || HasPrefix(raw, "../") || HasPrefix(raw, ".\\") || HasPrefix(raw, "..\\")
    ensures local <==> IsLocalSource(raw)
  {
    var i := 0;
    while i < |LocalModuleSourcePrefixes|
      invariant 0 <= i <= |LocalModuleSourcePrefixes|
      invariant forall k :: 0 <= k < i ==> !HasPrefix(raw, LocalModuleSourcePrefixes[k])
    {
      if HasPrefix(raw, LocalModuleSourcePrefixes[i]) {
        return true;
      }
      i := i + 1;
    }
    assert !HasPrefix(raw, LocalModuleSourcePrefixes[0]) && !HasPrefix(raw, LocalModuleSourcePrefixes[1]);
    assert !HasPrefix(raw, LocalModuleSourcePrefixes[2]) && !HasPrefix(raw, LocalModuleSourcePrefixes[3]);
    return false;
  }

  /** isExcludedSubModule. */
  method IsExcludedSubModule(addr: string, exclude: seq<string>) returns (excluded: bool)
    ensures excluded <==> exists k :: 0 <= k < |exclude| && Contains(addr, exclude[k])
    ensures excluded <==> IsExcluded(addr, exclude)
    ensures exclude == [] ==> !excluded
  {
    var i := 0;
    while i < |exclude|
      invariant 0 <= i <= |exclude|
      invariant forall k :: 0 <= k < i ==> !Contains(addr, exclude[k])
    {
      if Contains(addr, exclude[i]) {
        return true;
      }
      i := i + 1;
    }
    return false;
  }

  /** parseTerraformLocalModuleSource: one glob per distinct called local
      module directory, in no particular order (Go map iteration), and
      never an error; the called modules are not searched in turn. */
  method ParseTerraformLocalModuleSource(m: Module, exclude: seq<string>) returns (sources: seq<string>)
    ensures Distinct(sources)
    ensures forall g :: g in sources <==> g in LocalSourceGlobs(m.sourceDir, m.moduleCalls, exclude)
    ensures forall g :: g in sources <==>
      exists addr :: addr in m.moduleCalls && Qualifies(addr, exclude) && g == ModuleGlob(m.sourceDir, addr)
  {
    var sourceMap := LocalSourceSet(m, exclude);
    sources := SetToSeq(sourceMap);
    forall g ensures g in sources <==>
      exists addr :: addr in m.moduleCalls && Qualifies(addr, exclude) && g == ModuleGlob(m.sourceDir, addr)
    {
      LocalSourceGlobsMembership(m.sourceDir, m.moduleCalls, exclude, g);
    }
  }

  /** The first loop of parseTerraformLocalModuleSource: the set of globs
      of the local, non-excluded module calls. */
  method LocalSourceSet(m: Module, exclude: seq<string>) returns (sourceMap: set<string>)
    ensures sourceMap == LocalSourceGlobs(m.sourceDir, m.moduleCalls, exclude)
  {
    sourceMap := {};
    var i := 0;
    while i < |m.moduleCalls|
      invariant 0 <= i <= |m.moduleCalls|
      invariant sourceMap == LocalSourceGlobs(m.sourceDir, m.moduleCalls[..i], exclude)
    {
      var addr := m.moduleCalls[i];
      assert m.moduleCalls[..i + 1][..i] == m.moduleCalls[..i];
      var local := IsLocalTerraformModuleSource(addr);
      var excluded := IsExcludedSubModule(addr, exclude);
      if local && !excluded {
        var modulePath := JoinPath(m.sourceDir, addr);
        var modulePathGlob := JoinPath(modulePath, "*.tf*");
        if modulePathGlob !in sourceMap {
          sourceMap := sourceMap + {modulePathGlob};
        }
      }
      i := i + 1;
    }
    assert m.moduleCalls[..i] == m.moduleCalls;
  }

  /** The keys of a Go map, in an order the model leaves open. */
  method SetToSeq(keys: set<string>) returns (sources: seq<string>)
    ensures Distinct(sources)
    ensures forall g :: g in sources <==> g in keys
  {
    sources := [];
    var rest := keys;
    while rest != {}
      invariant rest <= keys
      invariant Distinct(sources)
      invariant forall g :: g in sources <==> g in keys && g !in rest
      decreases |rest|
    {
      var source :| source in rest;
      sources := sources + [source];
      rest := rest - {source};
    }
  }
}
