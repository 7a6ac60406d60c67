/** cli/src/utils/dependencies.ts: which package manager runs, which packages it is asked for, the
    package names behind import specifiers, and the conflict report over `package.json`. */
module Dependencies {
  import opened Wrappers
  import opened Text
  import opened Seqs
  import opened Fs

  /** The two fields of `package.json` the CLI reads; each is optional. */
  datatype PackageJson = PackageJson(dependencies: Option<map<string, string>>, devDependencies: Option<map<string, string>>)

  /** `None` when the project has no `package.json`. */
  type Manifest = Option<PackageJson>

  /** `getPackageManager`: the pnpm lockfile wins over the yarn lockfile; npm otherwise. */
  function GetPackageManager(disk: Disk): (r: PackageManager)
    ensures r == Pnpm <==> Exists(disk, "pnpm-lock.yaml")
    ensures r == Yarn <==> !Exists(disk, "pnpm-lock.yaml") && Exists(disk, "yarn.lock")
    ensures r == Npm <==> !Exists(disk, "pnpm-lock.yaml") && !Exists(disk, "yarn.lock")
  {
    if Exists(disk, "pnpm-lock.yaml") then Pnpm
    else if Exists(disk, "yarn.lock") then Yarn
    else Npm
  }

  /** Spreading an absent field contributes nothing. */
  function OrEmpty(m: Option<map<string, string>>): map<string, string> {
    if m.Some? then m.value else map[]
  }

  /** `getInstalledPackages`: `{...dependencies, ...devDependencies}`, so a devDependency wins. */
  function GetInstalledPackages(manifest: Manifest): (r: map<string, string>)
    ensures manifest.None? ==> r == map[]
    ensures manifest.Some? ==> forall k :: k in r <==>
              k in OrEmpty(manifest.value.dependencies) || k in OrEmpty(manifest.value.devDependencies)
    ensures manifest.Some? ==> forall k :: k in OrEmpty(manifest.value.devDependencies) ==>
              r[k] == OrEmpty(manifest.value.devDependencies)[k]
    ensures manifest.Some? ==> forall k ::
              (k in OrEmpty(manifest.value.dependencies) && k !in OrEmpty(manifest.value.devDependencies)) ==>
              r[k] == OrEmpty(manifest.value.dependencies)[k]
  {
    match manifest
    case None => map[]
    case Some(pj) => OrEmpty(pj.dependencies) + OrEmpty(pj.devDependencies)
  }

  /** `installedPackages[pkg]` is truthy: present with a non-empty version. */
  predicate IsRecorded(installed: map<string, string>, pkg: string) {
    pkg in installed && installed[pkg] != ""
  }

  /** `packages.filter(pkg => !installedPackages[pkg])`. */
  function MissingPackages(packages: seq<string>, installed: map<string, string>): (r: seq<string>)
    ensures forall p :: p in r <==> p in packages && !IsRecorded(installed, p)
    ensures forall p :: !IsRecorded(installed, p) ==> multiset(r)[p] == multiset(packages)[p]
    ensures Subsequence(r, packages)
    ensures (forall p :: p in packages ==> IsRecorded(installed, p)) ==> r == []
    decreases |packages|
  {
    if packages == [] then []
    else
      var last := packages[|packages| - 1];
      assert packages == packages[..|packages| - 1] + [last];
      var init := MissingPackages(packages[..|packages| - 1], installed);
      if IsRecorded(installed, last) then init else init + [last]
  }

  /** yarn adds, npm and pnpm install. */
  function InstallCommand(pm: PackageManager): (r: string)
    ensures r == "add" <==> pm == Yarn
    ensures r == "install" <==> pm != Yarn
  {
    if pm == Yarn then "add" else "install"
  }

  function InstallInvocation(pm: PackageManager, packages: seq<string>): (r: Invocation)
    ensures r.manager == pm && |r.args| == |packages| + 1
    ensures r.args[0] == InstallCommand(pm) && r.args[1..] == packages
  {
    Invocation(pm, [InstallCommand(pm)] + packages)
  }

  /** Every package-manager run succeeds. */
  ghost predicate AcceptsAll(pmOk: Invocation -> bool) {
    forall call :: pmOk(call)
  }

  /** `installDependencies`: at most one package-manager run, for the requested packages not yet
      recorded; `pmOk` says whether that run succeeds (a failing run throws). */
  function InstallDependenciesSpec(w: World, packages: seq<string>, manifest: Manifest, pmOk: Invocation -> bool)
    : (r: (World, bool))
    ensures r.0.disk == w.disk && Fetches(r.0.trace) == Fetches(w.trace)
    ensures var missing := MissingPackages(packages, GetInstalledPackages(manifest));
      if missing == [] then r == (w, true)
      else r.0 == Run(w, InstallInvocation(GetPackageManager(w.disk), missing))
           && r.1 == pmOk(InstallInvocation(GetPackageManager(w.disk), missing))
    ensures AcceptsAll(pmOk) ==> r.1
  {
    if packages == [] then (w, true)
    else
      var missing := MissingPackages(packages, GetInstalledPackages(manifest));
      if missing == [] then (w, true)
      else
        var call := InstallInvocation(GetPackageManager(w.disk), missing);
        (Run(w, call), pmOk(call))
  }

  /** When every requested package is already recorded, nothing runs. */
  lemma AllRecordedRunsNothing(w: World, packages: seq<string>, manifest: Manifest, pmOk: Invocation -> bool)
    requires forall p :: p in packages ==> IsRecorded(GetInstalledPackages(manifest), p)
    ensures InstallDependenciesSpec(w, packages, manifest, pmOk) == (w, true)
  {
  }

  /** The run asks for exactly the requested, unrecorded packages, in request order. */
  lemma InstallAsksForMissing(w: World, packages: seq<string>, manifest: Manifest, pmOk: Invocation -> bool)
    ensures var installed := GetInstalledPackages(manifest);
      var r := InstallDependenciesSpec(w, packages, manifest, pmOk);
      forall call :: call in Runs(r.0.trace) && call !in Runs(w.trace) ==>
        && call.manager == GetPackageManager(w.disk)
        && call.args[0] == InstallCommand(call.manager)
        && Subsequence(call.args[1..], packages)
        && (forall p :: p in call.args[1..] <==> p in packages && !IsRecorded(installed, p))
  {
  }

  method InstallDependencies(ws: Workspace, packages: seq<string>, manifest: Manifest, pmOk: Invocation -> bool)
    returns (ok: bool)
    modifies ws
    ensures (ws.State(), ok) == InstallDependenciesSpec(old(ws.State()), packages, manifest, pmOk)
  {
    if |packages| == 0 {
      return true;
    }
    var pm := GetPackageManager(Disk(ws.files, ws.dirs));
    var installed := GetInstalledPackages(manifest);
    var toInstall := MissingPackages(packages, installed);
    if |toInstall| == 0 {
      return true;
    }
    var call := InstallInvocation(pm, toInstall);
    ws.Exec(call);
    ok := pmOk(call);
  }

  const UtilsPackages: seq<string> := ["clsx", "tailwind-merge"]

  /** `installUtilsDependencies`. */
  method InstallUtilsDependencies(ws: Workspace, manifest: Manifest, pmOk: Invocation -> bool) returns (ok: bool)
    modifies ws
    ensures (ws.State(), ok) == InstallDependenciesSpec(old(ws.State()), UtilsPackages, manifest, pmOk)
  {
    ok := InstallDependencies(ws, UtilsPackages, manifest, pmOk);
  }

  // ---------------------------------------------------------------- package names from import specifiers

  /** Relative imports and the `@/` alias are not packages. */
  predicate IsBareSpecifier(s: string) {
    !StartsWith(s, ".") && !StartsWith(s, "@/")
  }

  /** The first two '/'-pieces of a scoped specifier, the first piece of any other. */
  function PackageName(s: string): string {
    var parts := Split(s, '/');
    if StartsWith(s, "@") then Join(parts[..if |parts| < 2 then |parts| else 2], "/")
    else parts[0]
  }

  /** The package name of `name` followed by a subpath (or nothing) is `name`. */
  lemma UnscopedPackageName(name: string, rest: string)
    requires '/' !in name && !StartsWith(name, "@") && name != []
    requires rest == [] || rest[0] == '/'
    ensures PackageName(name + rest) == name
  {
    assert (name + rest)[..1] == name[..1];
    if rest == [] {
      SplitSinglePiece(name, '/');
      assert name + rest == name;
    } else {
      SplitAfterPiece(name, rest[1..], '/');
      assert name + rest == name + ['/'] + rest[1..];
    }
  }

  /** `@scope/pkg` followed by a subpath (or nothing) has the package name `@scope/pkg`. */
  lemma ScopedPackageName(scope: string, pkg: string, rest: string)
    requires '/' !in scope && '/' !in pkg
    requires rest == [] || rest[0] == '/'
    ensures PackageName("@" + scope + "/" + pkg + rest) == "@" + scope + "/" + pkg
  {
    var s := "@" + scope + "/" + pkg + rest;
    assert s[..1] == "@";
    var head := "@" + scope;
    assert '/' !in head;
    assert s == head + ['/'] + (pkg + rest);
    SplitAfterPiece(head, pkg + rest, '/');
    if rest == [] {
      assert pkg + rest == pkg;
      SplitSinglePiece(pkg, '/');
    } else {
      assert pkg + rest == pkg + ['/'] + rest[1..];
      SplitAfterPiece(pkg, rest[1..], '/');
    }
    var parts := Split(s, '/');
    assert parts[..2] == [head, pkg];
    assert Join([pkg], "/") == pkg;
    assert Join([head, pkg], "/") == head + "/" + Join([pkg], "/");
  }

  /** The package name is a leading part of the specifier. */
  lemma PackageNameIsPrefix(s: string)
    ensures StartsWith(s, PackageName(s))
  {
    var parts := Split(s, '/');
    JoinSplit(s, '/');
    if |parts| == 1 {
      assert PackageName(s) == parts[0] == Join(parts, "/");
    } else {
      assert Join(parts, "/") == parts[0] + "/" + Join(parts[1..], "/");
      assert StartsWith(s, parts[0]);
      if StartsWith(s, "@") {
        var rest := parts[1..];
        assert Join(parts[..2], "/") == parts[0] + "/" + rest[0];
        if |rest| > 1 {
          assert Join(rest, "/") == rest[0] + "/" + Join(rest[1..], "/");
        }
        assert StartsWith(Join(rest, "/"), rest[0]);
        assert s[..|parts[0] + "/" + rest[0]|] == parts[0] + "/" + rest[0];
      }
    }
  }

  /** The package names of the bare specifiers, in order, repeats kept. */
  function BareNames(specs: seq<string>): (r: seq<string>)
    ensures forall n :: n in r <==> exists s :: s in specs && IsBareSpecifier(s) && PackageName(s) == n
    decreases |specs|
  {
    if specs == [] then []
    else
      var last := specs[|specs| - 1];
      assert specs == specs[..|specs| - 1] + [last];
      BareNames(specs[..|specs| - 1]) + (if IsBareSpecifier(last) then [PackageName(last)] else [])
  }

  lemma BareNamesSnoc(specs: seq<string>, i: nat)
    requires i < |specs|
    ensures BareNames(specs[..i + 1])
            == BareNames(specs[..i]) + (if IsBareSpecifier(specs[i]) then [PackageName(specs[i])] else [])
  {
    assert specs[..i + 1][..i] == specs[..i];
  }

  /** `parseImportsFromContent` over the specifiers its regular expression captures, in order: each
      package name once, at its first occurrence. */
  method ParseImportsFromContent(specs: seq<string>) returns (deps: seq<string>)
    ensures deps == Dedup(BareNames(specs))
    ensures NoDuplicates(deps)
    ensures forall n :: n in deps <==> exists s :: s in specs && IsBareSpecifier(s) && PackageName(s) == n
  {
    deps := [];
    var i := 0;
    while i < |specs|
      invariant 0 <= i <= |specs|
      invariant deps == Dedup(BareNames(specs[..i]))
    {
      var importPath := specs[i];
      BareNamesSnoc(specs, i);
      if !StartsWith(importPath, ".") && !StartsWith(importPath, "@/") {
        var packageName := PackageName(importPath);
        DedupSnoc(BareNames(specs[..i]), packageName);
        if packageName !in deps {
          deps := deps + [packageName];
        }
      } else {
        assert BareNames(specs[..i]) + [] == BareNames(specs[..i]);
      }
      i := i + 1;
    }
    assert specs[..i] == specs;
  }

  // ---------------------------------------------------------------- conflict report

  /** A range version (`^` or `~` anywhere) only warns; any other recorded version is a conflict. */
  predicate IsFloating(version: string) {
    Contains(version, "^") || Contains(version, "~")
  }

  function WarningMessage(dep: string, version: string): string {
    dep + " is already installed with version " + version
  }

  function ConflictMessage(dep: string, version: string): string {
    dep + " has a pinned version " + version
  }

  /** The requested packages that are recorded (truthy), in request order. */
  function RecordedOf(deps: seq<string>, existing: map<string, string>): (r: seq<string>)
    ensures forall d :: d in r <==> d in deps && IsRecorded(existing, d)
    ensures existing == map[] ==> r == []
    ensures |r| <= |deps|
    decreases |deps|
  {
    if deps == [] then []
    else
      var last := deps[|deps| - 1];
      assert deps == deps[..|deps| - 1] + [last];
      RecordedOf(deps[..|deps| - 1], existing) + (if IsRecorded(existing, last) then [last] else [])
  }

  function ConflictsOf(deps: seq<string>, existing: map<string, string>): (r: seq<string>)
    ensures forall m :: m in r ==> exists d :: d in deps && IsRecorded(existing, d) && !IsFloating(existing[d])
                                         && m == ConflictMessage(d, existing[d])
    decreases |deps|
  {
    if deps == [] then []
    else
      var last := deps[|deps| - 1];
      assert deps == deps[..|deps| - 1] + [last];
      ConflictsOf(deps[..|deps| - 1], existing)
        + (if IsRecorded(existing, last) && !IsFloating(existing[last]) then [ConflictMessage(last, existing[last])] else [])
  }

  function WarningsOf(deps: seq<string>, existing: map<string, string>): (r: seq<string>)
    ensures forall m :: m in r ==> exists d :: d in deps && IsRecorded(existing, d) && IsFloating(existing[d])
                                         && m == WarningMessage(d, existing[d])
    decreases |deps|
  {
    if deps == [] then []
    else
      var last := deps[|deps| - 1];
      assert deps == deps[..|deps| - 1] + [last];
      WarningsOf(deps[..|deps| - 1], existing)
        + (if IsRecorded(existing, last) && IsFloating(existing[last]) then [WarningMessage(last, existing[last])] else [])
  }

  /** Each recorded requested package gives exactly one message, conflict or warning. */
  lemma {:induction false} OneMessagePerRecorded(deps: seq<string>, existing: map<string, string>)
    ensures |ConflictsOf(deps, existing)| + |WarningsOf(deps, existing)| == |RecordedOf(deps, existing)|
    decreases |deps|
  {
    if deps != [] {
      OneMessagePerRecorded(deps[..|deps| - 1], existing);
    }
  }

  /** Conversely, every recorded requested package is reported: a warning for a range version, a
      conflict for any other. */
  lemma {:induction false} RecordedAreReported(deps: seq<string>, existing: map<string, string>)
    ensures forall d :: d in deps && IsRecorded(existing, d) && IsFloating(existing[d]) ==>
              WarningMessage(d, existing[d]) in WarningsOf(deps, existing)
    ensures forall d :: d in deps && IsRecorded(existing, d) && !IsFloating(existing[d]) ==>
              ConflictMessage(d, existing[d]) in ConflictsOf(deps, existing)
    decreases |deps|
  {
    if deps != [] {
      var init := deps[..|deps| - 1];
      var last := deps[|deps| - 1];
      RecordedAreReported(init, existing);
      assert deps == init + [last];
      forall d | d in deps ensures d in init || d == last {
      }
    }
  }

  /** `checkDependencyConflicts`: two empty lists without `package.json`. */
  method CheckDependencyConflicts(newDeps: seq<string>, manifest: Manifest)
    returns (conflicts: seq<string>, warnings: seq<string>)
    ensures manifest.None? ==> conflicts == [] && warnings == []
    ensures manifest.Some? ==> conflicts == ConflictsOf(newDeps, GetInstalledPackages(manifest))
    ensures manifest.Some? ==> warnings == WarningsOf(newDeps, GetInstalledPackages(manifest))
    ensures |conflicts| + |warnings| == |RecordedOf(newDeps, GetInstalledPackages(manifest))|
  {
    conflicts, warnings := [], [];
    if manifest.None? {
      return;
    }
    var existing := GetInstalledPackages(manifest);
    for i := 0 to |newDeps|
      invariant conflicts == ConflictsOf(newDeps[..i], existing)
      invariant warnings == WarningsOf(newDeps[..i], existing)
    {
      var dep := newDeps[i];
      assert newDeps[..i + 1] == newDeps[..i] + [dep];
      if dep in existing && existing[dep] != "" {
        var existingVersion := existing[dep];
        if Contains(existingVersion, "^") || Contains(existingVersion, "~") {
          warnings := warnings + [WarningMessage(dep, existingVersion)];
        } else {
          conflicts := conflicts + [ConflictMessage(dep, existingVersion)];
        }
      }
    }
    assert newDeps[..|newDeps|] == newDeps;
    OneMessagePerRecorded(newDeps, existing);
  }
}
