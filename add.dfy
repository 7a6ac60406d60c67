/** cli/src/commands/add.ts: the `add` action. It looks the component up, sets up the `cn` utility,
    installs the component's listed internal dependencies one level deep and in order, then the
    component itself, its npm packages and its stylesheet variables. */
module Add {
  import opened Wrappers
  import opened Text
  import opened Seqs
  import opened Fs
  import opened Registry
  import opened Files
  import opened Dependencies
  import opened Css

  // ---------------------------------------------------------------- dependency names

  /** `word.charAt(0).toUpperCase() + word.slice(1)`. */
  function Capitalize(word: string): (r: string)
    ensures |r| == |word|
    ensures ToLower(r) == ToLower(word)
    ensures word != [] ==> r[1..] == word[1..] && !('a' <= r[0] <= 'z')
  {
    if word == [] then []
    else
      LowerOfUpper(word[0]);
      assert ToLower([UpperChar(word[0])] + word[1..])[0] == ToLower(word)[0];
      [UpperChar(word[0])] + word[1..]
  }

  function CapitalizeWords(words: seq<string>): (r: seq<string>)
    ensures |r| == |words| && forall i :: 0 <= i < |words| ==> r[i] == Capitalize(words[i])
  {
    if words == [] then [] else [Capitalize(words[0])] + CapitalizeWords(words[1..])
  }

  /** Capitalising the pieces changes nothing once everything is lower-cased. */
  lemma {:induction false} LowerConcatCapitalized(words: seq<string>)
    ensures ToLower(Concat(CapitalizeWords(words))) == ToLower(Concat(words))
  {
    if words != [] {
      LowerConcatCapitalized(words[1..]);
      ToLowerConcat(Capitalize(words[0]), Concat(CapitalizeWords(words[1..])));
      ToLowerConcat(words[0], Concat(words[1..]));
    }
  }

  /** The display and lookup name of an internal dependency: the last `/` segment of its import path,
      split on `-`, each piece capitalised, glued together. Up to letter case, it is that segment
      without its dashes. */
  function DepName(depPath: string): (r: string)
    ensures ToLower(r) == ToLower(RemoveChar(LastSegment(depPath, '/'), '-'))
  {
    var segment := LastSegment(depPath, '/');
    LowerConcatCapitalized(Split(segment, '-'));
    ConcatSplit(segment, '-');
    Concat(CapitalizeWords(Split(segment, '-')))
  }

  /** So the dependency found is the one named like the dash-less last segment, in any letter case. */
  lemma DepNameLookup(reg: seq<Component>, depPath: string)
    ensures GetComponent(reg, DepName(depPath)) == GetComponent(reg, RemoveChar(LastSegment(depPath, '/'), '-'))
  {
    GetComponentIgnoresCase(reg, DepName(depPath), RemoveChar(LastSegment(depPath, '/'), '-'));
  }

  /** Only the last segment of the path matters. */
  lemma DepNameOfPath(dir: string, segment: string)
    requires '/' !in segment
    ensures DepName(dir + "/" + segment) == Concat(CapitalizeWords(Split(segment, '-')))
  {
    LastSegmentAfter(dir, segment, '/');
  }

  /** A two-word segment, so `.../text/sliding-number` names `SlidingNumber`. */
  lemma DepNameOfTwoWords(dir: string, first: string, second: string)
    requires '/' !in first && '/' !in second && '-' !in first && '-' !in second
    ensures DepName(dir + "/" + (first + "-" + second)) == Capitalize(first) + Capitalize(second)
  {
    DepNameOfPath(dir, first + "-" + second);
    SplitSinglePiece(second, '-');
    SplitAfterPiece(first, second, '-');
    assert first + ['-'] + second == first + "-" + second;
    assert Split(first + "-" + second, '-') == [first, second];
    assert [first, second][1..] == [second];
    assert CapitalizeWords([first, second]) == [Capitalize(first), Capitalize(second)];
    assert [Capitalize(first), Capitalize(second)][1..] == [Capitalize(second)];
    assert Concat([Capitalize(second)]) == Capitalize(second);
  }

  lemma CapitalizeSliding()
    ensures Capitalize("sliding") == "Sliding"
  {
    assert "sliding"[1..] == "liding";
  }

  lemma CapitalizeNumber()
    ensures Capitalize("number") == "Number"
  {
    assert "number"[1..] == "umber";
  }

  /** The example of the source's own comment: `.../text/sliding-number` names `SlidingNumber`. */
  lemma SlidingNumber(dir: string)
    ensures DepName(dir + "/" + ("sliding" + "-" + "number")) == "SlidingNumber"
  {
    DepNameOfTwoWords(dir, "sliding", "number");
    CapitalizeSliding();
    CapitalizeNumber();
  }

  function DepNames(deps: seq<string>): (r: seq<string>)
    ensures |r| == |deps| && forall i :: 0 <= i < |deps| ==> r[i] == DepName(deps[i])
  {
    seq(|deps|, i requires 0 <= i < |deps| => DepName(deps[i]))
  }

  // ---------------------------------------------------------------- where a component goes

  /** The import path with its first `@/` removed: the path of the component's source file. */
  function SourcePath(c: Component): (r: string)
    ensures StartsWith(c.importPath, "@/") ==> r == c.importPath[2..]
    ensures !Contains(c.importPath, "@/") ==> r == c.importPath
    ensures forall i :: OccursAt(c.importPath, "@/", i) && (forall j :: 0 <= j < i ==> !OccursAt(c.importPath, "@/", j)) ==>
      r == c.importPath[..i] + c.importPath[i + 2..]
  {
    ReplaceFirst(c.importPath, "@/", "")
  }

  /** `installComponentFiles`: the whole import path, below the working directory, plus `.tsx`. */
  function InstallTarget(c: Component): (r: string)
    ensures EndsWith(r, ".tsx") && r[..|r| - 4] == SourcePath(c)
  {
    var r := SourcePath(c) + ".tsx";
    assert r[..|r| - 4] == SourcePath(c);
    r
  }

  /** Two components share a target file only when they share a source file. */
  lemma InstallTargetInjective(c: Component, d: Component)
    requires InstallTarget(c) == InstallTarget(d)
    ensures SourcePath(c) == SourcePath(d)
  {
  }

  /** An aliased import `@/p` is installed at `p.tsx`, below the working directory. */
  lemma InstallTargetOfAlias(c: Component, p: string)
    requires c.importPath == "@/" + p
    ensures InstallTarget(c) == p + ".tsx"
  {
    assert c.importPath[..2] == "@/" && c.importPath[2..] == p;
  }

  function SourcePaths(cs: seq<Component>): (r: seq<string>)
    ensures |r| == |cs| && forall i :: 0 <= i < |cs| ==> r[i] == SourcePath(cs[i])
  {
    seq(|cs|, i requires 0 <= i < |cs| => SourcePath(cs[i]))
  }

  lemma SourcePathsAppend(a: seq<Component>, b: seq<Component>)
    ensures SourcePaths(a + b) == SourcePaths(a) + SourcePaths(b)
  {
    var l := SourcePaths(a + b);
    var m := SourcePaths(a) + SourcePaths(b);
    forall i | 0 <= i < |a + b| ensures l[i] == m[i] {
      if i < |a| {
        assert (a + b)[i] == a[i];
      } else {
        assert (a + b)[i] == b[i - |a|];
      }
    }
    assert l == m;
  }

  // ---------------------------------------------------------------- resolution

  /** The dependencies the registry knows, looked up by their derived names in listed order,
      duplicates kept; an unknown name is skipped. Nothing is looked up below the first level. */
  function ResolveDeps(reg: seq<Component>, names: seq<string>): (r: seq<Component>)
    ensures |r| <= |names|
    ensures forall c :: c in r ==> c in reg
    ensures forall k :: 0 <= k < |names| && GetComponent(reg, names[k]).Some? ==> GetComponent(reg, names[k]).value in r
    decreases |names|
  {
    if names == [] then []
    else
      var init := names[..|names| - 1];
      var found := GetComponent(reg, names[|names| - 1]);
      assert forall k :: 0 <= k < |init| ==> init[k] == names[k];
      ResolveDeps(reg, init) + (if found.Some? then [found.value] else [])
  }

  /** One level only: every resolved component is the lookup of a name in the list itself, so the
      dependencies of a dependency are never consulted. */
  lemma {:induction false} ResolveDepsOnlyListed(reg: seq<Component>, names: seq<string>)
    ensures forall c :: c in ResolveDeps(reg, names) ==> exists k :: 0 <= k < |names| && GetComponent(reg, names[k]) == Some(c)
    decreases |names|
  {
    if names != [] {
      var init := names[..|names| - 1];
      ResolveDepsOnlyListed(reg, init);
      var found := GetComponent(reg, names[|names| - 1]);
      var prefix := ResolveDeps(reg, init);
      assert ResolveDeps(reg, names) == prefix + (if found.Some? then [found.value] else []);
      forall c | c in ResolveDeps(reg, names)
        ensures exists k :: 0 <= k < |names| && GetComponent(reg, names[k]) == Some(c)
      {
        if c in prefix {
          var k :| 0 <= k < |init| && GetComponent(reg, init[k]) == Some(c);
          assert names[k] == init[k];
        } else {
          assert GetComponent(reg, names[|names| - 1]) == Some(c);
        }
      }
    }
  }

  /** A dependency the registry does not know adds nothing to the plan. */
  lemma UnknownDependencySkipped(reg: seq<Component>, names: seq<string>, unknown: string)
    requires GetComponent(reg, unknown).None?
    ensures ResolveDeps(reg, names + [unknown]) == ResolveDeps(reg, names)
  {
    assert (names + [unknown])[..|names|] == names;
  }

  /** A dependency listed twice is installed twice: there is no seen-set. */
  lemma RepeatedDependencyKept(reg: seq<Component>, name: string)
    requires GetComponent(reg, name).Some?
    ensures ResolveDeps(reg, [name, name]) == [GetComponent(reg, name).value, GetComponent(reg, name).value]
  {
    assert [name, name][..1] == [name];
    assert [name][..0] == [];
  }

  /** The components whose files `add` installs, in order: the resolved dependencies, then the root. */
  function InstallOrder(reg: seq<Component>, root: Component): (r: seq<Component>)
    ensures |r| >= 1 && r[|r| - 1] == root
    ensures |r| <= |GetComponentDependencies(root)| + 1
  {
    ResolveDeps(reg, DepNames(GetComponentDependencies(root))) + [root]
  }

  // ---------------------------------------------------------------- the steps

  /** What a run depends on outside the project: `package.json` (read, never written by the model),
      whether each package-manager run succeeds, and the source text each component path resolves to. */
  datatype Env = Env(manifest: Manifest, pmOk: Invocation -> bool, sources: map<string, string>)

  /** `installComponentFiles`. */
  function InstallComponentFilesSpec(w: World, c: Component, sources: map<string, string>): (r: (World, bool))
    ensures r.1 <==> SourcePath(c) in sources
    ensures !r.1 ==> r.0 == w
    ensures r.1 ==> r.0.disk.files == w.disk.files[InstallTarget(c) := sources[SourcePath(c)]]
    ensures r.1 ==> r.0.disk.dirs == w.disk.dirs + DirChain(Dirname(InstallTarget(c)))
    ensures r.1 ==> Fetches(r.0.trace) == Fetches(w.trace) + [SourcePath(c)]
  {
    DownloadSpec(w, SourcePath(c), InstallTarget(c), sources)
  }

  method InstallComponentFiles(ws: Workspace, c: Component, sources: map<string, string>) returns (ok: bool)
    modifies ws
    ensures (ws.State(), ok) == InstallComponentFilesSpec(old(ws.State()), c, sources)
  {
    var importPath := ReplaceFirst(c.importPath, "@/", "");
    var targetPath := importPath + ".tsx";
    ok := DownloadComponentFile(ws, importPath, targetPath, sources);
  }

  /** One turn of the internal-dependency loop; `false` is an error thrown out of it. */
  function DepStep(w: World, reg: seq<Component>, depName: string, env: Env): (r: (World, bool))
    ensures GetComponent(reg, depName).None? ==> r == (w, true)
    ensures r.1 && GetComponent(reg, depName).Some? ==> var c := GetComponent(reg, depName).value;
      && SourcePath(c) in env.sources
      && r.0.disk.files == w.disk.files[InstallTarget(c) := env.sources[SourcePath(c)]]
      && r.0.disk.dirs == w.disk.dirs + DirChain(Dirname(InstallTarget(c)))
      && Fetches(r.0.trace) == Fetches(w.trace) + [SourcePath(c)]
    ensures GetComponent(reg, depName).Some? ==> var c := GetComponent(reg, depName).value;
      && (SourcePath(c) !in env.sources ==> r == (w, false))
      && (SourcePath(c) in env.sources && (GetNpmDependencies(c) == [] || AcceptsAll(env.pmOk)) ==> r.1)
  {
    match GetComponent(reg, depName)
    case None => (w, true)
    case Some(dep) =>
      var f := InstallComponentFilesSpec(w, dep, env.sources);
      if !f.1 then f
      else if GetNpmDependencies(dep) != [] then InstallDependenciesSpec(f.0, GetNpmDependencies(dep), env.manifest, env.pmOk)
      else f
  }

  /** The loop over the listed dependencies, stopping at the first error. */
  function DepsLoop(w: World, reg: seq<Component>, names: seq<string>, env: Env): (r: (World, bool))
    decreases |names|
  {
    if names == [] then (w, true)
    else
      var d := DepsLoop(w, reg, names[..|names| - 1], env);
      if !d.1 then d else DepStep(d.0, reg, names[|names| - 1], env)
  }

  /** One more turn of the loop: the next dependency's step, unless the loop has already failed. */
  lemma DepsLoopSnoc(w: World, reg: seq<Component>, names: seq<string>, i: nat, env: Env)
    requires i < |names|
    ensures var d := DepsLoop(w, reg, names[..i], env);
      DepsLoop(w, reg, names[..i + 1], env) == if !d.1 then d else DepStep(d.0, reg, names[i], env)
  {
    assert names[..i + 1][..i] == names[..i];
  }

  /** Once a prefix of the loop has failed, the rest of it does nothing. */
  lemma {:induction false} DepsLoopStops(w: World, reg: seq<Component>, names: seq<string>, i: nat, env: Env)
    requires i <= |names| && !DepsLoop(w, reg, names[..i], env).1
    ensures DepsLoop(w, reg, names, env) == DepsLoop(w, reg, names[..i], env)
    decreases |names|
  {
    if i < |names| {
      var init := names[..|names| - 1];
      assert init[..i] == names[..i];
      DepsLoopStops(w, reg, init, i, env);
    } else {
      assert names[..i] == names;
    }
  }

  /** The conflict report for the root's npm packages; two empty lists without `package.json`. */
  function ConflictReport(npmDeps: seq<string>, manifest: Manifest): (r: (seq<string>, seq<string>))
    ensures |r.0| + |r.1| <= |npmDeps|
  {
    OneMessagePerRecorded(npmDeps, GetInstalledPackages(manifest));
    if manifest.None? then ([], [])
    else (ConflictsOf(npmDeps, GetInstalledPackages(manifest)), WarningsOf(npmDeps, GetInstalledPackages(manifest)))
  }

  /** How `add` ends: exit code 1 for the first three, 0 for `Installed`. `internalDeps` are the
      names it reports, one per listed dependency, found or not. */
  datatype AddOutcome =
    | RegistryUnavailable
    | NotFound
    | Failed
    | Installed(conflicts: seq<string>, warnings: seq<string>, cssInjected: bool, internalDeps: seq<string>)

  function ExitCode(o: AddOutcome): (r: int)
    ensures r == 0 <==> o.Installed?
    ensures r == 0 || r == 1
  {
    if o.Installed? then 0 else 1
  }

  /** The root's npm packages (conflict report first) and the stylesheet update. */
  function FinishSpec(w: World, root: Component, env: Env): (r: (World, AddOutcome))
    ensures r.1.Installed? ==> r.1.internalDeps == DepNames(GetComponentDependencies(root))
    ensures r.1.Installed? || r.1.Failed?
    ensures AcceptsAll(env.pmOk) && CssNotADirectory(w.disk) ==> r.1.Installed?
  {
    var npmDeps := GetNpmDependencies(root);
    var report := if npmDeps == [] then ([], []) else ConflictReport(npmDeps, env.manifest);
    var n := NpmStepSpec(w, root, env);
    if !n.1 then (n.0, Failed)
    else
      var css := InjectSpec(n.0, root.name);
      if css.1.None? then (css.0, Failed)
      else (css.0, Installed(report.0, report.1, css.1.value, DepNames(GetComponentDependencies(root))))
  }

  /** The root's npm packages, installed only when it lists any. */
  function NpmStepSpec(w: World, root: Component, env: Env): (r: (World, bool))
    ensures r.0.disk == w.disk && Fetches(r.0.trace) == Fetches(w.trace)
    ensures GetNpmDependencies(root) == [] ==> r == (w, true)
    ensures AcceptsAll(env.pmOk) ==> r.1
  {
    var npmDeps := GetNpmDependencies(root);
    if npmDeps == [] then (w, true) else InstallDependenciesSpec(w, npmDeps, env.manifest, env.pmOk)
  }

  /** `ensureUtilsFile` and `installUtilsDependencies`. */
  function SetupSpec(w: World, env: Env): (r: (World, bool))
    ensures r.0.disk == EnsureUtilsFileSpec(w, DetectProjectStructure(w.disk)).disk
    ensures HasCn(r.0.disk, UtilsPath(DetectProjectStructure(w.disk)))
    ensures Fetches(r.0.trace) == Fetches(w.trace)
    ensures AcceptsAll(env.pmOk) ==> r.1
  {
    var u := EnsureUtilsFileSpec(w, DetectProjectStructure(w.disk));
    EnsureUtilsFileProvidesCn(w, DetectProjectStructure(w.disk));
    InstallDependenciesSpec(u, UtilsPackages, env.manifest, env.pmOk)
  }

  /** The dependency loop over `names`, then the root's file. */
  function ComponentFilesSpec(w: World, reg: seq<Component>, names: seq<string>, root: Component, env: Env)
    : (r: (World, bool))
  {
    var d := DepsLoop(w, reg, names, env);
    if !d.1 then d else InstallComponentFilesSpec(d.0, root, env.sources)
  }

  /** The setup, the dependency loop and the root's file; `false` is an error thrown on the way. */
  function FilesSpec(w: World, reg: seq<Component>, root: Component, env: Env): (r: (World, bool))
  {
    var u := SetupSpec(w, env);
    if !u.1 then u else ComponentFilesSpec(u.0, reg, DepNames(GetComponentDependencies(root)), root, env)
  }

  /** Everything after the lookup, for a component the registry has. */
  function InstallSpec(w: World, reg: seq<Component>, root: Component, env: Env): (r: (World, AddOutcome))
    ensures r.1.Installed? || r.1.Failed?
  {
    var f := FilesSpec(w, reg, root, env);
    if !f.1 then (f.0, Failed) else FinishSpec(f.0, root, env)
  }

  /** The `add` action; `registry` is `None` when loading it fails. */
  function AddSpec(w: World, registry: Option<seq<Component>>, name: string, env: Env): (r: (World, AddOutcome))
    ensures registry.None? ==> r == (w, RegistryUnavailable)
    ensures registry.Some? && GetComponent(registry.value, name).None? ==> r == (w, NotFound)
    ensures r.1.Installed? || r.1.Failed? <==> registry.Some? && GetComponent(registry.value, name).Some?
  {
    if registry.None? then (w, RegistryUnavailable)
    else match GetComponent(registry.value, name)
      case None => (w, NotFound)
      case Some(root) => InstallSpec(w, registry.value, root, env)
  }

  // ---------------------------------------------------------------- what a successful run did

  /** A successful loop fetched the resolved dependencies' sources, in order. */
  lemma {:induction false} DepsLoopFetches(w: World, reg: seq<Component>, names: seq<string>, env: Env)
    requires DepsLoop(w, reg, names, env).1
    ensures Fetches(DepsLoop(w, reg, names, env).0.trace) == Fetches(w.trace) + SourcePaths(ResolveDeps(reg, names))
    decreases |names|
  {
    if names != [] {
      var init := names[..|names| - 1];
      DepsLoopFetches(w, reg, init, env);
      var found := GetComponent(reg, names[|names| - 1]);
      SourcePathsAppend(ResolveDeps(reg, init), if found.Some? then [found.value] else []);
    }
  }

  /** `c`'s file holds `c`'s source text. */
  predicate HoldsSource(disk: Disk, c: Component, sources: map<string, string>) {
    && SourcePath(c) in sources
    && InstallTarget(c) in disk.files
    && disk.files[InstallTarget(c)] == sources[SourcePath(c)]
  }

  /** Writing one component's file keeps every other installed component's file. */
  lemma WriteKeepsSources(files: map<string, string>, c: Component, cs: seq<Component>, sources: map<string, string>)
    requires SourcePath(c) in sources
    requires forall d :: d in cs ==> HoldsSource(Disk(files, {}), d, sources)
    ensures forall d :: d in cs ==> HoldsSource(Disk(files[InstallTarget(c) := sources[SourcePath(c)]], {}), d, sources)
  {
    forall d | d in cs
      ensures HoldsSource(Disk(files[InstallTarget(c) := sources[SourcePath(c)]], {}), d, sources)
    {
      if InstallTarget(d) == InstallTarget(c) {
        InstallTargetInjective(d, c);
      }
    }
  }

  /** After a successful loop, every resolved dependency's file holds its source text. */
  lemma {:induction false} DepsLoopInstalls(w: World, reg: seq<Component>, names: seq<string>, env: Env)
    requires DepsLoop(w, reg, names, env).1
    ensures var disk := DepsLoop(w, reg, names, env).0.disk;
      forall c :: c in ResolveDeps(reg, names) ==> HoldsSource(Disk(disk.files, {}), c, env.sources)
    decreases |names|
  {
    if names != [] {
      var init := names[..|names| - 1];
      DepsLoopInstalls(w, reg, init, env);
      var found := GetComponent(reg, names[|names| - 1]);
      if found.Some? {
        WriteKeepsSources(DepsLoop(w, reg, init, env).0.disk.files, found.value, ResolveDeps(reg, init), env.sources);
      }
    }
  }

  /** The unknown root and the unavailable registry stop before anything is done, with exit code 1. */
  lemma AddUnknownChangesNothing(w: World, registry: Option<seq<Component>>, name: string, env: Env)
    requires registry.None? || GetComponent(registry.value, name).None?
    ensures AddSpec(w, registry, name, env).0 == w && ExitCode(AddSpec(w, registry, name, env).1) == 1
  {
  }

  /** The conflict check runs only for a root with npm packages. */
  lemma NoNpmPackagesNoReport(w: World, root: Component, env: Env)
    requires GetNpmDependencies(root) == [] && FinishSpec(w, root, env).1.Installed?
    ensures FinishSpec(w, root, env).1.conflicts == [] && FinishSpec(w, root, env).1.warnings == []
  {
  }

  /** The finishing steps fetch nothing. */
  lemma FinishFetchesNothing(w: World, root: Component, env: Env)
    ensures Fetches(FinishSpec(w, root, env).0.trace) == Fetches(w.trace)
  {
    var n := NpmStepSpec(w, root, env);
    InjectFetchesNothing(n.0, root.name);
  }

  /** The finishing steps leave every `.tsx` file alone. */
  lemma FinishKeepsComponents(w: World, root: Component, env: Env, k: string)
    requires EndsWith(k, ".tsx")
    ensures var r := FinishSpec(w, root, env).0;
      && (k in r.disk.files <==> k in w.disk.files)
      && (k in w.disk.files ==> r.disk.files[k] == w.disk.files[k])
  {
    var n := NpmStepSpec(w, root, env);
    if n.1 {
      var css := InjectSpec(n.0, root.name);
      if css.1 == Some(true) {
        CandidatesAreStylesheets(GlobalCssFile(n.0.disk).value);
      }
    }
  }

  /** The files step fetched the install order's sources, in order. */
  lemma ComponentFilesFetches(w: World, reg: seq<Component>, names: seq<string>, root: Component, env: Env)
    requires ComponentFilesSpec(w, reg, names, root, env).1
    ensures Fetches(ComponentFilesSpec(w, reg, names, root, env).0.trace)
            == Fetches(w.trace) + SourcePaths(ResolveDeps(reg, names) + [root])
  {
    var d := DepsLoop(w, reg, names, env);
    assert d.1;
    DepsLoopFetches(w, reg, names, env);
    var r := InstallComponentFilesSpec(d.0, root, env.sources);
    assert ComponentFilesSpec(w, reg, names, root, env) == r;
    var deps := SourcePaths(ResolveDeps(reg, names));
    assert Fetches(d.0.trace) == Fetches(w.trace) + deps;
    assert r.1 && Fetches(r.0.trace) == Fetches(d.0.trace) + [SourcePath(root)];
    SourcePathsAppend(ResolveDeps(reg, names), [root]);
    assert SourcePaths([root]) == [SourcePath(root)];
    AppendAssoc(Fetches(w.trace), deps, [SourcePath(root)]);
  }

  lemma FilesFetchInstallOrder(w: World, reg: seq<Component>, root: Component, env: Env)
    requires FilesSpec(w, reg, root, env).1
    ensures Fetches(FilesSpec(w, reg, root, env).0.trace) == Fetches(w.trace) + SourcePaths(InstallOrder(reg, root))
  {
    ComponentFilesFetches(SetupSpec(w, env).0, reg, DepNames(GetComponentDependencies(root)), root, env);
  }

  lemma InstallFetchesInstallOrder(w: World, reg: seq<Component>, root: Component, env: Env)
    requires InstallSpec(w, reg, root, env).1.Installed?
    ensures Fetches(InstallSpec(w, reg, root, env).0.trace) == Fetches(w.trace) + SourcePaths(InstallOrder(reg, root))
  {
    FilesFetchInstallOrder(w, reg, root, env);
    FinishFetchesNothing(FilesSpec(w, reg, root, env).0, root, env);
  }

  /** A successful `add` fetched exactly the sources of the install order: the resolved dependencies
      in their listed order, and the root after all of them. */
  lemma AddFetchesInstallOrder(w: World, reg: seq<Component>, name: string, env: Env)
    requires AddSpec(w, Some(reg), name, env).1.Installed?
    ensures var root := GetComponent(reg, name).value;
      Fetches(AddSpec(w, Some(reg), name, env).0.trace) == Fetches(w.trace) + SourcePaths(InstallOrder(reg, root))
  {
    InstallFetchesInstallOrder(w, reg, GetComponent(reg, name).value, env);
  }

  lemma ComponentFilesWritten(w: World, reg: seq<Component>, names: seq<string>, root: Component, env: Env)
    requires ComponentFilesSpec(w, reg, names, root, env).1
    ensures var disk := ComponentFilesSpec(w, reg, names, root, env).0.disk;
      forall c :: c in ResolveDeps(reg, names) + [root] ==> HoldsSource(Disk(disk.files, {}), c, env.sources)
  {
    var d := DepsLoop(w, reg, names, env);
    DepsLoopInstalls(w, reg, names, env);
    WriteKeepsSources(d.0.disk.files, root, ResolveDeps(reg, names), env.sources);
  }

  /** After the files step, the install order's files hold their sources. */
  lemma FilesWritten(w: World, reg: seq<Component>, root: Component, env: Env)
    requires FilesSpec(w, reg, root, env).1
    ensures var disk := FilesSpec(w, reg, root, env).0.disk;
      forall c :: c in InstallOrder(reg, root) ==> HoldsSource(Disk(disk.files, {}), c, env.sources)
  {
    ComponentFilesWritten(SetupSpec(w, env).0, reg, DepNames(GetComponentDependencies(root)), root, env);
  }

  lemma InstallWritesFiles(w: World, reg: seq<Component>, root: Component, env: Env)
    requires InstallSpec(w, reg, root, env).1.Installed?
    ensures var disk := InstallSpec(w, reg, root, env).0.disk;
      forall c :: c in InstallOrder(reg, root) ==> HoldsSource(Disk(disk.files, {}), c, env.sources)
  {
    var f := FilesSpec(w, reg, root, env);
    FilesWritten(w, reg, root, env);
    var r := FinishSpec(f.0, root, env).0;
    forall c | c in InstallOrder(reg, root) ensures HoldsSource(Disk(r.disk.files, {}), c, env.sources) {
      FinishKeepsComponents(f.0, root, env, InstallTarget(c));
    }
  }

  /** After a successful `add`, the root's and every resolved dependency's file holds its source text. */
  lemma AddInstallsFiles(w: World, reg: seq<Component>, name: string, env: Env)
    requires AddSpec(w, Some(reg), name, env).1.Installed?
    ensures var root := GetComponent(reg, name).value;
      var disk := AddSpec(w, Some(reg), name, env).0.disk;
      forall c :: c in InstallOrder(reg, root) ==> HoldsSource(Disk(disk.files, {}), c, env.sources)
  {
    InstallWritesFiles(w, reg, GetComponent(reg, name).value, env);
  }

  // ---------------------------------------------------------------- when a run completes

  /** No directory `add` creates for `c`'s file is a stylesheet location. */
  predicate AvoidsCss(c: Component) {
    forall p :: p in CssCandidates ==> p !in DirChain(Dirname(InstallTarget(c)))
  }

  /** The directories made for the utils file are never stylesheet locations. */
  lemma UtilsDirsAvoidCss(disk: Disk)
    ensures forall p :: p in CssCandidates ==> p !in DirChain(DetectProjectStructure(disk).utilsDir)
  {
    var d := DetectProjectStructure(disk).utilsDir;
    assert |d| <= 7;
    assert forall x :: x in DirChain(d) ==> |x| <= |d|;
  }

  /** The dependency loop gets through when every resolved dependency's source is present and every
      package-manager run succeeds; its directories keep the stylesheet locations free. */
  lemma {:induction false} DepsLoopCompletes(w: World, reg: seq<Component>, names: seq<string>, env: Env)
    requires forall c :: c in ResolveDeps(reg, names) ==> SourcePath(c) in env.sources && AvoidsCss(c)
    requires AcceptsAll(env.pmOk) && CssNotADirectory(w.disk)
    ensures DepsLoop(w, reg, names, env).1 && CssNotADirectory(DepsLoop(w, reg, names, env).0.disk)
    decreases |names|
  {
    if names != [] {
      var init := names[..|names| - 1];
      var found := GetComponent(reg, names[|names| - 1]);
      assert ResolveDeps(reg, names) == ResolveDeps(reg, init) + (if found.Some? then [found.value] else []);
      DepsLoopCompletes(w, reg, init, env);
      if found.Some? {
        assert found.value in ResolveDeps(reg, names);
      }
    }
  }

  /** A component the registry has is installed when the sources of the whole install order are
      present, none of the directories made for them is a stylesheet location, no stylesheet
      location is a directory to begin with, and every package-manager run succeeds. */
  lemma AddCompletes(w: World, reg: seq<Component>, name: string, env: Env)
    requires GetComponent(reg, name).Some?
    requires forall c :: c in InstallOrder(reg, GetComponent(reg, name).value) ==> SourcePath(c) in env.sources && AvoidsCss(c)
    requires AcceptsAll(env.pmOk) && CssNotADirectory(w.disk)
    ensures AddSpec(w, Some(reg), name, env).1.Installed?
  {
    var root := GetComponent(reg, name).value;
    var names := DepNames(GetComponentDependencies(root));
    var u := SetupSpec(w, env);
    UtilsDirsAvoidCss(w.disk);
    assert CssNotADirectory(u.0.disk);
    DepsLoopCompletes(u.0, reg, names, env);
    var d := DepsLoop(u.0, reg, names, env);
    assert root in InstallOrder(reg, root);
    var f := InstallComponentFilesSpec(d.0, root, env.sources);
    assert f.1 && CssNotADirectory(f.0.disk);
    assert FilesSpec(w, reg, root, env) == f;
  }

  // ---------------------------------------------------------------- the action

  /** One turn of the loop over `internalDeps`. */
  method InstallDependency(ws: Workspace, reg: seq<Component>, depName: string, env: Env) returns (ok: bool)
    modifies ws
    ensures (ws.State(), ok) == DepStep(old(ws.State()), reg, depName, env)
  {
    var depComponent := GetComponent(reg, depName);
    if depComponent.None? {
      return true;
    }
    ok := InstallComponentFiles(ws, depComponent.value, env.sources);
    if !ok {
      return false;
    }
    var depNpmDeps := GetNpmDependencies(depComponent.value);
    if |depNpmDeps| > 0 {
      ok := InstallDependencies(ws, depNpmDeps, env.manifest, env.pmOk);
    }
  }

  /** The loop over `internalDeps`. */
  method InstallInternalDeps(ws: Workspace, reg: seq<Component>, internalDeps: seq<string>, env: Env) returns (ok: bool)
    modifies ws
    ensures (ws.State(), ok) == DepsLoop(old(ws.State()), reg, DepNames(internalDeps), env)
  {
    ghost var start := ws.State();
    ghost var names := DepNames(internalDeps);
    for i := 0 to |internalDeps|
      invariant DepsLoop(start, reg, names[..i], env) == (ws.State(), true)
    {
      var depName := DepName(internalDeps[i]);
      assert names[i] == depName;
      DepsLoopSnoc(start, reg, names, i, env);
      ok := InstallDependency(ws, reg, depName, env);
      if !ok {
        DepsLoopStops(start, reg, names, i + 1, env);
        return false;
      }
    }
    assert names[..|internalDeps|] == names;
    return true;
  }

  method Add(ws: Workspace, registry: Option<seq<Component>>, componentName: string, env: Env)
    returns (outcome: AddOutcome)
    modifies ws
    ensures (ws.State(), outcome) == AddSpec(old(ws.State()), registry, componentName, env)
  {
    if registry.None? {
      return RegistryUnavailable;
    }
    var component := GetComponent(registry.value, componentName);
    if component.None? {
      return NotFound;
    }
    var root := component.value;
    var config := DetectProjectStructure(Disk(ws.files, ws.dirs));
    EnsureUtilsFile(ws, config);
    var ok := InstallUtilsDependencies(ws, env.manifest, env.pmOk);
    if !ok {
      return Failed;
    }
    var internalDeps := GetComponentDependencies(root);
    ok := InstallInternalDeps(ws, registry.value, internalDeps, env);
    if !ok {
      return Failed;
    }
    ok := InstallComponentFiles(ws, root, env.sources);
    if !ok {
      return Failed;
    }
    outcome := Finish(ws, root, env);
  }

  method Finish(ws: Workspace, root: Component, env: Env) returns (outcome: AddOutcome)
    modifies ws
    ensures (ws.State(), outcome) == FinishSpec(old(ws.State()), root, env)
  {
    var npmDeps := GetNpmDependencies(root);
    var conflicts: seq<string> := [];
    var warnings: seq<string> := [];
    if |npmDeps| > 0 {
      conflicts, warnings := CheckDependencyConflicts(npmDeps, env.manifest);
      var ok := InstallDependencies(ws, npmDeps, env.manifest, env.pmOk);
      if !ok {
        return Failed;
      }
    }
    var cssInjected := InjectCss(ws, root.name);
    if cssInjected.None? {
      return Failed;
    }
    return Installed(conflicts, warnings, cssInjected.value, DepNames(GetComponentDependencies(root)));
  }
}
