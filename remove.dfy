/** cli/src/commands/remove.ts: the `remove` action, a run of guarded early exits followed by the
    deletion of the component file, the removal of its stylesheet block and of its directory when
    that is left empty. Package dependencies are never touched. */
module Remove {
  import opened Wrappers
  import opened Text
  import opened Fs
  import opened Registry
  import opened Files
  import opened Css
  import Add

  /** The directory `remove` looks in: a `buttons` or `text` subdirectory for those two categories
      (compared exactly), `componentsDir` itself for every other one. */
  function RemoveTargetDir(category: string, config: ProjectConfig): (r: string)
    ensures category == "buttons" ==> r == config.componentsDir + "/buttons"
    ensures category == "text" ==> r == config.componentsDir + "/text"
    ensures category != "buttons" && category != "text" ==> r == config.componentsDir
  {
    if category == "buttons" then PathJoin(config.componentsDir, "buttons")
    else if category == "text" then PathJoin(config.componentsDir, "text")
    else config.componentsDir
  }

  /** The file `remove` deletes: the basename of the import path, plus `.tsx`, in that directory. */
  function RemoveTargetPath(c: Component, config: ProjectConfig): (r: string)
    ensures EndsWith(r, ".tsx")
    ensures config.componentsDir != "" ==>
      && Dirname(r) == RemoveTargetDir(c.category, config)
      && Basename(r) == Basename(ReplaceFirst(c.importPath, "@/", "")) + ".tsx"
  {
    var base := Basename(ReplaceFirst(c.importPath, "@/", ""));
    var fileName := base + ".tsx";
    assert '/' !in fileName by {
      assert forall i :: 0 <= i < |fileName| ==> fileName[i] == (if i < |base| then base[i] else ".tsx"[i - |base|]);
    }
    if config.componentsDir != "" then
      JoinShape(RemoveTargetDir(c.category, config), fileName);
      PathJoin(RemoveTargetDir(c.category, config), fileName)
    else PathJoin(RemoveTargetDir(c.category, config), fileName)
  }

  /** How `remove` ends: exit code 0 for `NotInstalled`, `Cancelled` and `Removed`, 1 otherwise. */
  datatype RemoveOutcome =
    | RegistryUnavailable
    | NotFound
    | NotInstalled
    | Cancelled
    | Failed
    | Removed(cssRemoved: bool)

  function ExitCode(o: RemoveOutcome): (r: int)
    ensures r == 1 <==> o.RegistryUnavailable? || o.NotFound? || o.Failed?
    ensures r == 0 || r == 1
  {
    if o.RegistryUnavailable? || o.NotFound? || o.Failed? then 1 else 0
  }

  /** The `readdir` check: an existing directory with no entries is removed; anything else (a
      missing directory, a file, entries left) is let be, as the ignored error would. */
  function CleanupDir(w: World, d: string): (r: World)
    ensures r.disk.files == w.disk.files
    ensures d in w.disk.dirs && IsEmptyDir(w.disk, d) ==> r.disk.dirs == w.disk.dirs - {d}
    ensures !(d in w.disk.dirs && IsEmptyDir(w.disk, d)) ==> r == w
    ensures Fetches(r.trace) == Fetches(w.trace) && Runs(r.trace) == Runs(w.trace)
  {
    if d in w.disk.dirs && IsEmptyDir(w.disk, d) then RemoveDir(w, d) else w
  }

  /** The deleting part, once the component is found, installed and confirmed. */
  function DeleteSpec(w: World, name: string, targetDir: string, target: string): (r: (World, RemoveOutcome))
    ensures r.1.Removed? || r.1.Failed?
    ensures target !in r.0.disk.files && target !in r.0.disk.dirs
    ensures CssNotADirectory(w.disk) ==> r.1.Removed?
  {
    var css := RemoveCssSpec(RemovePath(w, target), name);
    if css.1.None? then (css.0, Failed)
    else (CleanupDir(css.0, targetDir), Removed(css.1.value))
  }

  /** The `remove` action. `registry` is `None` when loading it fails; `force` is `--force` and
      `confirmed` the answer the prompt would get. */
  function RemoveSpec(w: World, registry: Option<seq<Component>>, name: string, force: bool, confirmed: bool)
    : (r: (World, RemoveOutcome))
    ensures registry.None? ==> r == (w, RegistryUnavailable)
    ensures registry.Some? && GetComponent(registry.value, name).None? ==> r == (w, NotFound)
  {
    if registry.None? then (w, RegistryUnavailable)
    else match GetComponent(registry.value, name)
      case None => (w, NotFound)
      case Some(c) =>
        var config := DetectProjectStructure(w.disk);
        var target := RemoveTargetPath(c, config);
        if !Exists(w.disk, target) then (w, NotInstalled)
        else if !force && !confirmed then (w, Cancelled)
        else DeleteSpec(w, c.name, RemoveTargetDir(c.category, config), target)
  }

  // ---------------------------------------------------------------- what a run can do

  /** Every outcome but `Removed` and `Failed` leaves the project exactly as it was. */
  lemma EarlyExitsChangeNothing(w: World, registry: Option<seq<Component>>, name: string, force: bool, confirmed: bool)
    ensures var r := RemoveSpec(w, registry, name, force, confirmed);
      !r.1.Removed? && !r.1.Failed? ==> r.0 == w
  {
  }

  /** A component whose file is missing is reported as not installed, with exit code 0. */
  lemma MissingFileNotInstalled(w: World, reg: seq<Component>, name: string, force: bool, confirmed: bool)
    requires GetComponent(reg, name).Some?
    requires !Exists(w.disk, RemoveTargetPath(GetComponent(reg, name).value, DetectProjectStructure(w.disk)))
    ensures RemoveSpec(w, Some(reg), name, force, confirmed) == (w, NotInstalled)
    ensures ExitCode(NotInstalled) == 0
  {
  }

  /** Without `--force`, a declined prompt cancels with exit code 0 and deletes nothing. */
  lemma DeclinedCancels(w: World, reg: seq<Component>, name: string)
    requires GetComponent(reg, name).Some?
    requires Exists(w.disk, RemoveTargetPath(GetComponent(reg, name).value, DetectProjectStructure(w.disk)))
    ensures RemoveSpec(w, Some(reg), name, false, false) == (w, Cancelled)
  {
  }

  /** The deleting part removes the target and everything below it, rewrites at most the stylesheet,
      removes at most the target directory, and neither fetches nor runs anything. */
  lemma DeleteFrame(w: World, name: string, targetDir: string, target: string, k: string)
    requires EndsWith(target, ".tsx")
    ensures var r := DeleteSpec(w, name, targetDir, target).0;
      && target !in r.disk.files && target !in r.disk.dirs
      && (k in w.disk.files && !Under(k, target) && k !in CssCandidates ==> k in r.disk.files && r.disk.files[k] == w.disk.files[k])
      && (k in r.disk.files ==> k in w.disk.files)
      && (k in w.disk.dirs && !Under(k, target) && k != targetDir ==> k in r.disk.dirs)
      && Fetches(r.trace) == Fetches(w.trace)
      && Runs(r.trace) == Runs(w.trace)
  {
    var w1 := RemovePath(w, target);
    var css := RemoveCssSpec(w1, name);
    if css.1 == Some(true) {
      CandidatesAreStylesheets(GlobalCssFile(w1.disk).value);
    }
  }

  /** A removal leaves no file at the target, changes no other file but the stylesheet (and those
      below the target), creates none, and runs no package manager: dependencies are never removed. */
  lemma RemovedFrame(w: World, reg: seq<Component>, name: string, force: bool, confirmed: bool, k: string)
    requires RemoveSpec(w, Some(reg), name, force, confirmed).1.Removed?
    ensures var c := GetComponent(reg, name).value;
      var target := RemoveTargetPath(c, DetectProjectStructure(w.disk));
      var r := RemoveSpec(w, Some(reg), name, force, confirmed).0;
      && Exists(w.disk, target) && target !in r.disk.files
      && (k in w.disk.files && !Under(k, target) && k !in CssCandidates ==> k in r.disk.files && r.disk.files[k] == w.disk.files[k])
      && (k in r.disk.files ==> k in w.disk.files)
      && Runs(r.trace) == Runs(w.trace) && Fetches(r.trace) == Fetches(w.trace)
  {
    var c := GetComponent(reg, name).value;
    var config := DetectProjectStructure(w.disk);
    DeleteFrame(w, c.name, RemoveTargetDir(c.category, config), RemoveTargetPath(c, config), k);
  }

  /** A component that is found and installed, with `--force` or a confirmed prompt, goes: its file
      is deleted, and the run ends in `Removed` unless the stylesheet location is a directory. */
  lemma RemoveProceeds(w: World, reg: seq<Component>, name: string, force: bool, confirmed: bool)
    requires GetComponent(reg, name).Some?
    requires Exists(w.disk, RemoveTargetPath(GetComponent(reg, name).value, DetectProjectStructure(w.disk)))
    requires force || confirmed
    ensures var r := RemoveSpec(w, Some(reg), name, force, confirmed);
      var target := RemoveTargetPath(GetComponent(reg, name).value, DetectProjectStructure(w.disk));
      && (r.1.Removed? || r.1.Failed?)
      && !Exists(r.0.disk, target)
      && (CssNotADirectory(w.disk) ==> r.1.Removed?)
  {
  }

  /** The directory goes only when it exists and has no entries left after the deletion. */
  lemma DirRemovedOnlyWhenEmpty(w: World, name: string, targetDir: string, target: string)
    ensures var css := RemoveCssSpec(RemovePath(w, target), name);
      var r := DeleteSpec(w, name, targetDir, target).0;
      css.1.Some? ==>
        (targetDir in css.0.disk.dirs && targetDir !in r.disk.dirs <==> targetDir in css.0.disk.dirs && IsEmptyDir(css.0.disk, targetDir))
  {
  }

  // ---------------------------------------------------------------- add and remove disagree

  /** The file name both commands derive from an import path `@/<dir>/<stem>`. */
  lemma ImportNames(c: Component, dir: string, stem: string)
    requires stem != [] && '/' !in stem
    requires c.importPath == "@/" + PathJoin(dir, stem)
    ensures Basename(ReplaceFirst(c.importPath, "@/", "")) == stem
    ensures Add.InstallTarget(c) == PathJoin(dir, stem) + ".tsx"
  {
    var path := PathJoin(dir, stem);
    assert c.importPath[..2] == "@/" && c.importPath[2..] == path;
    assert ReplaceFirst(c.importPath, "@/", "") == path;
    assert Add.SourcePath(c) == path;
    BasenameOfJoin(dir, stem);
  }

  /** `remove` deletes the very file `add` writes exactly when the import path is `@/`, the directory
      `remove` looks in, and the file's stem. */
  lemma AgreeWhenImportUnderTargetDir(c: Component, config: ProjectConfig, stem: string)
    requires stem != [] && '/' !in stem
    requires c.importPath == "@/" + PathJoin(RemoveTargetDir(c.category, config), stem)
    ensures RemoveTargetPath(c, config) == Add.InstallTarget(c)
  {
    var dir := RemoveTargetDir(c.category, config);
    ImportNames(c, dir, stem);
    assert RemoveTargetPath(c, config) == PathJoin(dir, stem + ".tsx");
    PathJoinSuffix(dir, stem, ".tsx");
  }

  /** Any category but `buttons` and `text`: `add` writes below `<componentsDir>/<category>/`, while
      `remove` looks directly in `componentsDir`, so it never finds the file. */
  lemma DisagreeForOtherCategories(c: Component, config: ProjectConfig, stem: string)
    requires c.category != "buttons" && c.category != "text" && c.category != []
    requires stem != [] && '/' !in stem
    requires c.importPath == "@/" + PathJoin(PathJoin(config.componentsDir, c.category), stem)
    ensures RemoveTargetPath(c, config) == PathJoin(config.componentsDir, stem + ".tsx")
    ensures Add.InstallTarget(c) == PathJoin(PathJoin(config.componentsDir, c.category), stem) + ".tsx"
    ensures RemoveTargetPath(c, config) != Add.InstallTarget(c)
  {
    ImportNames(c, PathJoin(config.componentsDir, c.category), stem);
    var fileName := Basename(ReplaceFirst(c.importPath, "@/", "")) + ".tsx";
    assert fileName == stem + ".tsx";
    assert RemoveTargetDir(c.category, config) == config.componentsDir;
    assert RemoveTargetPath(c, config) == PathJoin(config.componentsDir, stem + ".tsx");
    assert |RemoveTargetPath(c, config)| == |config.componentsDir| + 1 + |stem| + 4;
    assert |Add.InstallTarget(c)| == |config.componentsDir| + 1 + |c.category| + 1 + |stem| + 4;
  }

  /** With a `src` directory, `remove` looks below `src/`, one level above where it looks in the
      root layout, while `add` writes below the working directory whatever the layout. */
  lemma SrcLayoutLooksBelowSrc(c: Component, disk: Disk, root: Disk)
    requires Exists(disk, "src")
    requires !Exists(root, "src/app") && !Exists(root, "src")
    ensures RemoveTargetPath(c, DetectProjectStructure(disk)) == "src/" + RemoveTargetPath(c, DetectProjectStructure(root))
  {
    var srcConfig := DetectProjectStructure(disk);
    var rootConfig := DetectProjectStructure(root);
    assert srcConfig.componentsDir == "src/" + rootConfig.componentsDir;
    TargetPathPrefix(c, rootConfig, srcConfig, "src/");
  }

  lemma TargetPathPrefix(c: Component, inner: ProjectConfig, outer: ProjectConfig, prefix: string)
    requires outer.componentsDir == prefix + inner.componentsDir
    ensures RemoveTargetPath(c, outer) == prefix + RemoveTargetPath(c, inner)
  {
    var fileName := Basename(ReplaceFirst(c.importPath, "@/", "")) + ".tsx";
    var innerDir := RemoveTargetDir(c.category, inner);
    TargetDirPrefix(c.category, inner, outer, prefix);
    assert PathJoin(prefix + innerDir, fileName) == prefix + PathJoin(innerDir, fileName);
  }

  /** Putting a prefix in front of `componentsDir` puts it in front of the directory `remove` looks in. */
  lemma TargetDirPrefix(category: string, inner: ProjectConfig, outer: ProjectConfig, prefix: string)
    requires outer.componentsDir == prefix + inner.componentsDir
    ensures RemoveTargetDir(category, outer) == prefix + RemoveTargetDir(category, inner)
  {
    var d := inner.componentsDir;
    assert PathJoin(prefix + d, "buttons") == prefix + PathJoin(d, "buttons");
    assert PathJoin(prefix + d, "text") == prefix + PathJoin(d, "text");
  }

  /** So a component `add` installed into a `src` project is one `remove` does not find there. */
  lemma DisagreeForSrcLayout(c: Component, disk: Disk, root: Disk, stem: string)
    requires Exists(disk, "src")
    requires !Exists(root, "src/app") && !Exists(root, "src")
    requires stem != [] && '/' !in stem
    requires c.importPath == "@/" + PathJoin(RemoveTargetDir(c.category, DetectProjectStructure(root)), stem)
    ensures RemoveTargetPath(c, DetectProjectStructure(disk)) == "src/" + Add.InstallTarget(c)
    ensures RemoveTargetPath(c, DetectProjectStructure(disk)) != Add.InstallTarget(c)
  {
    SrcLayoutLooksBelowSrc(c, disk, root);
    AgreeWhenImportUnderTargetDir(c, DetectProjectStructure(root), stem);
  }

  // ---------------------------------------------------------------- the action

  method Remove(ws: Workspace, registry: Option<seq<Component>>, componentName: string, force: bool, confirmed: bool)
    returns (outcome: RemoveOutcome)
    modifies ws
    ensures (ws.State(), outcome) == RemoveSpec(old(ws.State()), registry, componentName, force, confirmed)
  {
    if registry.None? {
      return RegistryUnavailable;
    }
    var component := GetComponent(registry.value, componentName);
    if component.None? {
      return NotFound;
    }
    var c := component.value;
    var config := DetectProjectStructure(Disk(ws.files, ws.dirs));
    var targetDir: string;
    if c.category == "buttons" {
      targetDir := PathJoin(config.componentsDir, "buttons");
    } else if c.category == "text" {
      targetDir := PathJoin(config.componentsDir, "text");
    } else {
      targetDir := config.componentsDir;
    }
    var importPath := ReplaceFirst(c.importPath, "@/", "");
    var fileName := Basename(importPath) + ".tsx";
    var targetPath := PathJoin(targetDir, fileName);
    if !(targetPath in ws.files || targetPath in ws.dirs) {
      return NotInstalled;
    }
    if !force && !confirmed {
      return Cancelled;
    }
    outcome := Delete(ws, c.name, targetDir, targetPath);
  }

  method Delete(ws: Workspace, name: string, targetDir: string, targetPath: string) returns (outcome: RemoveOutcome)
    modifies ws
    ensures (ws.State(), outcome) == DeleteSpec(old(ws.State()), name, targetDir, targetPath)
  {
    ws.Remove(targetPath);
    var cssRemoved := RemoveComponentCss(ws, name);
    if cssRemoved.None? {
      return Failed;
    }
    if targetDir in ws.dirs && IsEmptyDir(Disk(ws.files, ws.dirs), targetDir) {
      ws.RmDir(targetDir);
    }
    return Removed(cssRemoved.value);
  }
}
