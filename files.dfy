/** cli/src/utils/files.ts: the project layout, the `cn` utility file, component file download, alias
    rewriting and the InputButton multi-export rule. */
module Files {
  import opened Wrappers
  import opened Text
  import opened Fs

  datatype Aliases = Aliases(components: string, utils: string)

  datatype ProjectConfig = ProjectConfig(srcDir: string, componentsDir: string, utilsDir: string, aliases: Aliases)

  const DefaultAliases: Aliases := Aliases("@/components", "@/lib")

  /** `detectProjectStructure`: a `src/app` or `src` entry selects the `src` layout. */
  function DetectProjectStructure(disk: Disk): (r: ProjectConfig)
    ensures r.aliases == DefaultAliases
    ensures (Exists(disk, "src/app") || Exists(disk, "src")) ==>
              r == ProjectConfig("src", "src/components/ui", "src/lib", DefaultAliases)
    ensures !(Exists(disk, "src/app") || Exists(disk, "src")) ==>
              r == ProjectConfig(".", "components/ui", "lib", DefaultAliases)
  {
    if Exists(disk, "src/app") then ProjectConfig("src", "src/components/ui", "src/lib", DefaultAliases)
    else if Exists(disk, "src") then ProjectConfig("src", "src/components/ui", "src/lib", DefaultAliases)
    else ProjectConfig(".", "components/ui", "lib", DefaultAliases)
  }

  function UtilsPath(config: ProjectConfig): string {
    PathJoin(config.utilsDir, "utils.ts")
  }

  const CnDeclaration: string := "export function cn"

  const UtilsImports: string :=
    "import { clsx, type ClassValue } from \"clsx\"\nimport { twMerge } from \"tailwind-merge\"\n\n"

  const UtilsCnRest: string := "(...inputs: ClassValue[]) {\n  return twMerge(clsx(inputs))\n}\n"

  /** The boilerplate `ensureUtilsFile` writes. */
  const UtilsContent: string := UtilsImports + CnDeclaration + UtilsCnRest

  lemma UtilsContentDeclaresCn()
    ensures Contains(UtilsContent, CnDeclaration)
  {
    ContainsMiddle(UtilsImports, CnDeclaration, UtilsCnRest);
  }

  predicate HasCn(disk: Disk, p: string) {
    p in disk.files && Contains(disk.files[p], CnDeclaration)
  }

  /** `ensureUtilsFile`: keep a utils file that already declares `cn`, otherwise (re)write the boilerplate. */
  function EnsureUtilsFileSpec(w: World, config: ProjectConfig): (r: World)
    ensures HasCn(w.disk, UtilsPath(config)) ==> r == w
    ensures !HasCn(w.disk, UtilsPath(config)) ==>
              r == Write(MakeDirs(w, config.utilsDir), UtilsPath(config), UtilsContent)
    ensures Fetches(r.trace) == Fetches(w.trace) && Runs(r.trace) == Runs(w.trace)
  {
    var p := UtilsPath(config);
    if HasCn(w.disk, p) then w
    else Write(MakeDirs(w, config.utilsDir), p, UtilsContent)
  }

  /** Afterwards the utils file exists and declares `cn`. */
  lemma EnsureUtilsFileProvidesCn(w: World, config: ProjectConfig)
    ensures HasCn(EnsureUtilsFileSpec(w, config).disk, UtilsPath(config))
  {
    UtilsContentDeclaresCn();
  }

  /** A second call changes nothing. */
  lemma EnsureUtilsFileIdempotent(w: World, config: ProjectConfig)
    ensures EnsureUtilsFileSpec(EnsureUtilsFileSpec(w, config), config) == EnsureUtilsFileSpec(w, config)
  {
    EnsureUtilsFileProvidesCn(w, config);
  }

  /** No file other than the utils file appears. */
  lemma EnsureUtilsFileAddsNoOther(w: World, config: ProjectConfig, k: string)
    requires k !in w.disk.files && k != UtilsPath(config)
    ensures k !in EnsureUtilsFileSpec(w, config).disk.files
  {
  }

  /** Only the utils file (and the directories above it) can change; nothing is fetched or run. */
  lemma EnsureUtilsFileFrame(w: World, config: ProjectConfig, k: string)
    requires k in w.disk.files && k != UtilsPath(config)
    ensures var r := EnsureUtilsFileSpec(w, config);
      && k in r.disk.files && r.disk.files[k] == w.disk.files[k]
      && w.disk.dirs <= r.disk.dirs
      && Fetches(r.trace) == Fetches(w.trace) && Runs(r.trace) == Runs(w.trace)
  {
  }

  method EnsureUtilsFile(ws: Workspace, config: ProjectConfig)
    modifies ws
    ensures ws.State() == EnsureUtilsFileSpec(old(ws.State()), config)
  {
    var p := UtilsPath(config);
    if p in ws.files && Contains(ws.files[p], CnDeclaration) {
      return;
    }
    ws.EnsureDir(config.utilsDir);
    ws.WriteFile(p, UtilsContent);
  }

  /** `downloadComponentFile`: `sources` holds the text a component path resolves to (the local
      checkout first, then GitHub); a path missing from it is a failed download, which throws. */
  function DownloadSpec(w: World, componentPath: string, targetPath: string, sources: map<string, string>)
    : (r: (World, bool))
    ensures r.1 <==> componentPath in sources
    ensures !r.1 ==> r.0 == w
    ensures r.1 ==> r.0.disk.files == w.disk.files[targetPath := sources[componentPath]]
    ensures r.1 ==> r.0.disk.dirs == w.disk.dirs + DirChain(Dirname(targetPath))
    ensures r.1 ==> Fetches(r.0.trace) == Fetches(w.trace) + [componentPath]
    ensures Runs(r.0.trace) == Runs(w.trace)
  {
    if componentPath in sources then
      (Write(MakeDirs(Fetch(w, componentPath), Dirname(targetPath)), targetPath, sources[componentPath]), true)
    else (w, false)
  }

  method DownloadComponentFile(ws: Workspace, componentPath: string, targetPath: string, sources: map<string, string>)
    returns (ok: bool)
    modifies ws
    ensures (ws.State(), ok) == DownloadSpec(old(ws.State()), componentPath, targetPath, sources)
  {
    if componentPath !in sources {
      return false;
    }
    ws.RecordFetch(componentPath);
    ws.EnsureDir(Dirname(targetPath));
    ws.WriteFile(targetPath, sources[componentPath]);
    return true;
  }

  /** `transformImports`: every `@/lib/utils`, then every `@/components`, rewritten to the aliases.
      With the aliases `detectProjectStructure` always returns it is the identity, and a text that
      mentions neither alias prefix is left as it is whatever the aliases. */
  function TransformImports(content: string, config: ProjectConfig): (r: string)
    ensures config.aliases == DefaultAliases ==> r == content
    ensures !Contains(content, "@/lib/utils") && !Contains(content, "@/components") ==> r == content
  {
    var utilsTarget := config.aliases.utils + "/utils";
    var afterUtils := ReplaceAll(content, "@/lib/utils", utilsTarget);
    if config.aliases == DefaultAliases then
      assert utilsTarget == "@/lib/utils";
      ReplaceAllBySelf(content, "@/lib/utils");
      ReplaceAllBySelf(content, "@/components");
      ReplaceAll(afterUtils, "@/components", config.aliases.components)
    else if !Contains(content, "@/lib/utils") && !Contains(content, "@/components") then
      ReplaceAllAbsent(content, "@/lib/utils", utilsTarget);
      ReplaceAllAbsent(content, "@/components", config.aliases.components);
      ReplaceAll(afterUtils, "@/components", config.aliases.components)
    else ReplaceAll(afterUtils, "@/components", config.aliases.components)
  }

  /** An import of the utils file, `a@/lib/utils b` with no other `@`, is pointed at the utils alias,
      provided the rewritten text then holds no `@/components`. */
  lemma TransformUtilsImport(a: string, b: string, config: ProjectConfig)
    requires '@' !in a && '@' !in b
    requires !Contains(a + (config.aliases.utils + "/utils") + b, "@/components")
    ensures TransformImports(a + "@/lib/utils" + b, config) == a + (config.aliases.utils + "/utils") + b
  {
    var u := config.aliases.utils + "/utils";
    ReplaceAllAt(a, "@/lib/utils", u, b);
    ReplaceAllNoStart(b, "@/lib/utils", u);
    ReplaceAllAbsent(a + u + b, "@/components", config.aliases.components);
  }

  /** An import of a component, `a@/components b` with no other `@`, is pointed at the components
      alias. */
  lemma TransformComponentsImport(a: string, b: string, config: ProjectConfig)
    requires '@' !in a && '@' !in b
    ensures TransformImports(a + "@/components" + b, config) == a + config.aliases.components + b
  {
    var u := config.aliases.utils + "/utils";
    var m := "@/components" + b;
    assert a + "@/components" + b == a + m;
    ReplaceAllPrefix(a, m, "@/lib/utils", u);
    assert m[..|"@/lib/utils"|] != "@/lib/utils" by {
      assert m[2] == 'c';
    }
    assert '@' !in m[1..];
    ReplaceAllNoStart(m[1..], "@/lib/utils", u);
    assert ReplaceAll(m, "@/lib/utils", u) == [m[0]] + m[1..] == m;
    ReplaceAllAt(a, "@/components", config.aliases.components, b);
    ReplaceAllNoStart(b, "@/components", config.aliases.components);
  }

  /** Where `handleMultiFileComponent` puts a component, when it handles it at all. */
  function MultiFileTarget(name: string, exports: string, importPath: string, config: ProjectConfig): (r: Option<string>)
    ensures r.Some? <==> name == "InputButton" && Contains(exports, ",")
  {
    if name == "InputButton" && Contains(exports, ",") then
      var path := ReplaceFirst(importPath, "@/", "");
      var fileName := Basename(path) + ".tsx";
      var targetDir := if Contains(path, "/buttons/") then PathJoin(config.componentsDir, "buttons")
                       else config.componentsDir;
      Some(PathJoin(targetDir, fileName))
    else None
  }

  /** The target sits directly in `componentsDir/buttons` or `componentsDir`, named after the import's basename. */
  lemma MultiFileTargetShape(name: string, exports: string, importPath: string, config: ProjectConfig)
    requires MultiFileTarget(name, exports, importPath, config).Some? && config.componentsDir != ""
    ensures var path := ReplaceFirst(importPath, "@/", "");
      var t := MultiFileTarget(name, exports, importPath, config).value;
      && Basename(t) == Basename(path) + ".tsx"
      && (Contains(path, "/buttons/") ==> Dirname(t) == config.componentsDir + "/buttons")
      && (!Contains(path, "/buttons/") ==> Dirname(t) == config.componentsDir)
  {
    var path := ReplaceFirst(importPath, "@/", "");
    var fileName := Basename(path) + ".tsx";
    assert '/' !in fileName by {
      assert forall i :: 0 <= i < |fileName| ==> fileName[i] == (if i < |Basename(path)| then Basename(path)[i] else ".tsx"[i - |Basename(path)|]);
    }
    if Contains(path, "/buttons/") {
      var dir := PathJoin(config.componentsDir, "buttons");
      assert dir == config.componentsDir + "/buttons";
      assert MultiFileTarget(name, exports, importPath, config).value == PathJoin(dir, fileName);
      JoinShape(dir, fileName);
    } else {
      assert MultiFileTarget(name, exports, importPath, config).value == PathJoin(config.componentsDir, fileName);
      JoinShape(config.componentsDir, fileName);
    }
  }

  lemma JoinShape(dir: string, name: string)
    requires name != [] && '/' !in name && dir != ""
    ensures Basename(PathJoin(dir, name)) == name && Dirname(PathJoin(dir, name)) == dir
  {
    BasenameOfJoin(dir, name);
    DirnameOfJoin(dir, name);
  }

  /** The directory part of `dir/name` is `dir` when `name` is a single component and `dir` is not empty. */
  lemma DirnameOfJoin(dir: string, name: string)
    requires '/' !in name
    ensures dir != "" ==> Dirname(PathJoin(dir, name)) == dir
  {
    var q := PathJoin(dir, name);
    assert q[|dir|] == '/';
    var k := LastIndexOfChar(q, '/');
    assert k.Some?;
    assert k.value >= |dir|;
  }

  function HandleMultiFileSpec(w: World, name: string, exports: string, importPath: string, config: ProjectConfig,
                               sources: map<string, string>): (r: (World, Option<seq<string>>))
    ensures r.1.Some? ==> |r.1.value| <= 1
    ensures r.1.Some? && r.1.value != [] ==> MultiFileTarget(name, exports, importPath, config) == Some(r.1.value[0])
    ensures MultiFileTarget(name, exports, importPath, config).None? ==> r == (w, Some([]))
    ensures MultiFileTarget(name, exports, importPath, config).Some? && ReplaceFirst(importPath, "@/", "") in sources ==>
      var t := MultiFileTarget(name, exports, importPath, config).value;
      var src := ReplaceFirst(importPath, "@/", "");
      && r.1 == Some([t])
      && r.0.disk.files == w.disk.files[t := sources[src]]
      && r.0.disk.dirs == w.disk.dirs + DirChain(Dirname(t))
      && Fetches(r.0.trace) == Fetches(w.trace) + [src]
    ensures MultiFileTarget(name, exports, importPath, config).Some? && ReplaceFirst(importPath, "@/", "") !in sources ==>
      r == (w, None)
  {
    match MultiFileTarget(name, exports, importPath, config)
    case None => (w, Some([]))
    case Some(target) =>
      var d := DownloadSpec(w, ReplaceFirst(importPath, "@/", ""), target, sources);
      if d.1 then (d.0, Some([target])) else (d.0, None)
  }

  /** `handleMultiFileComponent`: `None` stands for the download error it lets through. */
  method HandleMultiFileComponent(ws: Workspace, name: string, exports: string, importPath: string,
                                  config: ProjectConfig, sources: map<string, string>)
    returns (installed: Option<seq<string>>)
    modifies ws
    ensures (ws.State(), installed) == HandleMultiFileSpec(old(ws.State()), name, exports, importPath, config, sources)
  {
    var files: seq<string> := [];
    var target := MultiFileTarget(name, exports, importPath, config);
    if target.Some? {
      var ok := DownloadComponentFile(ws, ReplaceFirst(importPath, "@/", ""), target.value, sources);
      if !ok {
        return None;
      }
      files := files + [target.value];
      assert files == [target.value];
    }
    return Some(files);
  }
}
