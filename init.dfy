/** cli/src/commands/init.ts: project-type detection over package.json, the no-overwrite scaffolding of
    components.json and ak-ui.json, and the `init` action that runs the four set-up steps in order. */
module Init {
  import opened Wrappers
  import opened Fs
  import opened Files
  import opened Dependencies

  // ---------------------------------------------------------------- project type

  /** `detectProjectType`: a truthy `next` entry in either dependency map wins, then a truthy `react`
      entry; no package.json, or neither entry, is `Unknown`. */
  function DetectProjectType(manifest: Manifest): (r: string)
    ensures manifest.None? ==> r == "Unknown"
    ensures r == "Next.js" <==> manifest.Some? && Mentions(manifest.value, "next")
    ensures r == "React" <==> manifest.Some? && !Mentions(manifest.value, "next") && Mentions(manifest.value, "react")
    ensures r == "Next.js" || r == "React" || r == "Unknown"
  {
    if manifest.None? then "Unknown"
    else if Mentions(manifest.value, "next") then "Next.js"
    else if Mentions(manifest.value, "react") then "React"
    else "Unknown"
  }

  /** `packageJson.dependencies?.<pkg> || packageJson.devDependencies?.<pkg>`: an empty version is falsy. */
  predicate Mentions(pj: PackageJson, pkg: string) {
    IsRecorded(OrEmpty(pj.dependencies), pkg) || IsRecorded(OrEmpty(pj.devDependencies), pkg)
  }

  /** Only the `next` and `react` entries matter: two manifests that agree on them get the same type. */
  lemma ProjectTypeOnlyReadsNextAndReact(a: PackageJson, b: PackageJson)
    requires Mentions(a, "next") == Mentions(b, "next") && Mentions(a, "react") == Mentions(b, "react")
    ensures DetectProjectType(Some(a)) == DetectProjectType(Some(b))
  {
  }

  // ---------------------------------------------------------------- JSON text

  /** One character as `JSON.stringify` writes it inside a string literal: the quote, the backslash and
      the control characters are escaped (the short forms where JSON has one, `\u00xx` otherwise). */
  function EscapeChar(c: char): (r: string)
    ensures r != [] && (r[0] == '\\' <==> |r| > 1)
    ensures |r| == 1 <==> c != '"' && c != '\\' && c as int >= 0x20
    ensures |r| == 1 ==> r == [c]
  {
    if c == '"' then ['\\', '"']
    else if c == '\\' then ['\\', '\\']
    else if c as int == 8 then ['\\', 'b']
    else if c as int == 12 then ['\\', 'f']
    else if c == '\n' then ['\\', 'n']
    else if c == '\r' then ['\\', 'r']
    else if c == '\t' then ['\\', 't']
    else if c as int < 0x20 then ['\\', 'u', '0', '0', HexDigit(c as int / 16), HexDigit(c as int % 16)]
    else [c]
  }

  function HexDigit(d: int): (r: char)
    requires 0 <= d < 16
    ensures HexValue(r) == Some(d)
  {
    if d < 10 then ('0' as int + d) as char else ('a' as int + d - 10) as char
  }

  function HexValue(ch: char): (r: Option<int>)
    ensures r.Some? ==> 0 <= r.value < 16
  {
    if '0' <= ch <= '9' then Some(ch as int - '0' as int)
    else if 'a' <= ch <= 'f' then Some(ch as int - 'a' as int + 10)
    else if 'A' <= ch <= 'F' then Some(ch as int - 'A' as int + 10)
    else None
  }

  /** The body of a JSON string literal for `s`. */
  function JsonEscape(s: string): (r: string)
    ensures |r| >= |s|
  {
    if s == [] then [] else EscapeChar(s[0]) + JsonEscape(s[1..])
  }

  /** Text without quotes, backslashes or control characters is written as it is. */
  lemma {:induction false} JsonEscapePlain(s: string)
    requires '"' !in s && '\\' !in s && forall i :: 0 <= i < |s| ==> s[i] as int >= 0x20
    ensures JsonEscape(s) == s
  {
    if s != [] {
      JsonEscapePlain(s[1..]);
      assert [s[0]] + s[1..] == s;
    }
  }

  lemma JsonEscapeFirst(s: string, rest: string)
    requires s != []
    ensures JsonEscape(s) + "\"" + rest == EscapeChar(s[0]) + (JsonEscape(s[1..]) + "\"" + rest)
  {
  }

  /** The character a JSON escape sequence (the text after the backslash) stands for, and how many
      characters of that text it uses. */
  function DecodeEscape(u: string): (r: Option<(char, nat)>)
    ensures r.Some? ==> 1 <= r.value.1 <= |u|
  {
    if u == [] then None
    else if u[0] == '"' then Some(('"', 1))
    else if u[0] == '\\' then Some(('\\', 1))
    else if u[0] == '/' then Some(('/', 1))
    else if u[0] == 'b' then Some((8 as char, 1))
    else if u[0] == 'f' then Some((12 as char, 1))
    else if u[0] == 'n' then Some(('\n', 1))
    else if u[0] == 'r' then Some(('\r', 1))
    else if u[0] == 't' then Some(('\t', 1))
    else if u[0] == 'u' && |u| >= 5 then
      match (HexValue(u[1]), HexValue(u[2]), HexValue(u[3]), HexValue(u[4]))
      case (Some(a), Some(b), Some(c), Some(d)) =>
        var v := a * 4096 + b * 256 + c * 16 + d;
        if 0xD800 <= v < 0xE000 then None else Some((v as char, 5))
      case _ => None
    else None
  }

  /** Reads a JSON string literal body up to its closing quote: the decoded text and what follows. */
  function ParseStringBody(t: string): (r: Option<(string, string)>)
    ensures r.Some? ==> |r.value.1| < |t|
    decreases |t|
  {
    if t == [] then None
    else if t[0] == '"' then Some(([], t[1..]))
    else if t[0] == '\\' then
      match DecodeEscape(t[1..])
      case None => None
      case Some((c, n)) =>
        match ParseStringBody(t[1 + n..])
        case None => None
        case Some((s, rest)) => Some(([c] + s, rest))
    else if t[0] as int < 0x20 then None
    else
      match ParseStringBody(t[1..])
      case None => None
      case Some((s, rest)) => Some(([t[0]] + s, rest))
  }

  function Prepend(c: char, p: Option<(string, string)>): Option<(string, string)> {
    match p
    case None => None
    case Some((s, rest)) => Some(([c] + s, rest))
  }

  /** A character outside the escaped ones is read as itself. */
  lemma ParsePlain(c: char, t: string)
    requires c != '"' && c != '\\' && c as int >= 0x20
    ensures ParseStringBody([c] + t) == Prepend(c, ParseStringBody(t))
  {
    assert ([c] + t)[1..] == t;
  }

  /** A backslash followed by an escape `u` for `c` is read as `c`. */
  lemma ParseBackslash(u: string, t: string, c: char)
    requires DecodeEscape(u + t) == Some((c, |u|))
    ensures ParseStringBody(['\\'] + u + t) == Prepend(c, ParseStringBody(t))
  {
    var q := ['\\'] + u + t;
    assert q[0] == '\\' && q[1..] == u + t && q[1 + |u|..] == t;
  }

  /** The escapes `EscapeChar` writes decode to the character they came from. */
  lemma DecodeOwnEscape(c: char, t: string)
    requires |EscapeChar(c)| > 1
    ensures DecodeEscape(EscapeChar(c)[1..] + t) == Some((c, |EscapeChar(c)| - 1))
  {
    var e := EscapeChar(c);
    if |e| == 2 {
      assert (e[1..] + t)[0] == e[1];
    } else {
      DecodeUnicodeEscape(c, t);
    }
  }

  lemma DecodeUnicodeEscape(c: char, t: string)
    requires c as int < 0x20 && c as int != 8 && c as int != 12 && c != '\n' && c != '\r' && c != '\t'
    ensures DecodeEscape(EscapeChar(c)[1..] + t) == Some((c, 5))
  {
    var hi := HexDigit(c as int / 16);
    var lo := HexDigit(c as int % 16);
    var u := EscapeChar(c)[1..] + t;
    assert u[..5] == ['u', '0', '0', hi, lo];
    assert HexValue('0') == Some(0);
  }

  /** Reading one escaped character gives that character back. */
  lemma ParseEscapedChar(c: char, t: string)
    ensures ParseStringBody(EscapeChar(c) + t) == Prepend(c, ParseStringBody(t))
  {
    var e := EscapeChar(c);
    if |e| == 1 {
      assert e + t == [c] + t;
      ParsePlain(c, t);
    } else {
      DecodeOwnEscape(c, t);
      ParseBackslash(e[1..], t, c);
      assert ['\\'] + e[1..] + t == e + t;
    }
  }

  lemma ParseQuote(rest: string)
    ensures ParseStringBody(['"'] + rest) == Some(([], rest))
  {
    assert (['"'] + rest)[1..] == rest;
  }

  /** The reader inverts the escaping: it recovers `s` and stops right after the closing quote. */
  lemma {:induction false} ParseEscaped(s: string, rest: string)
    ensures ParseStringBody(JsonEscape(s) + "\"" + rest) == Some((s, rest))
    decreases |s|
  {
    if s == [] {
      assert JsonEscape(s) + "\"" + rest == ['"'] + rest;
      ParseQuote(rest);
    } else {
      ParseEscaped(s[1..], rest);
      var tail := JsonEscape(s[1..]) + "\"" + rest;
      JsonEscapeFirst(s, rest);
      ParseEscapedChar(s[0], tail);
      assert [s[0]] + s[1..] == s;
    }
  }

  /** `head`, then `a` and `b` as JSON string literal bodies each closed by a quote, around `mid`, then `tail`. */
  function WriteQuotedPair(head: string, a: string, mid: string, b: string, tail: string): string {
    head + (JsonEscape(a) + "\"" + (mid + (JsonEscape(b) + "\"" + tail)))
  }

  /** Reads back the two strings from text in the `WriteQuotedPair` layout. */
  function ReadQuotedPair(text: string, head: string, mid: string, tail: string): (r: Option<(string, string)>) {
    if !(|head| <= |text| && text[..|head|] == head) then None
    else match ParseStringBody(text[|head|..])
      case None => None
      case Some((a, rest)) =>
        if !(|mid| <= |rest| && rest[..|mid|] == mid) then None
        else match ParseStringBody(rest[|mid|..])
          case None => None
          case Some((b, rest2)) => if rest2 == tail then Some((a, b)) else None
  }

  lemma QuotedPairRoundTrip(head: string, a: string, mid: string, b: string, tail: string)
    ensures ReadQuotedPair(WriteQuotedPair(head, a, mid, b, tail), head, mid, tail) == Some((a, b))
  {
    var second := JsonEscape(b) + "\"" + tail;
    var first := JsonEscape(a) + "\"" + (mid + second);
    var text := head + first;
    assert text[..|head|] == head && text[|head|..] == first;
    ParseEscaped(a, mid + second);
    assert (mid + second)[..|mid|] == mid && (mid + second)[|mid|..] == second;
    ParseEscaped(b, tail);
  }

  // ---------------------------------------------------------------- components.json

  const ConfigPath: string := "components.json"

  /** `JSON.stringify` with two-space indentation, up to the opening quote of the components alias. */
  const ConfigHead: string :=
    "{\n  \"$schema\": \"https://ui.shadcn.com/schema.json\",\n  \"style\": \"default\",\n  \"rsc\": true,\n  \"tsx\": true,\n"
    + "  \"tailwind\": {\n    \"config\": \"tailwind.config.ts\",\n    \"css\": \"src/app/globals.css\",\n"
    + "    \"baseColor\": \"slate\",\n    \"cssVariables\": true,\n    \"prefix\": \"\"\n  },\n"
    + "  \"aliases\": {\n    \"components\": \""

  const ConfigMid: string := ",\n    \"utils\": \""

  /** The closing braces and the newline `writeJson` ends every file with. */
  const ConfigTail: string := "\n  }\n}\n"

  /** The text `createComponentsConfig` writes for the detected aliases. */
  function ComponentsConfigJson(aliases: Aliases): string {
    WriteQuotedPair(ConfigHead, aliases.components, ConfigMid, aliases.utils, ConfigTail)
  }

  /** The aliases a components.json in this layout records. */
  function ReadAliases(text: string): (r: Option<Aliases>) {
    match ReadQuotedPair(text, ConfigHead, ConfigMid, ConfigTail)
    case None => None
    case Some((c, u)) => Some(Aliases(c, u))
  }

  /** The written config records exactly the aliases it was made from. */
  lemma ConfigRecordsAliases(aliases: Aliases)
    ensures ReadAliases(ComponentsConfigJson(aliases)) == Some(aliases)
  {
    QuotedPairRoundTrip(ConfigHead, aliases.components, ConfigMid, aliases.utils, ConfigTail);
  }

  lemma ConfigJsonInjective(a: Aliases, b: Aliases)
    requires ComponentsConfigJson(a) == ComponentsConfigJson(b)
    ensures a == b
  {
    ConfigRecordsAliases(a);
    ConfigRecordsAliases(b);
  }

  /** `createComponentsConfig`: an existing components.json (file or directory) is left alone. */
  function CreateComponentsConfigSpec(w: World, aliases: Aliases): (r: World)
    ensures Exists(w.disk, ConfigPath) ==> r == w
    ensures !Exists(w.disk, ConfigPath) ==> r == Write(w, ConfigPath, ComponentsConfigJson(aliases))
    ensures forall k :: k in w.disk.files ==> k in r.disk.files && r.disk.files[k] == w.disk.files[k]
    ensures Fetches(r.trace) == Fetches(w.trace) && Runs(r.trace) == Runs(w.trace)
  {
    if Exists(w.disk, ConfigPath) then w else Write(w, ConfigPath, ComponentsConfigJson(aliases))
  }

  method CreateComponentsConfig(ws: Workspace, aliases: Aliases)
    modifies ws
    ensures ws.State() == CreateComponentsConfigSpec(old(ws.State()), aliases)
  {
    if ConfigPath in ws.files || ConfigPath in ws.dirs {
      return;
    }
    var text := ComponentsConfigJson(aliases);
    ws.WriteFile(ConfigPath, text);
  }

  // ---------------------------------------------------------------- ak-ui.json

  const RegistryPath: string := "ak-ui.json"

  /** `createAkUiRegistry`: `snapshot` is the serialised registry, `None` when loading it fails, which
      only prints a warning. An existing ak-ui.json is left alone. */
  function CreateAkUiRegistrySpec(w: World, snapshot: Option<string>): (r: World)
    ensures Exists(w.disk, RegistryPath) || snapshot.None? ==> r == w
    ensures !Exists(w.disk, RegistryPath) && snapshot.Some? ==> r == Write(w, RegistryPath, snapshot.value)
    ensures forall k :: k in w.disk.files ==> k in r.disk.files && r.disk.files[k] == w.disk.files[k]
    ensures Fetches(r.trace) == Fetches(w.trace) && Runs(r.trace) == Runs(w.trace)
  {
    if Exists(w.disk, RegistryPath) then w
    else match snapshot
      case None => w
      case Some(text) => Write(w, RegistryPath, text)
  }

  method CreateAkUiRegistry(ws: Workspace, snapshot: Option<string>)
    modifies ws
    ensures ws.State() == CreateAkUiRegistrySpec(old(ws.State()), snapshot)
  {
    if RegistryPath in ws.files || RegistryPath in ws.dirs {
      return;
    }
    if snapshot.None? {
      return;
    }
    ws.WriteFile(RegistryPath, snapshot.value);
  }

  // ---------------------------------------------------------------- the action

  /** How `init` ends: a failed utility install exits with 1; otherwise the summary it prints. */
  datatype InitOutcome =
    | InitFailed
    | Initialized(projectType: string, manager: PackageManager, componentsDir: string, utilsPath: string)

  /** The `init` action over a project whose package.json is `manifest`; `pmOk` is the package
      manager's verdict and `snapshot` the registry `createAkUiRegistry` would save. */
  function InitSpec(w: World, manifest: Manifest, pmOk: Invocation -> bool, snapshot: Option<string>)
    : (r: (World, InitOutcome))
    ensures r.1.Initialized? ==>
      && r.1.projectType == DetectProjectType(manifest)
      && r.1.manager == GetPackageManager(w.disk)
      && r.1.componentsDir == DetectProjectStructure(w.disk).componentsDir
    ensures AcceptsAll(pmOk) ==> r.1.Initialized?
  {
    var config := DetectProjectStructure(w.disk);
    var projectType := DetectProjectType(manifest);
    var manager := GetPackageManager(w.disk);
    var steps := StepsSpec(CreateComponentsConfigSpec(w, config.aliases), config, manifest, pmOk, snapshot);
    if !steps.1 then (steps.0, InitFailed)
    else (steps.0, Initialized(projectType, manager, config.componentsDir, UtilsPath(config)))
  }

  /** The steps after components.json: the utility install, and when it succeeds the utils file
      and the registry snapshot. */
  function StepsSpec(w: World, config: ProjectConfig, manifest: Manifest, pmOk: Invocation -> bool, snapshot: Option<string>)
    : (r: (World, bool))
    ensures r.1 ==> HasCn(r.0.disk, UtilsPath(config))
    ensures !r.1 ==> r.0.disk == w.disk
    ensures forall k :: k in w.disk.files && k != UtilsPath(config) ==> k in r.0.disk.files && r.0.disk.files[k] == w.disk.files[k]
    ensures Fetches(r.0.trace) == Fetches(w.trace)
    ensures AcceptsAll(pmOk) ==> r.1
  {
    var d := InstallDependenciesSpec(w, UtilsPackages, manifest, pmOk);
    if !d.1 then (d.0, false) else (SetUpSpec(d.0, config, snapshot), true)
  }

  /** The two steps after the utility install: the utils file, then the registry snapshot. */
  function SetUpSpec(w: World, config: ProjectConfig, snapshot: Option<string>): (r: World)
    ensures HasCn(r.disk, UtilsPath(config))
    ensures forall k :: k in w.disk.files && k != UtilsPath(config) ==> k in r.disk.files && r.disk.files[k] == w.disk.files[k]
    ensures Fetches(r.trace) == Fetches(w.trace) && Runs(r.trace) == Runs(w.trace)
  {
    var w1 := EnsureUtilsFileSpec(w, config);
    EnsureUtilsFileProvidesCn(w, config);
    assert forall k :: k in w.disk.files && k != UtilsPath(config) ==> k in w1.disk.files && w1.disk.files[k] == w.disk.files[k];
    CreateAkUiRegistrySpec(w1, snapshot)
  }

  /** The utils file is neither of the two scaffolding files, and no directory made for it is ak-ui.json. */
  lemma UtilsPathIsOwn(disk: Disk)
    ensures UtilsPath(DetectProjectStructure(disk)) != ConfigPath
    ensures UtilsPath(DetectProjectStructure(disk)) != RegistryPath
    ensures RegistryPath !in DirChain(DetectProjectStructure(disk).utilsDir)
  {
    var p := UtilsPath(DetectProjectStructure(disk));
    assert p[|p| - 1] == 's';
    var d := DetectProjectStructure(disk).utilsDir;
    assert |d| <= 7;
    assert forall x :: x in DirChain(d) ==> |x| <= |d|;
  }

  /** A file present once components.json is settled keeps its text, unless it is the utils file. */
  lemma InitKeeps(w: World, manifest: Manifest, pmOk: Invocation -> bool, snapshot: Option<string>, k: string)
    requires var config := DetectProjectStructure(w.disk);
      k in CreateComponentsConfigSpec(w, config.aliases).disk.files && k != UtilsPath(config)
    ensures var config := DetectProjectStructure(w.disk);
      var w1 := CreateComponentsConfigSpec(w, config.aliases);
      var r := InitSpec(w, manifest, pmOk, snapshot).0;
      k in r.disk.files && r.disk.files[k] == w1.disk.files[k]
  {
    var config := DetectProjectStructure(w.disk);
    var w1 := CreateComponentsConfigSpec(w, config.aliases);
    var steps := StepsSpec(w1, config, manifest, pmOk, snapshot);
    assert InitSpec(w, manifest, pmOk, snapshot).0 == steps.0;
  }

  /** A components.json or ak-ui.json already present keeps its text, whatever `init` does. */
  lemma InitNeverOverwrites(w: World, manifest: Manifest, pmOk: Invocation -> bool, snapshot: Option<string>, k: string)
    requires k == ConfigPath || k == RegistryPath
    requires k in w.disk.files
    ensures var r := InitSpec(w, manifest, pmOk, snapshot).0;
      k in r.disk.files && r.disk.files[k] == w.disk.files[k]
  {
    UtilsPathIsOwn(w.disk);
    InitKeeps(w, manifest, pmOk, snapshot, k);
  }

  /** A fresh components.json records the aliases `detectProjectStructure` found. */
  lemma InitConfigRecordsAliases(w: World, manifest: Manifest, pmOk: Invocation -> bool, snapshot: Option<string>)
    requires !Exists(w.disk, ConfigPath)
    ensures var r := InitSpec(w, manifest, pmOk, snapshot).0;
      ConfigPath in r.disk.files && ReadAliases(r.disk.files[ConfigPath]) == Some(DetectProjectStructure(w.disk).aliases)
  {
    var config := DetectProjectStructure(w.disk);
    var w1 := CreateComponentsConfigSpec(w, config.aliases);
    var text := ComponentsConfigJson(config.aliases);
    assert w1.disk.files[ConfigPath] == text;
    UtilsPathIsOwn(w.disk);
    InitKeeps(w, manifest, pmOk, snapshot, ConfigPath);
    ConfigRecordsAliases(config.aliases);
  }

  /** A successful `init` leaves a utils file that declares `cn`; no run fetches anything. */
  lemma InitProvidesCn(w: World, manifest: Manifest, pmOk: Invocation -> bool, snapshot: Option<string>)
    ensures var r := InitSpec(w, manifest, pmOk, snapshot);
      && (r.1.Initialized? ==> r.1.utilsPath == UtilsPath(DetectProjectStructure(w.disk)) && HasCn(r.0.disk, r.1.utilsPath))
      && Fetches(r.0.trace) == Fetches(w.trace)
  {
  }

  /** Without a snapshot the steps end the same way and write no ak-ui.json. */
  lemma StepsWithoutSnapshot(w: World, config: ProjectConfig, manifest: Manifest, pmOk: Invocation -> bool, snapshot: string)
    requires RegistryPath !in w.disk.files && UtilsPath(config) != RegistryPath
    ensures StepsSpec(w, config, manifest, pmOk, None).1 == StepsSpec(w, config, manifest, pmOk, Some(snapshot)).1
    ensures RegistryPath !in StepsSpec(w, config, manifest, pmOk, None).0.disk.files
  {
    var d := InstallDependenciesSpec(w, UtilsPackages, manifest, pmOk);
    if d.1 {
      EnsureUtilsFileAddsNoOther(d.0, config, RegistryPath);
      assert StepsSpec(w, config, manifest, pmOk, None).0 == EnsureUtilsFileSpec(d.0, config);
    }
  }

  /** A failed registry load only warns: the outcome is the same as with a snapshot. */
  lemma RegistryFailureOnlyWarns(w: World, manifest: Manifest, pmOk: Invocation -> bool, snapshot: string)
    ensures InitSpec(w, manifest, pmOk, None).1 == InitSpec(w, manifest, pmOk, Some(snapshot)).1
  {
    var config := DetectProjectStructure(w.disk);
    var w1 := CreateComponentsConfigSpec(w, config.aliases);
    var d := InstallDependenciesSpec(w1, UtilsPackages, manifest, pmOk);
    assert StepsSpec(w1, config, manifest, pmOk, None).1 == d.1 == StepsSpec(w1, config, manifest, pmOk, Some(snapshot)).1;
  }

  /** ... and no ak-ui.json appears. */
  lemma RegistryFailureWritesNoSnapshot(w: World, manifest: Manifest, pmOk: Invocation -> bool)
    requires !Exists(w.disk, RegistryPath)
    ensures RegistryPath !in InitSpec(w, manifest, pmOk, None).0.disk.files
  {
    var config := DetectProjectStructure(w.disk);
    var w1 := CreateComponentsConfigSpec(w, config.aliases);
    assert RegistryPath != ConfigPath;
    assert RegistryPath !in w1.disk.files;
    UtilsPathIsOwn(w.disk);
    StepsWithoutSnapshot(w1, config, manifest, pmOk, "");
    assert InitSpec(w, manifest, pmOk, None).0 == StepsSpec(w1, config, manifest, pmOk, None).0;
  }

  /** A failed utility install stops `init` before the utils file and the registry snapshot. */
  lemma FailedInstallStops(w: World, manifest: Manifest, pmOk: Invocation -> bool, snapshot: Option<string>)
    requires InitSpec(w, manifest, pmOk, snapshot).1.InitFailed?
    ensures InitSpec(w, manifest, pmOk, snapshot).0.disk == CreateComponentsConfigSpec(w, DetectProjectStructure(w.disk).aliases).disk
  {
  }

  /** When both remaining steps act, the utils file is written before ak-ui.json. */
  lemma SetUpOrder(w: World, config: ProjectConfig, snapshot: string)
    requires !HasCn(w.disk, UtilsPath(config)) && !Exists(w.disk, RegistryPath)
    requires UtilsPath(config) != RegistryPath && RegistryPath !in DirChain(config.utilsDir)
    ensures SetUpSpec(w, config, Some(snapshot)).trace == w.trace + [Wrote(UtilsPath(config))] + [Wrote(RegistryPath)]
  {
    var w1 := EnsureUtilsFileSpec(w, config);
    assert w1.trace == w.trace + [Wrote(UtilsPath(config))];
    assert !Exists(w1.disk, RegistryPath);
  }

  /** When the install runs and succeeds, it comes before both. */
  lemma StepsOrder(w: World, config: ProjectConfig, manifest: Manifest, pmOk: Invocation -> bool, snapshot: string, call: Invocation)
    requires !HasCn(w.disk, UtilsPath(config)) && !Exists(w.disk, RegistryPath)
    requires UtilsPath(config) != RegistryPath && RegistryPath !in DirChain(config.utilsDir)
    requires MissingPackages(UtilsPackages, GetInstalledPackages(manifest)) != []
    requires call == InstallInvocation(GetPackageManager(w.disk), MissingPackages(UtilsPackages, GetInstalledPackages(manifest)))
    requires pmOk(call)
    ensures StepsSpec(w, config, manifest, pmOk, Some(snapshot)).0.trace
        == w.trace + [Ran(call)] + [Wrote(UtilsPath(config))] + [Wrote(RegistryPath)]
  {
    var d := InstallDependenciesSpec(w, UtilsPackages, manifest, pmOk);
    assert d.0.trace == w.trace + [Ran(call)] && d.1 && d.0.disk == w.disk;
    SetUpOrder(d.0, config, snapshot);
  }

  /** When every step acts, the effects are: components.json, the package manager, the utils file,
      ak-ui.json, in that order. */
  lemma InitOrder(w: World, manifest: Manifest, pmOk: Invocation -> bool, snapshot: string, call: Invocation)
    requires !Exists(w.disk, ConfigPath) && !Exists(w.disk, RegistryPath)
    requires MissingPackages(UtilsPackages, GetInstalledPackages(manifest)) != []
    requires call == InstallInvocation(GetPackageManager(w.disk), MissingPackages(UtilsPackages, GetInstalledPackages(manifest)))
    requires pmOk(call)
    requires !HasCn(w.disk, UtilsPath(DetectProjectStructure(w.disk)))
    ensures InitSpec(w, manifest, pmOk, Some(snapshot)).0.trace
        == w.trace + [Wrote(ConfigPath)] + [Ran(call)] + [Wrote(UtilsPath(DetectProjectStructure(w.disk)))] + [Wrote(RegistryPath)]
  {
    var config := DetectProjectStructure(w.disk);
    UtilsPathIsOwn(w.disk);
    var w1 := CreateComponentsConfigSpec(w, config.aliases);
    assert GetPackageManager(w1.disk) == GetPackageManager(w.disk);
    StepsOrder(w1, config, manifest, pmOk, snapshot, call);
  }

  method Init(ws: Workspace, manifest: Manifest, pmOk: Invocation -> bool, snapshot: Option<string>)
    returns (outcome: InitOutcome)
    modifies ws
    ensures (ws.State(), outcome) == InitSpec(old(ws.State()), manifest, pmOk, snapshot)
  {
    var disk := Disk(ws.files, ws.dirs);
    var config := DetectProjectStructure(disk);
    var projectType := DetectProjectType(manifest);
    var manager := GetPackageManager(disk);
    CreateComponentsConfig(ws, config.aliases);
    var ok := InstallUtilsDependencies(ws, manifest, pmOk);
    if !ok {
      return InitFailed;
    }
    EnsureUtilsFile(ws, config);
    CreateAkUiRegistry(ws, snapshot);
    return Initialized(projectType, manager, config.componentsDir, UtilsPath(config));
  }
}
