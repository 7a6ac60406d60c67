# ak-ui installer, modelled in Dafny

`ak-ui` is the command-line installer of a catalogue of React components. It has four commands:

- `add <name>` copies a component's source file into the consumer's project. Before that it copies the component's internal dependencies and installs the `cn` helper and its npm packages. After that it installs the component's own npm packages and appends the component's CSS variables to the global stylesheet.
- `remove <name>` deletes the installed file and its CSS block. It also removes the component directory once that directory is empty.
- `init` writes `components.json`, the `cn` helper and a snapshot of the registry, `ak-ui.json`. It overwrites neither of the two JSON files.
- `list` prints the catalogue grouped by category, or the components of one category.

The catalogue also holds the star-count wheel, whose `generateRange` countdown is modelled here as well.

The model works over abstract inputs:

- **The registry** is a `seq<Registry.Component>`, already loaded. `None` stands for a failed load.
- **The consumer's project** is an `Fs.Disk`: a map from path to file text, plus a set of directories.
  - An `Fs.World` pairs the disk with the ordered trace of effects the CLI performs: file fetched, written or deleted, package manager run, directory removed.
  - Each command's imperative code is a method on the class `Fs.Workspace`. Each such method is proved equal to a pure step function over `World`; those are the `…Spec` functions.
  - The properties are lemmas about the step functions.
- **package.json** is a `Dependencies.Manifest`: optional `dependencies` and `devDependencies` maps.
- **The package manager's verdict** on an invocation is a parameter `pmOk: Invocation -> bool`.
- **Component sources** are a map keyed by the import path with `@/` removed (`sources`).
- **The confirmation prompt's answer** is a `bool`.

The modules follow the source files:

| module | source file | what it covers |
|---|---|---|
| `Registry` | `cli/src/utils/registry.ts` | the registry queries |
| `Add` | `cli/src/commands/add.ts` | the `add` action |
| `Remove` | `cli/src/commands/remove.ts` | the `remove` action |
| `Files` | `cli/src/utils/files.ts` | project layout, the utils file, alias rewriting, the multi-file rule |
| `Dependencies` | `cli/src/utils/dependencies.ts` | lockfiles, the manifest, install arguments, import names, conflicts |
| `Css` | `cli/src/utils/css.ts` | finding, injecting and removing stylesheet blocks |
| `Init` | `cli/src/commands/init.ts` | the `init` action |
| `List` | `cli/src/commands/list.ts` | the `list` action |
| `StarsWheel` | `src/components/ui/custom/stars-scrolling-wheel.tsx` | `generateRange` and the item-count arithmetic |

Four helper modules support them:

- `Wrappers` holds `Option`.
- `Seqs` holds deduplication, subsequences and first indices.
- `Text` holds the JavaScript string operations used: ASCII case mapping, `includes`, `indexOf`, `replace`, `replaceAll`, `split`, `join` and `\s*`.
- `Fs` holds paths, the disk, effects and the `Workspace` class.

## Model

| member | source | states |
|---|---|---|
| Registry.GetComponent | cli/src/utils/registry.ts:63-68 | the result is a registry entry whose name equals the query up to case; it is `None` exactly when no entry's name matches |
| Registry.GetComponentIsFirstMatch | cli/src/utils/registry.ts:63-68 | when several entries match, the first one in registry order is returned |
| Registry.GetComponentIgnoresCase | cli/src/utils/registry.ts:66 | two queries that differ only in letter case find the same entry |
| Registry.GetComponentsByCategory | cli/src/utils/registry.ts:70-75 | exactly the entries whose category matches ignoring case, each as often as in the registry, as a subsequence in registry order |
| Registry.SearchComponents | cli/src/utils/registry.ts:77-86 | exactly the entries whose lower-cased name, description or category contains the lower-cased query, each as often as in the registry, in registry order |
| Registry.SearchEmptyQuery | cli/src/utils/registry.ts:77-86 | an empty query returns the whole registry |
| Registry.GetComponentDependencies | cli/src/utils/registry.ts:88-97 | the record's dependency paths, unchanged and in order; an absent field gives none |
| Registry.GetNpmDependencies | cli/src/utils/registry.ts:99-142 | a name outside the fixed table, and `LiquidGlassButton`, gets no packages; a table entry lists at most three distinct known packages |
| Text.ToUpper | cli/src/commands/list.ts:19 | a same-length string whose letters are upper-cased one by one, and which is equal to the input up to case |
| Text.ReplaceFirst | cli/src/commands/add.ts:121 | a text without the pattern is kept; otherwise the first occurrence of the pattern, wherever it lies, is replaced and the text before and after it is kept |
| Text.ReplaceAllBySelf | cli/src/utils/files.ts:106-116 | replacing every occurrence of a pattern by itself changes nothing |
| Text.ReplaceAllPrefix | cli/src/utils/files.ts:106-116 | text holding no copy of the pattern's first character is copied unchanged ahead of the rewritten rest |
| Text.ReplaceAllNoStart | cli/src/utils/files.ts:106-116 | a text without the pattern's first character is unchanged by replacing all occurrences |
| Text.ReplaceAllAt | cli/src/utils/files.ts:106-116 | an occurrence of the pattern preceded by no copy of its first character is replaced by the replacement, with the rest rewritten in turn |
| Text.ReplaceAllAbsent | cli/src/utils/files.ts:106-116 | a text without the pattern is unchanged by replacing all its occurrences |
| Add.Capitalize | cli/src/commands/add.ts:45-46 | the length is kept, the first character is no longer a lower-case letter, the rest is unchanged, and the word is equal up to case |
| Add.CapitalizeWords | cli/src/commands/add.ts:45-46 | one word per piece, the piece at each position capitalised |
| Add.LowerConcatCapitalized | cli/src/commands/add.ts:45-47 | capitalising each piece and concatenating equals, up to case, concatenating the pieces |
| Add.DepName | cli/src/commands/add.ts:45-47 | the derived name is the last `/` segment of the path with its dashes removed, up to case |
| Add.DepNameLookup | cli/src/commands/add.ts:45-50 | looking up the derived name finds what looking up the dashless last segment finds |
| Add.DepNameOfPath | cli/src/commands/add.ts:45-47 | only the last `/` segment decides the derived name |
| Add.DepNameOfTwoWords | cli/src/commands/add.ts:44-47 | `dir/first-second` becomes `Capitalize(first)` + `Capitalize(second)` |
| Add.SlidingNumber | cli/src/commands/add.ts:44-47 | `dir/sliding-number` gives `SlidingNumber`, the example of the comment at add.ts:44 |
| Add.DepNames | cli/src/commands/add.ts:98-105 | the reported internal dependency names, one per listed path, in the same order |
| Add.SourcePath | cli/src/commands/add.ts:121 | an import without `@/` is kept; otherwise its first `@/`, wherever it lies, is removed and the rest kept |
| Add.InstallTarget | cli/src/commands/add.ts:119-126 | the target file is the source path followed by `.tsx` |
| Add.InstallTargetInjective | cli/src/commands/add.ts:119-126 | two components with the same target file have the same source path |
| Add.InstallTargetOfAlias | cli/src/commands/add.ts:121-125 | an import `@/p` is installed at `p.tsx` |
| Add.ResolveDeps | cli/src/commands/add.ts:42-57 | every dependency name found in the registry contributes its entry; everything resolved is a registry entry; there is at most one per listed name |
| Add.ResolveDepsOnlyListed | cli/src/commands/add.ts:50-57 | resolution is one level deep: every resolved entry is the lookup of one of the root's own listed names |
| Add.UnknownDependencySkipped | cli/src/commands/add.ts:50-51 | a name missing from the registry adds nothing and does not stop the loop |
| Add.RepeatedDependencyKept | cli/src/commands/add.ts:42-57 | there is no seen-set: a name listed twice is installed twice |
| Add.InstallOrder | cli/src/commands/add.ts:42-64 | the root comes last, after at most one entry per listed dependency |
| Add.InstallComponentFilesSpec | cli/src/commands/add.ts:119-129 | it succeeds exactly when the source exists; it then writes the source text at the target path, makes the target's directories and fetches that one source; a failure changes nothing |
| Add.DepStep | cli/src/commands/add.ts:49-58 | an unknown dependency changes nothing and succeeds; a found one without its source fails with nothing changed; a found one is fetched and written at its own target, and it succeeds whenever its source is present and it has no npm packages or every package-manager run succeeds |
| Add.DepsLoopFetches | cli/src/commands/add.ts:42-59 | a successful dependency loop fetches exactly the resolved dependencies' sources, in listed order |
| Add.DepsLoopInstalls | cli/src/commands/add.ts:42-59 | after a successful dependency loop, every resolved dependency's file holds its source text |
| Add.ConflictReport | cli/src/commands/add.ts:67-80 | there are no more conflict and warning messages together than requested packages |
| Add.NpmStepSpec | cli/src/commands/add.ts:67-85 | the npm step writes nothing and fetches nothing; a root without npm packages skips it altogether; it succeeds when every package-manager run does |
| Add.SetupSpec | cli/src/commands/add.ts:35-39 | the disk is what settling the utils file leaves, and the utils file declares `cn`; nothing is fetched; it succeeds when every package-manager run does |
| Add.NoNpmPackagesNoReport | cli/src/commands/add.ts:67-68 | a root without npm packages reports no conflicts and no warnings |
| Add.FinishSpec | cli/src/commands/add.ts:66-107 | a completed run reports one name per listed internal dependency; it completes when every package-manager run succeeds and no stylesheet location is a directory |
| Add.FinishFetchesNothing | cli/src/commands/add.ts:66-94 | nothing after the root's file fetches any component source |
| Add.FinishKeepsComponents | cli/src/commands/add.ts:66-94 | the npm and CSS steps neither create, change nor delete a `.tsx` file |
| Add.InstallSpec | cli/src/commands/add.ts:28-116 | once the component is found, the run ends either installed or failed |
| Add.AddSpec | cli/src/commands/add.ts:20-26 | a failed registry load or an unknown name ends the run with nothing done; the run goes on to end installed or failed exactly when the name is found |
| Add.AddUnknownChangesNothing | cli/src/commands/add.ts:20-26 | an unknown component exits with 1 before any effect |
| Add.ExitCode | cli/src/commands/add.ts:20-116 | exit code 0 exactly for a completed install, 1 otherwise |
| Add.AddFetchesInstallOrder | cli/src/commands/add.ts:42-64 | a completed `add` fetches exactly the sources of the install order: resolved dependencies in listed order, then the root |
| Add.AddInstallsFiles | cli/src/commands/add.ts:42-64 | after a completed `add`, every component of the install order has its source text at its target path |
| Add.UtilsDirsAvoidCss | cli/src/utils/files.ts:67 | the directories made for the utils file are never stylesheet locations |
| Add.DepsLoopCompletes | cli/src/commands/add.ts:42-59 | with every resolved dependency's source present and every package-manager run succeeding, the dependency loop succeeds and leaves no stylesheet location a directory |
| Add.AddCompletes | cli/src/commands/add.ts:15-117 | a found component whose install order has all its sources, none of whose directories is a stylesheet location, in a project whose stylesheet locations are not directories, with every package-manager run succeeding, is installed |
| Add.InstallComponentFiles | cli/src/commands/add.ts:119-129 | the method's new state and result are those of `InstallComponentFilesSpec` |
| Add.InstallDependency | cli/src/commands/add.ts:49-58 | one iteration of the dependency loop, equal to `DepStep` |
| Add.InstallInternalDeps | cli/src/commands/add.ts:42-59 | the loop over the listed dependencies, proved equal to the step function over the derived names |
| Add.Finish | cli/src/commands/add.ts:66-107 | the npm and CSS steps, equal to `FinishSpec` |
| Add.Add | cli/src/commands/add.ts:15-117 | the whole action, equal to `AddSpec` |
| Remove.RemoveTargetDir | cli/src/commands/remove.ts:36-43 | the `buttons` and `text` categories get their own sub-directory of the components directory; every other category uses it directly |
| Remove.RemoveTargetPath | cli/src/commands/remove.ts:36-47 | the path to delete is a `.tsx` file; for a non-empty components directory it lies directly in the category's directory and is named after the basename of the import with `@/` removed, plus `.tsx` |
| Remove.ExitCode | cli/src/commands/remove.ts:20-102 | exit code 1 exactly for a failed load, an unknown name or a failure; not installed, cancelled and removed exit with 0 |
| Remove.CleanupDir | cli/src/commands/remove.ts:84-93 | the directory goes exactly when it exists and is empty; files are never touched |
| Remove.DeleteSpec | cli/src/commands/remove.ts:70-93 | deletion ends as removed or failed; the target is no longer a file or a directory; it ends as removed unless a stylesheet location is a directory |
| Remove.RemoveSpec | cli/src/commands/remove.ts:20-26 | a failed load or an unknown name changes nothing |
| Remove.EarlyExitsChangeNothing | cli/src/commands/remove.ts:20-68 | every outcome other than removed or failed leaves the world exactly as it was |
| Remove.MissingFileNotInstalled | cli/src/commands/remove.ts:50-53 | a component whose file is absent is reported not installed, exits with 0 and nothing changes |
| Remove.DeclinedCancels | cli/src/commands/remove.ts:56-68 | without `--force`, a declined confirmation cancels with nothing changed |
| Remove.RemoveProceeds | cli/src/commands/remove.ts:56-93 | a found and installed component, with `--force` or a confirmed prompt, is deleted and the run ends removed or failed; it ends removed when no stylesheet location is a directory |
| Remove.DeleteFrame | cli/src/commands/remove.ts:70-93 | the target is gone; every file that is neither below the target nor a stylesheet candidate keeps its text; no file is created, so at most an existing stylesheet is rewritten; no directory other than the target directory and those below the target goes; nothing is fetched or installed |
| Remove.RemovedFrame | cli/src/commands/remove.ts:70-97 | a removal deletes a path that existed; every file that is neither below the target nor a stylesheet candidate keeps its text; no file is created; the package manager never runs, so dependencies stay |
| Remove.DirRemovedOnlyWhenEmpty | cli/src/commands/remove.ts:84-93 | the target directory disappears exactly when it is empty after the file and CSS removal |
| Remove.AgreeWhenImportUnderTargetDir | cli/src/commands/remove.ts:36-47 | when the import lies directly under the category directory, `remove` deletes the file `add` wrote |
| Remove.DisagreeForOtherCategories | cli/src/commands/remove.ts:36-47 | for another category with its own sub-directory in the import, `remove` looks at the components directory itself, not where `add` wrote |
| Remove.SrcLayoutLooksBelowSrc | cli/src/commands/remove.ts:36-47 | in the `src` layout every path `remove` looks at is the root layout's path under `src/` |
| Remove.DisagreeForSrcLayout | cli/src/commands/remove.ts:36-47 | in the `src` layout, `remove` looks under `src/` while `add` wrote under the root directory, so they differ |
| Remove.Remove | cli/src/commands/remove.ts:15-102 | the whole action, equal to `RemoveSpec` |
| Remove.Delete | cli/src/commands/remove.ts:70-93 | file, CSS and directory removal, equal to `DeleteSpec` |
| Files.DetectProjectStructure | cli/src/utils/files.ts:15-54 | `src/app` or `src` gives the `src/...` directories, anything else the root ones; the aliases are always `@/components` and `@/lib` |
| Files.EnsureUtilsFileSpec | cli/src/utils/files.ts:56-78 | a utils file already declaring `cn` is kept; anything else gets the boilerplate written, with its directory made; nothing is fetched or run |
| Files.EnsureUtilsFileProvidesCn | cli/src/utils/files.ts:60-77 | afterwards the utils file exists and declares `cn` |
| Files.EnsureUtilsFileIdempotent | cli/src/utils/files.ts:56-78 | a second run changes nothing |
| Files.EnsureUtilsFileFrame | cli/src/utils/files.ts:56-78 | every other file keeps its text and no directory disappears |
| Files.EnsureUtilsFileAddsNoOther | cli/src/utils/files.ts:56-78 | no file other than the utils file is created |
| Files.EnsureUtilsFile | cli/src/utils/files.ts:56-78 | the method equals `EnsureUtilsFileSpec` |
| Files.DownloadSpec | cli/src/utils/files.ts:80-104 | it succeeds exactly when the source exists; it then writes the text at the target, makes its directories and fetches that source; a failure changes nothing |
| Files.DownloadComponentFile | cli/src/utils/files.ts:80-104 | the method equals `DownloadSpec` |
| Files.TransformUtilsImport | cli/src/utils/files.ts:108-109 | an import `@/lib/utils` in a text with no other `@` is rewritten to the utils alias followed by `/utils`, everything around it kept |
| Files.TransformComponentsImport | cli/src/utils/files.ts:112-113 | an import `@/components` in a text with no other `@` is rewritten to the components alias, everything around it kept |
| Files.TransformImports | cli/src/utils/files.ts:106-116 | with the aliases layout detection returns, the rewrite leaves any text unchanged; a text mentioning neither alias prefix is unchanged under any aliases |
| Files.MultiFileTarget | cli/src/utils/files.ts:118-140 | there is a target exactly for `InputButton` with a comma in its export |
| Files.MultiFileTargetShape | cli/src/utils/files.ts:124-134 | the target is the import's basename plus `.tsx`, in `buttons/` below the components directory when the import contains `/buttons/`, else directly in it |
| Files.HandleMultiFileSpec | cli/src/utils/files.ts:118-140 | at most one path is reported, and it is that target; with no target nothing is installed; with a target and its source it writes the source there, makes the target's directories, fetches it and reports the target; with a target and no source it fails with nothing changed |
| Files.HandleMultiFileComponent | cli/src/utils/files.ts:118-140 | the method equals `HandleMultiFileSpec` |
| Dependencies.GetPackageManager | cli/src/utils/dependencies.ts:12-24 | pnpm exactly when `pnpm-lock.yaml` exists, yarn exactly when only `yarn.lock` does, npm otherwise |
| Dependencies.GetInstalledPackages | cli/src/utils/dependencies.ts:26-38 | the keys of both maps, with a devDependency's version winning; a missing package.json gives an empty map |
| Dependencies.MissingPackages | cli/src/utils/dependencies.ts:47 | exactly the requested packages without a non-empty recorded version, each as often as requested, in request order |
| Dependencies.InstallCommand | cli/src/utils/dependencies.ts:57-58 | `add` exactly for yarn, `install` for npm and pnpm |
| Dependencies.InstallInvocation | cli/src/utils/dependencies.ts:57-58 | the chosen manager is run with the subcommand followed by exactly the packages |
| Dependencies.InstallDependenciesSpec | cli/src/utils/dependencies.ts:40-65 | nothing missing means nothing runs and success; otherwise one run with the missing packages, whose verdict is the result; the disk is untouched; it succeeds when every run does |
| Dependencies.AllRecordedRunsNothing | cli/src/utils/dependencies.ts:47-52 | a fully installed list invokes nothing |
| Dependencies.InstallAsksForMissing | cli/src/utils/dependencies.ts:40-58 | every new run uses the detected manager and subcommand and passes exactly the unrecorded requested packages, in request order |
| Dependencies.InstallDependencies | cli/src/utils/dependencies.ts:40-65 | the method equals `InstallDependenciesSpec` |
| Dependencies.InstallUtilsDependencies | cli/src/utils/dependencies.ts:67-70 | installs `clsx` and `tailwind-merge` in the same way |
| Dependencies.UnscopedPackageName | cli/src/utils/dependencies.ts:83-85 | an unscoped name followed by a subpath gives that name |
| Dependencies.ScopedPackageName | cli/src/utils/dependencies.ts:83-84 | `@scope/pkg` followed by a subpath gives `@scope/pkg` |
| Dependencies.PackageNameIsPrefix | cli/src/utils/dependencies.ts:83-85 | a package name is a prefix of its specifier |
| Dependencies.BareNames | cli/src/utils/dependencies.ts:78-90 | exactly the package names of specifiers that start with neither `.` nor `@/` |
| Dependencies.ParseImportsFromContent | cli/src/utils/dependencies.ts:72-94 | the loop yields those names once each, in first-occurrence order |
| Dependencies.RecordedOf | cli/src/utils/dependencies.ts:101-109 | exactly the requested packages with a recorded version; an empty manifest records none |
| Dependencies.ConflictsOf | cli/src/utils/dependencies.ts:108-117 | every conflict names a recorded package whose version contains neither `^` nor `~` |
| Dependencies.WarningsOf | cli/src/utils/dependencies.ts:108-117 | every warning names a recorded package whose version contains `^` or `~` |
| Dependencies.OneMessagePerRecorded | cli/src/utils/dependencies.ts:108-118 | there are exactly as many messages as recorded requested packages |
| Dependencies.RecordedAreReported | cli/src/utils/dependencies.ts:108-118 | each recorded requested package gets its warning when its version floats and its conflict otherwise |
| Dependencies.CheckDependencyConflicts | cli/src/utils/dependencies.ts:96-121 | a missing package.json gives two empty lists; otherwise the loop gives the conflicts and warnings above, one message per recorded package |
| Css.GetComponentCssRequirements | cli/src/utils/css.ts:10-35 | only `LiquidButton` (two entries) and `IconButton` (three entries) need variables; keyframes and classes are never needed; every other name needs nothing |
| Css.FirstExisting | cli/src/utils/css.ts:37-53 | the first existing path of the list, or `None` exactly when none exists |
| Css.GlobalCssFile | cli/src/utils/css.ts:37-53 | an existing path among the five candidates, `None` exactly when none exists |
| Css.FindGlobalCssFile | cli/src/utils/css.ts:37-53 | the loop with early return finds the first existing candidate |
| Css.CandidatesAreStylesheets | cli/src/utils/css.ts:38-44 | no candidate stylesheet is a component file |
| Css.VariableLines | cli/src/utils/css.ts:76-80 | one `  key: value;` line per entry, in table order |
| Css.VariableBlockMentions | cli/src/utils/css.ts:76-80 | the variable block mentions every variable it declares |
| Css.Injection | cli/src/utils/css.ts:71-125 | something is added exactly when some present part is absent from the sheet; a part with any one of its keys in the sheet is skipped |
| Css.InjectRequirementSpec | cli/src/utils/css.ts:55-135 | an empty requirement or no stylesheet gives false with nothing written; a stylesheet location that is a directory gives the read error; a readable stylesheet gives true exactly when the injection adds something, and the write replaces it with its old text followed by the injection; anything but true changes nothing |
| Css.InjectSpec | cli/src/utils/css.ts:55-135 | anything but true changes nothing; only `LiquidButton` and `IconButton` can give true; there is no read error when no stylesheet location is a directory |
| Css.InjectLiquidButton | cli/src/utils/css.ts:10-135 | `LiquidButton` on a readable stylesheet mentioning neither `--liquid-color` nor `--liquid-bg` returns true and appends its `:root` block |
| Css.InjectAppendOnly | cli/src/utils/css.ts:128-129 | the new stylesheet starts with the old text; no other file or directory changes; nothing is fetched or run |
| Css.InjectVariablesTwice | cli/src/utils/css.ts:76-134 | after injecting a variable block, a second injection of it changes nothing and returns false |
| Css.InjectTwiceChangesNothing | cli/src/utils/css.ts:55-134 | a second `injectCSS` for the same component right after a successful one changes nothing and returns false |
| Css.InjectFetchesNothing | cli/src/utils/css.ts:55-135 | injection fetches nothing and runs nothing |
| Css.InjectNothingRequired | cli/src/utils/css.ts:59-61 | a component other than the two changes nothing and returns false |
| Css.BuildInjection | cli/src/utils/css.ts:71-125 | the accumulation loop computes `Injection`, and changes only for a non-empty requirement |
| Css.InjectCss | cli/src/utils/css.ts:55-135 | the method equals the injection step function |
| Css.BlockMatch | cli/src/utils/css.ts:153-159 | a match starts at an occurrence of the marker and ends at the first `}` after it |
| Css.StripMarkerBlocks | cli/src/utils/css.ts:153-159 | a sheet without the marker is unchanged |
| Css.StripSingleBlock | cli/src/utils/css.ts:153-159 | deleting the one marked block of a sheet leaves exactly the text before the marker |
| Css.StripInjectedBlock | cli/src/utils/css.ts:76-159 | removal undoes injection: stripping the variable block just appended restores the old sheet and a newline |
| Css.RemoveCssSpec | cli/src/utils/css.ts:137-168 | it returns true exactly when the component needs CSS, a stylesheet file exists and contains the marker; it then writes the stripped sheet; the read error happens exactly when the component needs CSS and the stylesheet found is a directory; otherwise nothing changes |
| Css.RemoveComponentCss | cli/src/utils/css.ts:137-168 | the method equals `RemoveCssSpec` |
| Init.DetectProjectType | cli/src/commands/init.ts:56-73 | `Next.js` exactly when `next` is recorded; `React` exactly when only `react` is; `Unknown` otherwise, including without package.json |
| Init.ProjectTypeOnlyReadsNextAndReact | cli/src/commands/init.ts:56-73 | manifests that agree on `next` and `react` get the same type |
| Init.EscapeChar | cli/src/commands/init.ts:36 | a character is written as itself exactly when JSON needs no escape for it; every escape starts with a backslash |
| Init.JsonEscapePlain | cli/src/commands/init.ts:36 | a string without quotes, backslashes or control characters is written unchanged |
| Init.ParseEscaped | cli/src/commands/init.ts:36 | reading a written string back gives the string and the rest of the text |
| Init.QuotedPairRoundTrip | cli/src/commands/init.ts:30-36 | both strings written into the layout are read back |
| Init.ConfigRecordsAliases | cli/src/commands/init.ts:30-36 | the written components.json records exactly the aliases it was made from |
| Init.ConfigJsonInjective | cli/src/commands/init.ts:30-36 | different aliases give different files |
| Init.CreateComponentsConfigSpec | cli/src/commands/init.ts:10-37 | an existing components.json is kept; otherwise it is written; no existing file changes |
| Init.CreateComponentsConfig | cli/src/commands/init.ts:10-37 | the method equals `CreateComponentsConfigSpec` |
| Init.CreateAkUiRegistrySpec | cli/src/commands/init.ts:39-54 | an existing ak-ui.json, or a failed registry load, changes nothing; otherwise the snapshot is written; no existing file changes |
| Init.CreateAkUiRegistry | cli/src/commands/init.ts:39-54 | the method equals `CreateAkUiRegistrySpec` |
| Init.StepsSpec | cli/src/commands/init.ts:91-101 | success leaves a utils file declaring `cn`; failure leaves the disk unchanged; no file but the utils file changes; nothing is fetched; the steps succeed when every package-manager run does |
| Init.InitSpec | cli/src/commands/init.ts:77-118 | a completed run reports the detected project type, package manager and components directory; it completes when every package-manager run succeeds |
| Init.SetUpSpec | cli/src/commands/init.ts:95-101 | the steps after the install leave a utils file declaring `cn` and keep every other file |
| Init.InitKeeps | cli/src/commands/init.ts:81-101 | after components.json every file except the utils file keeps its text to the end |
| Init.InitNeverOverwrites | cli/src/commands/init.ts:13-45 | an existing components.json or ak-ui.json keeps its text |
| Init.InitConfigRecordsAliases | cli/src/commands/init.ts:30-89 | a fresh run leaves a components.json recording the detected aliases |
| Init.InitProvidesCn | cli/src/commands/init.ts:95-108 | a completed run reports the utils path, and the file there declares `cn`; nothing is fetched |
| Init.RegistryFailureOnlyWarns | cli/src/commands/init.ts:47-53 | a failed registry load gives the same outcome as a successful one |
| Init.RegistryFailureWritesNoSnapshot | cli/src/commands/init.ts:47-53 | a failed registry load writes no ak-ui.json |
| Init.FailedInstallStops | cli/src/commands/init.ts:91-117 | a failed utility install leaves the disk as components.json left it |
| Init.InitOrder | cli/src/commands/init.ts:87-101 | a fresh run writes components.json, runs the package manager, writes the utils file and then ak-ui.json, in this order |
| Init.Init | cli/src/commands/init.ts:77-118 | the method equals the `init` step function |
| List.Categories | cli/src/commands/list.ts:27 | each category of the registry exactly once |
| List.CategoriesInFirstAppearanceOrder | cli/src/commands/list.ts:27 | the categories come in the order the registry first mentions them |
| List.InCategory | cli/src/commands/list.ts:31-33 | exactly the entries with that exact category, each as often as in the registry, in registry order |
| List.GroupsAreByCategory | cli/src/commands/list.ts:27-39 | each group holds exactly its category's entries in registry order; categories are distinct; every entry's category has a group |
| List.GroupsPartitionRegistry | cli/src/commands/list.ts:27-39 | together the groups list every entry exactly as often as the registry does |
| List.ExitCode | cli/src/commands/list.ts:44-47 | exit code 1 exactly for a failed load |
| List.ListCommand | cli/src/commands/list.ts:10-47 | a failed load is an error; without a (non-empty) category the catalogue is listed |
| List.CategoryFilterIgnoresCase | cli/src/commands/list.ts:12-24 | with a category, the listing is exactly the entries matching it ignoring case; it is empty exactly when none matches, and the exit code is 0 |
| List.CategorySpellingsAgree | cli/src/commands/list.ts:13 | spellings that differ only in case list the same components |
| List.CatalogListsEverything | cli/src/commands/list.ts:27-47 | the catalogue lists every entry once per occurrence; a failed load exits with 1 |
| StarsWheel.GenerateRange | src/components/ui/custom/stars-scrolling-wheel.tsx:110-121 | the loop builds the countdown from `max + sideItemsCount * step` |
| StarsWheel.CountdownShape | src/components/ui/custom/stars-scrolling-wheel.tsx:115-120 | element `i` is `end - i * step`; there are `end / step + 1` of them for `end >= 0`, none otherwise |
| StarsWheel.CountdownBounds | src/components/ui/custom/stars-scrolling-wheel.tsx:116-118 | every element is at least 0; consecutive elements differ by `step`, so the sequence strictly decreases; it starts at `end` and ends below `step` |
| StarsWheel.RangeLength | src/components/ui/custom/stars-scrolling-wheel.tsx:110-166 | the range has `max / step + sideItemsCount + 1` items, so the wheel scrolls to `itemHeight * (max / step - sideItemsCount)` |
| StarsWheel.NegativeStartIsEmpty | src/components/ui/custom/stars-scrolling-wheel.tsx:115-120 | a start below 0 gives an empty range |

## Left out

- Registry loading (cli/src/utils/registry.ts:41-61) is local-file and network I/O. The registry is a given sequence, or `None` for a failed load.
- Every registry lookup reloads the registry: `ak-ui list` loads it once for the category and once for the catalogue, `add` once for the component and once more for each internal dependency (cli/src/commands/add.ts:50), and `remove` once (cli/src/commands/remove.ts:20). The model uses one registry for the whole run, so a load that fails part-way through `add`, after files were written, is not modelled.
- Downloading a component (cli/src/utils/files.ts:80-104) reads a local checkout or GitHub. Both are collapsed into one `sources` map keyed by the path with `@/` removed. Component text is an opaque string.
- Running the package manager (`execa`, cli/src/utils/dependencies.ts:58) is an external process. Its verdict is the parameter `pmOk`, and only the invocation is modelled.
  - package.json stays as it was for the whole run; the package manager's own edits to it are not modelled.
- `installPeerDependencies` (cli/src/utils/dependencies.ts:123-140) parses a process's stdout as JSON, so it is not modelled.
- The import-scanning regular expression (cli/src/utils/dependencies.ts:74-77) is not modelled. `ParseImportsFromContent` starts from the already extracted list of specifiers.
- `convertToJavaScript` (cli/src/utils/files.ts:142-154) is a set of regex heuristics without a stated contract, so it is not modelled.
- Prompts, spinners and coloured output are not modelled. The confirmation answer is a `bool`, and each printed summary is an outcome value.
  - The commander wiring in cli/src/index.ts is not part of this model.
- Errors thrown by `fs` calls and by JSON parsing are not modelled. A malformed package.json is treated like a well-formed one.
  - The failures modelled inside `add` are a missing component source, a failed package-manager run, and a stylesheet location that is a directory, which makes reading the stylesheet fail. Each ends in `Failed`, exit code 1. The same read error ends `remove` in `Failed`.
- Case folding is ASCII only. JavaScript's `toLowerCase` and `toUpperCase` also map non-ASCII letters.
- Paths are joined with `/` and never normalised. The cwd prefix of `path.join(process.cwd(), …)` is left out, so paths are relative to the project root.
- `Init.JsonEscape`: lone UTF-16 surrogates, which `JSON.stringify` writes as `\u` escapes, cannot occur in a Dafny `char` string. The registry snapshot written to ak-ui.json is opaque text.
- Keyframes and custom classes are modelled in `Css.Injection`. No component requires them, so no lemma is stated about their blocks beyond the presence check.
- Files.TransformImports: the alias is inserted literally. JavaScript's `String.replace` gives `$&`, `$1` and `$$` in a replacement string a special meaning, and an alias holding them would be expanded.
  - The rewrite itself is stated (`TransformUtilsImport`, `TransformComponentsImport`) for a text holding one alias import and no other `@`; texts with several imports are covered only by the unchanged cases.
- `Files.HandleMultiFileComponent` is modelled on its own; the `add` action does not call it.
- `Registry.GetComponentDependencies` states only that the field is passed through; the function does nothing more.
- `Add.ConflictReport` states only the bound on the number of messages. Exactly which message each package gets is stated on `Dependencies.CheckDependencyConflicts` and `Dependencies.RecordedAreReported`.
- `Add.FinishSpec` states the reported names and when it completes. Its fetches, files and npm report are stated by `FinishFetchesNothing`, `FinishKeepsComponents` and `NoNpmPackagesNoReport`.
- `Remove.DeleteSpec` states the possible outcomes, the target's removal and when it ends in `Removed`. Its other effects are stated by `DeleteFrame` and `DirRemovedOnlyWhenEmpty`.
- `Css.StripMarkerBlocks` states only the unchanged case. Exact removal is stated by `StripSingleBlock` and `StripInjectedBlock` for stylesheets carrying one block.
- `StarsWheel.GenerateRange` works over integers, while the source's numbers are floating point.
  - The model requires `step > 0` whenever the start is at least 0. Otherwise the source's loop never ends.
  - The loop is a `while` loop, because Dafny's `for` loop steps only by one.
  - The rest of the wheel, its animation, the float completion threshold and the number formatting, is not part of this model.
- The add/remove path disagreement is stated as lemmas (`Remove.DisagreeForOtherCategories`, `Remove.DisagreeForSrcLayout`) instead of being corrected. The model reproduces both path rules as written.
