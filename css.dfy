/** cli/src/utils/css.ts: the per-component stylesheet requirements, the search for the global
    stylesheet, the append-only injection and the marker-delimited removal. */
module Css {
  import opened Wrappers
  import opened Text
  import opened Fs

  /** One object literal (`Record<string, string>`), its entries in insertion order. */
  type Entries = seq<(string, string)>

  datatype CssRequirement = CssRequirement(
    variables: Option<Entries>,
    keyframes: Option<Entries>,
    customClasses: Option<Entries>)

  predicate IsEmptyRequirement(req: CssRequirement) {
    req.variables.None? && req.keyframes.None? && req.customClasses.None?
  }

  const LiquidButtonVariables: Entries := [("--liquid-color", "rgb(59 130 246)"), ("--liquid-bg", "rgb(239 246 255)")]

  const IconButtonVariables: Entries := [("--icon-color-r", "59"), ("--icon-color-g", "130"), ("--icon-color-b", "246")]

  /** `getComponentCSSRequirements`: only two components need stylesheet variables. */
  function GetComponentCssRequirements(name: string): (r: CssRequirement)
    ensures r.keyframes.None? && r.customClasses.None?
    ensures name == "LiquidButton" ==> r.variables == Some(LiquidButtonVariables)
    ensures name == "IconButton" ==> r.variables == Some(IconButtonVariables)
    ensures IsEmptyRequirement(r) <==> name != "LiquidButton" && name != "IconButton"
  {
    match name
    case "LiquidButton" => CssRequirement(Some(LiquidButtonVariables), None, None)
    case "IconButton" => CssRequirement(Some(IconButtonVariables), None, None)
    case _ => CssRequirement(None, None, None)
  }

  /** The stylesheet locations `findGlobalCSSFile` tries, in order. */
  const CssCandidates: seq<string> :=
    ["src/app/globals.css", "src/styles/globals.css", "styles/globals.css", "src/index.css", "src/App.css"]

  function FirstExisting(disk: Disk, paths: seq<string>): (r: Option<string>)
    ensures r.Some? ==> r.value in paths && Exists(disk, r.value)
    ensures r.None? <==> forall p :: p in paths ==> !Exists(disk, p)
    ensures r.Some? ==> exists i :: 0 <= i < |paths| && paths[i] == r.value &&
                                   (forall j :: 0 <= j < i ==> !Exists(disk, paths[j]))
    decreases |paths|
  {
    if paths == [] then None
    else if Exists(disk, paths[0]) then Some(paths[0])
    else
      var r := FirstExisting(disk, paths[1..]);
      assert r.Some? ==> exists i :: 0 <= i < |paths| && paths[i] == r.value &&
                                     (forall j :: 0 <= j < i ==> !Exists(disk, paths[j])) by {
        if r.Some? {
          var i :| 0 <= i < |paths[1..]| && paths[1..][i] == r.value &&
                   (forall j :: 0 <= j < i ==> !Exists(disk, paths[1..][j]));
          assert forall j :: 0 <= j < i + 1 ==> !Exists(disk, paths[j]) by {
            forall j | 0 <= j < i + 1 ensures !Exists(disk, paths[j]) {
              if j > 0 {
                assert paths[j] == paths[1..][j - 1];
              }
            }
          }
        }
      }
      r
  }

  /** The stylesheet the CLI edits: the first candidate that exists. */
  function GlobalCssFile(disk: Disk): (r: Option<string>)
    ensures r.Some? ==> r.value in CssCandidates && Exists(disk, r.value)
    ensures r.None? <==> forall p :: p in CssCandidates ==> !Exists(disk, p)
  {
    FirstExisting(disk, CssCandidates)
  }

  /** No candidate location is a directory, so the stylesheet found, if any, can be read. */
  predicate CssNotADirectory(disk: Disk) {
    forall p :: p in CssCandidates ==> p !in disk.dirs
  }

  /** `findGlobalCSSFile`: a loop over the candidates with an early return. */
  method FindGlobalCssFile(ws: Workspace) returns (r: Option<string>)
    ensures r == GlobalCssFile(ws.State().disk)
  {
    var disk := Disk(ws.files, ws.dirs);
    var paths := CssCandidates;
    for i := 0 to |paths|
      invariant FirstExisting(disk, paths) == FirstExisting(disk, paths[i..])
    {
      FirstExistingStep(disk, paths, i);
      if paths[i] in ws.files || paths[i] in ws.dirs {
        return Some(paths[i]);
      }
    }
    return None;
  }

  /** One step of the search: the candidate at `i` if it exists, the rest of the list otherwise. */
  lemma FirstExistingStep(disk: Disk, paths: seq<string>, i: nat)
    requires i < |paths|
    ensures FirstExisting(disk, paths[i..]) ==
            if Exists(disk, paths[i]) then Some(paths[i]) else FirstExisting(disk, paths[i + 1..])
  {
    assert paths[i..][0] == paths[i];
    assert paths[i..][1..] == paths[i + 1..];
  }

  /** No candidate ends in `.tsx`, so injection never writes over a component file. */
  lemma CandidatesAreStylesheets(p: string)
    requires p in CssCandidates
    ensures !EndsWith(p, ".tsx")
  {
  }

  // ---------------------------------------------------------------- building the blocks

  function VariableLines(vars: Entries): (r: seq<string>)
    ensures |r| == |vars|
    ensures forall i :: 0 <= i < |vars| ==> r[i] == "  " + vars[i].0 + ": " + vars[i].1 + ";"
  {
    seq(|vars|, i requires 0 <= i < |vars| => "  " + vars[i].0 + ": " + vars[i].1 + ";")
  }

  function Marker(name: string): string {
    "/* " + name + " CSS Variables */"
  }

  /** The `:root` block for a component's variables, one `  key: value;` line per entry. */
  function VariableBlock(name: string, vars: Entries): string {
    "\n" + Marker(name) + "\n:root {\n" + Join(VariableLines(vars), "\n") + "\n}\n"
  }

  function KeyframeBlocks(frames: Entries): string {
    Join(seq(|frames|, i requires 0 <= i < |frames| => "\n@keyframes " + frames[i].0 + " {\n" + frames[i].1 + "\n}"), "\n")
  }

  function ClassBlocks(classes: Entries): string {
    Join(seq(|classes|, i requires 0 <= i < |classes| => "\n" + classes[i].0 + " {\n" + classes[i].1 + "\n}"), "\n")
  }

  /** `Object.keys(entries).some(key => css.includes(prefix + key))`. */
  predicate AnyKeyOccurs(css: string, prefix: string, entries: Entries) {
    exists i | 0 <= i < |entries| :: Contains(css, prefix + entries[i].0)
  }

  /** What each present field adds: `None` when the field is absent or already (partly) present. */
  function VariablesPart(name: string, req: CssRequirement, css: string): Option<string> {
    match req.variables
    case None => None
    case Some(vars) => if AnyKeyOccurs(css, "", vars) then None else Some(VariableBlock(name, vars))
  }

  function KeyframesPart(req: CssRequirement, css: string): Option<string> {
    match req.keyframes
    case None => None
    case Some(frames) => if AnyKeyOccurs(css, "@keyframes ", frames) then None else Some(KeyframeBlocks(frames))
  }

  function ClassesPart(req: CssRequirement, css: string): Option<string> {
    match req.customClasses
    case None => None
    case Some(classes) => if AnyKeyOccurs(css, "", classes) then None else Some(ClassBlocks(classes))
  }

  function OrNothing(part: Option<string>): string {
    if part.Some? then part.value else ""
  }

  /** The text appended to the stylesheet, and whether anything changed (`hasChanges`). */
  function Injection(name: string, req: CssRequirement, css: string): (r: (string, bool))
    ensures r.1 <==> VariablesPart(name, req, css).Some? || KeyframesPart(req, css).Some? || ClassesPart(req, css).Some?
  {
    var text := OrNothing(VariablesPart(name, req, css)) + OrNothing(KeyframesPart(req, css)) + OrNothing(ClassesPart(req, css));
    (text, VariablesPart(name, req, css).Some? || KeyframesPart(req, css).Some? || ClassesPart(req, css).Some?)
  }

  /** The body of `injectCSS` for a given requirement: `Some(b)` is its return value, `None` the read
      error of a stylesheet path that is a directory. */
  function InjectRequirementSpec(w: World, name: string, req: CssRequirement): (r: (World, Option<bool>))
    ensures r.1 != Some(true) ==> r.0 == w
    ensures IsEmptyRequirement(req) ==> r == (w, Some(false))
    ensures GlobalCssFile(w.disk).None? ==> r == (w, Some(false))
    ensures r.1 == Some(true) ==> var p := GlobalCssFile(w.disk).value;
      && p in w.disk.files
      && r.0 == Write(w, p, w.disk.files[p] + Injection(name, req, w.disk.files[p]).0)
    ensures !IsEmptyRequirement(req) && GlobalCssFile(w.disk).Some? ==> var p := GlobalCssFile(w.disk).value;
      && (p !in w.disk.files ==> r == (w, None))
      && (p in w.disk.files ==> r.1 == Some(Injection(name, req, w.disk.files[p]).1))
    ensures CssNotADirectory(w.disk) ==> r.1.Some?
  {
    if IsEmptyRequirement(req) then (w, Some(false))
    else match GlobalCssFile(w.disk)
      case None => (w, Some(false))
      case Some(p) =>
        if p !in w.disk.files then (w, None)
        else
          var css := w.disk.files[p];
          var inj := Injection(name, req, css);
          if inj.1 then (Write(w, p, css + inj.0), Some(true)) else (w, Some(false))
  }

  /** `injectCSS(name)`. */
  function InjectSpec(w: World, name: string): (r: (World, Option<bool>))
    ensures r.1 != Some(true) ==> r.0 == w
    ensures r.1 == Some(true) ==> name == "LiquidButton" || name == "IconButton"
    ensures CssNotADirectory(w.disk) ==> r.1.Some?
  {
    InjectRequirementSpec(w, name, GetComponentCssRequirements(name))
  }

  /** `LiquidButton` on a stylesheet that mentions neither of its variables gets its `:root` block
      appended. */
  lemma InjectLiquidButton(w: World)
    requires GlobalCssFile(w.disk).Some? && GlobalCssFile(w.disk).value in w.disk.files
    requires var css := w.disk.files[GlobalCssFile(w.disk).value];
      !Contains(css, "--liquid-color") && !Contains(css, "--liquid-bg")
    ensures var p := GlobalCssFile(w.disk).value;
      InjectSpec(w, "LiquidButton") ==
        (Write(w, p, w.disk.files[p] + VariableBlock("LiquidButton", LiquidButtonVariables)), Some(true))
  {
    var p := GlobalCssFile(w.disk).value;
    var css := w.disk.files[p];
    var vars := LiquidButtonVariables;
    var req := CssRequirement(Some(vars), None, None);
    assert req == GetComponentCssRequirements("LiquidButton");
    forall i | 0 <= i < |vars| ensures !Contains(css, "" + vars[i].0) {
      if i == 0 {
        assert "" + vars[i].0 == "--liquid-color";
      } else {
        assert "" + vars[i].0 == "--liquid-bg";
      }
    }
    var block := VariableBlock("LiquidButton", vars);
    assert VariablesPart("LiquidButton", req, css) == Some(block);
    assert Injection("LiquidButton", req, css) == (block + "" + "", true);
    assert block + "" + "" == block;
  }

  /** Injection is append-only and touches nothing but the stylesheet. */
  lemma InjectAppendOnly(w: World, name: string, k: string)
    requires InjectSpec(w, name).1 == Some(true)
    ensures var r := InjectSpec(w, name).0;
      var p := GlobalCssFile(w.disk).value;
      && StartsWith(r.disk.files[p], w.disk.files[p])
      && (k != p ==> (k in r.disk.files <==> k in w.disk.files))
      && (k != p && k in w.disk.files ==> r.disk.files[k] == w.disk.files[k])
      && r.disk.dirs == w.disk.dirs
      && Fetches(r.trace) == Fetches(w.trace) && Runs(r.trace) == Runs(w.trace)
  {
    var p := GlobalCssFile(w.disk).value;
    var css := w.disk.files[p];
    var t := Injection(name, GetComponentCssRequirements(name), css).0;
    assert (css + t)[..|css|] == css;
  }

  /** Every piece occurs in the joined text. */
  lemma {:induction false} JoinContains(parts: seq<string>, d: string, i: nat)
    requires i < |parts|
    ensures Contains(Join(parts, d), parts[i])
    decreases |parts|
  {
    if |parts| == 1 {
      assert Join(parts, d) == parts[0];
      assert parts[0][0..|parts[0]|] == parts[0];
      assert OccursAt(parts[0], parts[0], 0);
    } else {
      var head := parts[0];
      var j := Join(parts[1..], d);
      assert Join(parts, d) == head + d + j;
      if i == 0 {
        ContainsMiddle("", head, d + j);
        assert "" + head + (d + j) == head + d + j;
      } else {
        JoinContains(parts[1..], d, i - 1);
        assert parts[1..][i - 1] == parts[i];
        ContainsSuffix(head + d, j, parts[i]);
      }
    }
  }

  /** Containment is transitive. */
  lemma ContainsIn(s: string, mid: string, sub: string)
    requires Contains(s, mid) && Contains(mid, sub)
    ensures Contains(s, sub)
  {
    var i :| 0 <= i <= |s| && OccursAt(s, mid, i);
    var j :| 0 <= j <= |mid| && OccursAt(mid, sub, j);
    forall k | 0 <= k < |sub| ensures s[i + j + k] == sub[k] {
      assert mid[j + k] == sub[k];
      assert s[i + (j + k)] == mid[j + k];
    }
    assert s[i + j..i + j + |sub|] == sub;
    assert OccursAt(s, sub, i + j);
  }

  /** The variable block mentions every one of its variable names. */
  lemma VariableBlockMentions(name: string, vars: Entries, i: nat)
    requires i < |vars|
    ensures Contains(VariableBlock(name, vars), vars[i].0)
  {
    var lines := VariableLines(vars);
    var body := Join(lines, "\n");
    var head := "\n" + Marker(name) + "\n:root {\n";
    var key := vars[i].0;
    var rest := ": " + vars[i].1 + ";";
    assert lines[i] == "  " + key + rest;
    ContainsMiddle("  ", key, rest);
    JoinContains(lines, "\n", i);
    ContainsIn(body, lines[i], key);
    ContainsMiddle(head, body, "\n}\n");
    assert VariableBlock(name, vars) == head + body + "\n}\n";
    ContainsIn(VariableBlock(name, vars), body, key);
  }

  lemma {:induction false} FirstExistingSameEntries(d1: Disk, d2: Disk, paths: seq<string>)
    requires forall q :: Exists(d1, q) <==> Exists(d2, q)
    ensures FirstExisting(d1, paths) == FirstExisting(d2, paths)
    decreases |paths|
  {
    if paths != [] {
      FirstExistingSameEntries(d1, d2, paths[1..]);
    }
  }

  /** For a requirement made of variables only, an injection that changed the stylesheet makes a
      second one a no-op: the block it appended mentions the first variable. */
  lemma InjectVariablesTwice(w: World, name: string, vars: Entries)
    requires |vars| > 0
    requires InjectRequirementSpec(w, name, CssRequirement(Some(vars), None, None)).1 == Some(true)
    ensures var req := CssRequirement(Some(vars), None, None);
      var w' := InjectRequirementSpec(w, name, req).0;
      InjectRequirementSpec(w', name, req) == (w', Some(false))
  {
    var req := CssRequirement(Some(vars), None, None);
    var p := GlobalCssFile(w.disk).value;
    var css := w.disk.files[p];
    var w' := InjectRequirementSpec(w, name, req).0;
    var block := VariableBlock(name, vars);
    assert Injection(name, req, css).0 == block + "" + "";
    assert w'.disk.files[p] == css + block;
    FirstExistingSameEntries(w'.disk, w.disk, CssCandidates);
    VariableBlockMentions(name, vars, 0);
    ContainsSuffix(css, block, vars[0].0);
    assert "" + vars[0].0 == vars[0].0;
    assert AnyKeyOccurs(css + block, "", vars);
  }

  /** `injectCSS` right after a successful `injectCSS` for the same component changes nothing. */
  lemma InjectTwiceChangesNothing(w: World, name: string)
    requires InjectSpec(w, name).1 == Some(true)
    ensures var w' := InjectSpec(w, name).0;
      InjectSpec(w', name) == (w', Some(false))
  {
    if name == "LiquidButton" {
      InjectVariablesTwice(w, name, LiquidButtonVariables);
    } else if name == "IconButton" {
      InjectVariablesTwice(w, name, IconButtonVariables);
    }
  }

  /** Injection fetches nothing and runs nothing. */
  lemma InjectFetchesNothing(w: World, name: string)
    ensures Fetches(InjectSpec(w, name).0.trace) == Fetches(w.trace)
    ensures Runs(InjectSpec(w, name).0.trace) == Runs(w.trace)
  {
  }

  /** A component the table has nothing for never touches the stylesheet. */
  lemma InjectNothingRequired(w: World, name: string)
    requires name != "LiquidButton" && name != "IconButton"
    ensures InjectSpec(w, name) == (w, Some(false))
  {
  }

  /** The accumulation of `injectedContent` and `hasChanges` in `injectCSS`, field by field. */
  method BuildInjection(name: string, req: CssRequirement, cssContent: string)
    returns (injectedContent: string, hasChanges: bool)
    ensures (injectedContent, hasChanges) == Injection(name, req, cssContent)
    ensures hasChanges ==> !IsEmptyRequirement(req)
  {
    injectedContent := "";
    hasChanges := false;
    if req.variables.Some? {
      var variableBlock := VariableBlock(name, req.variables.value);
      var hasExistingVars := AnyKeyOccurs(cssContent, "", req.variables.value);
      if !hasExistingVars {
        injectedContent := injectedContent + variableBlock;
        hasChanges := true;
      }
    }
    assert injectedContent == OrNothing(VariablesPart(name, req, cssContent));
    ghost var afterVariables := injectedContent;
    if req.keyframes.Some? {
      var keyframeBlocks := KeyframeBlocks(req.keyframes.value);
      var hasExistingKeyframes := AnyKeyOccurs(cssContent, "@keyframes ", req.keyframes.value);
      if !hasExistingKeyframes {
        injectedContent := injectedContent + keyframeBlocks;
        hasChanges := true;
      }
    }
    assert injectedContent == afterVariables + OrNothing(KeyframesPart(req, cssContent));
    ghost var afterKeyframes := injectedContent;
    if req.customClasses.Some? {
      var classBlocks := ClassBlocks(req.customClasses.value);
      var hasExistingClasses := AnyKeyOccurs(cssContent, "", req.customClasses.value);
      if !hasExistingClasses {
        injectedContent := injectedContent + classBlocks;
        hasChanges := true;
      }
    }
    assert injectedContent == afterKeyframes + OrNothing(ClassesPart(req, cssContent));
  }

  /** The body of `injectCSS` for a given requirement. */
  method InjectRequirement(ws: Workspace, name: string, req: CssRequirement) returns (result: Option<bool>)
    modifies ws
    ensures (ws.State(), result) == InjectRequirementSpec(old(ws.State()), name, req)
  {
    if req.variables.None? && req.keyframes.None? && req.customClasses.None? {
      return Some(false);
    }
    var globalCssPath := FindGlobalCssFile(ws);
    if globalCssPath.None? {
      return Some(false);
    }
    var p := globalCssPath.value;
    if p !in ws.files {
      return None;
    }
    var cssContent := ws.files[p];
    var injectedContent, hasChanges := BuildInjection(name, req, cssContent);
    if hasChanges {
      ws.WriteFile(p, cssContent + injectedContent);
      return Some(true);
    }
    return Some(false);
  }

  /** `injectCSS`. */
  method InjectCss(ws: Workspace, name: string) returns (result: Option<bool>)
    modifies ws
    ensures (ws.State(), result) == InjectSpec(old(ws.State()), name)
  {
    result := InjectRequirement(ws, name, GetComponentCssRequirements(name));
  }

  // ---------------------------------------------------------------- removal

  lemma FirstCharIndex(t: string, c: char, k: nat)
    requires IndexOf(t, [c]) == Some(k)
    ensures k < |t| && t[k] == c && c !in t[..k]
  {
    forall i | 0 <= i < k ensures t[i] != c {
      assert !OccursAt(t, [c], i);
      assert t[i..i + 1] == [t[i]];
    }
    assert t[k..k + 1] == [c];
  }

  /** The next match of `<marker>[\s\S]*?\}` at or after the start of `s`: where it starts and
      the index just past its '}'. An occurrence of the marker with no '}' after it matches nothing,
      and then neither can any later one. */
  function BlockMatch(s: string, marker: string): (r: Option<(nat, nat)>)
    requires |marker| > 0
    ensures r.Some? ==> r.value.0 + |marker| < r.value.1 <= |s| && OccursAt(s, marker, r.value.0)
    ensures r.Some? ==> s[r.value.1 - 1] == '}' && '}' !in s[r.value.0 + |marker|..r.value.1 - 1]
    ensures !Contains(s, marker) ==> r.None?
  {
    match IndexOf(s, marker)
    case None => None
    case Some(j) =>
      match IndexOf(s[j + |marker|..], "}")
      case None => None
      case Some(k) =>
        FirstCharIndex(s[j + |marker|..], '}', k);
        assert s[j + |marker|..][..k] == s[j + |marker|..j + |marker| + k];
        Some((j, j + |marker| + k + 1))
  }

  /** `css.replace(/<marker>[\s\S]*?\}\s*` + `/g, '')`: every match, left to right, together with
      the white space that follows it, is deleted. */
  function StripMarkerBlocks(s: string, marker: string): (r: string)
    requires |marker| > 0
    ensures !Contains(s, marker) ==> r == s
    decreases |s|
  {
    match BlockMatch(s, marker)
    case None => s
    case Some((j, e)) => s[..j] + StripMarkerBlocks(TrimStartSpaces(s[e..]), marker)
  }

  /** `removeComponentCSS`: `Some(b)` is its return value, `None` the read error of a directory. */
  function RemoveCssSpec(w: World, name: string): (r: (World, Option<bool>))
    ensures r.1 != Some(true) ==> r.0 == w
    ensures r.1 == Some(true) <==>
      && !IsEmptyRequirement(GetComponentCssRequirements(name))
      && GlobalCssFile(w.disk).Some?
      && GlobalCssFile(w.disk).value in w.disk.files
      && Contains(w.disk.files[GlobalCssFile(w.disk).value], Marker(name))
    ensures r.1 == Some(true) ==> var p := GlobalCssFile(w.disk).value;
      r.0 == Write(w, p, StripMarkerBlocks(w.disk.files[p], Marker(name)))
    ensures r.1.None? <==>
      && !IsEmptyRequirement(GetComponentCssRequirements(name))
      && GlobalCssFile(w.disk).Some?
      && GlobalCssFile(w.disk).value !in w.disk.files
    ensures CssNotADirectory(w.disk) ==> r.1.Some?
  {
    var req := GetComponentCssRequirements(name);
    if IsEmptyRequirement(req) then (w, Some(false))
    else match GlobalCssFile(w.disk)
      case None => (w, Some(false))
      case Some(p) =>
        if p !in w.disk.files then (w, None)
        else
          var css := w.disk.files[p];
          if Contains(css, Marker(name)) then (Write(w, p, StripMarkerBlocks(css, Marker(name))), Some(true))
          else (w, Some(false))
  }

  method RemoveComponentCss(ws: Workspace, name: string) returns (result: Option<bool>)
    modifies ws
    ensures (ws.State(), result) == RemoveCssSpec(old(ws.State()), name)
  {
    var req := GetComponentCssRequirements(name);
    if req.variables.None? && req.keyframes.None? && req.customClasses.None? {
      return Some(false);
    }
    var globalCssPath := FindGlobalCssFile(ws);
    if globalCssPath.None? {
      return Some(false);
    }
    var p := globalCssPath.value;
    if p !in ws.files {
      return None;
    }
    var cssContent := ws.files[p];
    var hasChanges := false;
    var componentComment := Marker(name);
    if Contains(cssContent, componentComment) {
      cssContent := StripMarkerBlocks(cssContent, componentComment);
      hasChanges := true;
    }
    if hasChanges {
      ws.WriteFile(p, cssContent);
      return Some(true);
    }
    return Some(false);
  }

  /** An occurrence at `i` would cover position `p`, whose character `sub` does not contain. */
  lemma NotOccursAcross(s: string, sub: string, i: nat, p: nat)
    requires i <= p < i + |sub| <= |s| && s[p] !in sub
    ensures !OccursAt(s, sub, i)
  {
    assert s[i..i + |sub|][p - i] == s[p];
  }

  /** An occurrence lying wholly inside `a` would be one of `a`. */
  lemma NotOccursInside(a: string, b: string, sub: string, i: nat)
    requires !Contains(a, sub) && i + |sub| <= |a|
    ensures !OccursAt(a + b, sub, i)
  {
    assert (a + b)[i..i + |sub|] == a[i..i + |sub|];
    assert !OccursAt(a, sub, i);
  }

  /** The first occurrence of `sub` in `a + sub + b` is right after `a`, when `a` has none and ends
      with a character `sub` does not contain (so no occurrence straddles the boundary). */
  lemma IndexAfter(a: string, sub: string, b: string)
    requires !Contains(a, sub) && a != [] && a[|a| - 1] !in sub
    ensures IndexOf(a + sub + b, sub) == Some(|a|)
  {
    var s := a + sub + b;
    assert s[|a|..|a| + |sub|] == sub;
    assert OccursAt(s, sub, |a|);
    forall j | 0 <= j < |a| ensures !OccursAt(s, sub, j) {
      if j + |sub| <= |a| {
        NotOccursInside(a, sub + b, sub, j);
        assert a + (sub + b) == s;
      } else if j + |sub| <= |s| {
        NotOccursAcross(s, sub, j, |a| - 1);
      }
    }
  }

  /** A text whose pieces and separator lack `c` lacks `c`. */
  lemma {:induction false} JoinHasNo(parts: seq<string>, d: string, c: char)
    requires c !in d && forall i :: 0 <= i < |parts| ==> c !in parts[i]
    ensures c !in Join(parts, d)
    decreases |parts|
  {
    if |parts| > 1 {
      JoinHasNo(parts[1..], d, c);
    }
  }

  lemma NoCharNoContains(s: string, c: char)
    requires c !in s
    ensures !Contains(s, [c])
  {
    forall i | 0 <= i <= |s| ensures !OccursAt(s, [c], i) {
      if i < |s| {
        NotOccursAcross(s, [c], i, i);
      }
    }
  }

  lemma BlockMatchOf(s: string, m: string, j: nat, k: nat)
    requires |m| > 0 && IndexOf(s, m) == Some(j) && IndexOf(s[j + |m|..], "}") == Some(k)
    ensures BlockMatch(s, m) == Some((j, j + |m| + k + 1))
  {
  }

  lemma StripUnfold(s: string, m: string, j: nat, e: nat)
    requires |m| > 0 && BlockMatch(s, m) == Some((j, e))
    ensures StripMarkerBlocks(s, m) == s[..j] + StripMarkerBlocks(TrimStartSpaces(s[e..]), m)
  {
  }

  /** In `a + m + pre + "}\n"` the match starts right after `a` and ends at the '}' after `pre`. */
  lemma BlockMatchAfter(a: string, m: string, pre: string)
    requires |m| > 0 && !Contains(a, m) && a != [] && a[|a| - 1] !in m && '}' !in pre && pre != []
    ensures var s := a + m + (pre + "}" + "\n");
      && BlockMatch(s, m) == Some((|a|, |s| - 1)) && |a| + 2 <= |s| && s[|s| - 1] == '\n' && s[..|a|] == a
  {
    var tail := pre + "}" + "\n";
    var s := a + m + tail;
    IndexAfter(a, m, tail);
    assert s[|a| + |m|..] == tail;
    NoCharNoContains(pre, '}');
    assert pre[|pre| - 1] !in "}";
    IndexAfter(pre, "}", "\n");
    assert IndexOf(s[|a| + |m|..], "}") == Some(|pre|);
    BlockMatchOf(s, m, |a|, |pre|);
    assert |a| + |m| + |pre| + 1 == |s| - 1;
    assert s[..|a|] == a;
  }

  /** A match followed only by a newline takes the rest of the text with it. */
  lemma StripFinalBlock(s: string, m: string, j: nat)
    requires |m| > 0 && j + 2 <= |s| && s[|s| - 1] == '\n'
    requires BlockMatch(s, m) == Some((j, |s| - 1))
    ensures StripMarkerBlocks(s, m) == s[..j]
  {
    StripUnfold(s, m, j, |s| - 1);
    var rest := s[|s| - 1..];
    assert rest == "\n" && IsJsSpace(rest[0]);
    assert TrimStartSpaces(rest) == TrimStartSpaces(rest[1..]) == [];
    assert !Contains([], m);
    assert StripMarkerBlocks([], m) == [];
    assert s[..j] + [] == s[..j];
  }

  /** Deleting the one block of `s == a + m + pre + "}\n"` leaves `a`. */
  lemma StripSingleBlock(s: string, a: string, m: string, pre: string)
    requires |m| > 0 && !Contains(a, m) && a != [] && a[|a| - 1] !in m && '}' !in pre && pre != []
    requires s == a + m + (pre + "}" + "\n")
    ensures StripMarkerBlocks(s, m) == a
  {
    BlockMatchAfter(a, m, pre);
    StripFinalBlock(s, m, |a|);
  }

  /** The body of a variable block before its closing brace. */
  function VariableBlockBody(vars: Entries): string {
    "\n:root {\n" + Join(VariableLines(vars), "\n") + "\n"
  }

  lemma VariableBlockShape(css: string, name: string, vars: Entries)
    ensures css + VariableBlock(name, vars) == (css + "\n") + Marker(name) + (VariableBlockBody(vars) + "}" + "\n")
  {
  }

  /** Values without a '}' give a block body without one. */
  lemma VariableBlockBodyHasNoBrace(vars: Entries)
    requires forall i :: 0 <= i < |vars| ==> '}' !in vars[i].0 && '}' !in vars[i].1
    ensures '}' !in VariableBlockBody(vars)
  {
    var lines := VariableLines(vars);
    forall i | 0 <= i < |lines| ensures '}' !in lines[i] {
      assert lines[i] == "  " + vars[i].0 + ": " + vars[i].1 + ";";
    }
    JoinHasNo(lines, "\n", '}');
  }

  /** A newline cannot complete a marker whose name has no newline. */
  lemma MarkerAbsentAfterNewline(css: string, name: string)
    requires !Contains(css, Marker(name)) && '\n' !in name
    ensures !Contains(css + "\n", Marker(name)) && '\n' !in Marker(name)
  {
    var m := Marker(name);
    var a := css + "\n";
    assert '\n' !in m;
    forall i | 0 <= i <= |a| ensures !OccursAt(a, m, i) {
      if i + |m| <= |css| {
        NotOccursInside(css, "\n", m, i);
      } else if i + |m| <= |a| {
        NotOccursAcross(a, m, i, |css|);
      }
    }
  }

  /** Removal undoes a variable block appended to a stylesheet that did not carry the marker: only
      the block's leading newline stays behind. */
  lemma StripInjectedBlock(css: string, name: string, vars: Entries)
    requires !Contains(css, Marker(name)) && '\n' !in name
    requires forall i :: 0 <= i < |vars| ==> '}' !in vars[i].0 && '}' !in vars[i].1
    ensures StripMarkerBlocks(css + VariableBlock(name, vars), Marker(name)) == css + "\n"
  {
    VariableBlockShape(css, name, vars);
    VariableBlockBodyHasNoBrace(vars);
    MarkerAbsentAfterNewline(css, name);
    var a := css + "\n";
    assert a[|a| - 1] == '\n';
    StripSingleBlock(css + VariableBlock(name, vars), a, Marker(name), VariableBlockBody(vars));
  }
}
