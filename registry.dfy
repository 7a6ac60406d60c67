/** cli/src/utils/registry.ts: the component catalogue and the queries over it. The catalogue is the
    already loaded registry, passed in as a sequence. */
module Registry {
  import opened Wrappers
  import opened Text
  import opened Seqs

  /** A registry record. `importPath` is the record's `import` field and `exports` its `export`
      field (both are Dafny keywords); `dependencies` is optional in the JSON. */
  datatype Component = Component(
    name: string,
    category: string,
    description: string,
    cli: string,
    importPath: string,
    exports: string,
    dependencies: Option<seq<string>>,
    example: string,
    version: string)

  predicate NameMatches(c: Component, query: string) {
    ToLower(c.name) == ToLower(query)
  }

  /** `getComponent`: `registry.find(...) || null`, comparing lower-cased names. */
  function GetComponent(reg: seq<Component>, query: string): (r: Option<Component>)
    ensures r.Some? ==> r.value in reg && NameMatches(r.value, query)
    ensures r.None? <==> forall c :: c in reg ==> !NameMatches(c, query)
    decreases |reg|
  {
    if reg == [] then None
    else if NameMatches(reg[0], query) then Some(reg[0])
    else GetComponent(reg[1..], query)
  }

  /** The result is the FIRST record whose name matches. */
  lemma {:induction false} GetComponentIsFirstMatch(reg: seq<Component>, query: string, i: nat)
    requires i < |reg| && NameMatches(reg[i], query)
    requires forall j :: 0 <= j < i ==> !NameMatches(reg[j], query)
    ensures GetComponent(reg, query) == Some(reg[i])
  {
    if i > 0 {
      assert !NameMatches(reg[0], query);
      GetComponentIsFirstMatch(reg[1..], query, i - 1);
    }
  }

  /** Queries that differ only in letter case find the same record. */
  lemma {:induction false} GetComponentIgnoresCase(reg: seq<Component>, a: string, b: string)
    requires ToLower(a) == ToLower(b)
    ensures GetComponent(reg, a) == GetComponent(reg, b)
    decreases |reg|
  {
    if reg != [] {
      GetComponentIgnoresCase(reg[1..], a, b);
    }
  }

  predicate CategoryMatches(c: Component, category: string) {
    ToLower(c.category) == ToLower(category)
  }

  /** `getComponentsByCategory`: the records whose category equals the argument ignoring case. */
  function GetComponentsByCategory(reg: seq<Component>, category: string): (r: seq<Component>)
    ensures forall c :: c in r <==> c in reg && CategoryMatches(c, category)
    ensures forall c :: CategoryMatches(c, category) ==> multiset(r)[c] == multiset(reg)[c]
    ensures Subsequence(r, reg)
    decreases |reg|
  {
    if reg == [] then []
    else
      var last := reg[|reg| - 1];
      assert reg == reg[..|reg| - 1] + [last];
      var init := GetComponentsByCategory(reg[..|reg| - 1], category);
      if CategoryMatches(last, category) then init + [last] else init
  }

  /** The search predicate, for an already lower-cased query. */
  predicate SearchMatches(c: Component, lowerQuery: string) {
    || Contains(ToLower(c.name), lowerQuery)
    || Contains(ToLower(c.description), lowerQuery)
    || Contains(ToLower(c.category), lowerQuery)
  }

  function SearchLowered(reg: seq<Component>, lowerQuery: string): (r: seq<Component>)
    ensures forall c :: c in r <==> c in reg && SearchMatches(c, lowerQuery)
    ensures forall c :: SearchMatches(c, lowerQuery) ==> multiset(r)[c] == multiset(reg)[c]
    ensures Subsequence(r, reg)
    decreases |reg|
  {
    if reg == [] then []
    else
      var last := reg[|reg| - 1];
      assert reg == reg[..|reg| - 1] + [last];
      var init := SearchLowered(reg[..|reg| - 1], lowerQuery);
      if SearchMatches(last, lowerQuery) then init + [last] else init
  }

  /** `searchComponents`: the records whose lower-cased name, description or category contains the
      lower-cased query, in registry order. */
  function SearchComponents(reg: seq<Component>, query: string): (r: seq<Component>)
    ensures forall c :: c in r <==> c in reg && SearchMatches(c, ToLower(query))
    ensures forall c :: SearchMatches(c, ToLower(query)) ==> multiset(r)[c] == multiset(reg)[c]
    ensures Subsequence(r, reg)
  {
    SearchLowered(reg, ToLower(query))
  }

  /** The empty query matches every record. */
  lemma {:induction false} SearchEmptyQuery(reg: seq<Component>)
    ensures SearchComponents(reg, "") == reg
    decreases |reg|
  {
    if reg != [] {
      SearchEmptyQuery(reg[..|reg| - 1]);
      assert OccursAt(ToLower(reg[|reg| - 1].name), "", 0);
      assert reg[..|reg| - 1] + [reg[|reg| - 1]] == reg;
    }
  }

  /** `getComponentDependencies`: the record's import paths of other components, or none. */
  function GetComponentDependencies(c: Component): (r: seq<string>)
    ensures c.dependencies.Some? ==> r == c.dependencies.value
    ensures c.dependencies.None? ==> r == []
  {
    match c.dependencies
    case Some(deps) => deps
    case None => []
  }

  /** The names `getNpmDependencies` has a non-empty entry for. */
  const NamesWithNpmDependencies: set<string> := {
    "Button", "CopyButton", "FlipButton", "GitHubStarsButton", "IconButton", "InputButton",
    "LiquidButton", "RippleButton", "MagneticButton", "SlidingNumber"
  }

  const KnownPackages: set<string> := {
    "@radix-ui/react-slot", "class-variance-authority", "motion", "lucide-react", "react-use-measure"
  }

  /** `getNpmDependencies`: the fixed table of third-party packages, keyed by the exact name. */
  function GetNpmDependencies(c: Component): (r: seq<string>)
    ensures NoDuplicates(r)
    ensures r == [] <==> c.name !in NamesWithNpmDependencies
    ensures forall p :: p in r ==> p in KnownPackages
    ensures |r| <= 3
  {
    match c.name
    case "Button" => ["@radix-ui/react-slot", "class-variance-authority"]
    case "CopyButton" => ["motion", "lucide-react", "class-variance-authority"]
    case "FlipButton" => ["motion"]
    case "GitHubStarsButton" => ["motion", "lucide-react", "react-use-measure"]
    case "IconButton" => ["motion"]
    case "InputButton" => ["motion", "lucide-react"]
    case "LiquidButton" => ["motion", "class-variance-authority"]
    case "RippleButton" => ["motion", "class-variance-authority"]
    case "MagneticButton" => ["motion", "class-variance-authority"]
    case "LiquidGlassButton" => []
    case "SlidingNumber" => ["motion", "react-use-measure"]
    case _ => []
  }
}
