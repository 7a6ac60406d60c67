/** cli/src/commands/list.ts: the catalogue grouped by category, or the components of one category. */
module List {
  import opened Wrappers
  import opened Seqs
  import opened Text
  import opened Registry

  /** `[...new Set(registry.map(c => c.category))]`: each category once, in first-appearance order. */
  function Categories(reg: seq<Component>): (r: seq<string>)
    ensures forall cat :: cat in r <==> exists c :: c in reg && c.category == cat
    ensures NoDuplicates(r)
  {
    var all := CategoryColumn(reg);
    assert forall c :: c in reg ==> c.category in all;
    Dedup(all)
  }

  function CategoryColumn(reg: seq<Component>): (r: seq<string>)
    ensures |r| == |reg| && forall i :: 0 <= i < |reg| ==> r[i] == reg[i].category
  {
    seq(|reg|, i requires 0 <= i < |reg| => reg[i].category)
  }

  /** The listed categories come in the order in which the registry first mentions them. */
  lemma CategoriesInFirstAppearanceOrder(reg: seq<Component>)
    ensures var r := Categories(reg);
      forall i, j :: 0 <= i < j < |r| ==> FirstIndex(CategoryColumn(reg), r[i]) < FirstIndex(CategoryColumn(reg), r[j])
  {
    DedupFirstAppearance(CategoryColumn(reg));
  }

  /** `registry.filter(c => c.category === category)`: exact comparison, registry order. */
  function InCategory(reg: seq<Component>, category: string): (r: seq<Component>)
    ensures forall c :: c in r <==> c in reg && c.category == category
    ensures forall c: Component :: c.category == category ==> multiset(r)[c] == multiset(reg)[c]
    ensures Subsequence(r, reg)
    decreases |reg|
  {
    if reg == [] then []
    else
      var last := reg[|reg| - 1];
      assert reg == reg[..|reg| - 1] + [last];
      var init := InCategory(reg[..|reg| - 1], category);
      if last.category == category then init + [last] else init
  }

  /** One heading of the catalogue and the components printed under it. */
  datatype Group = Group(category: string, components: seq<Component>)

  function GroupsOf(reg: seq<Component>, cats: seq<string>): (r: seq<Group>)
    ensures |r| == |cats|
    ensures forall i :: 0 <= i < |cats| ==> r[i] == Group(cats[i], InCategory(reg, cats[i]))
  {
    seq(|cats|, i requires 0 <= i < |cats| => Group(cats[i], InCategory(reg, cats[i])))
  }

  /** The catalogue `list` prints without `--category`. */
  function Groups(reg: seq<Component>): (r: seq<Group>) {
    GroupsOf(reg, Categories(reg))
  }

  /** Every group holds exactly the components of its own category, in registry order, and every
      category of the registry has exactly one group. */
  lemma GroupsAreByCategory(reg: seq<Component>)
    ensures var gs := Groups(reg);
      && (forall i :: 0 <= i < |gs| ==> Subsequence(gs[i].components, reg))
      && (forall i, c :: 0 <= i < |gs| ==> (c in gs[i].components <==> c in reg && c.category == gs[i].category))
      && (forall i, j :: 0 <= i < j < |gs| ==> gs[i].category != gs[j].category)
      && (forall c :: c in reg ==> exists i :: 0 <= i < |gs| && gs[i].category == c.category)
  {
    GroupsHoldTheirCategory(reg);
    GroupsAreDistinct(reg);
    GroupsCoverRegistry(reg);
  }

  lemma GroupsHoldTheirCategory(reg: seq<Component>)
    ensures var gs := Groups(reg);
      && (forall i :: 0 <= i < |gs| ==> Subsequence(gs[i].components, reg))
      && (forall i, c :: 0 <= i < |gs| ==> (c in gs[i].components <==> c in reg && c.category == gs[i].category))
  {
    var gs := Groups(reg);
    var cats := Categories(reg);
    forall i | 0 <= i < |gs|
      ensures Subsequence(gs[i].components, reg)
      ensures forall c :: c in gs[i].components <==> c in reg && c.category == gs[i].category
    {
      assert gs[i] == Group(cats[i], InCategory(reg, cats[i]));
    }
  }

  lemma GroupsAreDistinct(reg: seq<Component>)
    ensures var gs := Groups(reg);
      forall i, j :: 0 <= i < j < |gs| ==> gs[i].category != gs[j].category
  {
    var gs := Groups(reg);
    var cats := Categories(reg);
    forall i, j | 0 <= i < j < |gs| ensures gs[i].category != gs[j].category {
      assert gs[i].category == cats[i] && gs[j].category == cats[j];
    }
  }

  lemma GroupsCoverRegistry(reg: seq<Component>)
    ensures var gs := Groups(reg);
      forall c :: c in reg ==> exists i :: 0 <= i < |gs| && gs[i].category == c.category
  {
    var gs := Groups(reg);
    var cats := Categories(reg);
    forall c | c in reg ensures exists i :: 0 <= i < |gs| && gs[i].category == c.category {
      assert c.category in cats;
      var i :| 0 <= i < |cats| && cats[i] == c.category;
      assert gs[i].category == c.category;
    }
  }

  // ---------------------------------------------------------------- the catalogue is a partition

  function Components(gs: seq<Group>): (r: seq<Component>)
    decreases |gs|
  {
    if gs == [] then [] else Components(gs[..|gs| - 1]) + gs[|gs| - 1].components
  }

  /** The components whose category is one of `cats`, in registry order. */
  function InCategories(reg: seq<Component>, cats: set<string>): (r: seq<Component>)
    decreases |reg|
  {
    if reg == [] then []
    else
      var init := InCategories(reg[..|reg| - 1], cats);
      if reg[|reg| - 1].category in cats then init + [reg[|reg| - 1]] else init
  }

  /** Adding one more category adds exactly that category's components. */
  lemma {:induction false} InCategoriesAdd(reg: seq<Component>, cats: set<string>, x: string)
    requires x !in cats
    ensures multiset(InCategories(reg, cats + {x})) == multiset(InCategories(reg, cats)) + multiset(InCategory(reg, x))
    decreases |reg|
  {
    if reg != [] {
      InCategoriesAdd(reg[..|reg| - 1], cats, x);
    }
  }

  lemma {:induction false} InCategoriesAll(reg: seq<Component>, cats: set<string>)
    requires forall c :: c in reg ==> c.category in cats
    ensures InCategories(reg, cats) == reg
    decreases |reg|
  {
    if reg != [] {
      InCategoriesAll(reg[..|reg| - 1], cats);
      assert reg[..|reg| - 1] + [reg[|reg| - 1]] == reg;
    }
  }

  lemma {:induction false} ComponentsOfGroupsOf(reg: seq<Component>, cats: seq<string>)
    requires NoDuplicates(cats)
    ensures multiset(Components(GroupsOf(reg, cats))) == multiset(InCategories(reg, set c | c in cats))
    decreases |cats|
  {
    if cats == [] {
      assert (set c | c in cats) == {};
      InCategoriesNone(reg);
    } else {
      var init := cats[..|cats| - 1];
      var x := cats[|cats| - 1];
      ComponentsOfGroupsOf(reg, init);
      assert GroupsOf(reg, cats)[..|cats| - 1] == GroupsOf(reg, init);
      assert x !in init by {
        forall k | 0 <= k < |init| ensures init[k] != x {
          assert cats[k] != cats[|cats| - 1];
        }
      }
      assert (set c | c in cats) == (set c | c in init) + {x};
      InCategoriesAdd(reg, (set c | c in init), x);
    }
  }

  lemma {:induction false} InCategoriesNone(reg: seq<Component>)
    ensures InCategories(reg, {}) == []
    decreases |reg|
  {
    if reg != [] {
      InCategoriesNone(reg[..|reg| - 1]);
    }
  }

  /** Every registry entry is printed exactly as often as it occurs in the registry: the groups
      partition the catalogue. */
  lemma GroupsPartitionRegistry(reg: seq<Component>)
    ensures multiset(Components(Groups(reg))) == multiset(reg)
  {
    var cats := Categories(reg);
    var named := set c | c in cats;
    assert forall c :: c in reg ==> c.category in named by {
      forall c | c in reg ensures c.category in named {
        assert c.category in cats;
      }
    }
    InCategoriesAll(reg, named);
    ComponentsOfGroupsOf(reg, cats);
    assert Groups(reg) == GroupsOf(reg, cats);
  }

  // ---------------------------------------------------------------- the command

  /** What `list` prints: an error (exit code 1), the empty-category message, one category's
      components under its upper-cased name as typed, or the whole catalogue. */
  datatype ListOutput =
    | LoadError
    | EmptyCategory(category: string)
    | CategoryListing(heading: string, components: seq<Component>)
    | Catalog(groups: seq<Group>)

  function ExitCode(o: ListOutput): (r: int)
    ensures r == 1 <==> o.LoadError?
    ensures r == 0 || r == 1
  {
    if o.LoadError? then 1 else 0
  }

  /** The `list` action. `registry` is `None` when loading fails; `category` is `--category`, whose
      empty value is falsy and so lists the catalogue. */
  function ListCommand(registry: Option<seq<Component>>, category: Option<string>): (r: ListOutput)
    ensures registry.None? ==> r == LoadError
    ensures registry.Some? && (category.None? || category.value == "") ==> r == Catalog(Groups(registry.value))
  {
    match registry
    case None => LoadError
    case Some(reg) =>
      if category.Some? && category.value != "" then
        var components := GetComponentsByCategory(reg, category.value);
        if components == [] then EmptyCategory(category.value)
        else CategoryListing(ToUpper(category.value), components)
      else Catalog(Groups(reg))
  }

  /** With `--category`, the listing is the registry entries whose category matches ignoring case;
      it is empty, and the command still exits with 0, exactly when none matches. */
  lemma CategoryFilterIgnoresCase(reg: seq<Component>, category: string)
    requires category != ""
    ensures var r := ListCommand(Some(reg), Some(category));
      && (r.EmptyCategory? <==> forall c :: c in reg ==> !CategoryMatches(c, category))
      && (r.CategoryListing? ==> forall c :: c in r.components <==> c in reg && ToLower(c.category) == ToLower(category))
      && ExitCode(r) == 0
  {
    var components := GetComponentsByCategory(reg, category);
    if components != [] {
      assert components[0] in reg && CategoryMatches(components[0], category);
    }
  }

  /** Two spellings of a category that differ only in letter case list the same components. */
  lemma {:induction false} CategorySpellingsAgree(reg: seq<Component>, a: string, b: string)
    requires ToLower(a) == ToLower(b)
    ensures GetComponentsByCategory(reg, a) == GetComponentsByCategory(reg, b)
    decreases |reg|
  {
    if reg != [] {
      CategorySpellingsAgree(reg[..|reg| - 1], a, b);
    }
  }

  /** The catalogue lists a component once per occurrence, and the failed load exits with 1. */
  lemma CatalogListsEverything(reg: seq<Component>)
    ensures var r := ListCommand(Some(reg), None);
      r.Catalog? && multiset(Components(r.groups)) == multiset(reg)
    ensures ExitCode(ListCommand(None, None)) == 1
  {
    GroupsPartitionRegistry(reg);
  }
}
