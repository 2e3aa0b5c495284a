/**
 * Category file collection: which files a backup of a list of content
 * categories takes, from the table of the application's data roots.
 */
module Selection {
  import opened Common
  import opened Names
  import opened FileSystem

  /** The platform's data roots, logical name to path, in the order Python's dict keeps them. */
  type PathTable = seq<(string, Path)>

  /** A dict: no name appears twice. */
  predicate WellFormedTable(table: PathTable) {
    forall i, j | 0 <= i < j < |table| :: table[i].0 != table[j].0
  }

  /** `dict.get(key)`. */
  function Lookup(table: PathTable, key: string): (r: Option<Path>)
    ensures r.Some? ==> (key, r.value) in table
    ensures r.None? ==> forall e | e in table :: e.0 != key
  {
    if table == [] then None
    else if table[0].0 == key then Some(table[0].1)
    else Lookup(table[1..], key)
  }

  /**
   * `get_existing_paths`: the entries of the table whose path exists, in
   * table order; nothing is added and no entry is renamed.
   */
  function ExistingEntries(fs: Fs, table: PathTable): (r: PathTable)
    ensures forall e :: e in r <==> e in table && e.1 in fs
    ensures |r| <= |table|
    ensures WellFormedTable(table) ==> WellFormedTable(r)
  {
    if table == [] then []
    else
      var rest := ExistingEntries(fs, table[1..]);
      if table[0].1 in fs then
        assert WellFormedTable(table) ==> forall e | e in rest :: e.0 != table[0].0 by {
          if WellFormedTable(table) {
            forall e | e in rest ensures e.0 != table[0].0 {
              var k :| 0 <= k < |table[1..]| && table[1..][k] == e;
              assert table[k + 1] == e;
            }
          }
        }
        [table[0]] + rest
      else rest
  }

  /** The root recorded under `key`, when it exists on disk. */
  function ExistingRoot(fs: Fs, table: PathTable, key: string): Option<Path> {
    match Lookup(table, key)
    case Some(root) => if root in fs then Some(root) else None
    case None => None
  }

  /** Looking a name up among the existing entries finds its root exactly when that root exists. */
  lemma {:induction false} LookupExisting(fs: Fs, table: PathTable, key: string)
    requires WellFormedTable(table)
    ensures Lookup(ExistingEntries(fs, table), key) == ExistingRoot(fs, table, key)
  {
    if table != [] {
      assert WellFormedTable(table[1..]) by {
        forall i, j | 0 <= i < j < |table[1..]| ensures table[1..][i].0 != table[1..][j].0 {
          assert table[1..][i] == table[i + 1] && table[1..][j] == table[j + 1];
        }
      }
      LookupExisting(fs, table[1..], key);
      if table[0].0 == key {
        forall e | e in table[1..] ensures e.0 != key {
          var k :| 0 <= k < |table[1..]| && table[1..][k] == e;
          assert table[k + 1] == e;
        }
        assert Lookup(table[1..], key).None?;
      }
    }
  }

  /** The shell pattern of a one-component `glob`: `*<suffix>` or `*<part>*`. */
  datatype NamePattern = EndingWith(suffix: string) | Containing(part: string)

  predicate Matches(pattern: NamePattern, name: string) {
    match pattern
    case EndingWith(suffix) => EndsWith(name, suffix)
    case Containing(part) => Contains(name, part)
  }

  /** `dir.glob(pattern)`: the children of `dir`, files or directories, whose name matches. */
  function Glob(fs: Fs, dir: Path, pattern: NamePattern): set<Path> {
    set p | p in Children(fs, dir) && Matches(pattern, Name(p))
  }

  /** The name test of the `rules` category: lower-cased, it mentions "rule" or "warp". */
  predicate IsRuleName(name: string) {
    var lower := ToLower(name);
    Contains(lower, "rule") || Contains(lower, "warp")
  }

  /** What the collector checks of each path a glob yields before keeping it. */
  datatype Keep = Everything | RuleNamed | RegularFiles

  predicate Kept(fs: Fs, keep: Keep, p: Path) {
    match keep
    case Everything => true
    case RuleNamed => IsRuleName(Name(p))
    case RegularFiles => p in fs && fs[p].File?
  }

  function Selected(fs: Fs, pool: set<Path>, keep: Keep): set<Path> {
    set p | p in pool && Kept(fs, keep, p)
  }

  /** The six categories, in the order a full snapshot asks for them. */
  const ALL_CATEGORIES: seq<string> := ["rules", "mcp", "database", "preferences", "logs", "profiles"]

  /**
   * The files one category selects, given the existing roots. A category
   * whose root is missing, and a name that is not one of the six, select
   * nothing.
   */
  function CategoryMatches(fs: Fs, existing: PathTable, category: string): set<Path> {
    if category == "rules" then
      match Lookup(existing, "config")
      case Some(config) => Selected(fs, Glob(fs, config, EndingWith(".md")), RuleNamed)
      case None => {}
    else if category == "mcp" then
      match Lookup(existing, "state")
      case Some(state) =>
        if state + ["mcp"] in fs then Selected(fs, Descendants(fs, state + ["mcp"]), RegularFiles) else {}
      case None => {}
    else if category == "database" then
      match Lookup(existing, "state")
      case Some(state) => Glob(fs, state, Containing(".sqlite"))
      case None => {}
    else if category == "preferences" then
      match Lookup(existing, "config")
      case Some(config) => Glob(fs, config, EndingWith(".json"))
      case None => {}
    else if category == "logs" then
      match Lookup(existing, "state")
      case Some(state) => Glob(fs, state, Containing(".log"))
      case None => {}
    else if category == "profiles" then
      match Lookup(existing, "profiles")
      case Some(profiles) =>
        if profiles in fs then Selected(fs, Descendants(fs, profiles), RegularFiles) else {}
      case None => {}
    else {}
  }

  /** The union of what `matches` gives for each category of the list. */
  function UnionOver(categories: seq<string>, matches: string -> set<Path>): set<Path> {
    if categories == [] then {}
    else UnionOver(categories[..|categories| - 1], matches) + matches(categories[|categories| - 1])
  }

  /** A path is in the union exactly when one of the categories gives it. */
  lemma {:induction false} UnionOverMembers(categories: seq<string>, matches: string -> set<Path>, p: Path)
    ensures p in UnionOver(categories, matches) <==> exists k | 0 <= k < |categories| :: p in matches(categories[k])
  {
    if categories != [] {
      var init := categories[..|categories| - 1];
      UnionOverMembers(init, matches, p);
      if p in UnionOver(categories, matches) && p !in matches(categories[|categories| - 1]) {
        var k :| 0 <= k < |init| && p in matches(init[k]);
        assert categories[k] == init[k];
      }
      if exists k | 0 <= k < |categories| :: p in matches(categories[k]) {
        var k :| 0 <= k < |categories| && p in matches(categories[k]);
        if k < |init| {
          assert init[k] == categories[k];
        }
      }
    }
  }

  /** The files a backup of `categories` takes: the union of their matches. */
  function Collect(fs: Fs, existing: PathTable, categories: seq<string>): set<Path> {
    UnionOver(categories, category => CategoryMatches(fs, existing, category))
  }

  /** A file is collected exactly when one of the requested categories matches it. */
  lemma CollectIsUnion(fs: Fs, existing: PathTable, categories: seq<string>, p: Path)
    ensures p in Collect(fs, existing, categories) <==>
      exists k | 0 <= k < |categories| :: p in CategoryMatches(fs, existing, categories[k])
  {
    UnionOverMembers(categories, category => CategoryMatches(fs, existing, category), p);
  }

  /**
   * The two categories read from the config root: `rules` takes its direct
   * children named `*.md` whose lower-cased name mentions "rule" or "warp",
   * `preferences` those named `*.json`. Without the root, nothing.
   */
  lemma ConfigCategories(fs: Fs, table: PathTable, p: Path)
    requires WellFormedTable(table)
    ensures var existing := ExistingEntries(fs, table);
      var config := ExistingRoot(fs, table, "config");
      && (p in CategoryMatches(fs, existing, "rules") <==>
            config.Some? && p in fs && IsChildOf(p, config.value) && EndsWith(Name(p), ".md") && IsRuleName(Name(p)))
      && (p in CategoryMatches(fs, existing, "preferences") <==>
            config.Some? && p in fs && IsChildOf(p, config.value) && EndsWith(Name(p), ".json"))
  {
    LookupExisting(fs, table, "config");
  }

  /**
   * The three categories read from the state root: `database` and `logs`
   * take its direct children whose name contains ".sqlite" or ".log", `mcp`
   * every regular file below `<state>/mcp` when that exists.
   */
  lemma StateCategories(fs: Fs, table: PathTable, p: Path)
    requires WellFormedTable(table)
    ensures var existing := ExistingEntries(fs, table);
      var state := ExistingRoot(fs, table, "state");
      && (p in CategoryMatches(fs, existing, "database") <==>
            state.Some? && p in fs && IsChildOf(p, state.value) && Contains(Name(p), ".sqlite"))
      && (p in CategoryMatches(fs, existing, "logs") <==>
            state.Some? && p in fs && IsChildOf(p, state.value) && Contains(Name(p), ".log"))
      && (p in CategoryMatches(fs, existing, "mcp") <==>
            state.Some? && state.value + ["mcp"] in fs && p in fs && IsBelow(state.value + ["mcp"], p) && fs[p].File?)
  {
    LookupExisting(fs, table, "state");
  }

  /** `profiles` takes every regular file below the profiles root. */
  lemma ProfilesCategory(fs: Fs, table: PathTable, p: Path)
    requires WellFormedTable(table)
    ensures var profiles := ExistingRoot(fs, table, "profiles");
      p in CategoryMatches(fs, ExistingEntries(fs, table), "profiles") <==>
        profiles.Some? && p in fs && IsBelow(profiles.value, p) && fs[p].File?
  {
    LookupExisting(fs, table, "profiles");
  }

  /** A name outside the six selects nothing: the chain of tests has no final `else`. */
  lemma UnknownCategorySelectsNothing(fs: Fs, existing: PathTable, category: string)
    requires category !in ALL_CATEGORIES
    ensures CategoryMatches(fs, existing, category) == {}
  {
  }

  /** With no categories requested, or with none of the roots on disk, nothing is collected. */
  lemma NothingWithoutRootsOrCategories(fs: Fs, table: PathTable, categories: seq<string>)
    requires categories == [] || ExistingEntries(fs, table) == []
    ensures Collect(fs, ExistingEntries(fs, table), categories) == {}
  {
    var existing := ExistingEntries(fs, table);
    forall p | p in Collect(fs, existing, categories) ensures false {
      CollectIsUnion(fs, existing, categories, p);
    }
  }

  /**
   * Append to `found`, in some order, every path of `pool` the filter
   * keeps: the body of one `for f in <glob>: if <test>: append(f)` loop.
   */
  method AppendSelected(disk: Disk, found: seq<Path>, pool: set<Path>, keep: Keep) returns (more: seq<Path>)
    ensures Elems(more) == Elems(found) + Selected(disk.nodes, pool, keep)
  {
    more := found;
    var rest := pool;
    ghost var done: set<Path> := {};
    while rest != {}
      invariant done + rest == pool
      invariant Elems(more) == Elems(found) + Selected(disk.nodes, done, keep)
      decreases |rest|
    {
      var p :| p in rest;
      SelectedStep(disk.nodes, found, more, done, p, keep);
      if Kept(disk.nodes, keep, p) {
        more := more + [p];
      }
      rest := rest - {p};
      done := done + {p};
    }
  }

  /** One step of that loop: appending `p` when the filter keeps it extends the selection by `p`. */
  lemma SelectedStep(fs: Fs, found: seq<Path>, more: seq<Path>, done: set<Path>, p: Path, keep: Keep)
    requires Elems(more) == Elems(found) + Selected(fs, done, keep)
    ensures Elems(if Kept(fs, keep, p) then more + [p] else more) == Elems(found) + Selected(fs, done + {p}, keep)
  {
    assert Elems(more + [p]) == Elems(more) + {p};
  }

  /**
   * The collection loop of `backup_selective`: for each requested category,
   * append what its rule selects. The list may hold a file more than once.
   */
  method CollectCandidates(disk: Disk, existing: PathTable, categories: seq<string>) returns (found: seq<Path>)
    ensures Elems(found) == Collect(disk.nodes, existing, categories)
  {
    found := [];
    for i := 0 to |categories|
      invariant Elems(found) == Collect(disk.nodes, existing, categories[..i])
    {
      var category := categories[i];
      if category == "rules" {
        match Lookup(existing, "config") {
          case Some(config) =>
            found := AppendSelected(disk, found, Glob(disk.nodes, config, EndingWith(".md")), RuleNamed);
          case None =>
        }
      } else if category == "mcp" {
        match Lookup(existing, "state") {
          case Some(state) =>
            if state + ["mcp"] in disk.nodes {
              found := AppendSelected(disk, found, Descendants(disk.nodes, state + ["mcp"]), RegularFiles);
            }
          case None =>
        }
      } else if category == "database" {
        match Lookup(existing, "state") {
          case Some(state) =>
            found := AppendSelected(disk, found, Glob(disk.nodes, state, Containing(".sqlite")), Everything);
          case None =>
        }
      } else if category == "preferences" {
        match Lookup(existing, "config") {
          case Some(config) =>
            found := AppendSelected(disk, found, Glob(disk.nodes, config, EndingWith(".json")), Everything);
          case None =>
        }
      } else if category == "logs" {
        match Lookup(existing, "state") {
          case Some(state) =>
            found := AppendSelected(disk, found, Glob(disk.nodes, state, Containing(".log")), Everything);
          case None =>
        }
      } else if category == "profiles" {
        match Lookup(existing, "profiles") {
          case Some(profiles) =>
            if profiles in disk.nodes {
              found := AppendSelected(disk, found, Descendants(disk.nodes, profiles), RegularFiles);
            }
          case None =>
        }
      }
      assert categories[..i + 1][..i] == categories[..i];
    }
    assert categories[..|categories|] == categories;
  }

  /**
   * `list(set(found))`: every collected path exactly once, in an order the
   * set chooses.
   */
  method Deduplicate(found: seq<Path>) returns (unique: seq<Path>)
    ensures Distinct(unique)
    ensures Elems(unique) == Elems(found)
    ensures |unique| == |Elems(found)|
  {
    var pending := set p | p in found;
    unique := [];
    while pending != {}
      invariant Distinct(unique)
      invariant Elems(unique) + pending == Elems(found)
      invariant Elems(unique) !! pending
      decreases |pending|
    {
      var p :| p in pending;
      unique := unique + [p];
      pending := pending - {p};
    }
    DistinctCard(unique);
  }
}
