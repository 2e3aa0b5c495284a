/**
 * The backup directory's catalog: how an archive and its manifest sidecar are
 * named, and which entries `list_backups` reports.
 */
module Catalog {
  import opened Common
  import opened Names
  import opened FileSystem

  /**
   * The clock readings one backup makes: the `%Y-%m-%dT%H%M%SZ` stamp in the
   * archive name, the `%Y%m%d%H%M%S` manifest id and the ISO-8601 time.
   */
  datatype Clock = Clock(nameStamp: string, idStamp: string, isoTime: string)

  /** `os.getenv(name, "unknown")` over the process environment. */
  function GetEnv(env: map<string, string>, name: string): string {
    if name in env then env[name] else "unknown"
  }

  const ARCHIVE_EXTENSION := "zst"
  const SIDECAR_SUFFIX := ".manifest.json"

  /** The scope part of an archive name: the categories joined by `-`, or `full` for none. */
  function Scope(categories: seq<string>): string {
    if categories == [] then "full" else Join(categories, '-')
  }

  /** `<stamp>-<version>-default-<scope>.tar.zst`. */
  function ArchiveName(stamp: string, version: string, categories: seq<string>): string {
    stamp + "-" + version + "-default-" + Scope(categories) + ".tar.zst"
  }

  /** `with_suffix('.manifest.json')` of an archive name. */
  function SidecarName(archiveName: string): string {
    WithSuffix(archiveName, SIDECAR_SUFFIX)
  }

  /** What `list_backups` keeps: a name whose last suffix is `.zst`. */
  predicate IsListed(name: string) {
    Suffix(name) == "." + ARCHIVE_EXTENSION
  }

  /**
   * A name `<stem>.tar.zst` is listed, and its sidecar's name is the archive's
   * with the final `.zst` replaced, `<stem>.tar.manifest.json`, which is not.
   */
  lemma {:induction false} TarZstNames(tarStem: string)
    requires |tarStem| > 0
    ensures var name := tarStem + "." + ARCHIVE_EXTENSION;
      && IsListed(name)
      && SidecarName(name) == tarStem + SIDECAR_SUFFIX
      && !IsListed(SidecarName(name))
  {
    WithSuffixOfExtension(tarStem, ARCHIVE_EXTENSION, SIDECAR_SUFFIX);
    var manifestStem := tarStem + ".manifest";
    assert tarStem + SIDECAR_SUFFIX == manifestStem + "." + "json";
    WithSuffixOfExtension(manifestStem, "json", SIDECAR_SUFFIX);
  }

  /**
   * Every archive name the engine builds ends in `.tar.zst` and is listed; its
   * sidecar is the same name with `.zst` replaced by `.manifest.json`, and is
   * never listed.
   */
  lemma ArchiveAndSidecarNames(stamp: string, version: string, categories: seq<string>)
    ensures var name := ArchiveName(stamp, version, categories);
      && EndsWith(name, ".tar.zst")
      && IsListed(name)
      && SidecarName(name) == name[..|name| - |".zst"|] + SIDECAR_SUFFIX
      && !IsListed(SidecarName(name))
  {
    var tarStem := stamp + "-" + version + "-default-" + Scope(categories) + ".tar";
    var name := ArchiveName(stamp, version, categories);
    assert name == tarStem + "." + ARCHIVE_EXTENSION;
    assert name[..|name| - |".zst"|] == tarStem;
    TarZstNames(tarStem);
  }

  /** Where a backup of `categories` stamped `stamp` is written in `dir`. */
  function ArchiveIn(dir: Path, stamp: string, version: string, categories: seq<string>): Path {
    dir + [ArchiveName(stamp, version, categories)]
  }

  /** Its sidecar: `backup_path.with_suffix('.manifest.json')`. */
  function SidecarIn(dir: Path, stamp: string, version: string, categories: seq<string>): Path {
    dir + [SidecarName(ArchiveName(stamp, version, categories))]
  }

  /**
   * The archive and its sidecar are two different entries of the backup
   * directory; the archive is one `list_backups` reports, the sidecar is not.
   */
  lemma BackupFileNames(dir: Path, stamp: string, version: string, categories: seq<string>)
    ensures var archive, sidecar := ArchiveIn(dir, stamp, version, categories), SidecarIn(dir, stamp, version, categories);
      && IsChildOf(archive, dir) && IsChildOf(sidecar, dir)
      && IsListed(Name(archive)) && !IsListed(Name(sidecar))
      && archive != sidecar
  {
    ArchiveAndSidecarNames(stamp, version, categories);
    var archive, sidecar := ArchiveIn(dir, stamp, version, categories), SidecarIn(dir, stamp, version, categories);
    assert archive[..|dir|] == dir && sidecar[..|dir|] == dir;
    assert Name(archive) == ArchiveName(stamp, version, categories);
    assert Name(sidecar) == SidecarName(ArchiveName(stamp, version, categories));
  }

  /** The scope of a non-empty list of categories gives the list back when no name holds a `-`. */
  lemma ScopeNamesCategories(categories: seq<string>)
    requires categories != []
    requires forall k | 0 <= k < |categories| :: '-' !in categories[k]
    ensures Split(Scope(categories), '-') == categories
  {
    SplitJoin(categories, '-');
  }

  /**
   * `list_backups`: nothing when the backup directory is missing; when it is
   * a regular file, `iterdir` raises; otherwise its entries whose suffix is
   * `.zst`, sorted. All entries share the directory, so paths sort by name.
   */
  function ListBackups(fs: Fs, dir: Path): Completion<seq<Path>> {
    if dir !in fs then Returned([])
    else if fs[dir].File? then Raised
    else Returned(Placed(dir, SortNames(ListedNames(fs, dir))))
  }

  /** The names of the entries of `dir` that `list_backups` keeps. */
  function ListedNames(fs: Fs, dir: Path): set<string> {
    set p | p in Children(fs, dir) && IsListed(Name(p)) :: Name(p)
  }

  /** The paths `dir/<name>` for a list of names, in the same order. */
  function Placed(dir: Path, names: seq<string>): (r: seq<Path>)
    ensures |r| == |names|
    ensures forall i | 0 <= i < |names| :: r[i] == dir + [names[i]] && Name(r[i]) == names[i]
  {
    seq(|names|, i requires 0 <= i < |names| => dir + [names[i]])
  }

  lemma PlacedMembers(dir: Path, names: seq<string>, p: Path)
    ensures p in Placed(dir, names) <==> IsChildOf(p, dir) && Name(p) in names
  {
    var r := Placed(dir, names);
    if IsChildOf(p, dir) && Name(p) in names {
      ChildIsDirPlusName(p, dir);
      var i :| 0 <= i < |names| && names[i] == Name(p);
      assert r[i] == p;
    }
    if p in r {
      var i :| 0 <= i < |r| && r[i] == p;
      assert Name(p) == names[i];
    }
  }

  lemma ListedNamesMembers(fs: Fs, dir: Path, p: Path)
    requires IsChildOf(p, dir)
    ensures Name(p) in ListedNames(fs, dir) <==> p in fs && IsListed(Name(p))
  {
    if Name(p) in ListedNames(fs, dir) {
      var q :| q in Children(fs, dir) && IsListed(Name(q)) && Name(q) == Name(p);
      ChildIsDirPlusName(p, dir);
      ChildIsDirPlusName(q, dir);
    }
  }

  /**
   * The listing holds exactly the `.zst` entries of the directory, each once,
   * in strictly increasing order of name.
   */
  lemma ListBackupsContents(fs: Fs, dir: Path)
    ensures dir !in fs ==> ListBackups(fs, dir) == Returned([])
    ensures ListBackups(fs, dir).Raised? <==> dir in fs && fs[dir].File?
    ensures dir in fs && fs[dir].Dir? ==>
      ListBackups(fs, dir).Returned? &&
      var listed := ListBackups(fs, dir).value;
      && (forall p :: p in listed <==> p in fs && IsChildOf(p, dir) && IsListed(Name(p)))
      && (forall i, j | 0 <= i < j < |listed| :: Precedes(Name(listed[i]), Name(listed[j])))
  {
    if dir in fs && fs[dir].Dir? {
      forall p ensures p in ListBackups(fs, dir).value <==> p in fs && IsChildOf(p, dir) && IsListed(Name(p)) {
        ListedEntry(fs, dir, p);
      }
      ListingOrdered(fs, dir);
    }
  }

  lemma ListedEntry(fs: Fs, dir: Path, p: Path)
    requires dir in fs && fs[dir].Dir?
    ensures p in ListBackups(fs, dir).value <==> p in fs && IsChildOf(p, dir) && IsListed(Name(p))
  {
    var sorted := SortNames(ListedNames(fs, dir));
    PlacedMembers(dir, sorted, p);
    if IsChildOf(p, dir) {
      ListedNamesMembers(fs, dir, p);
      assert Name(p) in sorted <==> Name(p) in Elems(sorted);
    }
  }

  lemma ListingOrdered(fs: Fs, dir: Path)
    requires dir in fs && fs[dir].Dir?
    ensures var listed := ListBackups(fs, dir).value;
      forall i, j | 0 <= i < j < |listed| :: Precedes(Name(listed[i]), Name(listed[j]))
  {
    PlacedInOrder(dir, SortNames(ListedNames(fs, dir)));
  }

  /** Placing names under a directory keeps their order. */
  lemma PlacedInOrder(dir: Path, names: seq<string>)
    requires forall i, j | 0 <= i < j < |names| :: Precedes(names[i], names[j])
    ensures var placed := Placed(dir, names);
      forall i, j | 0 <= i < j < |placed| :: Precedes(Name(placed[i]), Name(placed[j]))
  {
  }

  /** The sidecar of an archive the engine names is never listed. */
  lemma SidecarsNeverListed(fs: Fs, dir: Path, stamp: string, version: string, categories: seq<string>)
    ensures ListBackups(fs, dir).Returned? ==>
      dir + [SidecarName(ArchiveName(stamp, version, categories))] !in ListBackups(fs, dir).value
  {
    ArchiveAndSidecarNames(stamp, version, categories);
    ListBackupsContents(fs, dir);
  }
}
