/**
 * `WARPManagerEnhanced`: the same backup engine with a newer version
 * string, a manifest that counts its candidates and has room for GitHub
 * metadata, and a backup entry point that may upload the result.
 *
 * The upload itself (`GitHubSync`) is network code and is not part of this
 * model; whether the connection test succeeds is a parameter.
 */
module EnhancedManager {
  import opened Common
  import opened Names
  import opened FileSystem
  import opened Selection
  import opened Catalog
  import opened Archive

  /** The manifest, with the two optional GitHub fields. */
  datatype BackupManifest = BackupManifest(
    id: string,
    timestamp: string,
    semver: string,
    osType: string,
    contentTypes: seq<string>,
    fileHashes: map<Path, string>,
    size: int,
    encrypted: bool,
    user: string,
    machine: string,
    githubUrl: Option<string>,
    githubSha: Option<string>)

  const VERSION := "1.2.0"
  const BACKUP_DIR_NAME := ".warp-backups"

  class WarpManagerEnhanced {
    const disk: Disk
    const home: Path
    const backupDir: Path
    /** The platform's data roots (`_get_warp_paths`). */
    const paths: PathTable
    /** `sys.platform`. */
    const platform: string
    const env: map<string, string>
    const codec: ArchiveCodec
    const sha256: Bytes -> string
    /** `json.dumps(asdict(manifest), indent=2)`, encoded. */
    const dumps: BackupManifest -> Bytes

    /** `__init__`, without the GitHub client and the scheduler: the backup directory is created unless a directory is there. */
    constructor (disk: Disk, home: Path, paths: PathTable, platform: string, env: map<string, string>,
                 codec: ArchiveCodec, sha256: Bytes -> string, dumps: BackupManifest -> Bytes)
      requires WellFormedTable(paths)
      requires DirCreatable(disk.nodes, disk.locked, home + [BACKUP_DIR_NAME])
      modifies disk
      ensures this.disk == disk && this.home == home && this.backupDir == home + [BACKUP_DIR_NAME]
      ensures this.paths == paths && this.platform == platform && this.env == env
      ensures this.codec == codec && this.sha256 == sha256 && this.dumps == dumps
      ensures home + [BACKUP_DIR_NAME] in disk.nodes && disk.nodes[home + [BACKUP_DIR_NAME]].Dir?
      ensures disk.nodes == if home + [BACKUP_DIR_NAME] in old(disk.nodes) then old(disk.nodes)
        else old(disk.nodes)[home + [BACKUP_DIR_NAME] := Dir]
    {
      this.disk := disk;
      this.home := home;
      this.backupDir := home + [BACKUP_DIR_NAME];
      this.paths := paths;
      this.platform := platform;
      this.env := env;
      this.codec := codec;
      this.sha256 := sha256;
      this.dumps := dumps;
      new;
      var ok := disk.MakeDir(home + [BACKUP_DIR_NAME]);
    }

    /** Where a backup of `types` taken at `clock` is written. */
    function ArchivePath(types: seq<string>, clock: Clock): Path {
      ArchiveIn(backupDir, clock.nameStamp, VERSION, types)
    }

    /** Its sidecar: `backup_path.with_suffix('.manifest.json')`. */
    function SidecarPath(types: seq<string>, clock: Clock): Path {
      SidecarIn(backupDir, clock.nameStamp, VERSION, types)
    }

    /** The manifest built inline by `backup_selective`: `size` is the number of candidates; no GitHub data. */
    function ManifestOf(fs: Fs, cs: seq<Path>, types: seq<string>, clock: Clock): BackupManifest {
      BackupManifest(clock.idStamp, clock.isoTime, VERSION, platform, types, HashesOf(fs, cs, sha256), |cs|, false,
                     GetEnv(env, "USER"), GetEnv(env, "HOSTNAME"), None, None)
    }

    /** A duplicate-free list of exactly the files the categories select. */
    predicate IsCandidateList(fs: Fs, cs: seq<Path>, types: seq<string>) {
      Distinct(cs) && Elems(cs) == Collect(fs, ExistingEntries(fs, paths), types)
    }

    /** `backup_selective` once the candidate list is fixed. */
    function BackupEffect(fs: Fs, cs: seq<Path>, types: seq<string>, clock: Clock, fault: bool): (Fs, Completion<Option<Path>>) {
      if cs == [] then (fs, Returned(None))
      else WriteArchive(fs, disk.locked, home, cs, ArchivePath(types, clock), SidecarPath(types, clock),
                        dumps(ManifestOf(fs, cs, types, clock)), codec, fault)
    }

    /** The outcomes `backup_selective` can have, over every order `list(set(...))` may give. */
    ghost predicate SelectiveOutcome(fs: Fs, fs': Fs, r: Completion<Option<Path>>, types: seq<string>, clock: Clock, fault: bool) {
      exists cs :: IsCandidateList(fs, cs, types) && (fs', r) == BackupEffect(fs, cs, types, clock, fault)
    }

    /** `backup_selective`. */
    method BackupSelective(types: seq<string>, clock: Clock, fault: bool) returns (result: Completion<Option<Path>>)
      modifies disk
      ensures SelectiveOutcome(old(disk.nodes), disk.nodes, result, types, clock, fault)
    {
      ghost var before := disk.nodes;
      var archive := ArchivePath(types, clock);
      var existing := ExistingEntries(disk.nodes, paths);
      var found := CollectCandidates(disk, existing, types);
      var candidates := Deduplicate(found);
      assert IsCandidateList(before, candidates, types);
      if candidates == [] {
        return Returned(None);
      }
      var hashes := HashAll(disk, candidates, sha256);
      var manifest := dumps(BackupManifest(clock.idStamp, clock.isoTime, VERSION, platform, types, hashes, |candidates|,
                                           false, GetEnv(env, "USER"), GetEnv(env, "HOSTNAME"), None, None));
      result := WriteArchiveFiles(disk, home, candidates, archive, SidecarPath(types, clock), manifest, codec, fault);
      assert (disk.nodes, result) == BackupEffect(before, candidates, types, clock, fault);
    }

    /** `take_snapshot`: a backup of all six categories. */
    method TakeSnapshot(clock: Clock, fault: bool) returns (result: Completion<Option<Path>>)
      modifies disk
      ensures SelectiveOutcome(old(disk.nodes), disk.nodes, result, ALL_CATEGORIES, clock, fault)
    {
      result := BackupSelective(ALL_CATEGORIES, clock, fault);
    }

    /**
     * `backup_with_sync`: the backup, then an upload attempt only when it
     * produced an archive, an upload was asked for and the connection test
     * passes. The result is the backup's whatever the upload does.
     */
    method BackupWithSync(types: seq<string>, upload: bool, connected: bool, clock: Clock, fault: bool)
      returns (result: Completion<Option<Path>>, attempted: bool)
      modifies disk
      ensures SelectiveOutcome(old(disk.nodes), disk.nodes, result, types, clock, fault)
      ensures attempted <==> result.Returned? && result.value.Some? && upload && connected
    {
      result := BackupSelective(types, clock, fault);
      attempted := result.Returned? && result.value.Some? && upload && connected;
    }

    /**
     * With nothing collected the backup writes nothing and returns `None`,
     * before the archive is opened.
     */
    lemma NothingToBackUp(fs: Fs, cs: seq<Path>, types: seq<string>, clock: Clock, fault: bool)
      requires IsCandidateList(fs, cs, types)
      requires types == [] || ExistingEntries(fs, paths) == [] || Collect(fs, ExistingEntries(fs, paths), types) == {}
      ensures BackupEffect(fs, cs, types, clock, fault) == (fs, Returned(None))
    {
      if types == [] || ExistingEntries(fs, paths) == [] {
        NothingWithoutRootsOrCategories(fs, paths, types);
      }
      ElemsEmpty(cs);
    }

    /**
     * How a backup ends: success exactly when files were collected, both
     * files can be written and streaming does not fail, with the archive
     * holding the members then the manifest; any other `None` leaves no file
     * at the archive path (nothing changes when nothing was collected); an
     * exception escapes only from a failed removal and changes nothing.
     */
    lemma BackupOutcome(fs: Fs, cs: seq<Path>, types: seq<string>, clock: Clock, fault: bool)
      requires IsCandidateList(fs, cs, types)
      ensures var (after, r) := BackupEffect(fs, cs, types, clock, fault);
        var archive, sidecar := ArchivePath(types, clock), SidecarPath(types, clock);
        var manifest := dumps(ManifestOf(fs, cs, types, clock));
        var members := ArchiveMembers(fs[archive := File([], true)], home, cs, manifest);
        && (cs == [] <==> Collect(fs, ExistingEntries(fs, paths), types) == {})
        && (r == Returned(Some(archive)) <==>
              cs != [] && Writable(fs, disk.locked, archive) && Writable(fs, disk.locked, sidecar) && !fault)
        && (r == Returned(Some(archive)) ==>
              after == fs[archive := File(codec.pack(members), true)][sidecar := File(manifest, true)])
        && (r == Returned(None) ==> if cs == [] then after == fs else after == fs - {archive})
        && (r.Raised? ==> after == fs)
        && (r.Returned? ==> r.value.None? || r.value == Some(archive))
    {
      BackupFileNames(backupDir, clock.nameStamp, VERSION, types);
      var archive, sidecar := ArchivePath(types, clock), SidecarPath(types, clock);
      WriteArchiveOutcome(fs, disk.locked, home, cs, archive, sidecar, dumps(ManifestOf(fs, cs, types, clock)), codec, false);
      WriteArchiveOutcome(fs, disk.locked, home, cs, archive, sidecar, dumps(ManifestOf(fs, cs, types, clock)), codec, true);
      ElemsEmpty(cs);
    }

    /**
     * The enhanced manifest: one hash per collected file; `size` equals the
     * number of hashes and of collected files, and so counts files that fail
     * to be archived too (the archive may hold fewer members, and holds as
     * many only when none fails); the GitHub fields stay empty.
     */
    lemma EnhancedManifestContents(fs: Fs, cs: seq<Path>, types: seq<string>, clock: Clock)
      requires IsCandidateList(fs, cs, types)
      ensures var m := ManifestOf(fs, cs, types, clock);
        var collected := Collect(fs, ExistingEntries(fs, paths), types);
        var archived := FileMembers(fs[ArchivePath(types, clock) := File([], true)], home, cs);
        && m.fileHashes.Keys == collected
        && m.size == |m.fileHashes| == |collected|
        && (forall p | p in m.fileHashes :: m.fileHashes[p] == FileDigest(fs, p, sha256))
        && |archived| <= m.size
        && (|archived| == m.size <==> forall p | p in cs :: MemberOf(fs[ArchivePath(types, clock) := File([], true)], home, p).Some?)
        && m.githubUrl.None? && m.githubSha.None?
        && m.semver == VERSION && m.contentTypes == types && !m.encrypted
    {
      HashesCoverCandidates(fs, cs, sha256);
      FileMembersCount(fs[ArchivePath(types, clock) := File([], true)], home, cs);
    }

    /** Whatever the candidate order, a backup changes nothing but its archive and its sidecar. */
    lemma SelectiveOutcomeFrame(fs: Fs, fs': Fs, r: Completion<Option<Path>>, types: seq<string>, clock: Clock, fault: bool, p: Path)
      requires SelectiveOutcome(fs, fs', r, types, clock, fault)
      requires p != ArchivePath(types, clock) && p != SidecarPath(types, clock)
      ensures (p in fs' <==> p in fs) && (p in fs ==> fs'[p] == fs[p])
    {
      var cs :| IsCandidateList(fs, cs, types) && (fs', r) == BackupEffect(fs, cs, types, clock, fault);
      if cs != [] {
        WriteArchiveFrame(fs, disk.locked, home, cs, ArchivePath(types, clock), SidecarPath(types, clock),
                          dumps(ManifestOf(fs, cs, types, clock)), codec, fault, p);
      }
    }
  }
}
