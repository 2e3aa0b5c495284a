/**
 * `WARPManager`: the local backup engine. It collects the files of the
 * requested content categories, writes them with a manifest into a
 * timestamped tar+zstd archive in `~/.warp-backups`, restores an archive
 * into the home directory, resets the application's data (into a quarantine
 * directory or destructively) and deletes its local database.
 *
 * The clock readings, the fault while streaming, and the quarantine stamp
 * are parameters of the operations that use them.
 */
module Manager {
  import opened Common
  import opened Names
  import opened FileSystem
  import opened Selection
  import opened Catalog
  import opened Archive
  import opened Housekeeping

  /** What a backup records about itself; `fileHashes` is keyed by path. */
  datatype BackupManifest = BackupManifest(
    id: string,
    timestamp: string,
    semver: string,
    osType: string,
    contentTypes: seq<string>,
    fileHashes: map<Path, string>,
    size: int,
    encrypted: bool,
    user: string,
    machine: string)

  const VERSION := "1.1.1"
  const BACKUP_DIR_NAME := ".warp-backups"

  class WarpManager {
    const disk: Disk
    const home: Path
    const backupDir: Path
    /** The platform's data roots (`get_warp_paths`). */
    const paths: PathTable
    /** `sys.platform`. */
    const platform: string
    const env: map<string, string>
    const codec: ArchiveCodec
    const sha256: Bytes -> string
    /** `json.dumps(asdict(manifest), indent=2)`, encoded. */
    const dumps: BackupManifest -> Bytes

    /** `__init__`: the backup directory is created unless a directory is already there. */
    constructor (disk: Disk, home: Path, paths: PathTable, platform: string, env: map<string, string>,
                 codec: ArchiveCodec, sha256: Bytes -> string, dumps: BackupManifest -> Bytes)
      requires WellFormedTable(paths)
      requires DirCreatable(disk.nodes, disk.locked, home + [BACKUP_DIR_NAME])
      modifies disk
      ensures this.disk == disk && this.home == home && this.backupDir == home + [BACKUP_DIR_NAME]
      ensures this.paths == paths && this.platform == platform && this.env == env
      ensures this.codec == codec && this.sha256 == sha256 && this.dumps == dumps
      ensures home + [BACKUP_DIR_NAME] in disk.nodes && disk.nodes[home + [BACKUP_DIR_NAME]].Dir?
      ensures disk.nodes == if home + [BACKUP_DIR_NAME] in old(disk.nodes) then old(disk.nodes)
        else old(disk.nodes)[home + [BACKUP_DIR_NAME] := Dir]
    {
      this.disk := disk;
      this.home := home;
      this.backupDir := home + [BACKUP_DIR_NAME];
      this.paths := paths;
      this.platform := platform;
      this.env := env;
      this.codec := codec;
      this.sha256 := sha256;
      this.dumps := dumps;
      new;
      var ok := disk.MakeDir(home + [BACKUP_DIR_NAME]);
    }

    /** Where a backup of `types` taken at `clock` is written. */
    function ArchivePath(types: seq<string>, clock: Clock): Path {
      ArchiveIn(backupDir, clock.nameStamp, VERSION, types)
    }

    /** Its sidecar: `backup_path.with_suffix('.manifest.json')`. */
    function SidecarPath(types: seq<string>, clock: Clock): Path {
      SidecarIn(backupDir, clock.nameStamp, VERSION, types)
    }

    /** `create_manifest`. */
    function CreateManifest(types: seq<string>, hashes: map<Path, string>, size: int, clock: Clock): BackupManifest {
      BackupManifest(clock.idStamp, clock.isoTime, VERSION, platform, types, hashes, size, false,
                     GetEnv(env, "USER"), GetEnv(env, "HOSTNAME"))
    }

    /** The manifest a backup of the candidates `cs` records. */
    function ManifestOf(fs: Fs, cs: seq<Path>, types: seq<string>, clock: Clock): BackupManifest {
      CreateManifest(types, HashesOf(fs, cs, sha256), 0, clock)
    }

    /** A duplicate-free list of exactly the files the categories select. */
    predicate IsCandidateList(fs: Fs, cs: seq<Path>, types: seq<string>) {
      Distinct(cs) && Elems(cs) == Collect(fs, ExistingEntries(fs, paths), types)
    }

    /**
     * `backup_selective` once the candidate list is fixed: nothing at all
     * when it is empty; otherwise the archive and sidecar are written.
     */
    function BackupEffect(fs: Fs, cs: seq<Path>, types: seq<string>, clock: Clock, fault: bool): (Fs, Completion<Option<Path>>) {
      if cs == [] then (fs, Returned(None))
      else WriteArchive(fs, disk.locked, home, cs, ArchivePath(types, clock), SidecarPath(types, clock),
                        dumps(ManifestOf(fs, cs, types, clock)), codec, fault)
    }

    /**
     * The outcomes `backup_selective` can have: the order `list(set(...))`
     * gives the candidates is not determined, so any duplicate-free order of
     * the collected files is allowed.
     */
    ghost predicate SelectiveOutcome(fs: Fs, fs': Fs, r: Completion<Option<Path>>, types: seq<string>, clock: Clock, fault: bool) {
      exists cs :: IsCandidateList(fs, cs, types) && (fs', r) == BackupEffect(fs, cs, types, clock, fault)
    }

    /** `backup_selective`. */
    method BackupSelective(types: seq<string>, clock: Clock, fault: bool) returns (result: Completion<Option<Path>>)
      modifies disk
      ensures SelectiveOutcome(old(disk.nodes), disk.nodes, result, types, clock, fault)
    {
      ghost var before := disk.nodes;
      var archive := ArchivePath(types, clock);
      var existing := ExistingEntries(disk.nodes, paths);
      var found := CollectCandidates(disk, existing, types);
      var candidates := Deduplicate(found);
      assert IsCandidateList(before, candidates, types);
      if candidates == [] {
        return Returned(None);
      }
      var hashes := HashAll(disk, candidates, sha256);
      var manifest := dumps(CreateManifest(types, hashes, 0, clock));
      result := WriteArchiveFiles(disk, home, candidates, archive, SidecarPath(types, clock), manifest, codec, fault);
      assert (disk.nodes, result) == BackupEffect(before, candidates, types, clock, fault);
    }

    /** `take_snapshot`: a backup of all six categories. */
    method TakeSnapshot(clock: Clock, fault: bool) returns (result: Completion<Option<Path>>)
      modifies disk
      ensures SelectiveOutcome(old(disk.nodes), disk.nodes, result, ALL_CATEGORIES, clock, fault)
    {
      result := BackupSelective(ALL_CATEGORIES, clock, fault);
    }

    /**
     * With nothing collected (no category asked for, none of the roots on
     * disk, or no file matching) the backup writes nothing and returns
     * `None`: the return comes before the archive is opened. In particular a
     * `full` archive name is never written.
     */
    lemma NothingToBackUp(fs: Fs, cs: seq<Path>, types: seq<string>, clock: Clock, fault: bool)
      requires IsCandidateList(fs, cs, types)
      requires types == [] || ExistingEntries(fs, paths) == [] || Collect(fs, ExistingEntries(fs, paths), types) == {}
      ensures BackupEffect(fs, cs, types, clock, fault) == (fs, Returned(None))
    {
      if types == [] || ExistingEntries(fs, paths) == [] {
        NothingWithoutRootsOrCategories(fs, paths, types);
      }
      ElemsEmpty(cs);
    }

    /**
     * How a backup ends. It succeeds exactly when files were collected,
     * both files can be written and no error occurs while streaming; then
     * the archive holds the members and the manifest, and the sidecar the
     * manifest. Any other `None` leaves no file at the archive path, unless
     * nothing was collected, which changes nothing. An exception escapes
     * only when a partial archive cannot be removed, and changes nothing.
     */
    lemma BackupOutcome(fs: Fs, cs: seq<Path>, types: seq<string>, clock: Clock, fault: bool)
      requires IsCandidateList(fs, cs, types)
      ensures var (after, r) := BackupEffect(fs, cs, types, clock, fault);
        var archive, sidecar := ArchivePath(types, clock), SidecarPath(types, clock);
        var manifest := dumps(ManifestOf(fs, cs, types, clock));
        var members := ArchiveMembers(fs[archive := File([], true)], home, cs, manifest);
        && (cs == [] <==> Collect(fs, ExistingEntries(fs, paths), types) == {})
        && (r == Returned(Some(archive)) <==>
              cs != [] && Writable(fs, disk.locked, archive) && Writable(fs, disk.locked, sidecar) && !fault)
        && (r == Returned(Some(archive)) ==>
              after == fs[archive := File(codec.pack(members), true)][sidecar := File(manifest, true)])
        && (r == Returned(None) ==> if cs == [] then after == fs else after == fs - {archive})
        && (r.Raised? ==> after == fs)
        && (r.Returned? ==> r.value.None? || r.value == Some(archive))
    {
      BackupFileNames(backupDir, clock.nameStamp, VERSION, types);
      var archive, sidecar := ArchivePath(types, clock), SidecarPath(types, clock);
      WriteArchiveOutcome(fs, disk.locked, home, cs, archive, sidecar, dumps(ManifestOf(fs, cs, types, clock)), codec, false);
      WriteArchiveOutcome(fs, disk.locked, home, cs, archive, sidecar, dumps(ManifestOf(fs, cs, types, clock)), codec, true);
      ElemsEmpty(cs);
    }

    /**
     * The manifest of a backup: one hash per collected file (the skipped ones
     * included), each the digest of the file or empty when it cannot be
     * read; size 0; this engine's version, the requested types, not encrypted,
     * and the user and host from the environment.
     */
    lemma BackupManifestContents(fs: Fs, cs: seq<Path>, types: seq<string>, clock: Clock)
      requires IsCandidateList(fs, cs, types)
      ensures var m := ManifestOf(fs, cs, types, clock);
        var collected := Collect(fs, ExistingEntries(fs, paths), types);
        && m.fileHashes.Keys == collected
        && |m.fileHashes| == |collected| == |cs|
        && (forall p | p in m.fileHashes :: m.fileHashes[p] == FileDigest(fs, p, sha256))
        && m.size == 0
        && m.semver == VERSION && m.contentTypes == types && m.osType == platform && !m.encrypted
        && m.user == GetEnv(env, "USER") && m.machine == GetEnv(env, "HOSTNAME")
    {
      HashesCoverCandidates(fs, cs, sha256);
      DistinctCard(cs);
    }

    /** A backup changes nothing but its archive and its sidecar, both in the backup directory. */
    lemma BackupTouchesOnlyItsFiles(fs: Fs, cs: seq<Path>, types: seq<string>, clock: Clock, fault: bool, p: Path)
      requires p != ArchivePath(types, clock) && p != SidecarPath(types, clock)
      ensures var after := BackupEffect(fs, cs, types, clock, fault).0;
        (p in after <==> p in fs) && (p in fs ==> after[p] == fs[p])
    {
      if cs != [] {
        WriteArchiveFrame(fs, disk.locked, home, cs, ArchivePath(types, clock), SidecarPath(types, clock),
                          dumps(ManifestOf(fs, cs, types, clock)), codec, fault, p);
      }
    }

    /** Whatever the candidate order, a backup changes nothing but its archive and its sidecar. */
    lemma SelectiveOutcomeFrame(fs: Fs, fs': Fs, r: Completion<Option<Path>>, types: seq<string>, clock: Clock, fault: bool, p: Path)
      requires SelectiveOutcome(fs, fs', r, types, clock, fault)
      requires p != ArchivePath(types, clock) && p != SidecarPath(types, clock)
      ensures (p in fs' <==> p in fs) && (p in fs ==> fs'[p] == fs[p])
    {
      var cs :| IsCandidateList(fs, cs, types) && (fs', r) == BackupEffect(fs, cs, types, clock, fault);
      BackupTouchesOnlyItsFiles(fs, cs, types, clock, fault, p);
    }

    /** So a backup changes nothing outside the backup directory. */
    lemma SelectiveOutcomeOutside(fs: Fs, fs': Fs, r: Completion<Option<Path>>, types: seq<string>, clock: Clock, fault: bool)
      requires SelectiveOutcome(fs, fs', r, types, clock, fault)
      ensures forall p | !IsUnder(backupDir, p) :: (p in fs' <==> p in fs) && (p in fs ==> fs'[p] == fs[p])
    {
      BackupFileNames(backupDir, clock.nameStamp, VERSION, types);
      forall p | !IsUnder(backupDir, p) ensures (p in fs' <==> p in fs) && (p in fs ==> fs'[p] == fs[p]) {
        SelectiveOutcomeFrame(fs, fs', r, types, clock, fault, p);
      }
    }

    /**
     * What a successful backup's archive reads back as: the members of the
     * candidates, with distinct names, then the manifest.
     */
    lemma ArchiveReadsBack(fs: Fs, cs: seq<Path>, types: seq<string>, clock: Clock, fault: bool)
      requires Faithful(codec)
      requires IsCandidateList(fs, cs, types)
      requires BackupEffect(fs, cs, types, clock, fault).1 == Returned(Some(ArchivePath(types, clock)))
      ensures var after := BackupEffect(fs, cs, types, clock, fault).0;
        var archive := ArchivePath(types, clock);
        var manifest := dumps(ManifestOf(fs, cs, types, clock));
        var files := FileMembers(fs[archive := File([], true)], home, cs);
        && archive in after && after[archive].File?
        && codec.unpack(after[archive].data) == Some(files + [ManifestMember(manifest)])
        && DistinctNames(files)
    {
      BackupOutcome(fs, cs, types, clock, fault);
      var archive := ArchivePath(types, clock);
      BackupFileNames(backupDir, clock.nameStamp, VERSION, types);
      FileMembersDistinct(fs[archive := File([], true)], home, cs);
    }

    /**
     * The round trip of one backup: restoring its archive puts every regular
     * file it archived back at the path it was taken from, provided the
     * archive is still intact, no candidate is the archive itself, the
     * candidates were regular files, and none of the targets is a directory
     * or refused at restore time.
     */
    lemma BackupRestoreRoundTrip(fs: Fs, cs: seq<Path>, types: seq<string>, clock: Clock, fault: bool,
                                 current: Fs, locked: set<Path>)
      requires Faithful(codec)
      requires IsCandidateList(fs, cs, types)
      requires BackupEffect(fs, cs, types, clock, fault).1 == Returned(Some(ArchivePath(types, clock)))
      requires ArchivePath(types, clock) !in cs && home + MANIFEST_ENTRY !in cs
      requires forall p | p in cs && p in fs :: fs[p].File?
      requires var archive, after := ArchivePath(types, clock), BackupEffect(fs, cs, types, clock, fault).0;
        archive in after && archive in current && current[archive] == after[archive]
      requires forall p | p in cs :: Writable(current, locked, p)
      requires Writable(current, locked, home + MANIFEST_ENTRY)
      ensures var (restored, ok) := RestoreFrom(current, locked, home, ArchivePath(types, clock), codec);
        && ok
        && (forall p | p in cs && MemberOf(fs, home, p).Some? :: p in restored && restored[p] == File(fs[p].data, true))
    {
      var archive := ArchivePath(types, clock);
      var manifest := dumps(ManifestOf(fs, cs, types, clock));
      BackupOutcome(fs, cs, types, clock, fault);
      BackupFileNames(backupDir, clock.nameStamp, VERSION, types);
      FileMembersFrame(fs, fs[archive := File([], true)], home, cs);
      RestoreRoundTrip(fs, home, cs, manifest, codec, current, locked, archive);
    }

    /**
     * `restore_backup`: a missing archive gives false (even for a dry run);
     * a dry run gives true; otherwise a snapshot is taken (an exception from
     * it escapes) and the archive is extracted into home, false on failure.
     */
    ghost predicate RestoreOutcome(fs: Fs, fs': Fs, r: Completion<bool>, archive: Path, dryRun: bool, clock: Clock, fault: bool) {
      if archive !in fs then fs' == fs && r == Returned(false)
      else if dryRun then fs' == fs && r == Returned(true)
      else exists snapshotted, snap ::
        SelectiveOutcome(fs, snapshotted, snap, ALL_CATEGORIES, clock, fault) &&
        if snap.Raised? then fs' == snapshotted && r.Raised?
        else
          var (restored, ok) := RestoreFrom(snapshotted, disk.locked, home, archive, codec);
          fs' == restored && r == Returned(ok)
    }

    /** `restore_backup`. */
    method RestoreBackup(archive: Path, dryRun: bool, clock: Clock, fault: bool) returns (result: Completion<bool>)
      modifies disk
      ensures RestoreOutcome(old(disk.nodes), disk.nodes, result, archive, dryRun, clock, fault)
    {
      if archive !in disk.nodes {
        return Returned(false);
      }
      if dryRun {
        return Returned(true);
      }
      ghost var before := disk.nodes;
      var snap := TakeSnapshot(clock, fault);
      ghost var snapshotted := disk.nodes;
      if snap.Raised? {
        return Raised;
      }
      if !(archive in disk.nodes && disk.nodes[archive].File? && disk.nodes[archive].readable) {
        return Returned(false);
      }
      var ok := false;
      match codec.unpack(disk.nodes[archive].data) {
        case Some(ms) =>
          ok := ExtractMembers(disk, home, ms);
        case None =>
      }
      result := Returned(ok);
      assert (disk.nodes, ok) == RestoreFrom(snapshotted, disk.locked, home, archive, codec);
    }

    /**
     * The round trip through `restore_backup`: restoring an archive that holds
     * a backup of the candidates `cs` of `src` either raises (from the
     * snapshot) or returns true and puts every regular file it archived back
     * at the path it was taken from. This needs the snapshot's own two files
     * to be none of the paths involved, the candidates to have been regular
     * files other than `home/manifest.json`, and no target to be a directory
     * or refused.
     */
    lemma RestoreRoundTripAfterSnapshot(fs: Fs, fs': Fs, r: Completion<bool>, archive: Path, clock: Clock, fault: bool,
                                        src: Fs, cs: seq<Path>, manifest: Bytes)
      requires Faithful(codec)
      requires RestoreOutcome(fs, fs', r, archive, false, clock, fault)
      requires archive in fs && fs[archive] == File(codec.pack(ArchiveMembers(src, home, cs, manifest)), true)
      requires Distinct(cs) && home + MANIFEST_ENTRY !in cs
      requires forall p | p in cs && p in src :: src[p].File?
      requires forall p | p in cs :: Writable(fs, disk.locked, p)
      requires Writable(fs, disk.locked, home + MANIFEST_ENTRY)
      requires var snapshotFiles := {ArchivePath(ALL_CATEGORIES, clock), SidecarPath(ALL_CATEGORIES, clock)};
        archive !in snapshotFiles && home + MANIFEST_ENTRY !in snapshotFiles && forall p | p in cs :: p !in snapshotFiles
      ensures r.Raised? || r == Returned(true)
      ensures r == Returned(true) ==>
        forall p | p in cs && MemberOf(src, home, p).Some? :: p in fs' && fs'[p] == File(src[p].data, true)
    {
      var snapshotted, snap :| SelectiveOutcome(fs, snapshotted, snap, ALL_CATEGORIES, clock, fault) &&
        if snap.Raised? then fs' == snapshotted && r.Raised?
        else
          var (restored, ok) := RestoreFrom(snapshotted, disk.locked, home, archive, codec);
          fs' == restored && r == Returned(ok);
      if !snap.Raised? {
        SelectiveOutcomeFrame(fs, snapshotted, snap, ALL_CATEGORIES, clock, fault, archive);
        SelectiveOutcomeFrame(fs, snapshotted, snap, ALL_CATEGORIES, clock, fault, home + MANIFEST_ENTRY);
        forall p | p in cs ensures Writable(snapshotted, disk.locked, p) {
          SelectiveOutcomeFrame(fs, snapshotted, snap, ALL_CATEGORIES, clock, fault, p);
        }
        RestoreRoundTrip(src, home, cs, manifest, codec, snapshotted, disk.locked, archive);
      }
    }

    /** The quarantine directory of a safe reset. */
    function QuarantineDir(stamp: string): Path {
      backupDir + ["quarantine-" + stamp]
    }

    /**
     * The safe reset after its snapshot: create the quarantine directory,
     * then move each root that exists into it. Nothing catches a failure.
     */
    function QuarantineEffect(fs: Fs, q: Path): (Fs, Completion<bool>) {
      if !DirCreatable(fs, disk.locked, q) then (fs, Raised)
      else
        var made := if q in fs then fs else fs[q := Dir];
        var (after, ok) := MoveAll(made, disk.locked, ExistingEntries(made, paths), q);
        (after, if ok then Returned(true) else Raised)
    }

    /** The destructive reset: remove each root that exists. Nothing catches a failure. */
    function WipeEffect(fs: Fs): (Fs, Completion<bool>) {
      var (after, ok) := WipeAll(fs, disk.locked, ExistingEntries(fs, paths));
      (after, if ok then Returned(true) else Raised)
    }

    /** `reset_warp_data`. */
    ghost predicate ResetOutcome(fs: Fs, fs': Fs, r: Completion<bool>, safeMode: bool, clock: Clock, fault: bool, stamp: string) {
      if safeMode then
        exists snapshotted, snap ::
          SelectiveOutcome(fs, snapshotted, snap, ALL_CATEGORIES, clock, fault) &&
          if snap.Raised? then fs' == snapshotted && r.Raised?
          else (fs', r) == QuarantineEffect(snapshotted, QuarantineDir(stamp))
      else (fs', r) == WipeEffect(fs)
    }

    /** `reset_warp_data`. */
    method ResetWarpData(safeMode: bool, clock: Clock, fault: bool, stamp: string) returns (result: Completion<bool>)
      modifies disk
      ensures ResetOutcome(old(disk.nodes), disk.nodes, result, safeMode, clock, fault, stamp)
    {
      if safeMode {
        var snap := TakeSnapshot(clock, fault);
        ghost var snapshotted := disk.nodes;
        if snap.Raised? {
          return Raised;
        }
        var q := QuarantineDir(stamp);
        var made := disk.MakeDir(q);
        if !made {
          return Raised;
        }
        var existing := ExistingEntries(disk.nodes, paths);
        var ok := MoveRootsTo(disk, existing, q);
        result := if ok then Returned(true) else Raised;
        assert (disk.nodes, result) == QuarantineEffect(snapshotted, q);
      } else {
        var existing := ExistingEntries(disk.nodes, paths);
        var ok := RemoveRoots(disk, existing);
        result := if ok then Returned(true) else Raised;
      }
    }

    /** The roots lie neither inside the backup directory nor above it. */
    predicate RootsApart() {
      forall e | e in paths :: !IsUnder(e.1, backupDir) && !IsUnder(backupDir, e.1)
    }

    /** The roots of the table that exist, stated over the table. */
    lemma ExistingRootsPresent(fs: Fs)
      ensures PresentOrCleared(fs, ExistingEntries(fs, paths))
      ensures forall e | e in paths && e.1 in fs :: e in ExistingEntries(fs, paths)
    {
    }

    /** The quarantine directory lies apart from every root. */
    lemma QuarantineSeparate(stamp: string)
      requires RootsApart()
      ensures Separate(paths, QuarantineDir(stamp))
    {
      var q := QuarantineDir(stamp);
      assert IsChildOf(q, backupDir);
      forall e | e in paths ensures !IsUnder(e.1, q) && !IsUnder(q, e.1) {
        if IsUnder(e.1, q) {
          UnderComparable(e.1, backupDir, q);
        }
        if IsUnder(q, e.1) {
          assert IsUnder(backupDir, q);
          UnderTransitive(backupDir, q, e.1);
        }
      }
    }

    /**
     * Where the quarantine step keeps the data: when it completes, every
     * path below a root that existed is found, with its node, at the same
     * place below `quarantine-<stamp>/<key>` (inside it, when that already
     * was a directory), where `key` names the first root in table order that
     * holds the path.
     */
    lemma QuarantineKeepsData(fs: Fs, stamp: string)
      requires RootsApart() && WellFormedTable(paths)
      ensures var (after, r) := QuarantineEffect(fs, QuarantineDir(stamp));
        var q := QuarantineDir(stamp);
        r == Returned(true) ==> forall i, p | p in fs && MovesWith(fs, paths, i, p) ::
          QuarantinedAt(fs, paths, i, q, p) in after && after[QuarantinedAt(fs, paths, i, q, p)] == fs[p]
    {
      var q := QuarantineDir(stamp);
      QuarantineSeparate(stamp);
      if DirCreatable(fs, disk.locked, q) {
        var made := if q in fs then fs else fs[q := Dir];
        MoveAllExisting(made, made, disk.locked, paths, q);
        MoveAllRelocates(made, disk.locked, paths, q);
        forall e | e in paths ensures e.1 != q && q + [e.0] != q {
          assert !IsUnder(q, e.1);
          assert |q + [e.0]| != |q|;
        }
        forall i, p | p in fs && MovesWith(fs, paths, i, p)
          ensures MovesWith(made, paths, i, p) && p in made && made[p] == fs[p]
          ensures QuarantinedAt(made, paths, i, q, p) == QuarantinedAt(fs, paths, i, q, p)
        {
          assert paths[i] in paths;
          MovesWithTransfer(fs, made, paths, q, i, p);
          assert p != q;
        }
      }
    }

    /**
     * The quarantine step: it never returns false; when it completes,
     * nothing is left at or below any root that existed, and everything
     * below such a root is kept below the quarantine directory (as
     * `QuarantineKeepsData` places it); everything outside the quarantine
     * directory and the roots is as it was, and nothing new appears outside
     * the quarantine directory.
     */
    lemma QuarantineMovesRoots(fs: Fs, stamp: string)
      requires RootsApart() && WellFormedTable(paths)
      ensures var (after, r) := QuarantineEffect(fs, QuarantineDir(stamp));
        var q := QuarantineDir(stamp);
        && r != Returned(false)
        && (r == Returned(true) ==> forall e | e in paths && e.1 in fs :: Cleared(after, e.1))
        && (r == Returned(true) ==> forall i, p | p in fs && MovesWith(fs, paths, i, p) ::
              QuarantinedAt(fs, paths, i, q, p) in after && after[QuarantinedAt(fs, paths, i, q, p)] == fs[p])
        && (forall p | !IsUnder(q, p) && (forall e | e in paths :: !IsUnder(e.1, p)) ::
              (p in after <==> p in fs) && (p in fs ==> after[p] == fs[p]))
        && (forall p | p in after && !IsUnder(q, p) :: p in fs)
    {
      var q := QuarantineDir(stamp);
      QuarantineSeparate(stamp);
      QuarantineKeepsData(fs, stamp);
      if DirCreatable(fs, disk.locked, q) {
        var made := if q in fs then fs else fs[q := Dir];
        var entries := ExistingEntries(made, paths);
        ExistingRootsPresent(made);
        MoveAllClears(made, disk.locked, entries, q);
        forall p | !IsUnder(q, p) && (forall e | e in paths :: !IsUnder(e.1, p))
          ensures var after := MoveAll(made, disk.locked, entries, q).0;
            (p in after <==> p in fs) && (p in fs ==> after[p] == fs[p])
        {
          MoveAllFrame(made, disk.locked, entries, q, p);
        }
        forall p | p in MoveAll(made, disk.locked, entries, q).0 && !IsUnder(q, p) ensures p in fs {
          MoveAllOrigin(made, disk.locked, entries, q, p);
        }
      }
    }

    /**
     * The destructive reset: it never returns false and never creates
     * anything; when it completes nothing is left at or below any root that
     * existed, and a path below none of the roots is never removed.
     */
    lemma WipeRemovesRoots(fs: Fs)
      ensures var (after, r) := WipeEffect(fs);
        && r != Returned(false)
        && (forall p | p in after :: p in fs && after[p] == fs[p])
        && (r == Returned(true) ==> forall e | e in paths && e.1 in fs :: Cleared(after, e.1))
        && (forall p | p in fs && (forall e | e in paths :: !IsUnder(e.1, p)) :: p in after)
    {
      var entries := ExistingEntries(fs, paths);
      ExistingRootsPresent(fs);
      WipeAllShrinks(fs, disk.locked, entries);
      WipeAllClears(fs, disk.locked, entries);
      forall p | p in fs && (forall e | e in paths :: !IsUnder(e.1, p)) ensures p in WipeAll(fs, disk.locked, entries).0 {
        WipeAllFrame(fs, disk.locked, entries, p);
      }
    }

    /**
     * The safe reset as a whole: it returns true or raises; when it returns,
     * nothing is left at or below any root that existed, and every path
     * outside the backup directory and the roots is as it was.
     */
    lemma SafeResetQuarantines(fs: Fs, fs': Fs, r: Completion<bool>, clock: Clock, fault: bool, stamp: string)
      requires RootsApart() && WellFormedTable(paths)
      requires ResetOutcome(fs, fs', r, true, clock, fault, stamp)
      ensures r == Returned(true) || r.Raised?
      ensures r == Returned(true) ==> forall e | e in paths && e.1 in fs :: Cleared(fs', e.1)
      ensures r == Returned(true) ==> forall i, p | p in fs && MovesWith(fs, paths, i, p) ::
        var t := QuarantinedAt(fs, paths, i, QuarantineDir(stamp), p);
        t in fs' && fs'[t] == fs[p]
      ensures forall p | !IsUnder(backupDir, p) && (forall e | e in paths :: !IsUnder(e.1, p)) ::
        (p in fs' <==> p in fs) && (p in fs ==> fs'[p] == fs[p])
    {
      var snapshotted, snap :| SelectiveOutcome(fs, snapshotted, snap, ALL_CATEGORIES, clock, fault) &&
        if snap.Raised? then fs' == snapshotted && r.Raised?
        else (fs', r) == QuarantineEffect(snapshotted, QuarantineDir(stamp));
      SelectiveOutcomeOutside(fs, snapshotted, snap, ALL_CATEGORIES, clock, fault);
      if !snap.Raised? {
        var q := QuarantineDir(stamp);
        QuarantineMovesRoots(snapshotted, stamp);
        forall e | e in paths && e.1 in fs ensures e.1 in snapshotted {
          assert !IsUnder(backupDir, e.1);
        }
        forall p | !IsUnder(backupDir, p) ensures !IsUnder(q, p) {
          if IsUnder(q, p) {
            assert IsUnder(backupDir, q);
            UnderTransitive(backupDir, q, p);
          }
        }
        SnapshotKeepsQuarantineSlots(fs, snapshotted, snap, clock, fault, stamp);
        forall i, p | p in fs && MovesWith(fs, paths, i, p)
          ensures MovesWith(snapshotted, paths, i, p) && p in snapshotted && snapshotted[p] == fs[p]
          ensures QuarantinedAt(snapshotted, paths, i, q, p) == QuarantinedAt(fs, paths, i, q, p)
        {
          assert paths[i] in paths;
          MovesWithTransfer(fs, snapshotted, paths, q, i, p);
          if IsUnder(backupDir, p) {
            UnderComparable(paths[i].1, backupDir, p);
          }
        }
      }
    }

    /** A snapshot leaves the roots and the entries `quarantine-<stamp>/<key>` as they were. */
    lemma SnapshotKeepsQuarantineSlots(fs: Fs, snapshotted: Fs, snap: Completion<Option<Path>>, clock: Clock, fault: bool, stamp: string)
      requires RootsApart()
      requires SelectiveOutcome(fs, snapshotted, snap, ALL_CATEGORIES, clock, fault)
      ensures forall e | e in paths :: (e.1 in fs <==> e.1 in snapshotted)
      ensures var q := QuarantineDir(stamp);
        forall e | e in paths ::
          (q + [e.0] in fs <==> q + [e.0] in snapshotted) && (q + [e.0] in fs ==> fs[q + [e.0]] == snapshotted[q + [e.0]])
    {
      var q := QuarantineDir(stamp);
      SelectiveOutcomeOutside(fs, snapshotted, snap, ALL_CATEGORIES, clock, fault);
      BackupFileNames(backupDir, clock.nameStamp, VERSION, ALL_CATEGORIES);
      forall e | e in paths
        ensures (q + [e.0] in fs <==> q + [e.0] in snapshotted) && (q + [e.0] in fs ==> fs[q + [e.0]] == snapshotted[q + [e.0]])
      {
        assert |q + [e.0]| == |backupDir| + 2;
        SelectiveOutcomeFrame(fs, snapshotted, snap, ALL_CATEGORIES, clock, fault, q + [e.0]);
      }
    }

    /**
     * `delete_local_database`: without a `state` root on disk, false and no
     * backup; otherwise a `database` backup (an exception from it escapes),
     * then every `*.sqlite*` entry of the state root is unlinked where that
     * succeeds; true exactly when something matched.
     */
    ghost predicate DeleteOutcome(fs: Fs, fs': Fs, r: Completion<bool>, clock: Clock, fault: bool) {
      match Lookup(paths, "state")
      case None => fs' == fs && r == Returned(false)
      case Some(state) =>
        if state !in fs then fs' == fs && r == Returned(false)
        else exists backedUp, b ::
          SelectiveOutcome(fs, backedUp, b, ["database"], clock, fault) &&
          if b.Raised? then fs' == backedUp && r.Raised?
          else
            var matched := Glob(backedUp, state, Containing(".sqlite"));
            fs' == UnlinkAll(backedUp, disk.locked, matched) && r == Returned(matched != {})
    }

    /** `delete_local_database`. */
    method DeleteLocalDatabase(clock: Clock, fault: bool) returns (result: Completion<bool>)
      modifies disk
      ensures DeleteOutcome(old(disk.nodes), disk.nodes, result, clock, fault)
    {
      var state := Lookup(paths, "state");
      if state.None? || state.value !in disk.nodes {
        return Returned(false);
      }
      var backup := BackupSelective(["database"], clock, fault);
      ghost var backedUp := disk.nodes;
      if backup.Raised? {
        return Raised;
      }
      var matched := Glob(disk.nodes, state.value, Containing(".sqlite"));
      UnlinkMatching(disk, matched);
      result := Returned(matched != {});
    }

    /**
     * The database deletion as a whole, for a state root other than the
     * backup directory: it returns true exactly when the root exists and
     * holds a `*.sqlite*` entry; afterwards no such entry is left unless it
     * is a directory or refused; every other path outside the backup
     * directory is as it was.
     */
    lemma DeleteRemovesDatabase(fs: Fs, fs': Fs, r: Completion<bool>, clock: Clock, fault: bool, state: Path)
      requires DeleteOutcome(fs, fs', r, clock, fault)
      requires Lookup(paths, "state") == Some(state) && state != backupDir
      ensures r != Returned(false) <==> state in fs && (r.Raised? || Glob(fs, state, Containing(".sqlite")) != {})
      ensures state in fs && r.Returned? ==> forall p | p in Glob(fs', state, Containing(".sqlite")) :: fs'[p].Dir? || p in disk.locked
      ensures forall p | !IsUnder(backupDir, p) && p !in Glob(fs, state, Containing(".sqlite")) ::
        (p in fs' <==> p in fs) && (p in fs ==> fs'[p] == fs[p])
    {
      if state in fs {
        var backedUp, b :| SelectiveOutcome(fs, backedUp, b, ["database"], clock, fault) &&
          if b.Raised? then fs' == backedUp && r.Raised?
          else
            var matched := Glob(backedUp, state, Containing(".sqlite"));
            fs' == UnlinkAll(backedUp, disk.locked, matched) && r == Returned(matched != {});
        DatabaseBackupKeepsOthers(fs, backedUp, b, clock, fault, state);
        if !b.Raised? {
          UnlinkAllEffect(backedUp, disk.locked, Glob(backedUp, state, Containing(".sqlite")));
        }
      }
    }

    /**
     * The `database` backup taken first changes no entry of a state root
     * other than the backup directory, and nothing outside the backup
     * directory.
     */
    lemma DatabaseBackupKeepsOthers(fs: Fs, backedUp: Fs, b: Completion<Option<Path>>, clock: Clock, fault: bool, state: Path)
      requires SelectiveOutcome(fs, backedUp, b, ["database"], clock, fault)
      requires state != backupDir
      ensures Glob(backedUp, state, Containing(".sqlite")) == Glob(fs, state, Containing(".sqlite"))
      ensures forall p | !IsUnder(backupDir, p) :: (p in backedUp <==> p in fs) && (p in fs ==> backedUp[p] == fs[p])
    {
      BackupFileNames(backupDir, clock.nameStamp, VERSION, ["database"]);
      forall p | IsChildOf(p, state) || !IsUnder(backupDir, p)
        ensures (p in backedUp <==> p in fs) && (p in fs ==> backedUp[p] == fs[p])
      {
        SelectiveOutcomeFrame(fs, backedUp, b, ["database"], clock, fault, p);
      }
    }
  }
}
