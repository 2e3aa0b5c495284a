# WARP backup engine: a verified model

This project models the local backup engine of the WARP data manager. The
engine is the `WARPManager` class of `warp-manager.py` and its near-copy
`WARPManagerEnhanced` in `warp-manager-enhanced.py`. It does the following:

- collects the terminal's configuration, state and profile files by category;
- writes them to a timestamped `.tar.zst` archive in `~/.warp-backups`, with a
  `manifest.json` member at the end and a `.manifest.json` sidecar beside the
  archive;
- lists the archives;
- restores an archive into the home directory;
- resets the terminal's data, either by moving it to a quarantine directory or
  by deleting it;
- deletes the local SQLite database.

All of this works over an abstract filesystem `Fs = map<Path, Node>`. A `Path`
is a sequence of name components, and a `Node` is a regular file (its bytes and
whether it can be read) or a directory.

- **Failures** come from `Disk.locked`, a set of paths the operating system
  refuses to create, remove, rename or overwrite, and from a `fault` flag for
  an error while streaming an archive. An exception that nothing catches is
  the `Raised` case of `Completion`.
- **Opaque parts** are parameters of the manager:
  - the clock readings (`Clock`);
  - `sys.platform` and the environment;
  - SHA-256 (`Bytes -> string`);
  - `json.dumps` of a manifest;
  - the tar+zstd byte format (`ArchiveCodec`, a pack/unpack pair). A "faithful"
    codec is one whose unpack inverts its pack.
- **The per-platform path table** from `get_warp_paths` / `_get_warp_paths` is
  a constructor input. It is an ordered table of `(key, root)` pairs.
- **The manager classes** hold these inputs as constants. Their methods change
  only `disk.nodes`.

`list(set(files_to_backup))` gives the candidates in an order that is not
determined. A backup is therefore specified relationally. `SelectiveOutcome`
allows any duplicate-free order of exactly the collected files, and every
property of a backup is proved for each such order.

Modules:

| module | file | contents |
|---|---|---|
| `Common` | `common.dfy` | `Option`, `Completion`, distinctness |
| `Names` | `names.dfy` | the string operations: glob tests, `suffix`, `with_suffix`, `"-".join`, `sorted` on names |
| `FileSystem` | `filesystem.dfy` | the filesystem and the `Disk` class with the operating-system calls the engine makes |
| `Selection` | `selection.dfy` | `get_existing_paths`, the six category rules, collection and de-duplication |
| `Catalog` | `catalog.dfy` | archive and sidecar names, `list_backups` |
| `Archive` | `archive.dfy` | hashing, the archive writer, extraction |
| `Housekeeping` | `housekeeping.dfy` | the move, remove and unlink loops of reset and delete |
| `Manager` | `manager.dfy` | `WARPManager` |
| `EnhancedManager` | `enhanced_manager.dfy` | `WARPManagerEnhanced` |

## Behaviour worth knowing

- **Hashes of skipped files.** `file_hashes` is filled for every candidate
  before the archive is written (warp-manager.py:195-196). A file that then
  fails to be added still has its hash in the manifest.
- **Manifest size.** The base manifest's `size` is always `0`
  (warp-manager.py:214). The enhanced one is the number of candidates
  (warp-manager-enhanced.py:462), which also counts files that were skipped.
- **Safe reset is not best-effort.** A failing `shutil.move` in the safe reset
  is not caught (warp-manager.py:297). The exception escapes and the roots not
  yet moved stay where they are.
- **Return value of `delete_local_database`.** It says whether any database
  file matched (warp-manager.py:333), not how many were deleted.
- **No "full" archive.** An empty category list collects nothing, so
  `backup_selective([])` returns `None`. The `full` scope is named but never
  written.
- **Unknown categories.** A category name outside the six is ignored without
  an error.
- **Failed cleanup.** When removing a partial archive fails, that exception
  escapes.

## Model

| member | source | states |
|---|---|---|
| `Selection.Lookup` | warp-manager.py:147 | `dict.get`: `Some` only with a value the table pairs with the key; `None` only when no entry has the key |
| `Selection.ExistingEntries` | warp-manager.py:99-101 | an entry is kept exactly when it is in the table and its path exists; nothing is added or renamed; keys stay unique; the enhanced class does the same at warp-manager-enhanced.py:385 |
| `Selection.LookupExisting` | warp-manager.py:143-147 | looking a key up among the existing roots gives that key's root exactly when the root exists |
| `Selection.CollectIsUnion` | warp-manager.py:145-185 | a path is collected exactly when one of the requested categories selects it |
| `Selection.ConfigCategories` | warp-manager.py:146-172 | `rules`: a direct child of the existing config root named `*.md` whose lower-cased name contains "rule" or "warp". `preferences`: a direct child named `*.json`. Both directions; nothing without the root |
| `Selection.StateCategories` | warp-manager.py:153-178 | `database`/`logs`: a direct child of the existing state root whose name contains `.sqlite`/`.log`. `mcp`: every regular file below `state/mcp` when that exists. Both directions |
| `Selection.ProfilesCategory` | warp-manager.py:180-185 | `profiles`: exactly the regular files below the existing profiles root |
| `Selection.UnknownCategorySelectsNothing` | warp-manager.py:145-185 | a name that is not one of the six categories selects nothing |
| `Selection.NothingWithoutRootsOrCategories` | warp-manager.py:143-145 | no categories, or no existing roots, collect nothing |
| `Selection.AppendSelected` | warp-manager.py:149-151 | one `for f in glob: if test: append(f)` loop adds exactly the matches the test keeps to what was found so far |
| `Selection.CollectCandidates` | warp-manager.py:140-185 | the per-category loops leave in the list exactly the union of the requested categories' matches; the enhanced class does the same at warp-manager-enhanced.py:382-428 |
| `Selection.Deduplicate` | warp-manager.py:188 | `list(set(...))` holds each found path exactly once: no duplicates, the same elements, as many entries as distinct paths; the enhanced class does the same at warp-manager-enhanced.py:430 |
| `Names.ToLower` | warp-manager.py:150 | `name.lower()` keeps the length and leaves no capital letter; each capital becomes the lower-case letter at the same place in the alphabet, and every other character is kept |
| `Names.ToLowerIdempotent` | warp-manager.py:150 | lower-casing an already lower-cased name changes nothing |
| `Names.ContainsExactly` | warp-manager.py:150 | Python's `in` on strings, also used for the `*part*` globs: it holds exactly when the part occurs at some offset of the name |
| `Names.Suffix` | warp-manager.py:247 | `suffix` is empty, or is the part from the last dot, which is neither first nor last in the name |
| `Names.WithSuffixOfExtension` | warp-manager.py:225 | `with_suffix` on `stem.ext` replaces only the final extension and keeps the stem |
| `Names.SplitJoin` | warp-manager.py:133 | joining the categories with `-` loses nothing when no category contains `-`: splitting gives them back |
| `Names.SortNames` | warp-manager.py:247 | `sorted` on distinct names lists each name once, in strictly increasing `str` order |
| `Catalog.ArchiveAndSidecarNames` | warp-manager.py:132-134 | an archive name ends in `.tar.zst` and is listed; its sidecar is the name with the final `.zst` replaced by `.manifest.json`, and is not listed |
| `Catalog.TarZstNames` | warp-manager.py:225 | `with_suffix('.manifest.json')` of `<stem>.tar.zst` is `<stem>.tar.manifest.json`, which is not listed |
| `Catalog.BackupFileNames` | warp-manager.py:132-135 | the archive and the sidecar are two different entries of the backup directory; the archive is listed and the sidecar is not; the enhanced class names its files the same way at warp-manager-enhanced.py:375-378 |
| `Catalog.ScopeNamesCategories` | warp-manager.py:133 | the scope of a non-empty category list gives the list back when no name holds `-` |
| `Catalog.ListBackupsContents` | warp-manager.py:243-247 | a missing directory gives `[]`; a regular file raises; a directory gives exactly its entries with suffix `.zst`, each once, in strictly increasing name order; the enhanced class does the same at warp-manager-enhanced.py:528-532 |
| `Catalog.SidecarsNeverListed` | warp-manager.py:243-247 | the sidecar of an archive the engine names never appears in the listing |
| `Archive.CalculateFileHash` | warp-manager.py:103-113 | the chunked hashing loop gives the digest of the whole file, or `""` when the file cannot be read; the enhanced class does the same at warp-manager-enhanced.py:492-502 |
| `Archive.HashesCoverCandidates` | warp-manager.py:195-196 | for duplicate-free candidates, the hash map has exactly one key per candidate, the skipped ones included |
| `Archive.HashAll` | warp-manager.py:195-196 | the hashing loop maps each candidate to its file's digest; the enhanced class does the same at warp-manager-enhanced.py:437-438 |
| `Archive.MemberRestoresToSource` | warp-manager.py:207-208 | a member's name is its path relative to home: home joined with the name is the source path; a regular file's member carries its bytes |
| `Archive.ArchiveMembers` | warp-manager.py:213-221 | the manifest member is always the last member of the archive |
| `Archive.FileMembersConcat` | warp-manager.py:204-211 | the member loop works candidate by candidate: the members of a concatenation are the two parts' members in order |
| `Archive.SkippedCandidate` | warp-manager.py:209-211 | a candidate that cannot be added contributes no member, and the loop goes on |
| `Archive.FileMembersFrom` | warp-manager.py:204-208 | a member is archived exactly when some candidate yields it |
| `Archive.FileMembersDistinct` | warp-manager.py:188-208 | duplicate-free candidates give members with distinct names, so a file selected twice is archived once |
| `Archive.FileMembersCount` | warp-manager-enhanced.py:446-452 | at most one member per candidate; exactly one each only when no candidate is skipped |
| `Archive.StreamMembers` | warp-manager.py:203-211 | the streaming loop writes exactly the members of the candidates that can be added, in candidate order |
| `Archive.WriteArchiveOutcome` | warp-manager.py:199-237 | success exactly when both files can be written and streaming does not fail, and then the archive holds the members and the manifest and the sidecar the manifest; `None` leaves no file at the archive path; an escaping exception changes nothing |
| `Archive.WriteArchiveFrame` | warp-manager.py:199-227 | writing changes nothing but the archive and the sidecar |
| `Archive.RemovePartial` | warp-manager.py:233-237 | the `except` branch unlinks a file left at the archive path and returns `None`; if the unlink fails, its exception escapes |
| `Archive.WriteArchiveFiles` | warp-manager.py:199-231 | the `try` block's open, stream and sidecar steps, with `Cleanup` on each failure |
| `Archive.ExtractAllFrame` | warp-manager.py:272-273 | extraction touches only its members' targets under home |
| `Archive.ExtractAllRestores` | warp-manager.py:272-273 | with distinct member names and writable targets, extraction succeeds and leaves every regular member's bytes at home joined with its name |
| `Archive.ExtractMembers` | warp-manager.py:272-273 | the extraction loop stops at the first member it cannot write and keeps what it wrote before |
| `Archive.RestoreRoundTrip` | warp-manager.py:265-276 | restoring an archive the writer produced puts every archived file back at the path it came from, and the manifest at `home/manifest.json` |
| `Housekeeping.MoveRootsTo` | warp-manager.py:294-298 | the quarantine loop moves each existing root to `quarantine/<key>` and stops at the first failing move |
| `Housekeeping.MoveAllOrigin` | warp-manager.py:294-298 | moving creates nothing outside the quarantine directory |
| `Housekeeping.MoveAllFrame` | warp-manager.py:294-298 | a path outside the quarantine directory and below none of the roots is left as it was |
| `Housekeeping.MoveAllRelocates` | warp-manager.py:294-298 | when the loop completes, every path that was at or below an existing root is found, with its node, at the same place below the target `shutil.move` chose for that root's `quarantine/<key>`; a path below several roots travels with the first of them in table order |
| `Housekeeping.MoveAllExisting` | warp-manager.py:294-297 | filtering the table by existence first and then skipping roots that do not exist give the same loop |
| `Housekeeping.MoveAllClears` | warp-manager.py:294-298 | when the loop completes, nothing is left at or below any root that was there or already cleared |
| `Housekeeping.RemoveRoots` | warp-manager.py:304-307 | the destructive loop removes each existing root's tree and stops at the first failing `rmtree` |
| `Housekeeping.WipeAllShrinks` | warp-manager.py:304-307 | removal creates and changes nothing: whatever remains was there with the same content |
| `Housekeeping.WipeAllFrame` | warp-manager.py:304-307 | a path below none of the roots is never removed |
| `Housekeeping.WipeAllClears` | warp-manager.py:304-307 | when the loop completes, nothing is left at or below any root |
| `Housekeeping.UnlinkMatching` | warp-manager.py:325-331 | the unlink loop removes each matched path that can be unlinked; a failure is reported and skipped |
| `Housekeeping.UnlinkAllEffect` | warp-manager.py:325-331 | a matched path that survives is a directory or refused; unmatched paths are unchanged; nothing is created |
| `FileSystem.RelativeTo` | warp-manager.py:207 | `relative_to` succeeds exactly for paths under the base, and the base joined with the result is the path |
| `FileSystem.MoveSubtreeRelocates` | warp-manager.py:297 | `shutil.move` puts each path below the source at the same place below the target, leaves nothing below the source, and keeps the rest |
| `FileSystem.Disk.WriteFile` | warp-manager.py:200 | `open(p, 'wb')` succeeds exactly when `p` is not a directory and not refused, and then `p` holds the data |
| `FileSystem.Disk.Unlink` | warp-manager.py:328 | `unlink` succeeds exactly on an existing non-directory that is not refused, and removes only it |
| `FileSystem.Disk.MakeDir` | warp-manager.py:95 | `mkdir(exist_ok=True)` succeeds on an existing directory or a free, non-refused path |
| `FileSystem.Disk.RemoveTree` | warp-manager.py:306 | `rmtree` succeeds exactly on a directory with nothing refused at or below it |
| `FileSystem.Disk.Move` | warp-manager.py:297 | `shutil.move` succeeds exactly when the source exists and is not refused, the target is not refused, not inside the source and free (a file may replace a file), and then relocates the source's tree |
| `Manager.WarpManager.constructor` | warp-manager.py:92-97 | `home/.warp-backups` is created if missing and is a directory afterwards; the path table is recorded |
| `Manager.WarpManager.BackupSelective` | warp-manager.py:130-237 | the outcome is that of some duplicate-free order of exactly the collected files |
| `Manager.WarpManager.TakeSnapshot` | warp-manager.py:239-241 | a snapshot is a backup of all six categories |
| `Manager.WarpManager.NothingToBackUp` | warp-manager.py:190-192 | with nothing collected (no categories, no existing roots, or no matches) the result is `None` and nothing is written |
| `Manager.WarpManager.BackupOutcome` | warp-manager.py:190-237 | the candidate list is empty exactly when nothing was collected; success exactly when something was collected, both files can be written and streaming does not fail, and then with the archive and sidecar contents; the other `None` outcomes leave no archive; an exception changes nothing |
| `Manager.WarpManager.BackupManifestContents` | warp-manager.py:195-214 | the manifest has one hash per collected file, the skipped ones included, each that file's digest; size 0; version `1.1.1`; the requested types; the platform; not encrypted; the user and host from the environment |
| `Manager.WarpManager.BackupTouchesOnlyItsFiles` | warp-manager.py:199-237 | a backup changes nothing but its archive and sidecar |
| `Manager.WarpManager.SelectiveOutcomeFrame` | warp-manager.py:130-237 | whatever the candidate order, a backup changes nothing but its archive and sidecar |
| `Manager.WarpManager.SelectiveOutcomeOutside` | warp-manager.py:130-237 | a backup changes nothing outside the backup directory |
| `Manager.WarpManager.ArchiveReadsBack` | warp-manager.py:199-222 | a successful backup's archive unpacks to the file members followed by the manifest member, with distinct names |
| `Manager.WarpManager.BackupRestoreRoundTrip` | warp-manager.py:199-276 | restoring a backup's archive, still intact, brings every archived file back with its content at backup time |
| `Manager.WarpManager.RestoreBackup` | warp-manager.py:249-280 | a missing archive gives `False` with no snapshot, even for a dry run; a dry run gives `True` and changes nothing; otherwise a snapshot, then extraction into home, `False` on failure |
| `Manager.WarpManager.RestoreRoundTripAfterSnapshot` | warp-manager.py:259-276 | the snapshot taken before a restore never prevents the restore of a backup archive: the result is `True` with every archived file back, unless the snapshot raised |
| `Manager.WarpManager.ResetWarpData` | warp-manager.py:282-310 | safe mode takes a snapshot, then moves the existing roots into `quarantine-<stamp>`; destructive mode removes them; nothing catches a failure |
| `Manager.WarpManager.QuarantineMovesRoots` | warp-manager.py:291-301 | never `False`; on `True` no existing root is left and every path that was at or below one is found, with its content, at the same place below `quarantine-<stamp>/<key>` of the first root in table order holding it; paths outside the quarantine directory and the roots are kept; nothing new appears outside the quarantine directory |
| `Manager.WarpManager.QuarantineKeepsData` | warp-manager.py:291-298 | after `mkdir` of the quarantine directory and the move loop, a `True` result means every path that was at or below an existing root holds its old content below that root's `quarantine-<stamp>/<key>` |
| `Manager.WarpManager.WipeRemovesRoots` | warp-manager.py:302-310 | never `False`; no archive and nothing new; on `True` no existing root is left; paths below none of the roots stay |
| `Manager.WarpManager.SafeResetQuarantines` | warp-manager.py:284-301 | a safe reset returns `True` or raises; on `True` every root that existed is gone and its content, as it was before the reset, is found at the same place below `quarantine-<stamp>/<key>`; paths outside the backup directory and the roots are kept |
| `Manager.WarpManager.DeleteLocalDatabase` | warp-manager.py:312-333 | no state root gives `False` with no backup; otherwise a `database` backup, then each matching file unlinked where possible, `True` exactly when something matched |
| `Manager.WarpManager.DeleteRemovesDatabase` | warp-manager.py:312-333 | the result is other than `False` exactly when the state root exists and a database file matched (or the backup raised); surviving matches are directories or refused; only the matches change outside the backup directory |
| `Manager.WarpManager.DatabaseBackupKeepsOthers` | warp-manager.py:320-325 | the `database` backup leaves the files the deletion then matches, and everything outside the backup directory, unchanged |
| `EnhancedManager.WarpManagerEnhanced.constructor` | warp-manager-enhanced.py:318-325 | `home/.warp-backups` exists as a directory afterwards; the path table is recorded |
| `EnhancedManager.WarpManagerEnhanced.BackupSelective` | warp-manager-enhanced.py:373-490 | the outcome is that of some duplicate-free order of exactly the collected files |
| `EnhancedManager.WarpManagerEnhanced.TakeSnapshot` | warp-manager-enhanced.py:504-506 | a snapshot is a backup of all six categories |
| `EnhancedManager.WarpManagerEnhanced.BackupWithSync` | warp-manager-enhanced.py:358-371 | the result is the backup's, whatever the upload does; an upload is attempted exactly when the backup produced an archive, an upload was asked for and the connection test passed |
| `EnhancedManager.WarpManagerEnhanced.NothingToBackUp` | warp-manager-enhanced.py:432-434 | with nothing collected the result is `None` and nothing is written |
| `EnhancedManager.WarpManagerEnhanced.BackupOutcome` | warp-manager-enhanced.py:441-490 | success exactly when something was collected, both files can be written and streaming does not fail; the archive and sidecar contents; other `None` outcomes leave no archive; an exception changes nothing |
| `EnhancedManager.WarpManagerEnhanced.EnhancedManifestContents` | warp-manager-enhanced.py:437-466 | one hash per collected file; `size` equals the number of hashes and of collected files, so the archive may hold fewer members, and holds as many only when none is skipped; GitHub fields empty; version `1.2.0`; not encrypted |
| `EnhancedManager.WarpManagerEnhanced.SelectiveOutcomeFrame` | warp-manager-enhanced.py:441-490 | whatever the candidate order, a backup changes nothing but its archive and sidecar |

## Left out

- Printed messages are not modelled. They change no state.
- The GTK interface, `GitHubSync`, `WARPScheduler`, `sync_all_to_github` and
  the command-line `main` functions are outside the backup engine. They consist
  of user interface, network, threads and argument parsing.
- OS detection in `get_warp_paths` / `_get_warp_paths` is not modelled. The
  resulting table is a constructor input.
- The upload in `backup_with_sync` is not modelled.
  - `EnhancedManager.WarpManagerEnhanced.BackupWithSync`: the upload's own
    result is not modelled, because it only selects a message. The connection
    test is the `connected` parameter.
- Byte formats are not modelled: tar, zstd, the JSON layout and SHA-256
  internals. Each is a parameter function.
- The temporary manifest file is not modelled. Only its content, as the
  archive's last member, is.
- Clocks are parameters. The archive name, the manifest id and the timestamp
  come from `Clock`, and the quarantine stamp is a parameter.
- Lower-casing folds only ASCII letters. Python's full Unicode case folding is
  not modelled.
- Glob matching is case-sensitive, as on Linux.
- `Archive.MemberOf`: a directory candidate is archived as a single directory
  member. The recursive descent `tar.add` makes into a directory is not
  modelled. The category rules select regular files, except when a
  glob-matched directory is named like `*.sqlite*`, `*.log*`, `*.md` or
  `*.json`.
- Extraction is simplified. Tar's link members, permissions, ownership and
  path filters are not modelled, and neither is creating the parent
  directories of a target. The filesystem keeps no parent/child invariant.
- Corruption partway through reading an archive is not modelled separately
  from an archive that cannot be decoded.
- Partial progress inside a single `rmtree` or `shutil.move` is not modelled,
  nor is the copy-then-delete fallback of `shutil.move` across devices. Each
  call either completes or changes nothing.
- A sidecar that fails after being partly written is treated as one that was
  never opened.
- `Manager.WarpManager.constructor` and
  `EnhancedManager.WarpManagerEnhanced.constructor` require that the backup
  directory can be created, where the code raises `FileExistsError` otherwise.
  The class would not exist in that case, so the failure is stated as a
  precondition.
- `Manager.WarpManager.QuarantineMovesRoots`,
  `Manager.WarpManager.QuarantineKeepsData` and
  `Manager.WarpManager.SafeResetQuarantines` require the path table's keys to
  be unique, as the keys of the dictionary `get_warp_paths` returns are.
- `file_hashes` is keyed by the path itself rather than by `str(path)`. The two
  are in one-to-one correspondence.
- A category name containing `/` is not treated specially. It only affects the
  archive's file name, which the model keeps as one name component.
