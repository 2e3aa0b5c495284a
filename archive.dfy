/**
 * Backup archives: hashing the candidate files, streaming them into a
 * tar+zstd archive with the manifest last, removing a partial archive when
 * writing fails, and extracting an archive into the home directory.
 *
 * The tar stream inside zstd is reduced to what it carries, a list of
 * members; the byte format is a pair of functions, and SHA-256 is a function
 * from bytes to a digest string.
 */
module Archive {
  import opened Common
  import opened FileSystem

  /** What a tar member holds: a regular file's bytes, or a directory header. */
  datatype Content = Regular(data: Bytes) | Directory

  /** A tar member: its name (relative to the home directory) and content. */
  datatype Member = Member(name: Path, content: Content)

  /** The tar+zstd byte format: writing a member list, and reading one back (nothing for a corrupt archive). */
  datatype ArchiveCodec = ArchiveCodec(pack: seq<Member> -> Bytes, unpack: Bytes -> Option<seq<Member>>)

  /** Reading an archive back gives the members that were written. */
  ghost predicate Faithful(codec: ArchiveCodec) {
    forall members :: codec.unpack(codec.pack(members)) == Some(members)
  }

  /** The member that carries the manifest. */
  const MANIFEST_ENTRY: Path := ["manifest.json"]

  function ManifestMember(manifest: Bytes): Member {
    Member(MANIFEST_ENTRY, Regular(manifest))
  }

  /** `f.read(4096)`: the size of the chunks the hasher is fed. */
  const CHUNK_SIZE := 4096

  /**
   * What `calculate_file_hash` returns: the digest of the file's bytes, or the
   * empty string when the path cannot be opened for reading (missing, a
   * directory, or unreadable); the error is caught.
   */
  function FileDigest(fs: Fs, p: Path, sha256: Bytes -> string): string {
    if p in fs && fs[p].File? && fs[p].readable then sha256(fs[p].data) else ""
  }

  /** `calculate_file_hash`: the file is fed to the hasher chunk by chunk. */
  method CalculateFileHash(disk: Disk, p: Path, sha256: Bytes -> string) returns (digest: string)
    ensures digest == FileDigest(disk.nodes, p, sha256)
  {
    if !(p in disk.nodes && disk.nodes[p].File? && disk.nodes[p].readable) {
      return "";
    }
    var data := disk.nodes[p].data;
    // What the hasher has been fed so far.
    var absorbed: Bytes := [];
    var pos := 0;
    while pos < |data|
      invariant pos <= |data|
      invariant absorbed == data[..pos]
      decreases |data| - pos
    {
      var end := if |data| - pos < CHUNK_SIZE then |data| else pos + CHUNK_SIZE;
      absorbed := absorbed + data[pos..end];
      pos := end;
    }
    assert absorbed == data;
    digest := sha256(absorbed);
  }

  /** `file_hashes`: one entry per candidate, keyed by its path. */
  function HashesOf(fs: Fs, candidates: seq<Path>, sha256: Bytes -> string): map<Path, string> {
    map p | p in candidates :: FileDigest(fs, p, sha256)
  }

  /**
   * Every candidate has a hash entry, skipped ones included, and a
   * duplicate-free candidate list has exactly as many entries as candidates.
   */
  lemma {:induction false} HashesCoverCandidates(fs: Fs, candidates: seq<Path>, sha256: Bytes -> string)
    requires Distinct(candidates)
    ensures HashesOf(fs, candidates, sha256).Keys == Elems(candidates)
    ensures |HashesOf(fs, candidates, sha256)| == |candidates|
  {
    var hashes := HashesOf(fs, candidates, sha256);
    assert hashes.Keys == Elems(candidates);
    DistinctCard(candidates);
  }

  /** The hashing loop of `backup_selective`. */
  method HashAll(disk: Disk, candidates: seq<Path>, sha256: Bytes -> string) returns (hashes: map<Path, string>)
    ensures hashes == HashesOf(disk.nodes, candidates, sha256)
  {
    hashes := map[];
    for i := 0 to |candidates|
      invariant hashes == HashesOf(disk.nodes, candidates[..i], sha256)
    {
      var digest := CalculateFileHash(disk, candidates[i], sha256);
      assert candidates[..i + 1] == candidates[..i] + [candidates[i]];
      hashes := hashes[candidates[i] := digest];
    }
    assert candidates[..|candidates|] == candidates;
  }

  /**
   * `tar.add(p, arcname=p.relative_to(home))`: the member it writes, or nothing
   * where it raises and the candidate is skipped (not under home, gone, or
   * unreadable). A directory is written as a directory member.
   */
  function MemberOf(fs: Fs, home: Path, p: Path): Option<Member> {
    match RelativeTo(p, home)
    case None => None
    case Some(rel) =>
      if p !in fs then None
      else match fs[p]
        case Dir => Some(Member(rel, Directory))
        case File(data, readable) => if readable then Some(Member(rel, Regular(data))) else None
  }

  /** A member restores to the path it was taken from: `home / p.relative_to(home) == p`. */
  lemma MemberRestoresToSource(fs: Fs, home: Path, p: Path)
    requires MemberOf(fs, home, p).Some?
    ensures home + MemberOf(fs, home, p).value.name == p
    ensures p in fs && fs[p].File? ==> MemberOf(fs, home, p).value.content == Regular(fs[p].data)
  {
  }

  /** The members the candidate loop writes, in candidate order. */
  function FileMembers(fs: Fs, home: Path, candidates: seq<Path>): seq<Member> {
    if candidates == [] then []
    else
      var written := FileMembers(fs, home, candidates[..|candidates| - 1]);
      match MemberOf(fs, home, candidates[|candidates| - 1])
      case Some(m) => written + [m]
      case None => written
  }

  /** Everything the archive holds: the candidates' members, then the manifest. */
  function ArchiveMembers(fs: Fs, home: Path, candidates: seq<Path>, manifest: Bytes): (ms: seq<Member>)
    ensures |ms| > 0 && ms[|ms| - 1] == ManifestMember(manifest)
  {
    FileMembers(fs, home, candidates) + [ManifestMember(manifest)]
  }

  /**
   * The loop never stops early: the members of a concatenation are the
   * members of its parts, so a failing candidate only loses its own member.
   */
  lemma {:induction false} FileMembersConcat(fs: Fs, home: Path, before: seq<Path>, after: seq<Path>)
    ensures FileMembers(fs, home, before + after) == FileMembers(fs, home, before) + FileMembers(fs, home, after)
    decreases |after|
  {
    if after != [] {
      var init, last := after[..|after| - 1], after[|after| - 1];
      assert (before + after)[..|before + after| - 1] == before + init;
      assert (before + after)[|before + after| - 1] == last;
      FileMembersConcat(fs, home, before, init);
      match MemberOf(fs, home, last) {
        case Some(m) =>
          assert FileMembers(fs, home, before) + (FileMembers(fs, home, init) + [m])
              == (FileMembers(fs, home, before) + FileMembers(fs, home, init)) + [m];
        case None =>
      }
    } else {
      assert before + after == before;
    }
  }

  /**
   * The loop writes at most one member per candidate, and one for each
   * exactly when no candidate is skipped.
   */
  lemma {:induction false} FileMembersCount(fs: Fs, home: Path, candidates: seq<Path>)
    ensures |FileMembers(fs, home, candidates)| <= |candidates|
    ensures |FileMembers(fs, home, candidates)| == |candidates| <==> forall p | p in candidates :: MemberOf(fs, home, p).Some?
  {
    if candidates != [] {
      var init := candidates[..|candidates| - 1];
      var last := candidates[|candidates| - 1];
      FileMembersCount(fs, home, init);
      assert candidates == init + [last];
      assert forall p | p in candidates :: p in init || p == last;
      assert forall p | p in init :: p in candidates;
    }
  }

  /** A candidate `tar.add` rejects contributes no member. */
  lemma SkippedCandidate(fs: Fs, home: Path, p: Path)
    requires MemberOf(fs, home, p).None?
    ensures FileMembers(fs, home, [p]) == []
  {
    assert [p][..0] == [];
  }

  /** A member is written exactly when some candidate yields it. */
  lemma {:induction false} FileMembersFrom(fs: Fs, home: Path, candidates: seq<Path>, m: Member)
    ensures m in FileMembers(fs, home, candidates) <==> exists p | p in candidates :: MemberOf(fs, home, p) == Some(m)
  {
    if candidates != [] {
      var init := candidates[..|candidates| - 1];
      var last := candidates[|candidates| - 1];
      FileMembersFrom(fs, home, init, m);
      assert candidates == init + [last];
      if exists p | p in candidates :: MemberOf(fs, home, p) == Some(m) {
        var p :| p in candidates && MemberOf(fs, home, p) == Some(m);
        if p != last {
          assert p in init;
        }
      }
    }
  }

  /** No two members share a name. */
  predicate DistinctNames(ms: seq<Member>) {
    forall i, j | 0 <= i < j < |ms| :: ms[i].name != ms[j].name
  }

  /** Distinct candidates give members with distinct names. */
  lemma {:induction false} FileMembersDistinct(fs: Fs, home: Path, candidates: seq<Path>)
    requires Distinct(candidates)
    ensures DistinctNames(FileMembers(fs, home, candidates))
  {
    if candidates != [] {
      var init := candidates[..|candidates| - 1];
      var last := candidates[|candidates| - 1];
      assert Distinct(init) by {
        forall i, j | 0 <= i < j < |init| ensures init[i] != init[j] {
          assert init[i] == candidates[i] && init[j] == candidates[j];
        }
      }
      FileMembersDistinct(fs, home, init);
      var written := FileMembers(fs, home, init);
      if MemberOf(fs, home, last).Some? {
        var m := MemberOf(fs, home, last).value;
        MemberRestoresToSource(fs, home, last);
        forall k | 0 <= k < |written| ensures written[k].name != m.name {
          FileMembersFrom(fs, home, init, written[k]);
          var p :| p in init && MemberOf(fs, home, p) == Some(written[k]);
          MemberRestoresToSource(fs, home, p);
          var i :| 0 <= i < |init| && init[i] == p;
          assert candidates[i] == p;
        }
      }
    }
  }

  /** The members depend only on the candidates' own nodes. */
  lemma {:induction false} FileMembersFrame(fs: Fs, fs': Fs, home: Path, candidates: seq<Path>)
    requires forall p | p in candidates :: (p in fs <==> p in fs') && (p in fs ==> fs[p] == fs'[p])
    ensures FileMembers(fs, home, candidates) == FileMembers(fs', home, candidates)
  {
    if candidates != [] {
      var init := candidates[..|candidates| - 1];
      assert forall p | p in init :: p in candidates;
      FileMembersFrame(fs, fs', home, init);
    }
  }

  /** The candidate loop inside the tar stream. */
  method StreamMembers(disk: Disk, home: Path, candidates: seq<Path>) returns (members: seq<Member>)
    ensures members == FileMembers(disk.nodes, home, candidates)
  {
    members := [];
    for i := 0 to |candidates|
      invariant members == FileMembers(disk.nodes, home, candidates[..i])
    {
      assert candidates[..i + 1][..i] == candidates[..i];
      var added := MemberOf(disk.nodes, home, candidates[i]);
      if added.Some? {
        members := members + [added.value];
      }
    }
    assert candidates[..|candidates|] == candidates;
  }

  /**
   * The `except` branch: the result is `None` once a file left at the archive
   * path is unlinked; when that unlink fails, its exception escapes.
   */
  function Cleanup(fs: Fs, locked: set<Path>, archive: Path): (Fs, Completion<Option<Path>>) {
    if archive !in fs then (fs, Returned(None))
    else if Unlinkable(fs, locked, archive) then (fs - {archive}, Returned(None))
    else (fs, Raised)
  }

  /**
   * The `try` block of `backup_selective` once the candidates and the manifest
   * bytes are known: open the archive (truncating it), stream the members and
   * the manifest (`fault` is an error while streaming), then write the
   * sidecar. Any failure goes to `Cleanup`.
   */
  function WriteArchive(fs: Fs, locked: set<Path>, home: Path, candidates: seq<Path>, archive: Path, sidecar: Path,
                        manifest: Bytes, codec: ArchiveCodec, fault: bool): (Fs, Completion<Option<Path>>)
  {
    if !Writable(fs, locked, archive) then Cleanup(fs, locked, archive)
    else
      var truncated := fs[archive := File([], true)];
      if fault then Cleanup(truncated, locked, archive)
      else
        var written := truncated[archive := File(codec.pack(ArchiveMembers(truncated, home, candidates, manifest)), true)];
        if !Writable(written, locked, sidecar) then Cleanup(written, locked, archive)
        else (written[sidecar := File(manifest, true)], Returned(Some(archive)))
  }

  /**
   * How writing ends: it succeeds exactly when both files can be written and
   * nothing fails in between, and then the archive holds the members and the
   * manifest and the sidecar the manifest; a `None` result leaves no file at
   * the archive path and nothing else changed; an escaping exception changes
   * nothing.
   */
  lemma WriteArchiveOutcome(fs: Fs, locked: set<Path>, home: Path, candidates: seq<Path>, archive: Path, sidecar: Path,
                            manifest: Bytes, codec: ArchiveCodec, fault: bool)
    requires archive != sidecar
    ensures var (after, r) := WriteArchive(fs, locked, home, candidates, archive, sidecar, manifest, codec, fault);
      var members := ArchiveMembers(fs[archive := File([], true)], home, candidates, manifest);
      && (r == Returned(Some(archive)) <==> Writable(fs, locked, archive) && Writable(fs, locked, sidecar) && !fault)
      && (r == Returned(Some(archive)) ==>
            after == fs[archive := File(codec.pack(members), true)][sidecar := File(manifest, true)])
      && (r == Returned(None) ==> after == fs - {archive})
      && (r.Raised? ==> after == fs && archive in fs && !Unlinkable(fs, locked, archive))
      && (r.Returned? ==> r.value.None? || r.value == Some(archive))
      && (archive !in candidates ==> members == ArchiveMembers(fs, home, candidates, manifest))
  {
    if archive !in candidates {
      FileMembersFrame(fs, fs[archive := File([], true)], home, candidates);
    }
    if archive !in fs {
      assert fs - {archive} == fs;
    }
  }

  /** Writing an archive changes nothing but the archive and the sidecar. */
  lemma WriteArchiveFrame(fs: Fs, locked: set<Path>, home: Path, candidates: seq<Path>, archive: Path, sidecar: Path,
                          manifest: Bytes, codec: ArchiveCodec, fault: bool, p: Path)
    requires p != archive && p != sidecar
    ensures var after := WriteArchive(fs, locked, home, candidates, archive, sidecar, manifest, codec, fault).0;
      (p in after <==> p in fs) && (p in fs ==> after[p] == fs[p])
  {
  }

  /** The `except` branch of `backup_selective`. */
  method RemovePartial(disk: Disk, archive: Path) returns (result: Completion<Option<Path>>)
    modifies disk
    ensures (disk.nodes, result) == Cleanup(old(disk.nodes), disk.locked, archive)
  {
    if archive !in disk.nodes {
      return Returned(None);
    }
    var ok := disk.Unlink(archive);
    result := if ok then Returned(None) else Raised;
  }

  /** The `try` block of `backup_selective`, from opening the archive to writing the sidecar. */
  method WriteArchiveFiles(disk: Disk, home: Path, candidates: seq<Path>, archive: Path, sidecar: Path,
                           manifest: Bytes, codec: ArchiveCodec, fault: bool) returns (result: Completion<Option<Path>>)
    modifies disk
    ensures (disk.nodes, result) == WriteArchive(old(disk.nodes), disk.locked, home, candidates, archive, sidecar, manifest, codec, fault)
  {
    var ok := disk.WriteFile(archive, []);
    if !ok || fault {
      result := RemovePartial(disk, archive);
      return;
    }
    var members := StreamMembers(disk, home, candidates);
    ok := disk.WriteFile(archive, codec.pack(members + [ManifestMember(manifest)]));
    assert ok;
    ok := disk.WriteFile(sidecar, manifest);
    if !ok {
      result := RemovePartial(disk, archive);
      return;
    }
    result := Returned(Some(archive));
  }

  /** The paths the members of `ms` are extracted to. */
  function Targets(home: Path, ms: seq<Member>): set<Path> {
    set m | m in ms :: home + m.name
  }

  /**
   * `tar.extractall(path=home)`, member by member: a regular member
   * overwrites its target (which fails on a directory or a refused path), a
   * directory member creates its target unless a directory is already there.
   * The first failure raises and stops the extraction; what was extracted
   * before it stays.
   */
  function ExtractAll(fs: Fs, locked: set<Path>, home: Path, ms: seq<Member>): (Fs, bool)
    decreases |ms|
  {
    if ms == [] then (fs, true)
    else
      var target := home + ms[0].name;
      match ms[0].content
      case Regular(data) =>
        if Writable(fs, locked, target) then ExtractAll(fs[target := File(data, true)], locked, home, ms[1..])
        else (fs, false)
      case Directory =>
        if DirCreatable(fs, locked, target) then
          ExtractAll(if target in fs then fs else fs[target := Dir], locked, home, ms[1..])
        else (fs, false)
  }

  /** Extraction touches nothing but the members' targets. */
  lemma {:induction false} ExtractAllFrame(fs: Fs, locked: set<Path>, home: Path, ms: seq<Member>, q: Path)
    requires q !in Targets(home, ms)
    ensures var after := ExtractAll(fs, locked, home, ms).0;
      (q in after <==> q in fs) && (q in fs ==> after[q] == fs[q])
    decreases |ms|
  {
    if ms != [] {
      var target := home + ms[0].name;
      assert ms[0] in ms;
      assert Targets(home, ms[1..]) <= Targets(home, ms);
      match ms[0].content
      case Regular(data) =>
        if Writable(fs, locked, target) {
          ExtractAllFrame(fs[target := File(data, true)], locked, home, ms[1..], q);
        }
      case Directory =>
        if DirCreatable(fs, locked, target) {
          ExtractAllFrame(if target in fs then fs else fs[target := Dir], locked, home, ms[1..], q);
        }
    }
  }

  /**
   * When no regular member's target is a directory or refused, no directory
   * member's target is a file or refused, and no two members share a name,
   * extraction succeeds and every regular member's bytes are at its target.
   */
  lemma {:induction false} ExtractAllRestores(fs: Fs, locked: set<Path>, home: Path, ms: seq<Member>)
    requires DistinctNames(ms)
    requires forall m | m in ms && m.content.Regular? :: Writable(fs, locked, home + m.name)
    requires forall m | m in ms && m.content.Directory? :: DirCreatable(fs, locked, home + m.name)
    ensures ExtractAll(fs, locked, home, ms).1
    ensures forall m | m in ms && m.content.Regular? ::
      var after := ExtractAll(fs, locked, home, ms).0;
      home + m.name in after && after[home + m.name] == File(m.content.data, true)
    decreases |ms|
  {
    if ms != [] {
      var m0, rest := ms[0], ms[1..];
      var target := home + m0.name;
      assert m0 in ms;
      var next := match m0.content
        case Regular(data) => fs[target := File(data, true)]
        case Directory => if target in fs then fs else fs[target := Dir];
      assert target !in Targets(home, rest) by {
        forall m | m in rest ensures home + m.name != target {
          var k :| 0 <= k < |rest| && rest[k] == m;
          assert ms[k + 1] == m;
          assert m.name == (home + m.name)[|home|..];
        }
      }
      forall m | m in rest ensures home + m.name != target && m in ms {
        assert home + m.name in Targets(home, rest);
      }
      assert DistinctNames(rest) by {
        forall i, j | 0 <= i < j < |rest| ensures rest[i].name != rest[j].name {
          assert rest[i] == ms[i + 1] && rest[j] == ms[j + 1];
        }
      }
      ExtractAllRestores(next, locked, home, rest);
      ExtractAllFrame(next, locked, home, rest, target);
    }
  }

  /**
   * The `try` block of `restore_backup`: open the archive (a missing,
   * directory or unreadable path fails), read its members (a corrupt archive
   * fails), extract them under home. Failures are caught and give false.
   */
  function RestoreFrom(fs: Fs, locked: set<Path>, home: Path, archive: Path, codec: ArchiveCodec): (Fs, bool) {
    if archive in fs && fs[archive].File? && fs[archive].readable then
      match codec.unpack(fs[archive].data)
      case Some(ms) => ExtractAll(fs, locked, home, ms)
      case None => (fs, false)
    else (fs, false)
  }

  /**
   * The round trip: restoring an archive the backup wrote puts every archived
   * regular file back at the path it was taken from, and the manifest at
   * `home/manifest.json`, provided none of those paths is a directory or
   * refused at restore time, the candidates were regular files, and none of
   * them is `home/manifest.json` itself.
   */
  lemma RestoreRoundTrip(fs: Fs, home: Path, candidates: seq<Path>, manifest: Bytes, codec: ArchiveCodec,
                         current: Fs, locked: set<Path>, archive: Path)
    requires Faithful(codec)
    requires Distinct(candidates) && home + MANIFEST_ENTRY !in candidates
    requires forall p | p in candidates && p in fs :: fs[p].File?
    requires archive in current && current[archive] == File(codec.pack(ArchiveMembers(fs, home, candidates, manifest)), true)
    requires forall p | p in candidates :: Writable(current, locked, p)
    requires Writable(current, locked, home + MANIFEST_ENTRY)
    ensures RestoreFrom(current, locked, home, archive, codec).1
    ensures var restored := RestoreFrom(current, locked, home, archive, codec).0;
      && (forall p | p in candidates && MemberOf(fs, home, p).Some? :: p in restored && restored[p] == File(fs[p].data, true))
      && home + MANIFEST_ENTRY in restored && restored[home + MANIFEST_ENTRY] == File(manifest, true)
  {
    var files := FileMembers(fs, home, candidates);
    var ms := ArchiveMembers(fs, home, candidates, manifest);
    assert codec.unpack(codec.pack(ms)) == Some(ms);
    FileMembersDistinct(fs, home, candidates);
    forall m | m in files ensures home + m.name in candidates && m.content.Regular? {
      FileMembersFrom(fs, home, candidates, m);
      var p :| p in candidates && MemberOf(fs, home, p) == Some(m);
      MemberRestoresToSource(fs, home, p);
    }
    assert DistinctNames(ms) by {
      forall i, j | 0 <= i < j < |ms| ensures ms[i].name != ms[j].name {
        if j == |ms| - 1 {
          assert ms[i] in files;
        } else {
          assert ms[i] == files[i] && ms[j] == files[j];
        }
      }
    }
    forall m | m in ms && m.content.Regular? ensures Writable(current, locked, home + m.name) {
      if m != ManifestMember(manifest) {
        assert m in files;
      }
    }
    ExtractAllRestores(current, locked, home, ms);
    forall p | p in candidates && MemberOf(fs, home, p).Some?
      ensures var restored := ExtractAll(current, locked, home, ms).0;
        p in restored && restored[p] == File(fs[p].data, true)
    {
      var m := MemberOf(fs, home, p).value;
      MemberRestoresToSource(fs, home, p);
      FileMembersFrom(fs, home, candidates, m);
      assert m in ms;
    }
    assert ManifestMember(manifest) in ms;
  }

  /** The extraction loop of `restore_backup`. */
  method ExtractMembers(disk: Disk, home: Path, ms: seq<Member>) returns (ok: bool)
    modifies disk
    ensures (disk.nodes, ok) == ExtractAll(old(disk.nodes), disk.locked, home, ms)
  {
    var i := 0;
    while i < |ms|
      invariant 0 <= i <= |ms|
      invariant ExtractAll(disk.nodes, disk.locked, home, ms[i..]) == ExtractAll(old(disk.nodes), disk.locked, home, ms)
    {
      var target := home + ms[i].name;
      assert ms[i..][1..] == ms[i + 1..];
      match ms[i].content {
        case Regular(data) =>
          ok := disk.WriteFile(target, data);
        case Directory =>
          ok := disk.MakeDir(target);
      }
      if !ok {
        return;
      }
      i := i + 1;
    }
    ok := true;
  }
}
