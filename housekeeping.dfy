/**
 * The loops of `reset_warp_data` and `delete_local_database`: moving the
 * data roots into a quarantine directory, removing them, and unlinking the
 * database files.
 */
module Housekeeping {
  import opened Common
  import opened FileSystem
  import opened Selection

  /** No root lies at or below the quarantine directory, and the quarantine directory lies below no root. */
  predicate Separate(entries: PathTable, q: Path) {
    forall e | e in entries :: !IsUnder(e.1, q) && !IsUnder(q, e.1)
  }

  /** Each root is on disk, or nothing at or below it is. */
  predicate PresentOrCleared(fs: Fs, entries: PathTable) {
    forall e | e in entries :: e.1 in fs || Cleared(fs, e.1)
  }

  /**
   * The quarantine loop of the safe reset: each root still on disk is moved
   * to `<q>/<name>` (into it, when that is a directory). A refused move
   * raises, which ends the loop; the moves made before it stay. The flag is
   * false when the loop raised.
   */
  function MoveAll(fs: Fs, locked: set<Path>, entries: PathTable, q: Path): (Fs, bool)
    decreases |entries|
  {
    if entries == [] then (fs, true)
    else
      var (name, root) := entries[0];
      if root !in fs then MoveAll(fs, locked, entries[1..], q)
      else if !Movable(fs, locked, root, q + [name]) then (fs, false)
      else MoveAll(MoveSubtree(fs, root, MoveTarget(fs, root, q + [name])), locked, entries[1..], q)
  }

  /** The quarantine loop. */
  method MoveRootsTo(disk: Disk, entries: PathTable, q: Path) returns (ok: bool)
    modifies disk
    ensures (disk.nodes, ok) == MoveAll(old(disk.nodes), disk.locked, entries, q)
  {
    var i := 0;
    while i < |entries|
      invariant 0 <= i <= |entries|
      invariant MoveAll(disk.nodes, disk.locked, entries[i..], q) == MoveAll(old(disk.nodes), disk.locked, entries, q)
    {
      var (name, root) := entries[i];
      assert entries[i..][1..] == entries[i + 1..];
      if root in disk.nodes {
        ok := disk.Move(root, q + [name]);
        if !ok {
          return;
        }
      }
      i := i + 1;
    }
    ok := true;
  }

  /** Where a root moved to `<q>/<name>` lands is at or below `<q>/<name>`, and so below `q`. */
  lemma MoveTargetInQuarantine(fs: Fs, root: Path, q: Path, name: string)
    ensures IsUnder(q + [name], MoveTarget(fs, root, q + [name]))
    ensures IsUnder(q, MoveTarget(fs, root, q + [name]))
  {
    var t := MoveTarget(fs, root, q + [name]);
    assert t[..|q|] == q;
    assert t[..|q| + 1] == q + [name];
  }

  /** A root apart from `q` is apart from every entry `<q>/<k>` of it. */
  lemma SlotApart(root: Path, q: Path, k: string)
    requires !IsUnder(root, q) && !IsUnder(q, root)
    ensures !IsUnder(root, q + [k]) && !IsUnder(q + [k], root)
  {
  }

  /** Nothing lies both at or below `<q>/<n>` and at or below `<q>/<k>` for different names. */
  lemma SlotsDisjoint(q: Path, n: string, k: string, t: Path, x: Path)
    requires n != k && IsUnder(q + [n], t) && IsUnder(q + [k], x)
    ensures !IsUnder(t, x)
  {
    assert t[|q|] == n by { assert t[..|q| + 1] == q + [n]; }
    assert x[|q|] == k by { assert x[..|q| + 1] == q + [k]; }
  }

  /**
   * The `i`-th root is the one `p` travels with in the quarantine loop: that
   * root is on disk and holds `p`, and no earlier root on disk holds it.
   */
  predicate MovesWith(fs: Fs, entries: PathTable, i: int, p: Path) {
    && 0 <= i < |entries|
    && entries[i].1 in fs
    && IsUnder(entries[i].1, p)
    && forall j | 0 <= j < i && entries[j].1 in fs :: !IsUnder(entries[j].1, p)
  }

  /** Where the quarantine loop puts `p` when it travels with the `i`-th root: the same place below `<q>/<key>`. */
  function QuarantinedAt(fs: Fs, entries: PathTable, i: int, q: Path, p: Path): Path
    requires MovesWith(fs, entries, i, p)
  {
    Relocate(p, entries[i].1, MoveTarget(fs, entries[i].1, q + [entries[i].0]))
  }

  /** The entries after the first still form a table with unique names. */
  lemma RestWellFormed(entries: PathTable)
    requires WellFormedTable(entries) && entries != []
    ensures WellFormedTable(entries[1..])
    ensures forall e | e in entries[1..] :: e.0 != entries[0].0
  {
    forall i, j | 0 <= i < j < |entries[1..]| ensures entries[1..][i].0 != entries[1..][j].0 {
      assert entries[1..][i] == entries[i + 1] && entries[1..][j] == entries[j + 1];
    }
    forall e | e in entries[1..] ensures e.0 != entries[0].0 {
      var k :| 0 <= k < |entries[1..]| && entries[1..][k] == e;
      assert entries[k + 1] == e;
    }
  }

  /** The loop never disturbs what lies below `<q>/<k>` when no entry is named `k`. */
  lemma {:induction false} MoveAllKeepsSlot(fs: Fs, locked: set<Path>, entries: PathTable, q: Path, k: string, x: Path)
    requires Separate(entries, q)
    requires forall e | e in entries :: e.0 != k
    requires IsUnder(q + [k], x)
    ensures var after := MoveAll(fs, locked, entries, q).0;
      (x in after <==> x in fs) && (x in fs ==> after[x] == fs[x])
    decreases |entries|
  {
    if entries != [] {
      var (name, root) := entries[0];
      assert entries[0] in entries;
      assert forall e | e in entries[1..] :: e in entries;
      if root !in fs {
        MoveAllKeepsSlot(fs, locked, entries[1..], q, k, x);
      } else if Movable(fs, locked, root, q + [name]) {
        var t := MoveTarget(fs, root, q + [name]);
        MoveTargetInQuarantine(fs, root, q, name);
        SlotsDisjoint(q, name, k, t, x);
        SlotApart(root, q, k);
        if IsUnder(root, x) {
          UnderComparable(root, q + [k], x);
        }
        MoveSubtreeFrame(fs, root, t, x);
        MoveAllKeepsSlot(MoveSubtree(fs, root, t), locked, entries[1..], q, k, x);
      }
    }
  }

  /**
   * The first move of the loop carries every path of the first root to its
   * place below `<q>/<name>`, and the rest of the loop leaves it there.
   */
  lemma FirstRootRelocated(fs: Fs, locked: set<Path>, entries: PathTable, q: Path, p: Path)
    requires Separate(entries, q) && WellFormedTable(entries)
    requires p in fs && MovesWith(fs, entries, 0, p)
    requires Movable(fs, locked, entries[0].1, q + [entries[0].0])
    ensures var (name, root) := entries[0];
      var moved := MoveSubtree(fs, root, MoveTarget(fs, root, q + [name]));
      var after := MoveAll(moved, locked, entries[1..], q).0;
      QuarantinedAt(fs, entries, 0, q, p) in after && after[QuarantinedAt(fs, entries, 0, q, p)] == fs[p]
  {
    var (name, root) := entries[0];
    assert entries[0] in entries;
    assert forall e | e in entries[1..] :: e in entries;
    RestWellFormed(entries);
    var t := MoveTarget(fs, root, q + [name]);
    MoveTargetInQuarantine(fs, root, q, name);
    SlotApart(root, q, name);
    if IsUnder(root, t) {
      UnderTransitive(root, t, t);
      UnderComparable(root, q + [name], t);
    }
    if IsUnder(t, root) {
      UnderTransitive(q + [name], t, root);
    }
    MoveSubtreeRelocates(fs, root, t);
    var x := Relocate(p, root, t);
    assert IsUnder(t, x);
    UnderTransitive(q + [name], t, x);
    MoveAllKeepsSlot(MoveSubtree(fs, root, t), locked, entries[1..], q, name, x);
  }

  /**
   * After the first move, a path that travels with a later root still does,
   * with the same node, bound for the same place.
   */
  lemma LaterRootUnmoved(fs: Fs, locked: set<Path>, entries: PathTable, q: Path, i: int, p: Path)
    requires Separate(entries, q) && WellFormedTable(entries)
    requires p in fs && MovesWith(fs, entries, i, p) && i > 0
    requires entries[0].1 in fs
    ensures var (name, root) := entries[0];
      var moved := MoveSubtree(fs, root, MoveTarget(fs, root, q + [name]));
      && p in moved && moved[p] == fs[p]
      && MovesWith(moved, entries[1..], i - 1, p)
      && QuarantinedAt(moved, entries[1..], i - 1, q, p) == QuarantinedAt(fs, entries, i, q, p)
  {
    var (name, root) := entries[0];
    var (key, r) := entries[i];
    var rest := entries[1..];
    assert entries[0] in entries && entries[i] in entries;
    assert forall e | e in rest :: e in entries;
    assert rest[i - 1] == entries[i];
    var t := MoveTarget(fs, root, q + [name]);
    var moved := MoveSubtree(fs, root, t);
    MoveTargetInQuarantine(fs, root, q, name);
    assert !IsUnder(root, p);
    if IsUnder(t, p) {
      UnderTransitive(q, t, p);
      UnderComparable(r, q, p);
    }
    MoveSubtreeFrame(fs, root, t, p);
    if IsUnder(root, r) {
      UnderTransitive(root, r, p);
    }
    if IsUnder(t, r) {
      UnderTransitive(q, t, r);
    }
    MoveSubtreeFrame(fs, root, t, r);
    forall j | 0 <= j < i - 1 && rest[j].1 in moved ensures !IsUnder(rest[j].1, p) {
      assert rest[j] == entries[j + 1];
      MoveSubtreeOrigin(fs, root, t, rest[j].1);
      if IsUnder(t, rest[j].1) {
        UnderTransitive(q, t, rest[j].1);
      }
    }
    assert name != key;
    SlotApart(root, q, key);
    MoveTargetInQuarantine(fs, r, q, key);
    SlotsDisjoint(q, name, key, t, q + [key]);
    MoveSubtreeFrame(fs, root, t, q + [key]);
  }

  /**
   * Where the quarantine keeps the data: when the loop completes, every path
   * that travels with a root is found, with its node, at the same place
   * below that root's entry `<q>/<key>` of the quarantine directory.
   */
  lemma {:induction false} MoveAllRelocates(fs: Fs, locked: set<Path>, entries: PathTable, q: Path)
    requires Separate(entries, q) && WellFormedTable(entries)
    ensures var (after, ok) := MoveAll(fs, locked, entries, q);
      ok ==> forall i, p | p in fs && MovesWith(fs, entries, i, p) ::
        QuarantinedAt(fs, entries, i, q, p) in after && after[QuarantinedAt(fs, entries, i, q, p)] == fs[p]
    decreases |entries|
  {
    if entries != [] {
      var (name, root) := entries[0];
      var rest := entries[1..];
      assert forall e | e in rest :: e in entries;
      RestWellFormed(entries);
      var (after, ok) := MoveAll(fs, locked, entries, q);
      if root !in fs && ok {
        MoveAllRelocates(fs, locked, rest, q);
        forall i, p | p in fs && MovesWith(fs, entries, i, p)
          ensures QuarantinedAt(fs, entries, i, q, p) in after && after[QuarantinedAt(fs, entries, i, q, p)] == fs[p]
        {
          assert i > 0 && rest[i - 1] == entries[i];
          forall j | 0 <= j < i - 1 && rest[j].1 in fs ensures !IsUnder(rest[j].1, p) {
            assert rest[j] == entries[j + 1];
          }
          assert MovesWith(fs, rest, i - 1, p);
          assert QuarantinedAt(fs, rest, i - 1, q, p) == QuarantinedAt(fs, entries, i, q, p);
          assert after == MoveAll(fs, locked, rest, q).0;
        }
      } else if root in fs && Movable(fs, locked, root, q + [name]) && ok {
        var moved := MoveSubtree(fs, root, MoveTarget(fs, root, q + [name]));
        MoveAllRelocates(moved, locked, rest, q);
        forall i, p | p in fs && MovesWith(fs, entries, i, p)
          ensures QuarantinedAt(fs, entries, i, q, p) in after && after[QuarantinedAt(fs, entries, i, q, p)] == fs[p]
        {
          if i == 0 {
            FirstRootRelocated(fs, locked, entries, q, p);
          } else {
            LaterRootUnmoved(fs, locked, entries, q, i, p);
          }
        }
      }
    }
  }

  /**
   * Filtering the roots by existence first changes nothing: the loop skips a
   * root that is not on disk, and no root appears during the loop.
   */
  lemma {:induction false} MoveAllExisting(fs: Fs, g: Fs, locked: set<Path>, entries: PathTable, q: Path)
    requires Separate(entries, q)
    requires forall e | e in entries && e.1 in fs :: e.1 in g
    ensures MoveAll(fs, locked, ExistingEntries(g, entries), q) == MoveAll(fs, locked, entries, q)
    decreases |entries|
  {
    if entries != [] {
      var (name, root) := entries[0];
      var rest := entries[1..];
      assert entries[0] in entries;
      assert forall e | e in rest :: e in entries;
      var filtered := ExistingEntries(g, rest);
      if root in g {
        assert ExistingEntries(g, entries) == [entries[0]] + filtered;
        assert ([entries[0]] + filtered)[1..] == filtered;
      }
      if root in fs && Movable(fs, locked, root, q + [name]) {
        var t := MoveTarget(fs, root, q + [name]);
        var moved := MoveSubtree(fs, root, t);
        MoveTargetInQuarantine(fs, root, q, name);
        forall e | e in rest && e.1 in moved ensures e.1 in g {
          MoveSubtreeOrigin(fs, root, t, e.1);
          if IsUnder(t, e.1) {
            UnderTransitive(q, t, e.1);
          }
        }
        MoveAllExisting(moved, g, locked, rest, q);
      } else {
        MoveAllExisting(fs, g, locked, rest, q);
      }
    }
  }

  /**
   * What travels with which root, and where it goes, depends only on the
   * roots, the quarantine entries `<q>/<key>` and the path itself.
   */
  lemma MovesWithTransfer(fs: Fs, g: Fs, entries: PathTable, q: Path, i: int, p: Path)
    requires forall e | e in entries :: (e.1 in fs <==> e.1 in g)
    requires forall e | e in entries :: (q + [e.0] in fs <==> q + [e.0] in g) && (q + [e.0] in fs ==> fs[q + [e.0]] == g[q + [e.0]])
    requires MovesWith(fs, entries, i, p)
    ensures MovesWith(g, entries, i, p) && QuarantinedAt(g, entries, i, q, p) == QuarantinedAt(fs, entries, i, q, p)
  {
    assert entries[i] in entries;
    forall j | 0 <= j < i && entries[j].1 in g ensures !IsUnder(entries[j].1, p) {
      assert entries[j] in entries;
    }
  }

  /** The quarantine loop creates nothing outside the quarantine directory. */
  lemma {:induction false} MoveAllOrigin(fs: Fs, locked: set<Path>, entries: PathTable, q: Path, p: Path)
    requires p in MoveAll(fs, locked, entries, q).0 && !IsUnder(q, p)
    ensures p in fs
    decreases |entries|
  {
    if entries != [] {
      var (name, root) := entries[0];
      if root !in fs {
        MoveAllOrigin(fs, locked, entries[1..], q, p);
      } else if Movable(fs, locked, root, q + [name]) {
        var t := MoveTarget(fs, root, q + [name]);
        MoveAllOrigin(MoveSubtree(fs, root, t), locked, entries[1..], q, p);
        MoveTargetInQuarantine(fs, root, q, name);
        if IsUnder(t, p) {
          UnderTransitive(q, t, p);
        }
        MoveSubtreeOrigin(fs, root, t, p);
      }
    }
  }

  /** A path outside the quarantine directory and outside every root is left as it was. */
  lemma {:induction false} MoveAllFrame(fs: Fs, locked: set<Path>, entries: PathTable, q: Path, p: Path)
    requires !IsUnder(q, p)
    requires forall e | e in entries :: !IsUnder(e.1, p)
    ensures var after := MoveAll(fs, locked, entries, q).0;
      (p in after <==> p in fs) && (p in fs ==> after[p] == fs[p])
    decreases |entries|
  {
    if entries != [] {
      var (name, root) := entries[0];
      assert entries[0] in entries;
      assert forall e | e in entries[1..] :: e in entries;
      if root !in fs {
        MoveAllFrame(fs, locked, entries[1..], q, p);
      } else if Movable(fs, locked, root, q + [name]) {
        var t := MoveTarget(fs, root, q + [name]);
        MoveTargetInQuarantine(fs, root, q, name);
        if IsUnder(t, p) {
          UnderTransitive(q, t, p);
        }
        MoveSubtreeFrame(fs, root, t, p);
        MoveAllFrame(MoveSubtree(fs, root, t), locked, entries[1..], q, p);
      }
    }
  }

  /** Moving `root` to a place below the quarantine directory leaves nothing at or below `root`. */
  lemma MovedRootCleared(fs: Fs, root: Path, t: Path, q: Path)
    requires IsUnder(q, t) && !IsUnder(root, t)
    requires !IsUnder(root, q) && !IsUnder(q, root)
    ensures Cleared(MoveSubtree(fs, root, t), root)
  {
    forall p | p in MoveSubtree(fs, root, t) ensures !IsUnder(root, p) {
      MoveSubtreeOrigin(fs, root, t, p);
      if IsUnder(t, p) && IsUnder(root, p) {
        UnderComparable(root, t, p);
        if IsUnder(t, root) {
          UnderTransitive(q, t, root);
        }
      }
    }
  }

  /** After one move, any other root separate from the quarantine is still on disk or cleared. */
  lemma OtherRootAfterMove(fs: Fs, root: Path, t: Path, q: Path, x: Path)
    requires IsUnder(q, t)
    requires !IsUnder(x, q) && !IsUnder(q, x)
    requires Cleared(MoveSubtree(fs, root, t), root)
    requires x in fs || Cleared(fs, x)
    ensures x in MoveSubtree(fs, root, t) || Cleared(MoveSubtree(fs, root, t), x)
  {
    var moved := MoveSubtree(fs, root, t);
    if x !in moved {
      forall p | p in moved ensures !IsUnder(x, p) {
        if IsUnder(x, p) {
          if x in fs {
            if IsUnder(t, x) {
              UnderTransitive(q, t, x);
            } else if !IsUnder(root, x) {
              MoveSubtreeFrame(fs, root, t, x);
            } else {
              UnderTransitive(root, x, p);
            }
          } else {
            MoveSubtreeOrigin(fs, root, t, p);
            if IsUnder(t, p) {
              UnderTransitive(q, t, p);
              UnderComparable(x, q, p);
            }
          }
        }
      }
    }
  }

  /** A root cleared before the loop is still cleared after it: the loop adds only below the quarantine. */
  lemma ClearedStaysCleared(fs: Fs, locked: set<Path>, entries: PathTable, q: Path, x: Path)
    requires Cleared(fs, x) && !IsUnder(x, q) && !IsUnder(q, x)
    ensures Cleared(MoveAll(fs, locked, entries, q).0, x)
  {
    forall p | p in MoveAll(fs, locked, entries, q).0 ensures !IsUnder(x, p) {
      if IsUnder(x, p) {
        if IsUnder(q, p) {
          UnderComparable(x, q, p);
        } else {
          MoveAllOrigin(fs, locked, entries, q, p);
        }
      }
    }
  }

  /**
   * When the quarantine loop completes, nothing is left at or below any of
   * the roots it was given.
   */
  lemma {:induction false} MoveAllClears(fs: Fs, locked: set<Path>, entries: PathTable, q: Path)
    requires Separate(entries, q)
    requires PresentOrCleared(fs, entries)
    ensures var (after, ok) := MoveAll(fs, locked, entries, q);
      ok ==> forall e | e in entries :: Cleared(after, e.1)
    decreases |entries|
  {
    if entries != [] {
      var (name, root) := entries[0];
      var rest := entries[1..];
      assert entries[0] in entries;
      assert forall e | e in rest :: e in entries;
      if root !in fs {
        MoveAllClears(fs, locked, rest, q);
        ClearedStaysCleared(fs, locked, rest, q, root);
      } else if Movable(fs, locked, root, q + [name]) {
        var t := MoveTarget(fs, root, q + [name]);
        var moved := MoveSubtree(fs, root, t);
        MoveTargetInQuarantine(fs, root, q, name);
        MovedRootCleared(fs, root, t, q);
        forall e | e in rest ensures e.1 in moved || Cleared(moved, e.1) {
          OtherRootAfterMove(fs, root, t, q, e.1);
        }
        MoveAllClears(moved, locked, rest, q);
        ClearedStaysCleared(moved, locked, rest, q, root);
      }
    }
  }

  /**
   * The removal loop of the destructive reset: each root still on disk is
   * removed with everything below it. `rmtree` raises on a root that is a
   * regular file or holds a refused path, which ends the loop.
   */
  function WipeAll(fs: Fs, locked: set<Path>, entries: PathTable): (Fs, bool)
    decreases |entries|
  {
    if entries == [] then (fs, true)
    else
      var root := entries[0].1;
      if root !in fs then WipeAll(fs, locked, entries[1..])
      else if !TreeRemovable(fs, locked, root) then (fs, false)
      else WipeAll(RemoveSubtree(fs, root), locked, entries[1..])
  }

  /** The removal loop. */
  method RemoveRoots(disk: Disk, entries: PathTable) returns (ok: bool)
    modifies disk
    ensures (disk.nodes, ok) == WipeAll(old(disk.nodes), disk.locked, entries)
  {
    var i := 0;
    while i < |entries|
      invariant 0 <= i <= |entries|
      invariant WipeAll(disk.nodes, disk.locked, entries[i..]) == WipeAll(old(disk.nodes), disk.locked, entries)
    {
      var root := entries[i].1;
      assert entries[i..][1..] == entries[i + 1..];
      if root in disk.nodes {
        ok := disk.RemoveTree(root);
        if !ok {
          return;
        }
      }
      i := i + 1;
    }
    ok := true;
  }

  /** The removal loop only removes: what remains was there, unchanged. */
  lemma {:induction false} WipeAllShrinks(fs: Fs, locked: set<Path>, entries: PathTable)
    ensures var after := WipeAll(fs, locked, entries).0;
      forall p | p in after :: p in fs && after[p] == fs[p]
    decreases |entries|
  {
    if entries != [] {
      var root := entries[0].1;
      if root !in fs {
        WipeAllShrinks(fs, locked, entries[1..]);
      } else if TreeRemovable(fs, locked, root) {
        WipeAllShrinks(RemoveSubtree(fs, root), locked, entries[1..]);
      }
    }
  }

  /** A path below none of the roots survives the removal loop. */
  lemma {:induction false} WipeAllFrame(fs: Fs, locked: set<Path>, entries: PathTable, p: Path)
    requires p in fs
    requires forall e | e in entries :: !IsUnder(e.1, p)
    ensures p in WipeAll(fs, locked, entries).0
    decreases |entries|
  {
    if entries != [] {
      var root := entries[0].1;
      assert entries[0] in entries;
      assert forall e | e in entries[1..] :: e in entries;
      if root !in fs {
        WipeAllFrame(fs, locked, entries[1..], p);
      } else if TreeRemovable(fs, locked, root) {
        WipeAllFrame(RemoveSubtree(fs, root), locked, entries[1..], p);
      }
    }
  }

  /** When the removal loop completes, nothing is left at or below any of the roots it was given. */
  lemma {:induction false} WipeAllClears(fs: Fs, locked: set<Path>, entries: PathTable)
    requires PresentOrCleared(fs, entries)
    ensures var (after, ok) := WipeAll(fs, locked, entries);
      ok ==> forall e | e in entries :: Cleared(after, e.1)
    decreases |entries|
  {
    if entries != [] {
      var root := entries[0].1;
      var rest := entries[1..];
      assert entries[0] in entries;
      assert forall e | e in rest :: e in entries;
      if root !in fs {
        WipeAllClears(fs, locked, rest);
        WipeAllShrinks(fs, locked, rest);
      } else if TreeRemovable(fs, locked, root) {
        var removed := RemoveSubtree(fs, root);
        forall e | e in rest ensures e.1 in removed || Cleared(removed, e.1) {
          if e.1 !in removed && e.1 in fs {
            forall p | p in removed ensures !IsUnder(e.1, p) {
              if IsUnder(e.1, p) {
                UnderTransitive(root, e.1, p);
              }
            }
          }
        }
        WipeAllClears(removed, locked, rest);
        WipeAllShrinks(removed, locked, rest);
      }
    }
  }

  /**
   * The deletion loop of `delete_local_database`: each target that is an
   * unlocked regular file is unlinked; the error for any other target is
   * caught and the loop goes on. Unlinking one file does not change whether
   * another can be unlinked, so the order does not matter.
   */
  function UnlinkAll(fs: Fs, locked: set<Path>, targets: set<Path>): Fs {
    map p | p in fs && !(p in targets && Unlinkable(fs, locked, p)) :: fs[p]
  }

  /** One step of the deletion loop: unlinking `p` next gives the outcome for one more target. */
  lemma UnlinkStep(fs: Fs, locked: set<Path>, done: set<Path>, p: Path)
    requires p !in done
    ensures var now := UnlinkAll(fs, locked, done);
      (if Unlinkable(now, locked, p) then now - {p} else now) == UnlinkAll(fs, locked, done + {p})
  {
    var now := UnlinkAll(fs, locked, done);
    assert Unlinkable(now, locked, p) == Unlinkable(fs, locked, p);
  }

  /** The deletion loop, over the matches in the order the glob yields them. */
  method UnlinkMatching(disk: Disk, targets: set<Path>)
    modifies disk
    ensures disk.nodes == UnlinkAll(old(disk.nodes), disk.locked, targets)
  {
    var rest := targets;
    ghost var done: set<Path> := {};
    assert UnlinkAll(disk.nodes, disk.locked, {}) == disk.nodes;
    while rest != {}
      invariant done + rest == targets && done !! rest
      invariant disk.nodes == UnlinkAll(old(disk.nodes), disk.locked, done)
      decreases |rest|
    {
      var p :| p in rest;
      UnlinkStep(old(disk.nodes), disk.locked, done, p);
      var _ := disk.Unlink(p);
      rest := rest - {p};
      done := done + {p};
    }
  }

  /**
   * After the deletion loop, every target still present is a directory or a
   * refused path, and every other path is as it was.
   */
  lemma UnlinkAllEffect(fs: Fs, locked: set<Path>, targets: set<Path>)
    ensures var after := UnlinkAll(fs, locked, targets);
      && (forall p | p in targets && p in after :: fs[p].Dir? || p in locked)
      && (forall p | p !in targets :: (p in after <==> p in fs) && (p in fs ==> after[p] == fs[p]))
      && (forall p | p in after :: p in fs && after[p] == fs[p])
  {
  }
}
