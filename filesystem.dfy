/**
 * The filesystem the engine works on, and the operating-system calls it makes.
 *
 * A path is the sequence of its name components from the root; the
 * filesystem maps each existing path to a regular file or a directory. A
 * directory's contents are the paths below it. Which files this process may
 * not read is part of each file; which paths the operating system refuses to
 * create, remove, rename or overwrite is the `locked` set of the disk.
 */
module FileSystem {
  import opened Common

  type Bytes = seq<bv8>
  type Path = seq<string>

  /** A regular file (its bytes, and whether this process may open it for reading) or a directory. */
  datatype Node = File(data: Bytes, readable: bool) | Dir

  type Fs = map<Path, Node>

  /** `p` is `root` itself or lies below it. */
  predicate IsUnder(root: Path, p: Path) {
    |root| <= |p| && p[..|root|] == root
  }

  /** `p` lies strictly below `root`. */
  predicate IsBelow(root: Path, p: Path) {
    |root| < |p| && p[..|root|] == root
  }

  predicate IsChildOf(p: Path, dir: Path) {
    |p| == |dir| + 1 && p[..|dir|] == dir
  }

  /** `PurePath.name`: the final component. */
  function Name(p: Path): string {
    if p == [] then "" else p[|p| - 1]
  }

  /** A child of `dir` is `dir` extended by the child's name. */
  lemma ChildIsDirPlusName(p: Path, dir: Path)
    requires IsChildOf(p, dir)
    ensures p == dir + [Name(p)]
  {
    assert p == p[..|dir|] + [p[|dir|]];
  }

  /**
   * `PurePath.relative_to(base)`: the components after `base`, or nothing
   * when `p` is not below `base` (Python raises ValueError then). Joining
   * the result back onto `base` gives `p`.
   */
  function RelativeTo(p: Path, base: Path): (r: Option<Path>)
    ensures r.Some? <==> IsUnder(base, p)
    ensures r.Some? ==> base + r.value == p
  {
    if IsUnder(base, p) then
      assert p == p[..|base|] + p[|base|..];
      Some(p[|base|..])
    else None
  }

  /** The direct children of `dir`: what `iterdir()` and a one-component `glob` look at. */
  function Children(fs: Fs, dir: Path): set<Path> {
    set p | p in fs && IsChildOf(p, dir)
  }

  /** Everything below `dir`: what `rglob("*")` yields. */
  function Descendants(fs: Fs, dir: Path): set<Path> {
    set p | p in fs && IsBelow(dir, p)
  }

  /** The filesystem after `root` and everything below it are gone. */
  function RemoveSubtree(fs: Fs, root: Path): (r: Fs)
    ensures forall p :: p in r <==> p in fs && !IsUnder(root, p)
    ensures forall p | p in r :: r[p] == fs[p]
  {
    map p | p in fs && !IsUnder(root, p) :: fs[p]
  }

  /** Where a path below `src` ends up once `src` is renamed to `dst`. */
  function Relocate(p: Path, src: Path, dst: Path): Path
    requires IsUnder(src, p)
  {
    dst + p[|src|..]
  }

  lemma RelocateInjective(src: Path, dst: Path)
    ensures forall p, q | IsUnder(src, p) && IsUnder(src, q) && Relocate(p, src, dst) == Relocate(q, src, dst) :: p == q
  {
    forall p, q | IsUnder(src, p) && IsUnder(src, q) && Relocate(p, src, dst) == Relocate(q, src, dst)
      ensures p == q
    {
      assert p[|src|..] == Relocate(p, src, dst)[|dst|..];
      assert q[|src|..] == Relocate(q, src, dst)[|dst|..];
      assert p == p[..|src|] + p[|src|..];
      assert q == q[..|src|] + q[|src|..];
    }
  }

  /** `os.rename(src, dst)`: the subtree at `src` now lives at `dst`; a file at `dst` is replaced. */
  function MoveSubtree(fs: Fs, src: Path, dst: Path): Fs {
    RelocateInjective(src, dst);
    var kept := map p | p in fs && !IsUnder(src, p) :: fs[p];
    var moved := map p | p in fs && IsUnder(src, p) :: Relocate(p, src, dst) := fs[p];
    kept + moved
  }

  /**
   * Moving a subtree to a place outside it: everything that was below `src`
   * is found at the corresponding place below `dst` with the same node, and
   * nothing is left below `src`.
   */
  lemma MoveSubtreeRelocates(fs: Fs, src: Path, dst: Path)
    requires !IsUnder(src, dst) && !IsUnder(dst, src)
    ensures forall p | p in fs && IsUnder(src, p) ::
      Relocate(p, src, dst) in MoveSubtree(fs, src, dst) && MoveSubtree(fs, src, dst)[Relocate(p, src, dst)] == fs[p]
    ensures forall p | p in MoveSubtree(fs, src, dst) :: !IsUnder(src, p)
    ensures forall p | p in fs && !IsUnder(src, p) && !IsUnder(dst, p) ::
      p in MoveSubtree(fs, src, dst) && MoveSubtree(fs, src, dst)[p] == fs[p]
  {
    var r := MoveSubtree(fs, src, dst);
    RelocateInjective(src, dst);
    forall p | p in r ensures !IsUnder(src, p) {
      if p !in (map q | q in fs && !IsUnder(src, q) :: fs[q]) {
        var q :| q in fs && IsUnder(src, q) && Relocate(q, src, dst) == p;
        assert IsUnder(dst, p);
        if |src| <= |dst| {
          assert p[..|src|] == dst[..|src|];
        } else {
          assert p[..|dst|] == dst;
          assert |src| <= |p| ==> p[..|src|][..|dst|] == dst;
        }
      }
    }
    forall p | p in fs && !IsUnder(src, p) && !IsUnder(dst, p)
      ensures p in r && r[p] == fs[p]
    {
      forall q | q in fs && IsUnder(src, q) ensures Relocate(q, src, dst) != p {
        assert Relocate(q, src, dst)[..|dst|] == dst;
      }
    }
  }

  /** Being under is transitive. */
  lemma UnderTransitive(a: Path, b: Path, c: Path)
    requires IsUnder(a, b) && IsUnder(b, c)
    ensures IsUnder(a, c)
  {
    assert c[..|a|] == c[..|b|][..|a|];
  }

  /** Two paths that both lie above a third are comparable. */
  lemma UnderComparable(a: Path, b: Path, p: Path)
    requires IsUnder(a, p) && IsUnder(b, p)
    ensures IsUnder(a, b) || IsUnder(b, a)
  {
    if |a| <= |b| {
      assert b[..|a|] == p[..|b|][..|a|];
    } else {
      assert a[..|b|] == p[..|a|][..|b|];
    }
  }

  /** Nothing at or below `root` remains. */
  predicate Cleared(fs: Fs, root: Path) {
    forall p | p in fs :: !IsUnder(root, p)
  }

  /** A rename leaves every path outside its source and its target as it was. */
  lemma MoveSubtreeFrame(fs: Fs, src: Path, dst: Path, p: Path)
    requires !IsUnder(src, p) && !IsUnder(dst, p)
    ensures p in MoveSubtree(fs, src, dst) <==> p in fs
    ensures p in fs ==> MoveSubtree(fs, src, dst)[p] == fs[p]
  {
    forall q | q in fs && IsUnder(src, q) ensures Relocate(q, src, dst) != p {
      assert Relocate(q, src, dst)[..|dst|] == dst;
    }
  }

  /** After a rename, a path is either one that was there outside the source, or lies under the target. */
  lemma MoveSubtreeOrigin(fs: Fs, src: Path, dst: Path, p: Path)
    requires p in MoveSubtree(fs, src, dst)
    ensures (p in fs && !IsUnder(src, p)) || IsUnder(dst, p)
  {
    RelocateInjective(src, dst);
    if !(p in fs && !IsUnder(src, p)) {
      var q :| q in fs && IsUnder(src, q) && Relocate(q, src, dst) == p;
      assert p[..|dst|] == dst;
    }
  }

  /** `open(p, 'wb')` succeeds: `p` is not locked and is not a directory. */
  predicate Writable(fs: Fs, locked: set<Path>, p: Path) {
    p !in locked && !(p in fs && fs[p].Dir?)
  }

  /** `Path.unlink()` succeeds: `p` is an unlocked regular file. */
  predicate Unlinkable(fs: Fs, locked: set<Path>, p: Path) {
    p in fs && fs[p].File? && p !in locked
  }

  /** `mkdir(p)` with an existing directory tolerated succeeds: a directory is there, or nothing and `p` is not locked. */
  predicate DirCreatable(fs: Fs, locked: set<Path>, p: Path) {
    if p in fs then fs[p].Dir? else p !in locked
  }

  /** `shutil.rmtree(p)` succeeds: `p` is a directory and nothing at or below it is locked. */
  predicate TreeRemovable(fs: Fs, locked: set<Path>, p: Path) {
    p in fs && fs[p].Dir? && forall q | q in locked && q in fs :: !IsUnder(p, q)
  }

  /** Where `shutil.move(src, dst)` puts `src`: inside `dst` when `dst` is a directory. */
  function MoveTarget(fs: Fs, src: Path, dst: Path): Path {
    if dst in fs && fs[dst].Dir? then dst + [Name(src)] else dst
  }

  /**
   * `shutil.move(src, dst)` succeeds: `src` exists and is not locked, the
   * target is not locked and not inside `src`, and the target is free,
   * except that a regular file may replace a regular file named by `dst`
   * itself.
   */
  predicate Movable(fs: Fs, locked: set<Path>, src: Path, dst: Path) {
    var target := MoveTarget(fs, src, dst);
    && src in fs
    && src !in locked
    && target !in locked
    && !IsUnder(src, target)
    && (target in fs ==> target == dst && fs[src].File?)
  }

  /** The operating system's view of the filesystem, changed by the engine's calls. */
  class Disk {
    var nodes: Fs
    /** Paths the operating system refuses to create, remove, rename or overwrite. */
    const locked: set<Path>

    constructor (nodes: Fs, locked: set<Path>)
      ensures this.nodes == nodes && this.locked == locked
    {
      this.nodes := nodes;
      this.locked := locked;
    }

    /** `open(p, 'wb')`, writing `data`, closing; false where Python raises OSError. */
    method WriteFile(p: Path, data: Bytes) returns (ok: bool)
      modifies this
      ensures ok == Writable(old(nodes), locked, p)
      ensures nodes == if ok then old(nodes)[p := File(data, true)] else old(nodes)
    {
      ok := Writable(nodes, locked, p);
      if ok {
        nodes := nodes[p := File(data, true)];
      }
    }

    /** `Path.unlink()`; false where Python raises OSError. */
    method Unlink(p: Path) returns (ok: bool)
      modifies this
      ensures ok == Unlinkable(old(nodes), locked, p)
      ensures nodes == if ok then old(nodes) - {p} else old(nodes)
    {
      ok := Unlinkable(nodes, locked, p);
      if ok {
        nodes := nodes - {p};
      }
    }

    /** `Path.mkdir(exist_ok=True)`; false where Python raises (a file is there, or creation is refused). */
    method MakeDir(p: Path) returns (ok: bool)
      modifies this
      ensures ok == DirCreatable(old(nodes), locked, p)
      ensures nodes == if ok && p !in old(nodes) then old(nodes)[p := Dir] else old(nodes)
    {
      ok := DirCreatable(nodes, locked, p);
      if ok && p !in nodes {
        nodes := nodes[p := Dir];
      }
    }

    /** `shutil.rmtree(p)`; false where Python raises. */
    method RemoveTree(p: Path) returns (ok: bool)
      modifies this
      ensures ok == TreeRemovable(old(nodes), locked, p)
      ensures nodes == if ok then RemoveSubtree(old(nodes), p) else old(nodes)
    {
      ok := TreeRemovable(nodes, locked, p);
      if ok {
        nodes := RemoveSubtree(nodes, p);
      }
    }

    /** `shutil.move(src, dst)`; false where Python raises. */
    method Move(src: Path, dst: Path) returns (ok: bool)
      modifies this
      ensures ok == Movable(old(nodes), locked, src, dst)
      ensures nodes == if ok then MoveSubtree(old(nodes), src, MoveTarget(old(nodes), src, dst)) else old(nodes)
    {
      ok := Movable(nodes, locked, src, dst);
      if ok {
        nodes := MoveSubtree(nodes, src, MoveTarget(nodes, src, dst));
      }
    }
  }
}
