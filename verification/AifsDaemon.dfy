/** The daemon's operations as it runs them: one command after another on the mounted filesystem. */
module AifsDaemon {
  import opened FsTree
  import opened Aifs
  import opened AifsSnapshots

  datatype DirEntry = DirEntry(name: string, isDir: bool)

  datatype ReadDirError = NoReadDirError | NotExist | NotDirectory

  /** A name may have several components, as far as `TakeSnapshot` is concerned. */
  datatype SnapshotInfo = SnapshotInfo(name: Path, path: Path, volume: Path, readOnly: bool)

  /** What a listing says about the snapshot called `n`. */
  function Info(volume: Path, n: string): SnapshotInfo {
    SnapshotInfo([n], volume + [".aifs-snapshots", n], volume, true)
  }

  /** The mounted filesystem.  Each tool changes `tree` as its specification function says. */
  class FileSystem {
    var tree: Tree

    constructor (tree: Tree)
      ensures this.tree == tree
    {
      this.tree := tree;
    }

    method Rename(a: Path, b: Path, fault: bool) returns (ok: bool)
      modifies this
      ensures Outcome(ok, tree) == FsTree.Rename(old(tree), a, b, fault)
    {
      ok := !fault && CanRename(tree, a, b);
      if ok {
        tree := Moved(tree, a, b);
      }
    }

    method SubvolumeSnapshot(src: Path, dst: Path, readOnly: bool, fault: bool) returns (ok: bool)
      modifies this
      ensures Outcome(ok, tree) == Snapshot(old(tree), src, dst, readOnly, fault)
    {
      ok := !fault && CanSnapshot(tree, src, dst);
      if ok {
        tree := Grafted(tree, Image(View(tree, src), readOnly), SnapshotTarget(tree, src, dst));
      }
    }

    method SubvolumeDelete(p: Path, fault: bool) returns (ok: bool)
      modifies this
      ensures Outcome(ok, tree) == Delete(old(tree), p, fault)
    {
      var nested := set q | q in tree && p < q && tree[q].Subvol?;
      assert nested == {} <==> !HasNested(tree, p) by {
        if HasNested(tree, p) {
          var q :| q in tree && p < q && tree[q].Subvol?;
          assert q in nested;
        }
      }
      ok := !fault && p != [] && p in tree && tree[p].Subvol? && nested == {} && !ReadOnlyAt(tree, Parent(p));
      if ok {
        tree := Without(tree, p);
      }
    }

    method SubvolumeCreate(p: Path, fault: bool) returns (ok: bool)
      modifies this
      ensures ok <==> !fault && CanAdd(old(tree), p)
      ensures tree == if ok then old(tree)[p := Subvol(false)] else old(tree)
    {
      ok := !fault && CanAdd(tree, p);
      if ok {
        tree := tree[p := Subvol(false)];
      }
    }

    method MkdirAll(p: Path) returns (ok: bool)
      modifies this
      ensures Outcome(ok, tree) == FsTree.MkdirAll(old(tree), p)
      decreases |p|
    {
      if p in tree {
        return !tree[p].File?;
      }
      if p == [] {
        return false;
      }
      ok := MkdirAll(Parent(p));
      if ok {
        ok := !ReadOnlyAt(tree, Parent(p));
        if ok {
          tree := tree[p := Dir];
        }
      }
    }

    /** `os.ReadDir`, in no particular order. */
    method ReadDir(dir: Path) returns (entries: seq<DirEntry>, err: ReadDirError)
      requires Closed(tree)
      ensures err == NoReadDirError <==> dir in tree && !tree[dir].File?
      ensures err == NotDirectory <==> FileOnTheWay(tree, dir)
      ensures err == NotExist ==> dir !in tree
      ensures err != NoReadDirError ==> entries == []
      ensures err == NoReadDirError ==> forall n: string, isDir: bool ::
        DirEntry(n, isDir) in entries <==> dir + [n] in tree && isDir == !tree[dir + [n]].File?
      ensures forall k, l | 0 <= k < l < |entries| :: entries[k].name != entries[l].name
    {
      entries := [];
      var blocked := exists k | 0 <= k <= |dir| :: dir[..k] in tree && tree[dir[..k]].File?;
      if dir in tree {
        FileOnTheWayToEntry(tree, dir);
      }
      if blocked {
        return entries, NotDirectory;
      }
      if dir !in tree {
        return entries, NotExist;
      }
      err := NoReadDirError;
      var names := ChildNames(tree, dir);
      var rest := names;
      ChildNamesAt(tree, dir);
      while rest != {}
        invariant rest <= names
        invariant forall n: string, isDir: bool ::
                    DirEntry(n, isDir) in entries <==> n in names - rest && isDir == !tree[dir + [n]].File?
        invariant forall k, l | 0 <= k < l < |entries| :: entries[k].name != entries[l].name
        decreases |rest|
      {
        var n :| n in rest;
        assert forall e | e in entries :: e == DirEntry(e.name, e.isDir) && e.name != n;
        entries := entries + [DirEntry(n, !tree[dir + [n]].File?)];
        rest := rest - {n};
      }
    }
  }

  function ChildNames(t: Tree, dir: Path): set<string> {
    set p | p in t && |p| == |dir| + 1 && dir <= p :: p[|dir|]
  }

  lemma ChildNamesAt(t: Tree, dir: Path)
    ensures forall n: string :: n in ChildNames(t, dir) <==> dir + [n] in t
  {
    forall n: string
      ensures n in ChildNames(t, dir) <==> dir + [n] in t
    {
      if dir + [n] in t {
        assert (dir + [n])[|dir|] == n;
      }
      if n in ChildNames(t, dir) {
        var p :| p in t && |p| == |dir| + 1 && dir <= p && p[|dir|] == n;
        assert p == dir + [n];
      }
    }
  }

  /** A new volume can be made at `path`: nothing is there, and the nearest directory above it is writable. */
  ghost predicate CanCreate(t: Tree, path: Path) {
    path != [] && path !in t && !FileOnTheWay(t, Parent(path)) && !ReadOnlyAt(t, Parent(path))
  }

  /** What creating a volume may add: directories above it, the volume, and its snapshot directory. */
  ghost predicate AddedBy(path: Path, u: Tree, q: Path)
    requires q in u
  {
    || (q < path && u[q] == Dir)
    || (q == path && u[q] == Subvol(false))
    || (q == SnapshotDir(path) && u[q] == Dir)
  }

  /** `fault` stands for a failure of btrfs itself, `dirFault` for one of making the snapshot directory; in that case
      the volume stays behind without one. */
  method CreateVolume(fs: FileSystem, path: Path, fault: bool, dirFault: bool) returns (ok: bool)
    requires Closed(fs.tree)
    modifies fs
    ensures Closed(fs.tree)
    ensures ok <==> !fault && !dirFault && CanCreate(old(fs.tree), path)
    ensures ok ==> Pristine(path, fs.tree) && SnapshotDir(path) in fs.tree
    ensures path in fs.tree <==> path in old(fs.tree) || (!fault && CanCreate(old(fs.tree), path))
    ensures forall q | q in old(fs.tree) :: q in fs.tree && fs.tree[q] == old(fs.tree)[q]
    ensures forall q | q in fs.tree && q !in old(fs.tree) :: AddedBy(path, fs.tree, q)
  {
    if path == [] {
      return false;
    }
    MkdirAllEffect(fs.tree, Parent(path));
    MkdirAllWorks(fs.tree, Parent(path));
    ok := fs.MkdirAll(Parent(path));
    ghost var above := fs.tree;
    assert !(path <= Parent(path));
    if !ok {
      return;
    }
    ok := fs.SubvolumeCreate(path, fault);
    if !ok {
      return;
    }
    ghost var created := fs.tree;
    NewVolume(above, path);
    if dirFault {
      return false;
    }
    ok := fs.MkdirAll(SnapshotDir(path));
    assert fs.tree == created[SnapshotDir(path) := Dir] && ok;
    NewVolumeIsPristine(above, path);
  }

  lemma NewVolume(above: Tree, path: Path)
    requires Closed(above) && CanAdd(above, path)
    ensures var u := above[path := Subvol(false)];
      && Closed(u)
      && SnapshotDir(path) !in u && Parent(SnapshotDir(path)) == path
      && MkdirAll(u, SnapshotDir(path)) == Outcome(true, u[SnapshotDir(path) := Dir])
  {
    var u := above[path := Subvol(false)];
    NothingBelow(above, path);
    assert path < SnapshotDir(path);
    assert Parent(SnapshotDir(path)) == path;
    forall q | q in u
      ensures Hangs(u, q)
    {
      assert q in above ==> Hangs(above, q);
      assert q in above && q != [] ==> Parent(q) != path;
    }
    assert MkdirAll(u, path) == Outcome(true, u);
  }

  lemma NewVolumeIsPristine(above: Tree, path: Path)
    requires Closed(above) && CanAdd(above, path)
    ensures Pristine(path, above[path := Subvol(false)][SnapshotDir(path) := Dir])
  {
    var u := above[path := Subvol(false)];
    var w := u[SnapshotDir(path) := Dir];
    NewVolume(above, path);
    NothingBelow(above, path);
    MkdirAllEffect(u, SnapshotDir(path));
    forall n: string
      ensures SnapshotDir(path) + [n] !in w
    {
      assert path <= SnapshotDir(path) + [n];
      assert SnapshotDir(path) + [n] != path && SnapshotDir(path) + [n] != SnapshotDir(path);
    }
  }

  method TakeSnapshot(fs: FileSystem, volume: Path, name: Path, now: string, fault: bool)
    returns (info: SnapshotInfo, err: TakeError)
    modifies fs
    ensures (fs.tree, err) == Take(old(fs.tree), volume, name, now, fault)
    ensures info.volume == volume && info.readOnly
    ensures info.name == if name == [] then [now] else name
    ensures info.path == volume + [".aifs-snapshots"] + info.name
  {
    var name' := if name == [] then [now] else name;
    var snapDir := volume + [SNAPSHOT_DIR];
    var snapPath := snapDir + name';
    info := SnapshotInfo(name', snapPath, volume, true);
    var made := fs.MkdirAll(snapDir);
    if !made {
      return info, MkdirError;
    }
    var ok := fs.SubvolumeSnapshot(volume, snapPath, true, fault);
    err := if ok then NoTakeError else BtrfsError;
  }

  /** The listing: each directory of the snapshot directory once, and nothing else.  A missing directory is an empty
      listing, a file in its place an error. */
  method ListSnapshots(fs: FileSystem, volume: Path) returns (snaps: seq<SnapshotInfo>, ok: bool)
    requires Closed(fs.tree)
    ensures ok <==> !FileOnTheWay(fs.tree, SnapshotDir(volume))
    ensures !ok ==> snaps == []
    ensures ok ==> forall n: string ::
      Info(volume, n) in snaps <==> Listed(fs.tree, volume, n)
    ensures forall info | info in snaps ::
      && |info.name| == 1 && info.volume == volume && info.readOnly
      && info.path == volume + [".aifs-snapshots"] + info.name
    ensures forall k, l | 0 <= k < l < |snaps| :: snaps[k].name != snaps[l].name
  {
    var snapDir := volume + [SNAPSHOT_DIR];
    var entries, err := fs.ReadDir(snapDir);
    snaps := [];
    if err == NotExist {
      assert forall n: string :: !Listed(fs.tree, volume, n) by {
        NothingBelow(fs.tree, snapDir);
        assert forall n: string :: snapDir <= snapDir + [n];
      }
      return snaps, true;
    }
    if err != NoReadDirError {
      return snaps, false;
    }
    var i := 0;
    while i < |entries|
      invariant 0 <= i <= |entries|
      invariant forall n: string :: Info(volume, n) in snaps <==> DirEntry(n, true) in entries[..i]
      invariant forall info | info in snaps :: exists n: string :: info == Info(volume, n)
      invariant forall k, l | 0 <= k < l < |snaps| :: snaps[k].name != snaps[l].name
    {
      var e := entries[i];
      assert entries[..i + 1] == entries[..i] + [e];
      if e.isDir {
        assert DirEntry(e.name, true) !in entries[..i];
        forall k | 0 <= k < |snaps|
          ensures snaps[k].name != [e.name]
        {
          assert snaps[k] in snaps;
          var n: string :| snaps[k] == Info(volume, n);
        }
        var info := SnapshotInfo([e.name], snapDir + [e.name], volume, true);
        assert info == Info(volume, e.name);
        snaps := snaps + [info];
      }
      i := i + 1;
    }
    ok := true;
    assert entries[..|entries|] == entries;
    forall info | info in snaps
      ensures |info.name| == 1 && info.path == volume + [".aifs-snapshots"] + info.name
    {
      var n: string :| info == Info(volume, n);
    }
  }

  /** The snapshot goes with everything in it and nothing else does, or nothing goes at all. */
  method DeleteSnapshot(fs: FileSystem, snap: Path, fault: bool) returns (ok: bool)
    modifies fs
    ensures ok <==> !fault && CanDelete(old(fs.tree), snap)
    ensures !ok ==> fs.tree == old(fs.tree)
    ensures ok ==> forall p | p in fs.tree :: !(snap <= p)
    ensures forall p: Path | !(snap <= p) :: SameEntry(old(fs.tree), fs.tree, p)
  {
    ok := fs.SubvolumeDelete(snap, fault);
  }

  /** What is left to do after each command, whatever the command is. */
  lemma NextCommand(t: Tree, u: Tree, pc: Pc, next: Pc, snap: Path, v: PathText, f: Faults)
    requires !pc.Finished? && RestoreStep(t, pc, snap, v, f.At(pc)) == (u, next)
    ensures Finish(t, pc, snap, v, f) == Finish(u, next, snap, v, f)
  {
  }

  lemma FirstCommand(t: Tree, o: Outcome, snap: Path, v: PathText, f: Faults)
    requires o == FsTree.Rename(t, v.comps, Backup(v), f.rename)
    ensures Restore(t, snap, v, f) ==
      if o.ok then Finish(o.tree, Renamed, snap, v, f) else (o.tree, RenameError)
  {
    NextCommand(t, o.tree, Start, if o.ok then Renamed else Finished(RenameError), snap, v, f);
  }

  lemma SecondCommand(t: Tree, o: Outcome, snap: Path, v: PathText, f: Faults)
    requires o == Snapshot(t, snap, v.comps, false, f.snapshot)
    ensures Finish(t, Renamed, snap, v, f) ==
      if o.ok then Finish(o.tree, Snapped, snap, v, f) else Finish(o.tree, RollingBack, snap, v, f)
  {
    NextCommand(t, o.tree, Renamed, if o.ok then Snapped else RollingBack, snap, v, f);
  }

  lemma RollbackCommand(t: Tree, o: Outcome, snap: Path, v: PathText, f: Faults)
    requires o == FsTree.Rename(t, Backup(v), v.comps, f.rollback)
    ensures Finish(t, RollingBack, snap, v, f) == (o.tree, SnapshotError)
  {
    NextCommand(t, o.tree, RollingBack, Finished(SnapshotError), snap, v, f);
  }

  lemma LastCommand(t: Tree, o: Outcome, snap: Path, v: PathText, f: Faults)
    requires o == Delete(t, Backup(v), f.delete)
    ensures Finish(t, Snapped, snap, v, f) == (o.tree, if o.ok then NoError else DeleteError)
  {
    NextCommand(t, o.tree, Snapped, Finished(if o.ok then NoError else DeleteError), snap, v, f);
  }

  /** The restore protocol as written, against the step-by-step description that the theorems are about. */
  method RestoreSnapshot(fs: FileSystem, snap: Path, volume: PathText, f: Faults) returns (err: RestoreError)
    modifies fs
    ensures (fs.tree, err) == Restore(old(fs.tree), snap, volume, f)
  {
    var backup := Backup(volume);
    ghost var t0 := fs.tree;
    var ok := fs.Rename(volume.comps, backup, f.rename);
    ghost var t1 := fs.tree;
    FirstCommand(t0, Outcome(ok, t1), snap, volume, f);
    if !ok {
      return RenameError;
    }
    ok := fs.SubvolumeSnapshot(snap, volume.comps, false, f.snapshot);
    ghost var t2 := fs.tree;
    SecondCommand(t1, Outcome(ok, t2), snap, volume, f);
    if !ok {
      ok := fs.Rename(backup, volume.comps, f.rollback);
      RollbackCommand(t2, Outcome(ok, fs.tree), snap, volume, f);
      return SnapshotError;
    }
    ok := fs.SubvolumeDelete(backup, f.delete);
    LastCommand(t2, Outcome(ok, fs.tree), snap, volume, f);
    err := if ok then NoError else DeleteError;
  }
}
