/** Snapshots of one volume: `TakeSnapshot`, `DeleteSnapshot` and `ListSnapshots`.  Snapshots live in a
    directory inside the volume they protect.  Over any run, the listing is the register of the names taken and
    not yet deleted, and every snapshot keeps what the volume held when it was taken. */
module AifsSnapshots {
  import opened FsTree
  import opened Aifs

  datatype TakeError = NoTakeError | MkdirError | BtrfsError

  /** `filepath.Join(volumePath, snapshotDir)` */
  function SnapshotDir(volume: Path): Path {
    volume + [SNAPSHOT_DIR]
  }

  /** Where a snapshot goes.  An empty name stands for the time of the request. */
  function SnapshotPath(volume: Path, name: Path, now: string): Path {
    SnapshotDir(volume) + if name == [] then [now] else name
  }

  function Take(t: Tree, volume: Path, name: Path, now: string, fault: bool): (r: (Tree, TakeError)) {
    var made := MkdirAll(t, SnapshotDir(volume));
    if !made.ok then (made.tree, MkdirError)
    else
      var o := Snapshot(made.tree, volume, SnapshotPath(volume, name, now), true, fault);
      (o.tree, if o.ok then NoTakeError else BtrfsError)
  }

  /** The names `ListSnapshots` finds: the directory entries of the snapshot directory that are directories. */
  ghost predicate Listed(t: Tree, volume: Path, name: string) {
    SnapshotDir(volume) + [name] in t && !t[SnapshotDir(volume) + [name]].File?
  }

  /** What users keep in a volume or snapshot: its contents without the daemon's own directory. */
  function UserData(t: Tree, root: Path): map<Path, Node> {
    map r | r in View(t, root) && !([SNAPSHOT_DIR] <= r) :: View(t, root)[r]
  }

  // ---- runs ----

  /** `name` is a single path component, or empty. */
  datatype Op =
    | TakeOp(name: string, now: string, fault: bool)
    | DeleteOp(name: string, fault: bool)
    | WriteOp(tree: Tree)

  datatype Register = Register(tree: Tree, live: map<string, map<Path, Node>>)

  function Key(name: string, now: string): string {
    if name == "" then now else name
  }

  function Name(name: string): Path {
    if name == "" then [] else [name]
  }

  /** Any other work: it may rewrite the volume at will, but it leaves the snapshot directory alone and keeps the
      volume a writable subvolume. */
  ghost predicate Writes(volume: Path, t: Tree, u: Tree) {
    && Closed(u)
    && volume in u && u[volume] == Subvol(false)
    && SubtreeAt(u, SnapshotDir(volume)) == SubtreeAt(t, SnapshotDir(volume))
  }

  ghost predicate Allowed(volume: Path, s: Register, op: Op) {
    op.WriteOp? ==> Writes(volume, s.tree, op.tree)
  }

  /** One operation, with the record of what is live: a successful take adds the name with the volume's contents
      at that moment, a successful delete removes it. */
  function Do(volume: Path, s: Register, op: Op): Register {
    match op
    case TakeOp(name, now, fault) =>
      var (u, err) := Take(s.tree, volume, Name(name), now, fault);
      Register(u, if err == NoTakeError then s.live[Key(name, now) := UserData(s.tree, volume)] else s.live)
    case DeleteOp(name, fault) =>
      var o := Delete(s.tree, SnapshotDir(volume) + [name], fault);
      Register(o.tree, if o.ok then s.live - {name} else s.live)
    case WriteOp(u) => s.(tree := u)
  }

  function DoAll(volume: Path, s: Register, ops: seq<Op>): Register {
    if ops == [] then s else Do(volume, DoAll(volume, s, ops[..|ops| - 1]), ops[|ops| - 1])
  }

  ghost predicate AllowedAt(volume: Path, s: Register, ops: seq<Op>, k: nat)
    requires k < |ops|
  {
    Allowed(volume, DoAll(volume, s, ops[..k]), ops[k])
  }

  ghost predicate AllAllowed(volume: Path, s: Register, ops: seq<Op>) {
    forall k: nat | k < |ops| :: AllowedAt(volume, s, ops, k)
  }

  lemma AllowedUpTo(volume: Path, s: Register, ops: seq<Op>, n: nat)
    requires n <= |ops| && AllAllowed(volume, s, ops)
    ensures AllAllowed(volume, s, ops[..n])
  {
    forall k: nat | k < n
      ensures AllowedAt(volume, s, ops[..n], k)
    {
      assert ops[..n][..k] == ops[..k];
      assert AllowedAt(volume, s, ops, k);
    }
  }

  // ---- the invariant ----

  /** One live snapshot: a read-only subvolume without nested ones that holds `data`. */
  ghost predicate Holding(t: Tree, at: Path, data: map<Path, Node>) {
    && at in t && t[at] == Subvol(true)
    && !HasNested(t, at)
    && UserData(t, at) == data
  }

  /** The snapshot directory has an entry of this name exactly if it is live, and then it holds what it should. */
  ghost predicate NameKept(volume: Path, s: Register, name: string) {
    var at := SnapshotDir(volume) + [name];
    (at in s.tree <==> name in s.live) && (name in s.live ==> Holding(s.tree, at, s.live[name]))
  }

  ghost predicate Inv(volume: Path, s: Register) {
    var dir := SnapshotDir(volume);
    && Closed(s.tree)
    && volume in s.tree && s.tree[volume] == Subvol(false)
    && (dir in s.tree ==> s.tree[dir] == Dir)
    && (forall n: string :: NameKept(volume, s, n))
  }

  lemma UserDataOfSameView(t: Tree, p: Path, u: Tree, q: Path)
    requires View(t, p) == View(u, q)
    ensures UserData(t, p) == UserData(u, q)
  {
  }

  /** A snapshot is determined by what is at and below it. */
  lemma HoldingCarried(t: Tree, u: Tree, at: Path, data: map<Path, Node>)
    requires Holding(t, at, data) && SubtreeAt(t, at) == SubtreeAt(u, at)
    ensures Holding(u, at, data)
  {
    SubtreeEntry(t, at, []);
    SubtreeEntry(u, at, []);
    assert at + [] == at;
    NestedIsCarried(u, at, t, at);
    ViewOfSameSubtree(t, at, u, at);
    UserDataOfSameView(t, at, u, at);
  }

  lemma SubtreeOfSubtree(t: Tree, u: Tree, p: Path, q: Path)
    requires SubtreeAt(t, p) == SubtreeAt(u, p) && p <= q
    ensures SubtreeAt(t, q) == SubtreeAt(u, q)
  {
    forall r: Path
      ensures SameEntry(t, u, q + r)
    {
      var d := (q + r)[|p|..];
      assert p + d == q + r;
      SubtreeEntry(t, p, d);
      SubtreeEntry(u, p, d);
    }
    SameSubtree(t, q, u, q);
  }

  /** A fresh read-only snapshot holds exactly the view it was made from. */
  lemma ViewOfImage(t: Tree, at: Path, s: Tree, src: Path, readOnly: bool)
    requires SubtreeAt(t, at) == Image(View(s, src), readOnly)
    ensures View(t, at) == View(s, src)
  {
    var view := View(s, src);
    ViewAt(s, src, []);
    forall r: Path
      ensures r in View(t, at) <==> r in view
      ensures r in view ==> View(t, at)[r] == view[r]
    {
      SubtreeEntry(t, at, r);
      ViewAt(t, at, r);
      ViewAt(s, src, r);
      if r in view {
        forall k | |at| < k < |at + r| && (at + r)[..k] in t
          ensures !t[(at + r)[..k]].Subvol?
        {
          var m := r[..k - |at|];
          assert (at + r)[..k] == at + m;
          SubtreeEntry(t, at, m);
          ViewAt(s, src, m);
        }
      }
    }
  }

  // ---- each operation keeps it ----

  /** Making the snapshot directory adds at most that one directory and always works. */
  lemma DirIsMade(volume: Path, s: Register)
    requires Inv(volume, s)
    ensures var dir := SnapshotDir(volume); var made := MkdirAll(s.tree, dir);
      && made.ok && made.tree == (if dir in s.tree then s.tree else s.tree[dir := Dir])
      && Closed(made.tree) && !ReadOnlyAt(made.tree, dir)
      && Inv(volume, s.(tree := made.tree))
  {
    var dir := SnapshotDir(volume);
    var made := MkdirAll(s.tree, dir);
    assert Parent(dir) == volume;
    MkdirAllEffect(s.tree, dir);
    assert made.ok && made.tree == (if dir in s.tree then s.tree else s.tree[dir := Dir]);
    assert made.tree[dir] == Dir && made.tree[volume] == s.tree[volume];
    if dir !in s.tree {
      NothingBelow(s.tree, dir);
      forall n: string
        ensures NameKept(volume, s.(tree := made.tree), n)
      {
        assert dir <= dir + [n] && dir + [n] != dir;
        assert NameKept(volume, s, n);
      }
    }
  }

  lemma VisibleBesidesDir(t: Tree, root: Path, d: Path, p: Path)
    requires d !in t && p != d
    ensures Visible(t[d := Dir], root, p) <==> Visible(t, root, p)
  {
    var u := t[d := Dir];
    if Visible(u, root, p) {
      forall k | |root| < k < |p| && p[..k] in t
        ensures !t[p[..k]].Subvol?
      {
        assert p[..k] in u;
      }
    }
  }

  lemma DirKeepsUserData(volume: Path, t: Tree)
    requires Closed(t) && SnapshotDir(volume) !in t
    ensures UserData(t[SnapshotDir(volume) := Dir], volume) == UserData(t, volume)
  {
    var dir := SnapshotDir(volume);
    var u := t[dir := Dir];
    forall r: Path
      ensures r in UserData(u, volume) <==> r in UserData(t, volume)
      ensures r in UserData(t, volume) ==> UserData(u, volume)[r] == UserData(t, volume)[r]
    {
      if !([SNAPSHOT_DIR] <= r) {
        assert (volume + r)[|volume|..] == r && dir[|volume|..] == [SNAPSHOT_DIR];
        VisibleBesidesDir(t, volume, dir, volume + r);
        ViewAt(u, volume, r);
        ViewAt(t, volume, r);
      }
    }
  }

  /** Taking a name that is live fails and changes nothing; a free name is taken unless btrfs itself fails. */
  lemma TakeWorks(volume: Path, s: Register, name: string, now: string, fault: bool)
    requires Inv(volume, s)
    ensures var (u, err) := Take(s.tree, volume, Name(name), now, fault);
      && (err == NoTakeError <==> !fault && Key(name, now) !in s.live)
      && (Key(name, now) in s.live ==> u == s.tree)
  {
    var t := MkdirAll(s.tree, SnapshotDir(volume)).tree;
    var dst := SnapshotDir(volume) + [Key(name, now)];
    DirIsMade(volume, s);
    assert SnapshotPath(volume, Name(name), now) == dst && Parent(dst) == SnapshotDir(volume);
    assert NameKept(volume, s.(tree := t), Key(name, now)) && NameKept(volume, s, Key(name, now));
    if Key(name, now) in s.live {
      var target := SnapshotTarget(t, volume, dst);
      assert volume != [] ==> Parent(target) == dst;
      AncestorIn(s.tree, SnapshotDir(volume), dst);
    }
  }

  lemma TakeKeeps(volume: Path, s: Register, op: Op)
    requires Inv(volume, s) && op.TakeOp?
    ensures Inv(volume, Do(volume, s, op))
  {
    var TakeOp(name, now, fault) := op;
    var dir := SnapshotDir(volume);
    DirIsMade(volume, s);
    TakeWorks(volume, s, name, now, fault);
    var t := MkdirAll(s.tree, dir).tree;
    if !fault && Key(name, now) !in s.live {
      if dir !in s.tree {
        DirKeepsUserData(volume, s.tree);
      }
      Taken(volume, Register(t, s.live), Key(name, now));
      assert SnapshotPath(volume, Name(name), now) == dir + [Key(name, now)];
    }
  }

  lemma Taken(volume: Path, s: Register, key: string)
    requires Inv(volume, s) && SnapshotDir(volume) in s.tree && key !in s.live
    requires !ReadOnlyAt(s.tree, SnapshotDir(volume))
    ensures var dst := SnapshotDir(volume) + [key];
      Inv(volume, Register(Snapshot(s.tree, volume, dst, true, false).tree, s.live[key := UserData(s.tree, volume)]))
  {
    var t, dir := s.tree, SnapshotDir(volume);
    var dst := dir + [key];
    var u := Snapshot(t, volume, dst, true, false).tree;
    assert Parent(dst) == dir;
    assert NameKept(volume, s, key);
    assert Closed(u) by {
      SnapshotClosed(t, volume, dst, true);
    }
    GraftedEffect(t, Image(View(t, volume), true), dst);
    assert Holding(u, dst, UserData(t, volume)) by {
      NewSnapshotHolds(t, volume, dst, u);
    }
    assert SameEntry(t, u, volume) && SameEntry(t, u, dir);
    var s' := Register(u, s.live[key := UserData(t, volume)]);
    forall n: string
      ensures NameKept(volume, s', n)
    {
      if n != key {
        OtherNameKept(volume, s, s', key, n);
      }
    }
  }

  /** A change at one name of the snapshot directory leaves the others as they are. */
  lemma OtherNameKept(volume: Path, s: Register, s': Register, key: string, n: string)
    requires NameKept(volume, s, n) && n != key
    requires n in s'.live <==> n in s.live
    requires n in s.live ==> s'.live[n] == s.live[n]
    requires forall p: Path | !(SnapshotDir(volume) + [key] <= p) :: SameEntry(s.tree, s'.tree, p)
    ensures NameKept(volume, s', n)
  {
    SiblingUnchanged(s.tree, s'.tree, SnapshotDir(volume), key, n);
    if n in s.live {
      HoldingCarried(s.tree, s'.tree, SnapshotDir(volume) + [n], s.live[n]);
    }
  }

  lemma NewSnapshotHolds(t: Tree, volume: Path, dst: Path, u: Tree)
    requires SubtreeAt(u, dst) == Image(View(t, volume), true)
    ensures Holding(u, dst, UserData(t, volume))
  {
    ViewOfImage(u, dst, t, volume, true);
    UserDataOfSameView(u, dst, t, volume);
    ImageHasNoNested(u, dst, volume, t, true);
    SubtreeEntry(u, dst, []);
    assert dst + [] == dst;
  }

  lemma SiblingUnchanged(t: Tree, u: Tree, dir: Path, key: string, n: string)
    requires n != key && forall p: Path | !(dir + [key] <= p) :: SameEntry(t, u, p)
    ensures SubtreeAt(t, dir + [n]) == SubtreeAt(u, dir + [n])
    ensures SameEntry(t, u, dir + [n])
  {
    forall r: Path
      ensures SameEntry(t, u, dir + [n] + r)
    {
      assert (dir + [n] + r)[|dir|] == n;
      assert (dir + [key])[|dir|] == key;
    }
    SameSubtree(t, dir + [n], u, dir + [n]);
    assert dir + [n] + [] == dir + [n];
    assert SameEntry(t, u, dir + [n] + []);
  }

  /** Deleting a live name works unless btrfs itself fails; any other name is refused. */
  lemma DeleteWorks(volume: Path, s: Register, name: string, fault: bool)
    requires Inv(volume, s)
    ensures Delete(s.tree, SnapshotDir(volume) + [name], fault).ok <==> !fault && name in s.live
  {
    var at := SnapshotDir(volume) + [name];
    assert Parent(at) == SnapshotDir(volume) && Parent(SnapshotDir(volume)) == volume;
    assert NameKept(volume, s, name);
    if name in s.live {
      AncestorIn(s.tree, SnapshotDir(volume), at);
      assert !ReadOnlyAt(s.tree, SnapshotDir(volume)) by {
        DirIsMade(volume, s);
      }
    }
  }

  lemma DeleteKeeps(volume: Path, s: Register, op: Op)
    requires Inv(volume, s) && op.DeleteOp?
    ensures Inv(volume, Do(volume, s, op))
  {
    var DeleteOp(name, fault) := op;
    var dir := SnapshotDir(volume);
    DeleteWorks(volume, s, name, fault);
    if !fault && name in s.live {
      var u := Without(s.tree, dir + [name]);
      var s' := Register(u, s.live - {name});
      WithoutClosed(s.tree, dir + [name]);
      WithoutEffect(s.tree, dir + [name]);
      assert SameEntry(s.tree, u, volume) && SameEntry(s.tree, u, dir);
      forall p: Path | !(dir + [name] <= p)
        ensures SameEntry(s.tree, u, p)
      {
        assert SameEntry(s.tree, u, p);
      }
      forall n: string
        ensures NameKept(volume, s', n)
      {
        if n != name {
          OtherNameKept(volume, s, s', name, n);
        }
      }
    }
  }

  lemma WriteKeeps(volume: Path, s: Register, u: Tree)
    requires Inv(volume, s) && Writes(volume, s.tree, u)
    ensures Inv(volume, s.(tree := u))
  {
    var dir := SnapshotDir(volume);
    SubtreeEntry(s.tree, dir, []);
    SubtreeEntry(u, dir, []);
    assert dir + [] == dir;
    forall n: string
      ensures NameKept(volume, s.(tree := u), n)
    {
      assert NameKept(volume, s, n);
      SubtreeEntry(s.tree, dir, [n]);
      SubtreeEntry(u, dir, [n]);
      if n in s.live {
        SubtreeOfSubtree(s.tree, u, dir, dir + [n]);
        HoldingCarried(s.tree, u, dir + [n], s.live[n]);
      }
    }
  }

  /** A volume as `CreateVolume` leaves it, or any writable subvolume that was never snapshotted. */
  ghost predicate Pristine(volume: Path, t: Tree) {
    && Closed(t)
    && volume in t && t[volume] == Subvol(false)
    && (SnapshotDir(volume) in t ==> t[SnapshotDir(volume)] == Dir)
    && (forall n: string :: SnapshotDir(volume) + [n] !in t)
  }

  lemma {:induction false} RunKeeps(volume: Path, t: Tree, ops: seq<Op>)
    requires Pristine(volume, t) && AllAllowed(volume, Register(t, map[]), ops)
    ensures Inv(volume, DoAll(volume, Register(t, map[]), ops))
    decreases |ops|
  {
    if ops == [] {
    } else {
      var s0 := Register(t, map[]);
      var front, last := ops[..|ops| - 1], ops[|ops| - 1];
      AllowedUpTo(volume, s0, ops, |ops| - 1);
      RunKeeps(volume, t, front);
      var s := DoAll(volume, s0, front);
      assert AllowedAt(volume, s0, ops, |ops| - 1);
      match last
      case TakeOp(_, _, _) => TakeKeeps(volume, s, last);
      case DeleteOp(_, _) => DeleteKeeps(volume, s, last);
      case WriteOp(u) => WriteKeeps(volume, s, u);
    }
  }

  // ---- what follows for every run ----

  /** The listing is exactly the register of live names, and each snapshot still holds what the volume held when
      the name was taken, whatever has been written since. */
  lemma SnapshotsAreKept(volume: Path, t: Tree, ops: seq<Op>)
    requires Pristine(volume, t) && AllAllowed(volume, Register(t, map[]), ops)
    ensures var s := DoAll(volume, Register(t, map[]), ops);
      && (forall n: string :: Listed(s.tree, volume, n) <==> n in s.live)
      && (forall n | n in s.live :: UserData(s.tree, SnapshotDir(volume) + [n]) == s.live[n])
  {
    RunKeeps(volume, t, ops);
    var s := DoAll(volume, Register(t, map[]), ops);
    forall n: string
      ensures Listed(s.tree, volume, n) <==> n in s.live
      ensures n in s.live ==> UserData(s.tree, SnapshotDir(volume) + [n]) == s.live[n]
    {
      assert NameKept(volume, s, n);
    }
  }

  // ---- in terms of entries ----

  /** A snapshot that is taken is a read-only copy of the volume, directory for snapshots included, at its place
      under the volume; nothing else changes. */
  lemma TakeCopies(volume: Path, s: Register, name: string, now: string, fault: bool)
    requires Inv(volume, s)
    requires Take(s.tree, volume, Name(name), now, fault).1 == NoTakeError
    ensures var dir := volume + [".aifs-snapshots"];
      var at := dir + [if name == "" then now else name];
      var t := if dir in s.tree then s.tree else s.tree[dir := Dir];
      var u := Take(s.tree, volume, Name(name), now, fault).0;
      && IsCopy(t, volume, u, at) && at in u && u[at] == Subvol(true)
      && forall p: Path | !(at <= p) :: SameEntry(t, u, p)
  {
    var t := MkdirAll(s.tree, SnapshotDir(volume)).tree;
    var dst := SnapshotPath(volume, Name(name), now);
    DirIsMade(volume, s);
    TakeWorks(volume, s, name, now, fault);
    assert dst == SnapshotDir(volume) + [Key(name, now)];
    assert NameKept(volume, s.(tree := t), Key(name, now));
    assert SnapshotTarget(t, volume, dst) == dst;
    SnapshotCopies(t, volume, dst, true);
  }

  /** A snapshot that holds what the volume held is a copy of it entry by entry. */
  lemma HoldingIsCopy(t: Tree, at: Path, b: Tree, volume: Path, r: Path)
    requires Holding(t, at, UserData(b, volume)) && r != [] && !([SNAPSHOT_DIR] <= r)
    ensures CopiedAt(b, volume, t, at, r)
  {
    ViewAt(t, at, r);
    ViewAt(b, volume, r);
    OwnsIsVisible(t, at, r);
    OwnsIsVisible(b, volume, r);
    assert r in UserData(t, at) <==> r in View(t, at);
    assert r in UserData(b, volume) <==> r in View(b, volume);
    if at + r in t {
      NoneNested(t, at, r);
    }
  }

  lemma NoneNested(t: Tree, at: Path, r: Path)
    requires !HasNested(t, at) && r != [] && at + r in t
    ensures Owns(t, at, r) && !t[at + r].Subvol?
  {
    assert at < at + r;
    forall k | 0 < k < |r| && at + r[..k] in t
      ensures !t[at + r[..k]].Subvol?
    {
      assert at < at + r[..k];
    }
  }

  /** The name has been live ever since the j-th operation took it, from the contents of that moment. */
  ghost predicate LiveSince(volume: Path, s0: Register, ops: seq<Op>, name: string, j: nat)
  {
    && j < |ops| && ops[j].TakeOp? && Key(ops[j].name, ops[j].now) == name
    && name !in DoAll(volume, s0, ops[..j]).live
    && forall i | j < i <= |ops| :: name in DoAll(volume, s0, ops[..i]).live
  }

  lemma LiveSinceMore(volume: Path, s0: Register, front: seq<Op>, ops: seq<Op>, name: string, j: nat)
    requires |ops| == |front| + 1 && ops[..|front|] == front
    requires LiveSince(volume, s0, front, name, j) && name in DoAll(volume, s0, ops).live
    ensures LiveSince(volume, s0, ops, name, j) && front[..j] == ops[..j]
  {
    forall i | 0 <= i <= |front|
      ensures front[..i] == ops[..i]
    {
    }
    assert ops[..|ops|] == ops;
  }

  /** Live since the j-th operation, and still on record with what was put down then. */
  ghost predicate TakenAt(volume: Path, s0: Register, ops: seq<Op>, name: string, j: nat) {
    && LiveSince(volume, s0, ops, name, j)
    && name in DoAll(volume, s0, ops).live && name in DoAll(volume, s0, ops[..j + 1]).live
    && DoAll(volume, s0, ops).live[name] == DoAll(volume, s0, ops[..j + 1]).live[name]
  }

  lemma TakenEarlier(volume: Path, s0: Register, ops: seq<Op>, name: string, j: nat)
    requires ops != [] && TakenAt(volume, s0, ops[..|ops| - 1], name, j)
    requires name in DoAll(volume, s0, ops).live
    requires DoAll(volume, s0, ops).live[name] == DoAll(volume, s0, ops[..|ops| - 1]).live[name]
    ensures TakenAt(volume, s0, ops, name, j)
  {
    LiveSinceMore(volume, s0, ops[..|ops| - 1], ops, name, j);
    assert ops[..|ops| - 1][..j + 1] == ops[..j + 1];
  }

  lemma TakenJustNow(volume: Path, s0: Register, ops: seq<Op>, name: string)
    requires ops != [] && ops[|ops| - 1].TakeOp? && Key(ops[|ops| - 1].name, ops[|ops| - 1].now) == name
    requires name !in DoAll(volume, s0, ops[..|ops| - 1]).live && name in DoAll(volume, s0, ops).live
    ensures TakenAt(volume, s0, ops, name, |ops| - 1)
  {
    assert ops[..|ops|] == ops;
  }

  lemma {:induction false} TakenWhen(volume: Path, t: Tree, ops: seq<Op>, name: string) returns (j: nat)
    requires Pristine(volume, t) && AllAllowed(volume, Register(t, map[]), ops)
    requires name in DoAll(volume, Register(t, map[]), ops).live
    ensures TakenAt(volume, Register(t, map[]), ops, name, j)
    decreases |ops|
  {
    var s0, front := Register(t, map[]), ops[..|ops| - 1];
    AllowedUpTo(volume, s0, ops, |ops| - 1);
    LiveStepOfRun(volume, t, ops, name);
    if name in DoAll(volume, s0, front).live {
      j := TakenWhen(volume, t, front, name);
      TakenEarlier(volume, s0, ops, name, j);
    } else {
      j := |ops| - 1;
      TakenJustNow(volume, s0, ops, name);
    }
  }

  /** What was put down then is what the volume held. */
  lemma RecordIsData(volume: Path, t: Tree, ops: seq<Op>, name: string, j: nat)
    requires Pristine(volume, t) && AllAllowed(volume, Register(t, map[]), ops)
    requires TakenAt(volume, Register(t, map[]), ops, name, j)
    ensures DoAll(volume, Register(t, map[]), ops).live[name] ==
      UserData(DoAll(volume, Register(t, map[]), ops[..j]).tree, volume)
  {
    var upTo := ops[..j + 1];
    assert upTo[..|upTo| - 1] == ops[..j];
    AllowedUpTo(volume, Register(t, map[]), ops, j);
    LiveDataOfRun(volume, t, upTo, name);
  }

  lemma LiveStepOfRun(volume: Path, t: Tree, ops: seq<Op>, name: string)
    requires Pristine(volume, t) && ops != [] && AllAllowed(volume, Register(t, map[]), ops[..|ops| - 1])
    requires name in DoAll(volume, Register(t, map[]), ops).live
    ensures var s, s', op :=
        DoAll(volume, Register(t, map[]), ops[..|ops| - 1]), DoAll(volume, Register(t, map[]), ops), ops[|ops| - 1];
      if name in s.live then s'.live[name] == s.live[name] else op.TakeOp? && Key(op.name, op.now) == name
  {
    RunKeeps(volume, t, ops[..|ops| - 1]);
    LiveStep(volume, DoAll(volume, Register(t, map[]), ops[..|ops| - 1]), ops[|ops| - 1], name);
  }

  lemma LiveDataOfRun(volume: Path, t: Tree, ops: seq<Op>, name: string)
    requires Pristine(volume, t) && ops != [] && AllAllowed(volume, Register(t, map[]), ops[..|ops| - 1])
    requires name in DoAll(volume, Register(t, map[]), ops).live
    requires name !in DoAll(volume, Register(t, map[]), ops[..|ops| - 1]).live
    ensures DoAll(volume, Register(t, map[]), ops).live[name] ==
      UserData(DoAll(volume, Register(t, map[]), ops[..|ops| - 1]).tree, volume)
  {
    RunKeeps(volume, t, ops[..|ops| - 1]);
    LiveStep(volume, DoAll(volume, Register(t, map[]), ops[..|ops| - 1]), ops[|ops| - 1], name);
  }

  /** A name becomes live only when it is taken, and a live one keeps its record. */
  lemma LiveStep(volume: Path, s: Register, op: Op, name: string)
    requires Inv(volume, s) && name in Do(volume, s, op).live
    ensures name in s.live ==> Do(volume, s, op).live[name] == s.live[name]
    ensures name !in s.live ==>
      && op.TakeOp? && Key(op.name, op.now) == name
      && Do(volume, s, op).live[name] == UserData(s.tree, volume)
  {
    if op.TakeOp? {
      TakeWorks(volume, s, op.name, op.now, op.fault);
    }
  }

  /** Over any run: a snapshot that is live at the end was taken at some point and not deleted since, and it still
      holds, file by file with its data, what the volume held just before it was taken; nested subvolumes apart,
      which it holds as empty directories, and apart from what lies in the directory for snapshots. */
  lemma SnapshotsKeepEntries(volume: Path, t: Tree, ops: seq<Op>, name: string) returns (j: nat)
    requires Pristine(volume, t) && AllAllowed(volume, Register(t, map[]), ops)
    requires name in DoAll(volume, Register(t, map[]), ops).live
    ensures LiveSince(volume, Register(t, map[]), ops, name, j)
    ensures var before := DoAll(volume, Register(t, map[]), ops[..j]).tree;
      var after := DoAll(volume, Register(t, map[]), ops).tree;
      forall r: Path | r != [] && r[0] != ".aifs-snapshots" ::
        CopiedAt(before, volume, after, volume + [".aifs-snapshots", name], r)
  {
    j := TakenWhen(volume, t, ops, name);
    HeldAtEnd(volume, t, ops, name, j);
    HoldingIsCopyThroughout(DoAll(volume, Register(t, map[]), ops).tree, volume + [".aifs-snapshots", name],
                            DoAll(volume, Register(t, map[]), ops[..j]).tree, volume);
  }

  lemma HoldingIsCopyThroughout(t: Tree, at: Path, b: Tree, volume: Path)
    requires Holding(t, at, UserData(b, volume))
    ensures forall r: Path | r != [] && r[0] != ".aifs-snapshots" :: CopiedAt(b, volume, t, at, r)
  {
    forall r: Path | r != [] && r[0] != ".aifs-snapshots"
      ensures CopiedAt(b, volume, t, at, r)
    {
      HoldingIsCopy(t, at, b, volume, r);
    }
  }

  lemma HeldAtEnd(volume: Path, t: Tree, ops: seq<Op>, name: string, j: nat)
    requires Pristine(volume, t) && AllAllowed(volume, Register(t, map[]), ops)
    requires TakenAt(volume, Register(t, map[]), ops, name, j)
    ensures Holding(DoAll(volume, Register(t, map[]), ops).tree, volume + [".aifs-snapshots", name],
                    UserData(DoAll(volume, Register(t, map[]), ops[..j]).tree, volume))
  {
    RecordIsData(volume, t, ops, name, j);
    RunKeeps(volume, t, ops);
    assert NameKept(volume, DoAll(volume, Register(t, map[]), ops), name);
    assert SnapshotDir(volume) + [name] == volume + [".aifs-snapshots", name];
  }

  /** No command gets at the inside of a live snapshot. */
  lemma LiveSnapshotsAreImmutable(volume: Path, t: Tree, ops: seq<Op>, name: string, p: Path, q: Path)
    requires Pristine(volume, t) && AllAllowed(volume, Register(t, map[]), ops)
    requires name in DoAll(volume, Register(t, map[]), ops).live
    requires volume + [".aifs-snapshots", name] < p
    ensures var u := DoAll(volume, Register(t, map[]), ops).tree;
      !CanAdd(u, p) && !CanDelete(u, p) && !CanRename(u, p, q) && !CanRename(u, q, p)
  {
    RunKeeps(volume, t, ops);
    var s := DoAll(volume, Register(t, map[]), ops);
    assert NameKept(volume, s, name);
    assert SnapshotDir(volume) + [name] == volume + [".aifs-snapshots", name];
    var at := SnapshotDir(volume) + [name];
    assert p[..|at|] == at && Parent(p)[..|at|] == at;
    ReadOnlyStays(s.tree, p, q, |at|);
  }

  /** The consequence for restores: a volume with a live snapshot is never restored cleanly.  From its own
      snapshots nothing happens at all; from elsewhere the restore ends in a delete error. */
  lemma LiveSnapshotsBlockRestore(v: PathText, t: Tree, ops: seq<Op>, snap: Path, f: Faults)
    requires Pristine(v.comps, t) && AllAllowed(v.comps, Register(t, map[]), ops)
    requires DoAll(v.comps, Register(t, map[]), ops).live != map[]
    ensures var s := DoAll(v.comps, Register(t, map[]), ops);
      && Restore(s.tree, snap, v, f).1 != NoError
      && (SnapshotDir(v.comps) <= snap && !f.rollback ==> Restore(s.tree, snap, v, f).0 == s.tree)
  {
    RunKeeps(v.comps, t, ops);
    var s := DoAll(v.comps, Register(t, map[]), ops);
    var n :| n in s.live;
    assert NameKept(v.comps, s, n);
    assert v.comps < SnapshotDir(v.comps) + [n];
    NestedSnapshotBlocksDelete(s.tree, snap, v, f);
    if SnapshotDir(v.comps) <= snap && !f.rollback {
      assert v.comps <= snap;
      RestoreFromOwnSnapshotFails(s.tree, snap, v, f);
    }
  }
}
