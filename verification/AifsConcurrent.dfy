/** Any number of restores of one volume at once.  The daemon serves every connection in its own goroutine and
    takes no lock, so the commands of different requests interleave freely; other work on the filesystem goes on
    at the same time.  The backup name turns out to be the lock. */
module AifsConcurrent {
  import opened FsTree
  import opened Aifs

  datatype Request = Request(snap: Path, pc: Pc)

  /** A snapshot step that succeeded: which request made it and what it put at the volume path. */
  datatype Commit = Commit(req: nat, image: map<Path, Node>)

  /** `log` and `stranded` record history: the snapshot steps that succeeded, and whether a rollback failed. */
  datatype State = State(tree: Tree, reqs: seq<Request>, log: seq<Commit>, stranded: bool)

  datatype Step = Act(req: nat, fault: bool) | Outside(tree: Tree)

  /** Other work: it leaves both names of the volume, and whether their directory is writable, as they are. */
  ghost predicate LeavesVolumeAlone(v: PathText, t: Tree, u: Tree) {
    && Closed(u)
    && SubtreeAt(u, v.comps) == SubtreeAt(t, v.comps)
    && SubtreeAt(u, Backup(v)) == SubtreeAt(t, Backup(v))
    && (v.comps != [] ==> ReadOnlyAt(u, Parent(v.comps)) == ReadOnlyAt(t, Parent(v.comps)))
  }

  ghost predicate Enabled(v: PathText, s: State, step: Step) {
    match step
    case Act(i, _) => i < |s.reqs| && !s.reqs[i].pc.Finished?
    case Outside(u) => LeavesVolumeAlone(v, s.tree, u)
  }

  function Next(v: PathText, s: State, step: Step): State
    requires Enabled(v, s, step)
  {
    match step
    case Outside(u) => s.(tree := u)
    case Act(i, fault) =>
      var r := s.reqs[i];
      var o := Command(s.tree, r.pc, r.snap, v, fault);
      var pc := NextPc(r.pc, o.ok);
      State(o.tree, s.reqs[i := r.(pc := pc)],
            if pc.Snapped? then s.log + [Commit(i, Image(View(s.tree, r.snap), false))] else s.log,
            s.stranded || (r.pc.RollingBack? && !o.ok))
  }

  ghost predicate Initial(s: State) {
    && Closed(s.tree) && s.log == [] && !s.stranded
    && forall i | 0 <= i < |s.reqs| :: s.reqs[i].pc.Start?
  }

  ghost predicate Follows(v: PathText, s: State, step: Step, s': State) {
    Enabled(v, s, step) && s' == Next(v, s, step)
  }

  /** Step `k` leads from the state before it to the one behind it. */
  ghost predicate FollowsAt(v: PathText, states: seq<State>, steps: seq<Step>, k: nat)
    requires |states| == |steps| + 1 && k < |steps|
  {
    Follows(v, states[k], steps[k], states[k + 1])
  }

  /** Each state follows from the one before by an enabled step. */
  ghost predicate Chain(v: PathText, states: seq<State>, steps: seq<Step>) {
    && |states| == |steps| + 1
    && forall k: nat | k < |steps| :: FollowsAt(v, states, steps, k)
  }

  ghost predicate Run(v: PathText, states: seq<State>, steps: seq<Step>) {
    Chain(v, states, steps) && Initial(states[0])
  }

  /** The request is between its successful rename and its last step. */
  predicate Holds(r: Request) {
    r.pc.Renamed? || r.pc.RollingBack? || r.pc.Snapped?
  }

  /** The request's snapshot step has succeeded. */
  predicate Committed(r: Request) {
    r.pc.Snapped? || r.pc == Finished(NoError) || r.pc == Finished(DeleteError)
  }

  /** What the volume should hold: the image of the last snapshot step, or the original contents. */
  function Current(original: map<Path, Node>, s: State): map<Path, Node> {
    if s.log == [] then original else s.log[|s.log| - 1].image
  }

  // ---- the invariant ----

  ghost predicate Movable(v: PathText, t: Tree) {
    !v.slash && v.comps != [] && !ReadOnlyAt(t, Parent(v.comps))
  }

  /** The contents sit under the backup name and the volume path is free. */
  ghost predicate SetAside(v: PathText, original: map<Path, Node>, s: State) {
    && Movable(v, s.tree)
    && v.comps !in s.tree && Backup(v) in s.tree
    && SubtreeAt(s.tree, Backup(v)) == Current(original, s)
  }

  ghost predicate InPlace(v: PathText, original: map<Path, Node>, s: State) {
    SubtreeAt(s.tree, v.comps) == Current(original, s)
  }

  ghost predicate AtMostOneHolder(s: State) {
    forall i, j | 0 <= i < |s.reqs| && 0 <= j < |s.reqs| && Holds(s.reqs[i]) && Holds(s.reqs[j]) :: i == j
  }

  ghost predicate NoHolder(s: State) {
    forall i | 0 <= i < |s.reqs| :: !Holds(s.reqs[i])
  }

  /** Where the contents are, told by the holder if there is one. */
  ghost predicate Located(v: PathText, original: map<Path, Node>, s: State) {
    && (forall i | 0 <= i < |s.reqs| && Holds(s.reqs[i]) ::
          && !s.stranded
          && if s.reqs[i].pc.Snapped?
             then Movable(v, s.tree) && Backup(v) in s.tree && InPlace(v, original, s)
             else SetAside(v, original, s))
    && (NoHolder(s) ==> if s.stranded then SetAside(v, original, s) else InPlace(v, original, s))
  }

  /** The log lists exactly the requests whose snapshot step succeeded, each once. */
  ghost predicate LogMatches(s: State) {
    && (forall k | 0 <= k < |s.log| :: s.log[k].req < |s.reqs| && Committed(s.reqs[s.log[k].req]))
    && (forall i | 0 <= i < |s.reqs| && Committed(s.reqs[i]) :: exists k :: 0 <= k < |s.log| && s.log[k].req == i)
    && (forall k, l | 0 <= k < l < |s.log| :: s.log[k].req != s.log[l].req)
  }

  /** The parts of the invariant that are not about the log. */
  ghost predicate Placed(v: PathText, original: map<Path, Node>, s: State) {
    Closed(s.tree) && AtMostOneHolder(s) && Located(v, original, s)
  }

  ghost predicate Inv(v: PathText, original: map<Path, Node>, s: State) {
    Placed(v, original, s) && LogMatches(s)
  }

  // ---- each step keeps it: what happens to the tree ----

  /** A successful rename sets the contents aside. */
  lemma RenameSetsAside(v: PathText, t: Tree)
    requires Closed(t) && CanRename(t, v.comps, Backup(v))
    ensures var u := Moved(t, v.comps, Backup(v));
      && Closed(u) && Movable(v, u) && v.comps !in u && Backup(v) in u
      && SubtreeAt(u, Backup(v)) == SubtreeAt(t, v.comps)
  {
    OnlySiblingsMove(t, v);
    BackupIsSibling(v);
    MovedEffect(t, v.comps, Backup(v));
    MovedClosed(t, v.comps, Backup(v));
    assert !(v.comps <= Parent(v.comps)) && !(Backup(v) <= Parent(v.comps));
    ElsewhereReadOnly(t, Moved(t, v.comps, Backup(v)), v.comps, Backup(v), Parent(v.comps));
  }

  /** The rollback puts them back. */
  lemma RollbackPutsBack(v: PathText, t: Tree)
    requires Closed(t) && Movable(v, t) && v.comps !in t && Backup(v) in t
    ensures CanRename(t, Backup(v), v.comps)
    ensures var u := Moved(t, Backup(v), v.comps);
      Closed(u) && SubtreeAt(u, v.comps) == SubtreeAt(t, Backup(v))
  {
    BackupIsSibling(v);
    AncestorIn(t, Parent(Backup(v)), Backup(v));
    MovedEffect(t, Backup(v), v.comps);
    MovedClosed(t, Backup(v), v.comps);
  }

  /** A successful snapshot step puts its image at the free volume path and leaves the backup alone. */
  lemma SnapshotPutsInPlace(v: PathText, t: Tree, snap: Path)
    requires Closed(t) && Movable(v, t) && v.comps !in t && Backup(v) in t && CanSnapshot(t, snap, v.comps)
    ensures var image := Image(View(t, snap), false); var u := Grafted(t, image, v.comps);
      && Snapshot(t, snap, v.comps, false, false).tree == u
      && Closed(u) && Movable(v, u) && Backup(v) in u
      && SubtreeAt(u, v.comps) == image && SubtreeAt(u, Backup(v)) == SubtreeAt(t, Backup(v))
  {
    var image := Image(View(t, snap), false);
    var u := Grafted(t, image, v.comps);
    BackupIsSibling(v);
    SnapshotClosed(t, snap, v.comps, false);
    GraftedEffect(t, image, v.comps);
    BesideUnchanged(t, u, v.comps, Backup(v));
    BelowParentUnchanged(t, u, v.comps);
  }

  /** A change below `p` alone does not reach a sibling. */
  lemma BesideUnchanged(t: Tree, u: Tree, p: Path, q: Path)
    requires !(p <= q) && !(q <= p) && forall d: Path | !(p <= d) :: SameEntry(t, u, d)
    ensures SubtreeAt(u, q) == SubtreeAt(t, q) && SameEntry(t, u, q)
  {
    forall r: Path
      ensures SameEntry(t, u, q + r)
    {
      if p <= q + r {
        PrefixesOfOnePath(p, q, q + r);
      }
    }
    SameSubtree(u, q, t, q);
  }

  lemma BelowParentUnchanged(t: Tree, u: Tree, p: Path)
    requires p != [] && forall q: Path | !(p <= q) :: SameEntry(t, u, q)
    ensures ReadOnlyAt(u, Parent(p)) == ReadOnlyAt(t, Parent(p))
  {
    forall q | q <= Parent(p)
      ensures SameEntry(t, u, q)
    {
      assert !(p <= q);
    }
    ReadOnlyAtDependsOnAncestors(t, u, Parent(p));
  }

  /** Deleting the backup leaves the volume alone. */
  lemma DeleteLeavesVolume(v: PathText, t: Tree)
    requires Closed(t) && Movable(v, t)
    ensures Closed(Without(t, Backup(v)))
    ensures SubtreeAt(Without(t, Backup(v)), v.comps) == SubtreeAt(t, v.comps)
  {
    BackupIsSibling(v);
    WithoutClosed(t, Backup(v));
    WithoutEffect(t, Backup(v));
    BesideUnchanged(t, Without(t, Backup(v)), Backup(v), v.comps);
  }

  // ---- each step keeps it: what happens to the requests ----

  /** Request `i` goes on to `pc`; the others stay put. */
  ghost predicate Moves(s: State, s': State, i: nat, pc: Pc) {
    i < |s.reqs| && s'.reqs == s.reqs[i := Request(s.reqs[i].snap, pc)]
  }

  predicate HoldsAt(pc: Pc) {
    Holds(Request([], pc))
  }

  lemma NowHeld(v: PathText, original: map<Path, Node>, s: State, s': State, i: nat, pc: Pc)
    requires AtMostOneHolder(s) && Moves(s, s', i, pc) && HoldsAt(pc) && !s'.stranded
    requires Holds(s.reqs[i]) || NoHolder(s)
    requires if pc.Snapped?
             then Movable(v, s'.tree) && Backup(v) in s'.tree && InPlace(v, original, s')
             else SetAside(v, original, s')
    ensures AtMostOneHolder(s') && Located(v, original, s')
  {
    assert Holds(s'.reqs[i]);
    forall j | 0 <= j < |s'.reqs| && Holds(s'.reqs[j])
      ensures j == i
    {
    }
  }

  lemma NowFree(v: PathText, original: map<Path, Node>, s: State, s': State, i: nat, pc: Pc)
    requires AtMostOneHolder(s) && Moves(s, s', i, pc) && !HoldsAt(pc) && Holds(s.reqs[i])
    requires if s'.stranded then SetAside(v, original, s') else InPlace(v, original, s')
    ensures AtMostOneHolder(s') && Located(v, original, s')
  {
    forall j | 0 <= j < |s'.reqs|
      ensures !Holds(s'.reqs[j])
    {
    }
  }

  /** A request that never held anything fails: everything stays where it is. */
  lemma NothingMoved(v: PathText, original: map<Path, Node>, s: State, s': State, i: nat, pc: Pc)
    requires AtMostOneHolder(s) && Located(v, original, s)
    requires Moves(s, s', i, pc) && !HoldsAt(pc) && !Holds(s.reqs[i])
    requires s'.tree == s.tree && s'.log == s.log && s'.stranded == s.stranded
    ensures AtMostOneHolder(s') && Located(v, original, s')
  {
    forall j | 0 <= j < |s.reqs|
      ensures Holds(s'.reqs[j]) <==> Holds(s.reqs[j])
      ensures Holds(s.reqs[j]) ==> s'.reqs[j] == s.reqs[j]
    {
    }
    assert NoHolder(s') ==> NoHolder(s);
    SameContents(v, original, s, s');
  }

  lemma SameContents(v: PathText, original: map<Path, Node>, s: State, s': State)
    requires s'.tree == s.tree && s'.log == s.log
    ensures InPlace(v, original, s) ==> InPlace(v, original, s')
    ensures SetAside(v, original, s) ==> SetAside(v, original, s')
  {
  }

  /** What the first command of request `i` does, in full. */
  ghost predicate ActsStart(v: PathText, s: State, s': State, i: nat, ok: bool) {
    && i < |s.reqs| && s.reqs[i].pc.Start?
    && s'.log == s.log && s'.stranded == s.stranded
    && (ok ==> CanRename(s.tree, v.comps, Backup(v)))
    && Moves(s, s', i, if ok then Renamed else Finished(RenameError))
    && s'.tree == if ok then Moved(s.tree, v.comps, Backup(v)) else s.tree
  }

  /** The second. */
  ghost predicate ActsRenamed(v: PathText, s: State, s': State, i: nat, ok: bool) {
    && i < |s.reqs| && s.reqs[i].pc.Renamed?
    && s'.stranded == s.stranded
    && (ok ==> CanSnapshot(s.tree, s.reqs[i].snap, v.comps))
    && Moves(s, s', i, if ok then Snapped else RollingBack)
    && s'.tree == (if ok then Snapshot(s.tree, s.reqs[i].snap, v.comps, false, false).tree else s.tree)
    && s'.log == if ok then s.log + [Commit(i, Image(View(s.tree, s.reqs[i].snap), false))] else s.log
  }

  /** The rollback. */
  ghost predicate ActsRollingBack(v: PathText, s: State, s': State, i: nat, ok: bool) {
    && i < |s.reqs| && s.reqs[i].pc.RollingBack?
    && s'.log == s.log && s'.stranded == (s.stranded || !ok)
    && Moves(s, s', i, Finished(SnapshotError))
    && s'.tree == if ok then Moved(s.tree, Backup(v), v.comps) else s.tree
  }

  /** The deletion of the backup. */
  ghost predicate ActsSnapped(v: PathText, s: State, s': State, i: nat, ok: bool) {
    && i < |s.reqs| && s.reqs[i].pc.Snapped?
    && s'.log == s.log && s'.stranded == s.stranded
    && (ok ==> CanDelete(s.tree, Backup(v)))
    && Moves(s, s', i, Finished(if ok then NoError else DeleteError))
    && s'.tree == if ok then Without(s.tree, Backup(v)) else s.tree
  }

  lemma NextActs(v: PathText, s: State, i: nat, fault: bool)
    requires Enabled(v, s, Act(i, fault))
    ensures var s' := Next(v, s, Act(i, fault));
      match s.reqs[i].pc
      case Start => ActsStart(v, s, s', i, !fault && CanRename(s.tree, v.comps, Backup(v)))
      case Renamed => ActsRenamed(v, s, s', i, !fault && CanSnapshot(s.tree, s.reqs[i].snap, v.comps))
      case RollingBack => ActsRollingBack(v, s, s', i, !fault && CanRename(s.tree, Backup(v), v.comps))
      case Snapped => ActsSnapped(v, s, s', i, !fault && CanDelete(s.tree, Backup(v)))
      case Finished(_) => false
  {
  }

  lemma HolderKnows(v: PathText, original: map<Path, Node>, s: State, i: nat)
    requires Located(v, original, s) && i < |s.reqs| && Holds(s.reqs[i])
    ensures !s.stranded && Movable(v, s.tree) && Backup(v) in s.tree
    ensures if s.reqs[i].pc.Snapped? then InPlace(v, original, s) else SetAside(v, original, s)
  {
  }

  lemma StartKeeps(v: PathText, original: map<Path, Node>, s: State, s': State, i: nat, ok: bool)
    requires Placed(v, original, s) && ActsStart(v, s, s', i, ok)
    ensures Placed(v, original, s')
  {
    if ok {
      RenameSetsAside(v, s.tree);
      FreeToStart(v, original, s);
      NowHeld(v, original, s, s', i, Renamed);
    } else {
      NothingMoved(v, original, s, s', i, Finished(RenameError));
    }
  }

  /** While somebody holds the volume, or a rollback has failed, nobody can rename it. */
  lemma FreeToStart(v: PathText, original: map<Path, Node>, s: State)
    requires Located(v, original, s) && CanRename(s.tree, v.comps, Backup(v))
    ensures NoHolder(s) && !s.stranded && InPlace(v, original, s)
  {
    forall i | 0 <= i < |s.reqs|
      ensures !Holds(s.reqs[i])
    {
      if Holds(s.reqs[i]) {
        HolderKnows(v, original, s, i);
        assert false;
      }
    }
  }

  lemma RenamedKeeps(v: PathText, original: map<Path, Node>, s: State, s': State, i: nat, ok: bool)
    requires Placed(v, original, s) && ActsRenamed(v, s, s', i, ok)
    ensures Placed(v, original, s')
  {
    HolderKnows(v, original, s, i);
    if ok {
      SnapshotPutsInPlace(v, s.tree, s.reqs[i].snap);
      NowHeld(v, original, s, s', i, Snapped);
    } else {
      SameContents(v, original, s, s');
      NowHeld(v, original, s, s', i, RollingBack);
    }
  }

  lemma RollingBackKeeps(v: PathText, original: map<Path, Node>, s: State, s': State, i: nat, ok: bool)
    requires Placed(v, original, s) && ActsRollingBack(v, s, s', i, ok)
    ensures Placed(v, original, s')
  {
    HolderKnows(v, original, s, i);
    if ok {
      RollbackPutsBack(v, s.tree);
    } else {
      SameContents(v, original, s, s');
    }
    NowFree(v, original, s, s', i, Finished(SnapshotError));
  }

  lemma SnappedKeeps(v: PathText, original: map<Path, Node>, s: State, s': State, i: nat, ok: bool)
    requires Placed(v, original, s) && ActsSnapped(v, s, s', i, ok)
    ensures Placed(v, original, s')
  {
    HolderKnows(v, original, s, i);
    DeleteLeavesVolume(v, s.tree);
    NowFree(v, original, s, s', i, Finished(if ok then NoError else DeleteError));
  }

  // ---- each step keeps it: the log ----

  lemma CommittedAt(s: State, s': State, i: nat, pc: Pc, j: nat)
    requires Moves(s, s', i, pc) && j < |s.reqs|
    ensures Committed(s'.reqs[j]) <==> if j == i then Committed(Request([], pc)) else Committed(s.reqs[j])
  {
  }

  lemma LogUnchanged(s: State, s': State, i: nat, pc: Pc)
    requires LogMatches(s) && Moves(s, s', i, pc) && s'.log == s.log
    requires Committed(Request([], pc)) <==> Committed(s.reqs[i])
    ensures LogMatches(s')
  {
    forall j: nat | j < |s.reqs|
      ensures Committed(s'.reqs[j]) <==> Committed(s.reqs[j])
    {
      CommittedAt(s, s', i, pc, j);
    }
  }

  lemma LogGrows(s: State, s': State, i: nat, pc: Pc, c: Commit)
    requires LogMatches(s) && Moves(s, s', i, pc) && s'.log == s.log + [c] && c.req == i
    requires Committed(Request([], pc)) && !Committed(s.reqs[i])
    ensures LogMatches(s')
  {
    forall j | 0 <= j < |s'.reqs| && Committed(s'.reqs[j])
      ensures exists k :: 0 <= k < |s'.log| && s'.log[k].req == j
    {
      if j == i {
        assert s'.log[|s.log|].req == j;
      } else {
        var k :| 0 <= k < |s.log| && s.log[k].req == j;
        assert s'.log[k].req == j;
      }
    }
    forall k | 0 <= k < |s'.log|
      ensures s'.log[k].req < |s'.reqs| && Committed(s'.reqs[s'.log[k].req])
      ensures k < |s.log| ==> s'.log[k] == s.log[k] && s'.log[k].req != i
    {
      if k < |s.log| {
        CommittedAt(s, s', i, pc, s.log[k].req);
      }
    }
  }

  /** A request's command keeps the log in step with the requests. */
  lemma ActKeepsLog(v: PathText, s: State, i: nat, fault: bool)
    requires LogMatches(s) && Enabled(v, s, Act(i, fault))
    ensures LogMatches(Next(v, s, Act(i, fault)))
  {
    var s' := Next(v, s, Act(i, fault));
    var pc := NextPc(s.reqs[i].pc, Command(s.tree, s.reqs[i].pc, s.reqs[i].snap, v, fault).ok);
    assert Moves(s, s', i, pc);
    if pc.Snapped? {
      LogGrows(s, s', i, pc, s'.log[|s.log|]);
    } else {
      LogUnchanged(s, s', i, pc);
    }
  }

  lemma OutsideKeeps(v: PathText, original: map<Path, Node>, s: State, u: Tree)
    requires Placed(v, original, s) && LeavesVolumeAlone(v, s.tree, u)
    ensures Placed(v, original, s.(tree := u))
  {
    var s' := s.(tree := u);
    OutsideKeepsContents(v, original, s, u);
    assert AtMostOneHolder(s');
    forall i | 0 <= i < |s'.reqs| && Holds(s'.reqs[i])
      ensures !s'.stranded && if s'.reqs[i].pc.Snapped?
              then Movable(v, s'.tree) && Backup(v) in s'.tree && InPlace(v, original, s')
              else SetAside(v, original, s')
    {
      HolderKnows(v, original, s, i);
    }
    assert NoHolder(s') ==> NoHolder(s);
  }

  lemma OutsideKeepsContents(v: PathText, original: map<Path, Node>, s: State, u: Tree)
    requires LeavesVolumeAlone(v, s.tree, u)
    ensures InPlace(v, original, s) ==> InPlace(v, original, s.(tree := u))
    ensures SetAside(v, original, s) ==> SetAside(v, original, s.(tree := u))
    ensures Movable(v, s.tree) ==> Movable(v, u)
    ensures Backup(v) in s.tree ==> Backup(v) in u
  {
    SameRootEntry(s.tree, u, v.comps);
    SameRootEntry(s.tree, u, Backup(v));
    CarriedOver(v, original, s, s.(tree := u));
  }

  lemma CarriedOver(v: PathText, original: map<Path, Node>, s: State, s': State)
    requires s'.log == s.log
    requires SubtreeAt(s'.tree, v.comps) == SubtreeAt(s.tree, v.comps) && SameEntry(s.tree, s'.tree, v.comps)
    requires SubtreeAt(s'.tree, Backup(v)) == SubtreeAt(s.tree, Backup(v)) && SameEntry(s.tree, s'.tree, Backup(v))
    requires Movable(v, s.tree) ==> Movable(v, s'.tree)
    ensures InPlace(v, original, s) ==> InPlace(v, original, s')
    ensures SetAside(v, original, s) ==> SetAside(v, original, s')
  {
  }

  lemma SameRootEntry(t: Tree, u: Tree, p: Path)
    requires SubtreeAt(t, p) == SubtreeAt(u, p)
    ensures SameEntry(t, u, p)
  {
    SubtreeEntry(t, p, []);
    SubtreeEntry(u, p, []);
    assert p + [] == p;
  }

  lemma ActKeepsPlaced(v: PathText, original: map<Path, Node>, s: State, i: nat, fault: bool)
    requires Placed(v, original, s) && Enabled(v, s, Act(i, fault))
    ensures Placed(v, original, Next(v, s, Act(i, fault)))
  {
    var t, s' := s.tree, Next(v, s, Act(i, fault));
    NextActs(v, s, i, fault);
    match s.reqs[i].pc
    case Start => StartKeeps(v, original, s, s', i, !fault && CanRename(t, v.comps, Backup(v)));
    case Renamed => RenamedKeeps(v, original, s, s', i, !fault && CanSnapshot(t, s.reqs[i].snap, v.comps));
    case RollingBack => RollingBackKeeps(v, original, s, s', i, !fault && CanRename(t, Backup(v), v.comps));
    case Snapped => SnappedKeeps(v, original, s, s', i, !fault && CanDelete(t, Backup(v)));
  }

  lemma FollowsKeeps(v: PathText, original: map<Path, Node>, s: State, step: Step, s': State)
    requires Inv(v, original, s) && Follows(v, s, step, s')
    ensures Inv(v, original, s')
  {
    match step
    case Outside(u) =>
      OutsideKeeps(v, original, s, u);
      assert LogMatches(s');
    case Act(i, fault) =>
      ActKeepsPlaced(v, original, s, i, fault);
      ActKeepsLog(v, s, i, fault);
  }

  lemma RunStepKeeps(v: PathText, original: map<Path, Node>, states: seq<State>, steps: seq<Step>, k: nat)
    requires Chain(v, states, steps) && k < |steps| && Inv(v, original, states[k])
    ensures Inv(v, original, states[k + 1])
  {
    assert FollowsAt(v, states, steps, k);
    FollowsKeeps(v, original, states[k], steps[k], states[k + 1]);
  }

  lemma {:induction false} RunKeeps(v: PathText, states: seq<State>, steps: seq<Step>, k: nat)
    requires Run(v, states, steps) && k < |states|
    ensures Inv(v, SubtreeAt(states[0].tree, v.comps), states[k])
    decreases k
  {
    var original := SubtreeAt(states[0].tree, v.comps);
    if k == 0 {
      assert InPlace(v, original, states[0]);
    } else {
      RunKeeps(v, states, steps, k - 1);
      RunStepKeeps(v, original, states, steps, k - 1);
    }
  }

  // ---- what follows for every run ----

  /** The backup name is a lock: in every interleaving at most one request is between its successful rename and
      its last step, and while one is, the backup exists. */
  lemma BackupIsALock(v: PathText, states: seq<State>, steps: seq<Step>, k: nat)
    requires Run(v, states, steps) && k < |states|
    ensures AtMostOneHolder(states[k])
    ensures forall i | 0 <= i < |states[k].reqs| && Holds(states[k].reqs[i]) :: Backup(v) in states[k].tree
  {
    RunKeeps(v, states, steps, k);
  }

  /** The final contents are those of the last request whose snapshot step succeeded, or the original contents
      if none did; they are at the volume path unless a rollback failed, and then they are under the backup. */
  lemma FinalContents(v: PathText, states: seq<State>, steps: seq<Step>)
    requires Run(v, states, steps)
    requires NoHolder(states[|steps|])
    ensures var original, s := SubtreeAt(states[0].tree, v.comps), states[|steps|];
      && SubtreeAt(s.tree, if s.stranded then Backup(v) else v.comps) == Current(original, s)
      && LogMatches(s)
  {
    RunKeeps(v, states, steps, |steps|);
  }

  /** The step by which request `i` makes its commit. */
  ghost predicate Commits(v: PathText, states: seq<State>, steps: seq<Step>, j: nat, i: nat)
    requires |states| == |steps| + 1 && j < |steps|
  {
    && steps[j].Act? && steps[j].req == i < |states[j].reqs|
    && states[j].reqs[i].pc.Renamed?
    && CanSnapshot(states[j].tree, states[j].reqs[i].snap, v.comps)
  }

  lemma LogStep(v: PathText, states: seq<State>, steps: seq<Step>, k: nat)
    requires Chain(v, states, steps) && k < |steps|
    ensures var s, s' := states[k], states[k + 1];
      || s'.log == s.log
      || (steps[k].Act? && Commits(v, states, steps, k, steps[k].req) &&
          s'.log == s.log + [Commit(steps[k].req, Image(View(s.tree, s.reqs[steps[k].req].snap), false))])
  {
    assert FollowsAt(v, states, steps, k);
    if steps[k].Act? {
      NextActs(v, states[k], steps[k].req, steps[k].fault);
    }
  }

  /** Every commit was made by a snapshot step of its request. */
  lemma {:induction false} CommitWhen(v: PathText, states: seq<State>, steps: seq<Step>, k: nat, l: nat)
    returns (j: nat)
    requires Run(v, states, steps) && k < |states| && l < |states[k].log|
    ensures j < k && Commits(v, states, steps, j, states[k].log[l].req) && |states[j].log| == l
    ensures states[k].log[l].image == Image(View(states[j].tree, states[j].reqs[states[k].log[l].req].snap), false)
    decreases k
  {
    if k == 0 {
      assert false;
    } else {
      LogStep(v, states, steps, k - 1);
      if l < |states[k - 1].log| {
        j := CommitWhen(v, states, steps, k - 1, l);
      } else {
        j := k - 1;
      }
    }
  }

  /** In terms of entries: unless no snapshot step succeeded, the final contents are a copy of what the source of the
      last one held when it was made. */
  lemma FinalEntries(v: PathText, states: seq<State>, steps: seq<Step>) returns (j: nat)
    requires Run(v, states, steps) && NoHolder(states[|steps|]) && states[|steps|].log != []
    ensures j < |steps| && steps[j].Act? && Commits(v, states, steps, j, steps[j].req)
    ensures |states[j].log| == |states[|steps|].log| - 1
    ensures var s := states[|steps|];
      IsCopy(states[j].tree, states[j].reqs[steps[j].req].snap, s.tree, if s.stranded then Backup(v) else v.comps)
  {
    var s := states[|steps|];
    FinalContents(v, states, steps);
    j := CommitWhen(v, states, steps, |steps|, |s.log| - 1);
    ImageIsCopy(states[j].tree, states[j].reqs[steps[j].req].snap, s.tree, if s.stranded then Backup(v) else v.comps,
                false);
  }

  /** The step is a rollback that fails for reasons of its own. */
  predicate RollbackFault(s: State, step: Step) {
    step.Act? && step.fault && step.req < |s.reqs| && s.reqs[step.req].pc.RollingBack?
  }

  lemma StepStrandsOnlyByFault(v: PathText, original: map<Path, Node>, s: State, step: Step)
    requires Inv(v, original, s) && Enabled(v, s, step)
    requires !s.stranded && !RollbackFault(s, step)
    ensures !Next(v, s, step).stranded
  {
    if step.Act? {
      NextActs(v, s, step.req, step.fault);
      if s.reqs[step.req].pc.RollingBack? {
        HolderKnows(v, original, s, step.req);
        RollbackPutsBack(v, s.tree);
      }
    }
  }

  lemma RunStep(v: PathText, states: seq<State>, steps: seq<Step>, k: nat)
    requires Run(v, states, steps) && k < |steps|
    ensures Enabled(v, states[k], steps[k]) && states[k + 1] == Next(v, states[k], steps[k])
  {
    assert FollowsAt(v, states, steps, k);
  }

  lemma RunStrandsOnlyByFault(v: PathText, states: seq<State>, steps: seq<Step>, k: nat)
    requires Run(v, states, steps) && k < |steps|
    requires !states[k].stranded && !RollbackFault(states[k], steps[k])
    ensures !states[k + 1].stranded
  {
    RunKeeps(v, states, steps, k);
    RunStep(v, states, steps, k);
    StepStrandsOnlyByFault(v, SubtreeAt(states[0].tree, v.comps), states[k], steps[k]);
  }

  /** A run without failing rollbacks never strands the volume. */
  lemma {:induction false} StrandedOnlyByFault(v: PathText, states: seq<State>, steps: seq<Step>, k: nat)
    requires Run(v, states, steps) && k < |states|
    requires forall j | 0 <= j < |steps| :: !RollbackFault(states[j], steps[j])
    ensures !states[k].stranded
    decreases k
  {
    if k == 0 {
    } else {
      StrandedOnlyByFault(v, states, steps, k - 1);
      RunStrandsOnlyByFault(v, states, steps, k - 1);
    }
  }

  /** A backup is there and nobody is working: a failed delete, a failed rollback or an old backup. */
  ghost predicate Wedged(v: PathText, s: State) {
    Closed(s.tree) && Backup(v) in s.tree && NoHolder(s)
  }

  /** The volume and its backup are as before, and requests have done nothing but fail to rename. */
  ghost predicate OnlyFailures(v: PathText, s: State, s': State) {
    && SubtreeAt(s'.tree, v.comps) == SubtreeAt(s.tree, v.comps)
    && SubtreeAt(s'.tree, Backup(v)) == SubtreeAt(s.tree, Backup(v))
    && s'.log == s.log && |s'.reqs| == |s.reqs|
    && forall i | 0 <= i < |s.reqs| ::
         s'.reqs[i] == s.reqs[i] || (s.reqs[i].pc.Start? && s'.reqs[i].pc == Finished(RenameError))
  }

  lemma WedgedStep(v: PathText, s: State, step: Step)
    requires Wedged(v, s) && Enabled(v, s, step)
    ensures Wedged(v, Next(v, s, step)) && OnlyFailures(v, s, Next(v, s, step))
    ensures step.Act? ==> Next(v, s, step).reqs[step.req].pc == Finished(RenameError) && Next(v, s, step).tree == s.tree
  {
    if step.Outside? {
      SameRootEntry(s.tree, step.tree, Backup(v));
    } else {
      assert s.reqs[step.req].pc.Start? by {
        assert !Holds(s.reqs[step.req]);
      }
      NextActs(v, s, step.req, step.fault);
      assert Moves(s, Next(v, s, step), step.req, Finished(RenameError));
    }
  }

  lemma WedgedNext(v: PathText, a: State, b: State, step: Step, c: State)
    requires Wedged(v, b) && OnlyFailures(v, a, b) && Follows(v, b, step, c)
    ensures Wedged(v, c) && OnlyFailures(v, a, c)
  {
    WedgedStep(v, b, step);
    OnlyFailuresCompose(v, a, b, c);
  }

  lemma WedgedChain(v: PathText, states: seq<State>, steps: seq<Step>, from: nat, k: nat)
    requires Chain(v, states, steps) && from <= k < |steps|
    requires Wedged(v, states[k]) && OnlyFailures(v, states[from], states[k])
    ensures Wedged(v, states[k + 1]) && OnlyFailures(v, states[from], states[k + 1])
  {
    assert FollowsAt(v, states, steps, k);
    WedgedNext(v, states[from], states[k], steps[k], states[k + 1]);
  }

  /** Once wedged, the volume stays as it is whatever is requested, and every restore that starts ends in a
      rename error, until something else removes the backup. */
  lemma {:induction false} WedgedForGood(v: PathText, states: seq<State>, steps: seq<Step>, from: nat, k: nat)
    requires Chain(v, states, steps) && from <= k < |states|
    requires Wedged(v, states[from])
    ensures Wedged(v, states[k]) && OnlyFailures(v, states[from], states[k])
    decreases k
  {
    if k == from {
    } else {
      WedgedForGood(v, states, steps, from, k - 1);
      WedgedChain(v, states, steps, from, k - 1);
    }
  }

  lemma OnlyFailuresCompose(v: PathText, a: State, b: State, c: State)
    requires OnlyFailures(v, a, b) && OnlyFailures(v, b, c)
    ensures OnlyFailures(v, a, c)
  {
  }

  // ---- a volume with snapshots of its own ----

  /** Something below the root is a subvolume. */
  ghost predicate HoldsSnapshot(contents: map<Path, Node>) {
    [] in contents && exists r: Path :: r != [] && r in contents && contents[r].Subvol?
  }

  lemma BackupWithSnapshotStays(t: Tree, b: Path, contents: map<Path, Node>)
    requires SubtreeAt(t, b) == contents && HoldsSnapshot(contents)
    ensures b in t && !CanDelete(t, b)
  {
    SubtreeEntry(t, b, []);
    assert b + [] == b;
    NestedInSubtree(t, b);
  }

  /** Nobody has restored cleanly; at most one snapshot step has succeeded, and since then the original contents
      sit under the backup name. */
  ghost predicate OneAtMost(v: PathText, original: map<Path, Node>, s: State) {
    && |s.log| <= 1
    && (forall i | 0 <= i < |s.reqs| :: s.reqs[i].pc != Finished(NoError))
    && (s.log != [] ==>
          && SubtreeAt(s.tree, Backup(v)) == original
          && forall i | 0 <= i < |s.reqs| :: !s.reqs[i].pc.Renamed? && !s.reqs[i].pc.RollingBack?)
  }

  /** A step that makes no commit and brings nobody to success or to the snapshot step. */
  lemma NoCommit(v: PathText, original: map<Path, Node>, s: State, s': State, i: nat, pc: Pc)
    requires OneAtMost(v, original, s) && Moves(s, s', i, pc) && s'.log == s.log
    requires pc != Finished(NoError)
    requires s.log != [] ==> s'.tree == s.tree && !pc.Renamed? && !pc.RollingBack?
    ensures OneAtMost(v, original, s')
  {
    forall j | 0 <= j < |s'.reqs|
      ensures s'.reqs[j].pc == if j == i then pc else s.reqs[j].pc
    {
    }
  }

  lemma FirstCommit(v: PathText, original: map<Path, Node>, s: State, s': State, i: nat)
    requires Inv(v, original, s) && ActsRenamed(v, s, s', i, true) && s.log == []
    requires OneAtMost(v, original, s)
    ensures OneAtMost(v, original, s')
  {
    HolderKnows(v, original, s, i);
    SnapshotPutsInPlace(v, s.tree, s.reqs[i].snap);
    forall j | 0 <= j < |s.reqs|
      ensures s'.reqs[j].pc == if j == i then Snapped else s.reqs[j].pc
      ensures j != i ==> !Holds(s.reqs[j])
    {
      assert AtMostOneHolder(s);
    }
  }

  lemma OneAtMostKeeps(v: PathText, original: map<Path, Node>, s: State, i: nat, fault: bool)
    requires Inv(v, original, s) && Enabled(v, s, Act(i, fault))
    requires HoldsSnapshot(original) && OneAtMost(v, original, s)
    ensures OneAtMost(v, original, Next(v, s, Act(i, fault)))
  {
    var s' := Next(v, s, Act(i, fault));
    NextActs(v, s, i, fault);
    if s.log != [] {
      BackupWithSnapshotStays(s.tree, Backup(v), original);
      assert s.reqs[i].pc.Start? || s.reqs[i].pc.Snapped?;
      NoCommit(v, original, s, s', i, s'.reqs[i].pc);
    } else if s'.log != [] {
      FirstCommit(v, original, s, s', i);
    } else {
      assert !Committed(s.reqs[i]);
      NoCommit(v, original, s, s', i, s'.reqs[i].pc);
    }
  }

  lemma OneAtMostNext(v: PathText, original: map<Path, Node>, s: State, step: Step, s': State)
    requires Inv(v, original, s) && Follows(v, s, step, s')
    requires HoldsSnapshot(original) && OneAtMost(v, original, s)
    ensures OneAtMost(v, original, s')
  {
    if step.Act? {
      OneAtMostKeeps(v, original, s, step.req, step.fault);
    }
  }

  lemma NoneAtFirst(v: PathText, original: map<Path, Node>, s: State)
    requires Initial(s)
    ensures OneAtMost(v, original, s)
  {
  }

  lemma OneAtMostRun(v: PathText, original: map<Path, Node>, states: seq<State>, steps: seq<Step>, k: nat)
    requires Run(v, states, steps) && k < |steps| && original == SubtreeAt(states[0].tree, v.comps)
    requires HoldsSnapshot(original) && OneAtMost(v, original, states[k])
    ensures OneAtMost(v, original, states[k + 1])
  {
    RunKeeps(v, states, steps, k);
    assert FollowsAt(v, states, steps, k);
    OneAtMostNext(v, original, states[k], steps[k], states[k + 1]);
  }

  /** If the volume holds a snapshot of its own when the requests come in, then in every interleaving no request
      succeeds, and at most one of them gets as far as putting new contents in place. */
  lemma {:induction false} OwnSnapshotsAllowOneRestore(
      v: PathText, original: map<Path, Node>, states: seq<State>, steps: seq<Step>, k: nat)
    requires Run(v, states, steps) && k < |states| && original == SubtreeAt(states[0].tree, v.comps)
    requires HoldsSnapshot(original)
    ensures OneAtMost(v, original, states[k])
    decreases k
  {
    if k == 0 {
      NoneAtFirst(v, original, states[0]);
    } else {
      OwnSnapshotsAllowOneRestore(v, original, states, steps, k - 1);
      OneAtMostRun(v, original, states, steps, k - 1);
    }
  }

  // ---- restores of other volumes are other work ----

  ghost predicate Unrelated(a: Path, b: Path) {
    !(a <= b) && !(b <= a)
  }

  /** A restore command touches nothing outside its own two names. */
  lemma StepStaysInside(t: Tree, pc: Pc, snap: Path, w: PathText, fault: bool)
    requires Closed(t) && !w.slash && w.comps != []
    ensures var u := RestoreStep(t, pc, snap, w, fault).0;
      Closed(u) && Elsewhere(t, u, w.comps, Backup(w))
  {
    var u := RestoreStep(t, pc, snap, w, fault).0;
    BackupIsSibling(w);
    if u != t {
      match pc
      case Start =>
        MovedClosed(t, w.comps, Backup(w));
        MovedEffect(t, w.comps, Backup(w));
      case Renamed =>
        SnapshotClosed(t, snap, w.comps, false);
        var target := SnapshotTarget(t, snap, w.comps);
        GraftedEffect(t, Image(View(t, snap), false), target);
        assert w.comps <= target;
      case RollingBack =>
        MovedClosed(t, Backup(w), w.comps);
        MovedEffect(t, Backup(w), w.comps);
      case Snapped =>
        WithoutClosed(t, Backup(w));
        WithoutEffect(t, Backup(w));
    }
  }

  /** Volumes neither of which lies inside the other or the other's backup have backups that do not meet either. */
  lemma BackupsApart(v: PathText, w: PathText)
    requires !v.slash && v.comps != [] && !w.slash && w.comps != []
    requires Unrelated(v.comps, w.comps) && !(Backup(v) <= w.comps) && !(Backup(w) <= v.comps)
    ensures Unrelated(v.comps, Backup(w)) && Unrelated(Backup(v), w.comps) && Unrelated(Backup(v), Backup(w))
  {
    BackupIsSibling(v);
    BackupIsSibling(w);
    BackupsDiffer(v, w);
    SiblingApart(v.comps, Backup(v), w.comps);
    SiblingApart(w.comps, Backup(w), v.comps);
    if Backup(v) != Backup(w) {
      SiblingApart(v.comps, Backup(v), Backup(w));
      SiblingApart(w.comps, Backup(w), Backup(v));
    }
  }

  /** Whatever lies inside a sibling's directory lies beside it. */
  lemma SiblingApart(a: Path, b: Path, p: Path)
    requires a != [] && b != [] && Parent(a) == Parent(b) && p != [] && a != b
    ensures p < b ==> p < a
  {
    if p < b {
      assert p <= Parent(b);
      assert Parent(a) < a;
    }
  }

  /** So restores of unrelated volumes may run alongside: to each other they are other work. */
  lemma OtherVolumesAreOutside(v: PathText, w: PathText, t: Tree, pc: Pc, snap: Path, fault: bool)
    requires Closed(t) && !w.slash && w.comps != []
    requires Unrelated(v.comps, w.comps) && Unrelated(v.comps, Backup(w))
    requires Unrelated(Backup(v), w.comps) && Unrelated(Backup(v), Backup(w))
    ensures LeavesVolumeAlone(v, t, RestoreStep(t, pc, snap, w, fault).0)
  {
    var u := RestoreStep(t, pc, snap, w, fault).0;
    StepStaysInside(t, pc, snap, w, fault);
    ElsewhereSubtree(t, u, w.comps, Backup(w), v.comps);
    ElsewhereSubtree(t, u, w.comps, Backup(w), Backup(v));
    if v.comps != [] {
      assert Parent(v.comps) <= v.comps;
      ElsewhereReadOnly(t, u, w.comps, Backup(w), Parent(v.comps));
    }
  }
}
