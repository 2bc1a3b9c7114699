/** The AIFS daemon's volume operations: `RestoreSnapshot` as the protocol rename, snapshot, delete
    with rollback, and what a caller may rely on after each of its outcomes. */
module Aifs {
  import opened FsTree

  const SNAPSHOT_DIR := ".aifs-snapshots"
  const BACKUP_SUFFIX := ".aifs-restore-backup"

  /** A path as a request spells it: its components, and whether the text ends in a slash. */
  datatype PathText = PathText(comps: Path, slash: bool)

  /** `volumePath + ".aifs-restore-backup"` as a path.  After a trailing slash the suffix names an entry
      inside the volume. */
  function Backup(v: PathText): Path {
    if v.slash || v.comps == [] then v.comps + [BACKUP_SUFFIX]
    else Parent(v.comps) + [v.comps[|v.comps| - 1] + BACKUP_SUFFIX]
  }

  /** Without a trailing slash the backup is a sibling of the volume. */
  lemma BackupIsSibling(v: PathText)
    requires !v.slash && v.comps != []
    ensures Backup(v) != [] && Parent(Backup(v)) == Parent(v.comps)
    ensures !(v.comps <= Backup(v)) && !(Backup(v) <= v.comps)
  {
    var name := v.comps[|v.comps| - 1];
    assert |name + BACKUP_SUFFIX| > |name|;
    assert Backup(v)[|v.comps| - 1] != v.comps[|v.comps| - 1];
  }

  /** Its name is the volume's with the suffix, so different volumes have different backups. */
  lemma BackupsDiffer(v: PathText, w: PathText)
    requires !v.slash && v.comps != [] && !w.slash && w.comps != []
    ensures Backup(v)[|v.comps| - 1] == v.comps[|v.comps| - 1] + ".aifs-restore-backup"
    ensures Backup(v) == Backup(w) ==> v.comps == w.comps
  {
    var x, y := v.comps[|v.comps| - 1], w.comps[|w.comps| - 1];
    assert v.comps == Parent(v.comps) + [x] && w.comps == Parent(w.comps) + [y];
    if Backup(v) == Backup(w) {
      assert x + BACKUP_SUFFIX == Backup(v)[|v.comps| - 1] == y + BACKUP_SUFFIX;
      assert x == (x + BACKUP_SUFFIX)[..|x|] && y == (y + BACKUP_SUFFIX)[..|y|];
      assert Parent(Backup(v)) == Parent(v.comps) && Parent(Backup(w)) == Parent(w.comps);
    }
  }

  /** A path text with a trailing slash, or the root, can never be moved aside. */
  lemma OnlySiblingsMove(t: Tree, v: PathText)
    requires CanRename(t, v.comps, Backup(v))
    ensures !v.slash && v.comps != []
  {
    assert v.slash ==> v.comps <= Backup(v);
  }

  // ---- the restore protocol ----

  datatype RestoreError = NoError | RenameError | SnapshotError | DeleteError

  datatype Pc = Start | Renamed | RollingBack | Snapped | Finished(err: RestoreError) {
    function Rank(): nat {
      match this
      case Start => 3
      case Renamed => 2
      case RollingBack => 1
      case Snapped => 1
      case Finished(_) => 0
    }
  }

  /** Which of the four commands fail for reasons of their own. */
  datatype Faults = Faults(rename: bool, snapshot: bool, rollback: bool, delete: bool) {
    function At(pc: Pc): bool {
      match pc
      case Start => rename
      case Renamed => snapshot
      case RollingBack => rollback
      case Snapped => delete
      case Finished(_) => false
    }
  }

  /** Where a request goes on when its command has or has not worked. */
  function NextPc(pc: Pc, ok: bool): (next: Pc)
    ensures !pc.Finished? ==> next.Rank() < pc.Rank()
  {
    match pc
    case Start => if ok then Renamed else Finished(RenameError)
    case Renamed => if ok then Snapped else RollingBack
    case RollingBack => Finished(SnapshotError)
    case Snapped => Finished(if ok then NoError else DeleteError)
    case Finished(_) => pc
  }

  /** The command a request issues at each point. */
  function Command(t: Tree, pc: Pc, snap: Path, v: PathText, fault: bool): Outcome {
    match pc
    case Start => Rename(t, v.comps, Backup(v), fault)
    case Renamed => Snapshot(t, snap, v.comps, false, fault)
    case RollingBack => Rename(t, Backup(v), v.comps, fault)
    case Snapped => Delete(t, Backup(v), fault)
    case Finished(_) => Outcome(true, t)
  }

  /** One command of one restore request. */
  function RestoreStep(t: Tree, pc: Pc, snap: Path, v: PathText, fault: bool): (Tree, Pc) {
    var o := Command(t, pc, snap, v, fault);
    (o.tree, NextPc(pc, o.ok))
  }

  /** Every tree a lone restore goes through, with the point it has reached. */
  function RestoreTrace(t: Tree, pc: Pc, snap: Path, v: PathText, f: Faults): (trace: seq<(Tree, Pc)>)
    ensures |trace| > 0 && trace[0] == (t, pc)
    ensures trace[|trace| - 1].1.Finished?
    decreases pc.Rank()
  {
    if pc.Finished? then [(t, pc)]
    else
      var next := RestoreStep(t, pc, snap, v, f.At(pc));
      [(t, pc)] + RestoreTrace(next.0, next.1, snap, v, f)
  }

  /** The rest of a lone restore, from any point of it. */
  function Finish(t: Tree, pc: Pc, snap: Path, v: PathText, f: Faults): (Tree, RestoreError)
    decreases pc.Rank()
  {
    if pc.Finished? then (t, pc.err)
    else
      var next := RestoreStep(t, pc, snap, v, f.At(pc));
      Finish(next.0, next.1, snap, v, f)
  }

  function Restore(t: Tree, snap: Path, v: PathText, f: Faults): (Tree, RestoreError) {
    Finish(t, Start, snap, v, f)
  }

  /** The trace ends where the restore ends. */
  lemma {:induction false} TraceEnds(t: Tree, pc: Pc, snap: Path, v: PathText, f: Faults)
    ensures var trace := RestoreTrace(t, pc, snap, v, f); var (u, err) := Finish(t, pc, snap, v, f);
      trace[|trace| - 1] == (u, Finished(err))
    decreases pc.Rank()
  {
    if pc.Finished? {
      assert RestoreTrace(t, pc, snap, v, f) == [(t, pc)];
    } else {
      var next := RestoreStep(t, pc, snap, v, f.At(pc));
      TraceEnds(next.0, next.1, snap, v, f);
      TraceGoesOn(t, pc, next, snap, v, f);
    }
  }

  /** The trace of a request that is not finished ends where the trace from its next command on ends, and so does
      the request. */
  lemma TraceGoesOn(t: Tree, pc: Pc, next: (Tree, Pc), snap: Path, v: PathText, f: Faults)
    requires !pc.Finished? && next == RestoreStep(t, pc, snap, v, f.At(pc))
    ensures Finish(t, pc, snap, v, f) == Finish(next.0, next.1, snap, v, f)
    ensures var trace, rest := RestoreTrace(t, pc, snap, v, f), RestoreTrace(next.0, next.1, snap, v, f);
      trace[|trace| - 1] == rest[|rest| - 1]
  {
    var rest := RestoreTrace(next.0, next.1, snap, v, f);
    assert RestoreTrace(t, pc, snap, v, f) == [(t, pc)] + rest;
  }

  /** The tree while the volume is moved aside. */
  function Aside(t: Tree, v: PathText): Tree {
    Moved(t, v.comps, Backup(v))
  }

  /** The restored volume: a writable image of the source, taken while the volume is moved aside. */
  function RestoredImage(t: Tree, snap: Path, v: PathText): map<Path, Node> {
    Image(View(Aside(t, v), snap), false)
  }

  function Restored(t: Tree, snap: Path, v: PathText): Tree {
    Grafted(Aside(t, v), RestoredImage(t, snap, v), v.comps)
  }

  /** Where the source named by `snap` sits before the volume is moved aside. */
  function SourceBefore(snap: Path, v: PathText): Path {
    Origin(v.comps, Backup(v), snap)
  }

  /** The source will still be there once the volume is moved aside. */
  predicate SourceResolves(t: Tree, snap: Path, v: PathText) {
    && !(v.comps <= snap)
    && SourceBefore(snap, v) in t && t[SourceBefore(snap, v)].Subvol?
  }

  /** The volume can be moved aside. */
  predicate Enters(t: Tree, v: PathText, f: Faults) {
    !f.rename && CanRename(t, v.comps, Backup(v))
  }

  /** Where a restore that started from `t` stands when it has reached `pc`. */
  ghost predicate RestoreAt(t: Tree, u: Tree, pc: Pc, snap: Path, v: PathText, f: Faults) {
    match pc
    case Start => u == t
    case Renamed => Enters(t, v, f) && u == Aside(t, v)
    case RollingBack => Enters(t, v, f) && (f.snapshot || !SourceResolves(t, snap, v)) && u == Aside(t, v)
    case Snapped => Enters(t, v, f) && !f.snapshot && SourceResolves(t, snap, v) && u == Restored(t, snap, v)
    case Finished(RenameError) => !Enters(t, v, f) && u == t
    case Finished(SnapshotError) =>
      Enters(t, v, f) && (f.snapshot || !SourceResolves(t, snap, v)) && u == if f.rollback then Aside(t, v) else t
    case Finished(DeleteError) =>
      && Enters(t, v, f) && !f.snapshot && SourceResolves(t, snap, v)
      && !Deletable(t, v, f) && u == Restored(t, snap, v)
    case Finished(NoError) =>
      && Enters(t, v, f) && !f.snapshot && SourceResolves(t, snap, v)
      && Deletable(t, v, f) && u == Without(Restored(t, snap, v), Backup(v))
  }

  /** The old volume can be deleted: it is a subvolume and holds no snapshot. */
  ghost predicate Deletable(t: Tree, v: PathText, f: Faults) {
    !f.delete && v.comps in t && t[v.comps].Subvol? && !HasNested(t, v.comps)
  }

  lemma AsideFacts(t: Tree, v: PathText, f: Faults)
    requires Closed(t) && Enters(t, v, f)
    ensures !v.slash && v.comps != [] && v.comps in t && Backup(v) !in t
    ensures Closed(Aside(t, v)) && CanAdd(Aside(t, v), v.comps)
    ensures CanRename(Aside(t, v), Backup(v), v.comps) && Moved(Aside(t, v), Backup(v), v.comps) == t
    ensures SubtreeAt(Aside(t, v), Backup(v)) == SubtreeAt(t, v.comps)
    ensures Elsewhere(t, Aside(t, v), v.comps, Backup(v))
  {
    OnlySiblingsMove(t, v);
    BackupIsSibling(v);
    MovedEffect(t, v.comps, Backup(v));
    MovedClosed(t, v.comps, Backup(v));
    RenameUndone(t, v.comps, Backup(v));
  }

  lemma RestoredFacts(t: Tree, snap: Path, v: PathText, f: Faults)
    requires Closed(t) && Enters(t, v, f)
    ensures v.comps !in Aside(t, v)
    ensures SubtreeAt(Restored(t, snap, v), v.comps) == RestoredImage(t, snap, v)
    ensures SubtreeAt(Restored(t, snap, v), Backup(v)) == SubtreeAt(t, v.comps)
    ensures Elsewhere(t, Restored(t, snap, v), v.comps, Backup(v))
    ensures !HasNested(Restored(t, snap, v), v.comps)
    ensures ReadOnlyAt(Restored(t, snap, v), Parent(v.comps)) == ReadOnlyAt(t, Parent(v.comps))
  {
    var u, w := Aside(t, v), Restored(t, snap, v);
    AsideFacts(t, v, f);
    BackupIsSibling(v);
    assert SubtreeAt(w, v.comps) == RestoredImage(t, snap, v) by {
      GraftedEffect(u, RestoredImage(t, snap, v), v.comps);
    }
    ImageHasNoNested(w, v.comps, snap, u, false);
    RestoredBackup(t, snap, v, f);
    RestoredElsewhere(t, snap, v, f);
    assert !(v.comps <= Parent(v.comps)) && !(Backup(v) <= Parent(v.comps));
    ElsewhereReadOnly(t, w, v.comps, Backup(v), Parent(v.comps));
  }

  lemma RestoredBackup(t: Tree, snap: Path, v: PathText, f: Faults)
    requires Closed(t) && Enters(t, v, f)
    ensures SubtreeAt(Restored(t, snap, v), Backup(v)) == SubtreeAt(t, v.comps)
  {
    var u, w := Aside(t, v), Restored(t, snap, v);
    AsideFacts(t, v, f);
    BackupIsSibling(v);
    forall r: Path
      ensures SameEntry(w, u, Backup(v) + r)
    {
      if v.comps <= Backup(v) + r {
        PrefixesOfOnePath(v.comps, Backup(v), Backup(v) + r);
      }
      GraftedElsewhere(u, RestoredImage(t, snap, v), v.comps, Backup(v) + r);
    }
    SameSubtree(w, Backup(v), u, Backup(v));
  }

  lemma RestoredElsewhere(t: Tree, snap: Path, v: PathText, f: Faults)
    requires Closed(t) && Enters(t, v, f)
    ensures Elsewhere(t, Restored(t, snap, v), v.comps, Backup(v))
  {
    var u, w := Aside(t, v), Restored(t, snap, v);
    AsideFacts(t, v, f);
    forall p: Path | !(v.comps <= p) && !(Backup(v) <= p)
      ensures SameEntry(t, w, p)
    {
      assert SameEntry(t, u, p);
      GraftedElsewhere(u, RestoredImage(t, snap, v), v.comps, p);
    }
  }

  /** The source resolves after the rename exactly when the caller can see beforehand that it will. */
  lemma SourceSeenBeforehand(t: Tree, snap: Path, v: PathText, f: Faults)
    requires Closed(t) && Enters(t, v, f)
    ensures CanSnapshot(Aside(t, v), snap, v.comps) <==> SourceResolves(t, snap, v)
    ensures SnapshotTarget(Aside(t, v), snap, v.comps) == v.comps
  {
    var u := Aside(t, v);
    assert v.comps !in u && CanAdd(u, v.comps) by {
      AsideFacts(t, v, f);
    }
    assert SnapshotTarget(u, snap, v.comps) == v.comps;
    var o := SourceBefore(snap, v);
    assert snap in u <==> !(v.comps <= snap) && o in t by {
      MovedAt(t, v.comps, Backup(v), snap);
    }
    assert snap in u ==> u[snap] == t[o] by {
      MovedAt(t, v.comps, Backup(v), snap);
    }
  }

  lemma DeletionSeenBeforehand(t: Tree, snap: Path, v: PathText, f: Faults)
    requires Closed(t) && Enters(t, v, f)
    ensures !f.delete && CanDelete(Restored(t, snap, v), Backup(v)) <==> Deletable(t, v, f)
  {
    var w := Restored(t, snap, v);
    assert v.comps in t && Backup(v) != [] && Parent(Backup(v)) == Parent(v.comps) by {
      AsideFacts(t, v, f);
      BackupIsSibling(v);
    }
    RestoredFacts(t, snap, v, f);
    NestedIsCarried(t, v.comps, w, Backup(v));
    NestedIsCarried(w, Backup(v), t, v.comps);
  }

  /** The next command takes the restore from where it stands to where it should stand then. */
  ghost predicate GoesOn(t: Tree, u: Tree, pc: Pc, snap: Path, v: PathText, f: Faults) {
    var o := Command(u, pc, snap, v, f.At(pc));
    RestoreAt(t, o.tree, NextPc(pc, o.ok), snap, v, f)
  }

  lemma StartGoesOn(t: Tree, u: Tree, pc: Pc, snap: Path, v: PathText, f: Faults)
    requires pc.Start? && RestoreAt(t, u, pc, snap, v, f)
    ensures GoesOn(t, u, pc, snap, v, f)
  {
  }

  lemma RenamedGoesOn(t: Tree, u: Tree, pc: Pc, snap: Path, v: PathText, f: Faults)
    requires Closed(t) && pc.Renamed? && RestoreAt(t, u, pc, snap, v, f)
    ensures GoesOn(t, u, pc, snap, v, f)
  {
    SourceSeenBeforehand(t, snap, v, f);
  }

  lemma RollingBackGoesOn(t: Tree, u: Tree, pc: Pc, snap: Path, v: PathText, f: Faults)
    requires Closed(t) && pc.RollingBack? && RestoreAt(t, u, pc, snap, v, f)
    ensures GoesOn(t, u, pc, snap, v, f)
  {
    assert CanRename(u, Backup(v), v.comps) && Moved(u, Backup(v), v.comps) == t by {
      AsideFacts(t, v, f);
    }
  }

  lemma SnappedGoesOn(t: Tree, u: Tree, pc: Pc, snap: Path, v: PathText, f: Faults)
    requires Closed(t) && pc.Snapped? && RestoreAt(t, u, pc, snap, v, f)
    ensures GoesOn(t, u, pc, snap, v, f)
  {
    DeletionSeenBeforehand(t, snap, v, f);
  }

  lemma RestoreStepKeeps(t: Tree, u: Tree, pc: Pc, snap: Path, v: PathText, f: Faults)
    requires Closed(t) && RestoreAt(t, u, pc, snap, v, f)
    ensures var next := RestoreStep(u, pc, snap, v, f.At(pc)); RestoreAt(t, next.0, next.1, snap, v, f)
  {
    assert GoesOn(t, u, pc, snap, v, f) by {
      match pc
      case Start => StartGoesOn(t, u, pc, snap, v, f);
      case Renamed => RenamedGoesOn(t, u, pc, snap, v, f);
      case RollingBack => RollingBackGoesOn(t, u, pc, snap, v, f);
      case Snapped => SnappedGoesOn(t, u, pc, snap, v, f);
      case Finished(_) =>
    }
  }

  ghost predicate StandsAt(t: Tree, state: (Tree, Pc), snap: Path, v: PathText, f: Faults) {
    RestoreAt(t, state.0, state.1, snap, v, f)
  }

  lemma NextStandsAt(t: Tree, state: (Tree, Pc), snap: Path, v: PathText, f: Faults)
    requires Closed(t) && StandsAt(t, state, snap, v, f)
    ensures StandsAt(t, RestoreStep(state.0, state.1, snap, v, f.At(state.1)), snap, v, f)
  {
    RestoreStepKeeps(t, state.0, state.1, snap, v, f);
  }

  /** The trace from a state on. */
  function TraceFrom(state: (Tree, Pc), snap: Path, v: PathText, f: Faults): seq<(Tree, Pc)> {
    RestoreTrace(state.0, state.1, snap, v, f)
  }

  lemma TraceHead(state: (Tree, Pc), snap: Path, v: PathText, f: Faults)
    ensures TraceFrom(state, snap, v, f)[0] == state
  {
  }

  lemma TraceTail(state: (Tree, Pc), snap: Path, v: PathText, f: Faults, k: nat)
    requires 0 < k < |TraceFrom(state, snap, v, f)|
    ensures var rest := TraceFrom(RestoreStep(state.0, state.1, snap, v, f.At(state.1)), snap, v, f);
      k - 1 < |rest| && TraceFrom(state, snap, v, f)[k] == rest[k - 1]
  {
    var next := RestoreStep(state.0, state.1, snap, v, f.At(state.1));
    assert TraceFrom(state, snap, v, f) ==
      if state.1.Finished? then [state] else [state] + TraceFrom(next, snap, v, f);
  }

  /** What every command keeps holds all along the trace. */
  lemma {:induction false} TraceInduction(
      ok: ((Tree, Pc)) -> bool, state: (Tree, Pc), snap: Path, v: PathText, f: Faults, k: nat)
    requires ok(state) && k < |TraceFrom(state, snap, v, f)|
    requires forall s: (Tree, Pc) {:trigger RestoreStep(s.0, s.1, snap, v, f.At(s.1))} | ok(s) ::
               ok(RestoreStep(s.0, s.1, snap, v, f.At(s.1)))
    ensures ok(TraceFrom(state, snap, v, f)[k])
    decreases k
  {
    if k == 0 {
      TraceHead(state, snap, v, f);
    } else {
      TraceTail(state, snap, v, f, k);
      TraceInduction(ok, RestoreStep(state.0, state.1, snap, v, f.At(state.1)), snap, v, f, k - 1);
    }
  }

  lemma RestoreTraceKeeps(t: Tree, state: (Tree, Pc), snap: Path, v: PathText, f: Faults, k: nat)
    requires Closed(t) && StandsAt(t, state, snap, v, f)
    requires k < |TraceFrom(state, snap, v, f)|
    ensures StandsAt(t, TraceFrom(state, snap, v, f)[k], snap, v, f)
  {
    var ok := (s: (Tree, Pc)) => StandsAt(t, s, snap, v, f);
    forall s: (Tree, Pc) | ok(s)
      ensures ok(RestoreStep(s.0, s.1, snap, v, f.At(s.1)))
    {
      NextStandsAt(t, s, snap, v, f);
    }
    TraceInduction(ok, state, snap, v, f, k);
  }

  lemma {:induction false} FinishKeeps(t: Tree, u: Tree, pc: Pc, snap: Path, v: PathText, f: Faults)
    requires Closed(t) && RestoreAt(t, u, pc, snap, v, f)
    ensures var (w, err) := Finish(u, pc, snap, v, f); RestoreAt(t, w, Finished(err), snap, v, f)
    decreases pc.Rank()
  {
    if pc.Finished? {
    } else {
      var next := RestoreStep(u, pc, snap, v, f.At(pc));
      assert RestoreAt(t, next.0, next.1, snap, v, f) by {
        RestoreStepKeeps(t, u, pc, snap, v, f);
      }
      FinishKeeps(t, next.0, next.1, snap, v, f);
    }
  }

  /** The outcome of a lone restore, decided entirely by what the caller can see before the call. */
  lemma RestoreOutcome(t: Tree, snap: Path, v: PathText, f: Faults)
    requires Closed(t)
    ensures var (u, err) := Restore(t, snap, v, f);
      && (err == RenameError <==> !Enters(t, v, f))
      && (err == SnapshotError <==> Enters(t, v, f) && (f.snapshot || !SourceResolves(t, snap, v)))
      && (err == DeleteError <==>
            Enters(t, v, f) && !f.snapshot && SourceResolves(t, snap, v) && !Deletable(t, v, f))
      && (err == NoError <==>
            Enters(t, v, f) && !f.snapshot && SourceResolves(t, snap, v) && Deletable(t, v, f))
  {
    FinishKeeps(t, t, Start, snap, v, f);
  }

  /** What each outcome leaves behind.  An error before the delete step leaves the very same tree, unless the
      rollback itself failed; nil means restored with no backup; a delete error keeps both. */
  lemma RestoreLeaves(t: Tree, snap: Path, v: PathText, f: Faults)
    requires Closed(t)
    ensures var (u, err) := Restore(t, snap, v, f);
      && (err == RenameError ==> u == t)
      && (err == SnapshotError && !f.rollback ==> u == t)
      && (err == SnapshotError && f.rollback ==>
            v.comps !in u && SubtreeAt(u, Backup(v)) == SubtreeAt(t, v.comps))
      && (err == DeleteError ==>
            && SubtreeAt(u, v.comps) == RestoredImage(t, snap, v)
            && SubtreeAt(u, Backup(v)) == SubtreeAt(t, v.comps))
      && (err == NoError ==>
            && SubtreeAt(u, v.comps) == RestoredImage(t, snap, v)
            && SubtreeAt(u, Backup(v)) == map[])
      && Elsewhere(t, u, v.comps, Backup(v))
  {
    FinishKeeps(t, t, Start, snap, v, f);
    var (u, err) := Restore(t, snap, v, f);
    PlaceOfContents(t, u, Finished(err), snap, v, f);
  }

  /** Where the old and the new contents are at every point of the protocol. */
  ghost predicate ContentsAt(t: Tree, u: Tree, pc: Pc, snap: Path, v: PathText, f: Faults) {
    && Elsewhere(t, u, v.comps, Backup(v))
    && match pc
       case Start => u == t
       case Renamed => OnlyBackup(t, u, v)
       case RollingBack => OnlyBackup(t, u, v)
       case Snapped => BothPresent(t, u, snap, v)
       case Finished(RenameError) => u == t
       case Finished(SnapshotError) => if f.rollback then OnlyBackup(t, u, v) else u == t
       case Finished(DeleteError) => BothPresent(t, u, snap, v)
       case Finished(NoError) =>
         SubtreeAt(u, v.comps) == RestoredImage(t, snap, v) && SubtreeAt(u, Backup(v)) == map[]
  }

  ghost predicate OnlyBackup(t: Tree, u: Tree, v: PathText) {
    v.comps !in u && SubtreeAt(u, Backup(v)) == SubtreeAt(t, v.comps)
  }

  ghost predicate BothPresent(t: Tree, u: Tree, snap: Path, v: PathText) {
    SubtreeAt(u, v.comps) == RestoredImage(t, snap, v) && SubtreeAt(u, Backup(v)) == SubtreeAt(t, v.comps)
  }

  lemma AsideContents(t: Tree, v: PathText, f: Faults)
    requires Closed(t) && Enters(t, v, f)
    ensures OnlyBackup(t, Aside(t, v), v) && Elsewhere(t, Aside(t, v), v.comps, Backup(v))
  {
    AsideFacts(t, v, f);
  }

  lemma RestoredContents(t: Tree, snap: Path, v: PathText, f: Faults)
    requires Closed(t) && Enters(t, v, f)
    ensures BothPresent(t, Restored(t, snap, v), snap, v)
    ensures Elsewhere(t, Restored(t, snap, v), v.comps, Backup(v))
  {
    RestoredFacts(t, snap, v, f);
  }

  lemma PlaceOfContents(t: Tree, u: Tree, pc: Pc, snap: Path, v: PathText, f: Faults)
    requires Closed(t) && RestoreAt(t, u, pc, snap, v, f)
    ensures ContentsAt(t, u, pc, snap, v, f)
  {
    match pc
    case Start =>
    case Renamed => AsideContents(t, v, f);
    case RollingBack => AsideContents(t, v, f);
    case Snapped => RestoredContents(t, snap, v, f);
    case Finished(RenameError) =>
    case Finished(SnapshotError) => AsideContents(t, v, f);
    case Finished(DeleteError) => RestoredContents(t, snap, v, f);
    case Finished(NoError) => AfterDelete(t, u, snap, v, f);
  }

  lemma AfterDelete(t: Tree, u: Tree, snap: Path, v: PathText, f: Faults)
    requires Closed(t) && Enters(t, v, f) && u == Without(Restored(t, snap, v), Backup(v))
    ensures Elsewhere(t, u, v.comps, Backup(v))
    ensures SubtreeAt(u, v.comps) == RestoredImage(t, snap, v)
    ensures SubtreeAt(u, Backup(v)) == map[]
  {
    var w := Restored(t, snap, v);
    AsideFacts(t, v, f);
    BackupIsSibling(v);
    RestoredFacts(t, snap, v, f);
    WithoutEffect(w, Backup(v));
    forall r: Path
      ensures SameEntry(w, u, v.comps + r)
    {
      if Backup(v) <= v.comps + r {
        PrefixesOfOnePath(Backup(v), v.comps, v.comps + r);
      }
    }
    SameSubtree(w, v.comps, u, v.comps);
    forall p: Path | !(v.comps <= p) && !(Backup(v) <= p)
      ensures SameEntry(t, u, p)
    {
      assert SameEntry(t, w, p) && SameEntry(w, u, p);
    }
  }

  /** Nothing is lost: the original contents are whole at one of the two names, until the restored contents are
      whole at the volume path; and nothing else in the tree has changed. */
  ghost predicate NothingLost(t: Tree, u: Tree, pc: Pc, snap: Path, v: PathText) {
    && Elsewhere(t, u, v.comps, Backup(v))
    && if pc == Finished(NoError)
       then SubtreeAt(u, v.comps) == RestoredImage(t, snap, v)
       else SubtreeAt(u, v.comps) == SubtreeAt(t, v.comps) || SubtreeAt(u, Backup(v)) == SubtreeAt(t, v.comps)
  }

  lemma NothingLostAt(t: Tree, u: Tree, pc: Pc, snap: Path, v: PathText, f: Faults)
    requires Closed(t) && RestoreAt(t, u, pc, snap, v, f)
    ensures NothingLost(t, u, pc, snap, v)
  {
    PlaceOfContents(t, u, pc, snap, v, f);
    match pc
    case Finished(NoError) =>
    case Finished(SnapshotError) => assert f.rollback || u == t;
    case _ =>
  }

  /** Crash safety: whichever command the daemon dies after, nothing is lost. */
  lemma CrashSafe(t: Tree, snap: Path, v: PathText, f: Faults, k: nat)
    requires Closed(t) && k < |RestoreTrace(t, Start, snap, v, f)|
    ensures NothingLost(t, RestoreTrace(t, Start, snap, v, f)[k].0, RestoreTrace(t, Start, snap, v, f)[k].1, snap, v)
  {
    assert StandsAt(t, (t, Start), snap, v, f);
    RestoreTraceKeeps(t, (t, Start), snap, v, f, k);
    var state := RestoreTrace(t, Start, snap, v, f)[k];
    NothingLostAt(t, state.0, state.1, snap, v, f);
  }

  /** The source is an ancestor that sees the volume, so that moving the volume aside changes its own contents. */
  predicate SourceSeesVolume(t: Tree, snap: Path, v: PathText) {
    snap < v.comps && Visible(t, snap, v.comps)
  }

  /** The restored volume holds exactly what the source held before the call, although the source is read after the
      volume has moved away, unless the source is an ancestor that sees the volume. */
  lemma RestoredFromSource(t: Tree, snap: Path, v: PathText, f: Faults)
    requires Closed(t) && Enters(t, v, f) && SourceResolves(t, snap, v)
    ensures RestoredImage(t, snap, v) == Image(View(t, SourceBefore(snap, v)), false) <==> !SourceSeesVolume(t, snap, v)
  {
    if SourceSeesVolume(t, snap, v) {
      VolumeGoesMissing(t, snap, v, f);
    } else if snap < v.comps {
      BlindAncestor(t, snap, v, f);
    } else {
      ApartFromVolume(t, snap, v, f);
    }
  }

  /** In terms of entries: once the snapshot step has succeeded, every file and directory of the source is at the
      volume path with its data, nested subvolumes are empty directories, and nothing else is there. */
  lemma RestoredEntries(t: Tree, snap: Path, v: PathText, f: Faults)
    requires Closed(t) && Enters(t, v, f) && !f.snapshot && SourceResolves(t, snap, v)
    requires !SourceSeesVolume(t, snap, v)
    ensures var u := Restore(t, snap, v, f).0;
      && IsCopy(t, SourceBefore(snap, v), u, v.comps)
      && v.comps in u && u[v.comps] == Subvol(false)
  {
    RestoreOutcome(t, snap, v, f);
    RestoreLeaves(t, snap, v, f);
    RestoredFromSource(t, snap, v, f);
    ImageIsCopy(t, SourceBefore(snap, v), Restore(t, snap, v, f).0, v.comps, false);
  }

  lemma ApartFromVolume(t: Tree, snap: Path, v: PathText, f: Faults)
    requires Closed(t) && Enters(t, v, f)
    requires !(v.comps <= snap) && !(snap <= v.comps)
    ensures RestoredImage(t, snap, v) == Image(View(t, SourceBefore(snap, v)), false)
  {
    var u, b, o := Aside(t, v), Backup(v), SourceBefore(snap, v);
    assert SubtreeAt(u, snap) == SubtreeAt(t, o) by {
      if b <= snap {
        UnderBackup(t, snap, v, f);
      } else {
        BackupIsSiblingOf(t, v);
        ProperAncestor(snap, b);
        MovedEffect(t, v.comps, b);
        ElsewhereSubtree(t, u, v.comps, b, snap);
      }
    }
    ViewOfSameSubtree(u, snap, t, o);
  }

  /** An ancestor that sees the volume loses it from its contents. */
  lemma VolumeGoesMissing(t: Tree, snap: Path, v: PathText, f: Faults)
    requires Closed(t) && Enters(t, v, f) && SourceSeesVolume(t, snap, v)
    ensures RestoredImage(t, snap, v) != Image(View(t, SourceBefore(snap, v)), false)
  {
    var r := v.comps[|snap|..];
    assert snap + r == v.comps && r != [];
    AboveBackup(t, snap, v);
    assert v.comps !in Aside(t, v) by {
      AsideFacts(t, v, f);
    }
    ViewAt(t, snap, r);
    ViewAt(Aside(t, v), snap, r);
    assert r in Image(View(t, snap), false) && r !in Image(View(Aside(t, v), snap), false);
  }

  /** A proper ancestor of the volume is one of the backup. */
  lemma AboveBackup(t: Tree, snap: Path, v: PathText)
    requires CanRename(t, v.comps, Backup(v)) && snap < v.comps
    ensures snap < Backup(v) && SourceBefore(snap, v) == snap
    ensures forall k | 0 <= k < |v.comps| :: Backup(v)[..k] == v.comps[..k]
    ensures |Backup(v)| == |v.comps|
  {
    BackupIsSiblingOf(t, v);
    var up := Parent(v.comps);
    forall k | 0 <= k < |v.comps|
      ensures Backup(v)[..k] == v.comps[..k]
    {
      assert Backup(v)[..k] == up[..k] && v.comps[..k] == up[..k];
    }
    assert snap == v.comps[..|snap|];
  }

  /** An ancestor with another subvolume in between sees neither the volume nor the backup. */
  lemma BlindAncestor(t: Tree, snap: Path, v: PathText, f: Faults)
    requires Closed(t) && Enters(t, v, f) && snap < v.comps && !Visible(t, snap, v.comps)
    ensures RestoredImage(t, snap, v) == Image(View(t, SourceBefore(snap, v)), false)
  {
    AboveBackup(t, snap, v);
    BlindToRename(t, snap, v, f);
  }

  lemma BlindToRename(t: Tree, snap: Path, v: PathText, f: Faults)
    requires Closed(t) && Enters(t, v, f) && snap < v.comps && !Visible(t, snap, v.comps)
    ensures View(Aside(t, v), snap) == View(t, snap)
  {
    AsideFacts(t, v, f);
    AboveBackup(t, snap, v);
    var m :| |snap| < m < |v.comps| && v.comps[..m] in t && t[v.comps[..m]].Subvol?;
    BlindView(t, Aside(t, v), v.comps, Backup(v), snap, m);
  }

  lemma ProperAncestor(a: Path, p: Path)
    requires p != [] && !(p <= a)
    ensures a <= p ==> a <= Parent(p)
  {
    if a <= p {
      assert |a| < |p| || a == p;
    }
  }

  lemma BackupIsSiblingOf(t: Tree, v: PathText)
    requires CanRename(t, v.comps, Backup(v))
    ensures Backup(v) != [] && v.comps != [] && Parent(Backup(v)) == Parent(v.comps)
  {
    OnlySiblingsMove(t, v);
    BackupIsSibling(v);
  }

  lemma UnderBackup(t: Tree, snap: Path, v: PathText, f: Faults)
    requires Closed(t) && Enters(t, v, f) && Backup(v) <= snap
    ensures SubtreeAt(Aside(t, v), snap) == SubtreeAt(t, SourceBefore(snap, v))
  {
    forall r: Path
      ensures snap + r in Aside(t, v) <==> SourceBefore(snap, v) + r in t
      ensures snap + r in Aside(t, v) ==> Aside(t, v)[snap + r] == t[SourceBefore(snap, v) + r]
    {
      UnderBackupAt(t, v.comps, Backup(v), snap, r);
    }
    SameSubtree(Aside(t, v), snap, t, SourceBefore(snap, v));
  }

  lemma UnderBackupAt(t: Tree, a: Path, b: Path, snap: Path, r: Path)
    requires Closed(t) && CanRename(t, a, b) && b <= snap
    ensures snap + r in Moved(t, a, b) <==> Origin(a, b, snap) + r in t
    ensures snap + r in Moved(t, a, b) ==> Moved(t, a, b)[snap + r] == t[Origin(a, b, snap) + r]
  {
    OriginOfBelow(a, b, snap, r);
    Incomparable(t, a, b, snap + r);
    MovedAt(t, a, b, snap + r);
  }

  /** Restoring from a path under the volume, as every path `TakeSnapshot` returns is, always fails and, with a
      working rollback, changes nothing at all. */
  lemma RestoreFromOwnSnapshotFails(t: Tree, snap: Path, v: PathText, f: Faults)
    requires Closed(t) && v.comps <= snap && !f.rollback
    ensures Restore(t, snap, v, f).1 in {RenameError, SnapshotError}
    ensures Restore(t, snap, v, f).0 == t
  {
    RestoreOutcome(t, snap, v, f);
    RestoreLeaves(t, snap, v, f);
  }

  /** A volume that holds a snapshot of its own cannot be restored cleanly: the delete step fails, and the old
      contents stay under the backup name with every snapshot. */
  lemma NestedSnapshotBlocksDelete(t: Tree, snap: Path, v: PathText, f: Faults)
    requires Closed(t) && HasNested(t, v.comps)
    ensures Restore(t, snap, v, f).1 != NoError
    ensures Enters(t, v, f) && !f.snapshot && SourceResolves(t, snap, v) ==>
      var (u, err) := Restore(t, snap, v, f);
      && err == DeleteError
      && SubtreeAt(u, Backup(v)) == SubtreeAt(t, v.comps)
      && HasNested(u, Backup(v)) && Backup(v) in u
  {
    RestoreOutcome(t, snap, v, f);
    var (u, err) := Restore(t, snap, v, f);
    if err == DeleteError {
      assert SubtreeAt(u, Backup(v)) == SubtreeAt(t, v.comps) by {
        RestoreLeaves(t, snap, v, f);
      }
      NestedIsCarried(t, v.comps, u, Backup(v));
    }
  }

  lemma NestedIsCarried(t: Tree, p: Path, u: Tree, q: Path)
    requires SubtreeAt(t, p) == SubtreeAt(u, q)
    ensures HasNested(t, p) ==> HasNested(u, q)
    ensures p in t <==> q in u
    ensures p in t ==> t[p] == u[q]
  {
    assert p + [] == p && q + [] == q;
    SubtreeEntry(t, p, []);
    SubtreeEntry(u, q, []);
    if HasNested(t, p) {
      var d :| d in t && p < d && t[d].Subvol?;
      var r := d[|p|..];
      assert p + r == d;
      SubtreeEntry(t, p, r);
      SubtreeEntry(u, q, r);
      assert q < q + r;
    }
  }
}
