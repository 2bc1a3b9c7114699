/** The part of a btrfs filesystem that the AIFS daemon touches, and the four tools it drives:
    `os.Rename`, `os.MkdirAll`, `btrfs subvolume snapshot` and `btrfs subvolume delete`.
    A tree maps paths (sequences of components) to nodes.  Every tool either succeeds or leaves the tree
    as it was; `fault` stands for a failure that the tree does not explain (no space, I/O error). */
module FsTree {
  type Path = seq<string>

  datatype Node = File(data: string) | Dir | Subvol(readOnly: bool)

  type Tree = map<Path, Node>

  /** What a tool leaves behind. */
  datatype Outcome = Outcome(ok: bool, tree: Tree)

  function Parent(p: Path): Path
    requires p != []
  {
    p[..|p| - 1]
  }

  /** Every entry hangs below a directory or a subvolume. */
  ghost predicate Closed(t: Tree) {
    && [] in t && !t[[]].File?
    && forall p {:trigger Hangs(t, p)} | p in t :: Hangs(t, p)
  }

  /** The entry is the root or hangs below a directory or a subvolume. */
  ghost predicate Hangs(t: Tree, p: Path) {
    p != [] ==> Parent(p) in t && !t[Parent(p)].File?
  }

  lemma {:induction false} AncestorIn(t: Tree, a: Path, p: Path)
    requires Closed(t) && p in t && a <= p
    ensures a in t
    ensures a < p ==> !t[a].File?
    decreases |p|
  {
    if a < p {
      assert Hangs(t, p) && a <= Parent(p);
      AncestorIn(t, a, Parent(p));
      if a == Parent(p) {
        assert !t[a].File?;
      }
    } else {
      assert a == p;
    }
  }

  /** Nothing lives at or below a path that is absent. */
  lemma NothingBelow(t: Tree, a: Path)
    requires Closed(t) && a !in t
    ensures forall p | p in t :: !(a <= p)
  {
    forall p | p in t
      ensures !(a <= p)
    {
      if a <= p {
        AncestorIn(t, a, p);
      }
    }
  }

  /** Is the subvolume that owns directory `p` read-only? */
  predicate ReadOnlyAt(t: Tree, p: Path)
    decreases |p|
  {
    if p in t && t[p].Subvol? then t[p].readOnly
    else if p == [] then false
    else ReadOnlyAt(t, Parent(p))
  }

  lemma {:induction false} ReadOnlyAtDependsOnAncestors(t: Tree, u: Tree, p: Path)
    requires forall a | a <= p :: SameEntry(t, u, a)
    ensures ReadOnlyAt(t, p) == ReadOnlyAt(u, p)
    decreases |p|
  {
    assert SameEntry(t, u, p);
    if p != [] {
      forall a | a <= Parent(p)
        ensures SameEntry(t, u, a)
      {
        assert a <= p;
      }
      ReadOnlyAtDependsOnAncestors(t, u, Parent(p));
    }
  }

  /** Can a new entry be made at `p`? */
  predicate CanAdd(t: Tree, p: Path) {
    && p != [] && p !in t
    && Parent(p) in t && !t[Parent(p)].File?
    && !ReadOnlyAt(t, Parent(p))
  }

  /** Everything at or below `p`, by relative path. */
  function SubtreeAt(t: Tree, p: Path): map<Path, Node> {
    var rels := set q | q in t && p <= q :: q[|p|..];
    map r | r in rels && p + r in t :: t[p + r]
  }

  lemma SubtreeEntry(t: Tree, p: Path, r: Path)
    ensures r in SubtreeAt(t, p) <==> p + r in t
    ensures r in SubtreeAt(t, p) ==> SubtreeAt(t, p)[r] == t[p + r]
  {
    if p + r in t {
      assert p <= p + r && (p + r)[|p|..] == r;
    }
  }

  lemma SubtreeAtLookup(t: Tree, p: Path)
    ensures forall r: Path :: r in SubtreeAt(t, p) <==> p + r in t
    ensures forall r: Path | r in SubtreeAt(t, p) :: SubtreeAt(t, p)[r] == t[p + r]
  {
    forall r: Path
      ensures r in SubtreeAt(t, p) <==> p + r in t
      ensures r in SubtreeAt(t, p) ==> SubtreeAt(t, p)[r] == t[p + r]
    {
      SubtreeEntry(t, p, r);
    }
  }

  /** Two trees hold the same below `p` as soon as they agree entry by entry there. */
  lemma SameSubtree(t: Tree, p: Path, u: Tree, q: Path)
    requires forall r: Path :: (p + r in t <==> q + r in u) && (p + r in t ==> t[p + r] == u[q + r])
    ensures SubtreeAt(t, p) == SubtreeAt(u, q)
  {
    SubtreeAtLookup(t, p);
    SubtreeAtLookup(u, q);
  }

  ghost predicate SameEntry(t: Tree, u: Tree, p: Path) {
    (p in t <==> p in u) && (p in t ==> t[p] == u[p])
  }

  lemma SameTrees(t: Tree, u: Tree)
    requires forall p: Path :: SameEntry(t, u, p)
    ensures t == u
  {
    forall p: Path
      ensures p in t <==> p in u
      ensures p in t ==> t[p] == u[p]
    {
      assert SameEntry(t, u, p);
    }
  }

  /** The trees agree on every path that is neither below `a` nor below `b`. */
  ghost predicate Elsewhere(t: Tree, u: Tree, a: Path, b: Path) {
    forall p: Path | !(a <= p) && !(b <= p) :: SameEntry(t, u, p)
  }

  /** A subtree away from both names is the same in both trees. */
  lemma ElsewhereSubtree(t: Tree, u: Tree, a: Path, b: Path, p: Path)
    requires Elsewhere(t, u, a, b)
    requires !(a <= p) && !(p <= a) && !(b <= p) && !(p <= b)
    ensures SubtreeAt(t, p) == SubtreeAt(u, p)
  {
    forall r: Path
      ensures SameEntry(t, u, p + r)
    {
      assert p <= p + r;
      if a <= p + r {
        PrefixesOfOnePath(a, p, p + r);
      }
      if b <= p + r {
        PrefixesOfOnePath(b, p, p + r);
      }
    }
    SameSubtree(t, p, u, p);
  }

  // ---- os.Rename ----

  /** `os.Rename(a, b)` for a directory: the target must not exist, and a directory cannot move into itself.
      The daemon renames only within one directory. */
  predicate CanRename(t: Tree, a: Path, b: Path) {
    && a != [] && a in t && !(a <= b)
    && CanAdd(t, b)
    && !ReadOnlyAt(t, Parent(a))
  }

  /** The path whose node sits at `p` once `a` has become `b`. */
  function Origin(a: Path, b: Path, p: Path): Path {
    if b <= p then a + p[|b|..] else p
  }

  function Moved(t: Tree, a: Path, b: Path): Tree {
    var keys := (set p | p in t && !(a <= p)) + (set p | p in t && a <= p :: b + p[|a|..]);
    map p | p in keys && Origin(a, b, p) in t :: t[Origin(a, b, p)]
  }

  function Rename(t: Tree, a: Path, b: Path, fault: bool): Outcome {
    if !fault && CanRename(t, a, b) then Outcome(true, Moved(t, a, b)) else Outcome(false, t)
  }

  lemma PrefixesOfOnePath(a: Path, b: Path, p: Path)
    requires a <= p && b <= p
    ensures a <= b || b <= a
  {
    if |a| <= |b| {
      assert a == p[..|b|][..|a|];
    } else {
      assert b == p[..|a|][..|b|];
    }
  }

  lemma Incomparable(t: Tree, a: Path, b: Path, p: Path)
    requires Closed(t) && CanRename(t, a, b)
    ensures !(a <= p && b <= p)
  {
    NothingBelow(t, b);
    if a <= p && b <= p {
      PrefixesOfOnePath(a, b, p);
    }
  }

  /** One entry of the tree after the move. */
  lemma MovedAt(t: Tree, a: Path, b: Path, p: Path)
    requires Closed(t) && CanRename(t, a, b)
    ensures p in Moved(t, a, b) <==> !(a <= p) && Origin(a, b, p) in t
    ensures p in Moved(t, a, b) ==> Moved(t, a, b)[p] == t[Origin(a, b, p)]
  {
    NothingBelow(t, b);
    Incomparable(t, a, b, p);
    if b <= p {
      var o := a + p[|b|..];
      assert p == b + p[|b|..] && a <= o && o[|a|..] == p[|b|..];
    }
  }

  /** Moving keeps the subtree, empties the old name and touches nothing else. */
  lemma MovedEffect(t: Tree, a: Path, b: Path)
    requires Closed(t) && CanRename(t, a, b)
    ensures SubtreeAt(Moved(t, a, b), b) == SubtreeAt(t, a)
    ensures a !in Moved(t, a, b) && b in Moved(t, a, b)
    ensures Elsewhere(t, Moved(t, a, b), a, b)
  {
    var u := Moved(t, a, b);
    forall r: Path
      ensures (b + r in u <==> a + r in t) && (b + r in u ==> u[b + r] == t[a + r])
    {
      assert b <= b + r && (b + r)[|b|..] == r;
      Incomparable(t, a, b, b + r);
      MovedAt(t, a, b, b + r);
    }
    SameSubtree(u, b, t, a);
    assert b + [] == b && a + [] == a;
    MovedAt(t, a, b, a);
    forall p | !(a <= p) && !(b <= p)
      ensures SameEntry(t, u, p)
    {
      MovedAt(t, a, b, p);
    }
  }

  /** The owner of a directory outside both names stays as writable as it was. */
  lemma ElsewhereReadOnly(t: Tree, u: Tree, a: Path, b: Path, d: Path)
    requires Elsewhere(t, u, a, b) && !(a <= d) && !(b <= d)
    ensures ReadOnlyAt(u, d) == ReadOnlyAt(t, d)
  {
    forall p | p <= d
      ensures SameEntry(t, u, p)
    {
      assert !(a <= p) && !(b <= p);
    }
    ReadOnlyAtDependsOnAncestors(t, u, d);
  }

  lemma MovedClosed(t: Tree, a: Path, b: Path)
    requires Closed(t) && CanRename(t, a, b)
    ensures Closed(Moved(t, a, b))
  {
    var u := Moved(t, a, b);
    forall p | p in u
      ensures Hangs(u, p)
    {
      if p != [] {
        MovedParent(t, a, b, p);
      }
    }
    MovedAt(t, a, b, []);
  }

  lemma MovedParent(t: Tree, a: Path, b: Path, p: Path)
    requires Closed(t) && CanRename(t, a, b) && p in Moved(t, a, b) && p != []
    ensures Hangs(Moved(t, a, b), p)
  {
    MovedAt(t, a, b, p);
    MovedAt(t, a, b, Parent(p));
    assert Hangs(t, Origin(a, b, p));
    if p == b {
      assert !(b <= Parent(p)) && !(a <= Parent(p));
    } else if b <= p {
      ParentOfOrigin(a, b, p);
      Incomparable(t, a, b, Parent(p));
    } else {
      assert !(b <= Parent(p)) && !(a <= Parent(p));
    }
  }

  lemma ParentOfOrigin(a: Path, b: Path, p: Path)
    requires b < p
    ensures b <= Parent(p) && Origin(a, b, p) != [] && Parent(Origin(a, b, p)) == Origin(a, b, Parent(p))
  {
    assert b <= Parent(p);
    assert Parent(p)[|b|..] == p[|b|..][..|p| - |b| - 1];
  }

  /** A rename within one directory can always be undone, and undoing it gives back the very same tree. */
  lemma RenameUndone(t: Tree, a: Path, b: Path)
    requires Closed(t) && CanRename(t, a, b) && Parent(a) == Parent(b)
    ensures CanRename(Moved(t, a, b), b, a)
    ensures Moved(Moved(t, a, b), b, a) == t
  {
    var u := Moved(t, a, b);
    MovedEffect(t, a, b);
    MovedClosed(t, a, b);
    assert !(a <= Parent(a)) && !(b <= Parent(a));
    ElsewhereReadOnly(t, u, a, b, Parent(a));
    assert SameEntry(t, u, Parent(a));
    NothingBelow(t, b);
    assert CanRename(u, b, a);
    forall p: Path
      ensures SameEntry(t, Moved(u, b, a), p)
    {
      RenameUndoneAt(t, a, b, p);
    }
    SameTrees(t, Moved(u, b, a));
  }

  lemma RenameUndoneAt(t: Tree, a: Path, b: Path, p: Path)
    requires Closed(t) && CanRename(t, a, b)
    requires Closed(Moved(t, a, b)) && CanRename(Moved(t, a, b), b, a)
    ensures SameEntry(t, Moved(Moved(t, a, b), b, a), p)
  {
    if a <= p {
      RenameUndoneInside(t, a, b, p);
    } else {
      RenameUndoneOutside(t, a, b, p);
    }
  }

  lemma RenameUndoneInside(t: Tree, a: Path, b: Path, p: Path)
    requires Closed(t) && CanRename(t, a, b) && a <= p
    requires Closed(Moved(t, a, b)) && CanRename(Moved(t, a, b), b, a)
    ensures SameEntry(t, Moved(Moved(t, a, b), b, a), p)
  {
    var o := Origin(b, a, p);
    OriginAndBack(a, b, p);
    Incomparable(t, a, b, p);
    Incomparable(t, a, b, o);
    MovedAt(Moved(t, a, b), b, a, p);
    MovedAt(t, a, b, o);
  }

  lemma RenameUndoneOutside(t: Tree, a: Path, b: Path, p: Path)
    requires Closed(t) && CanRename(t, a, b) && !(a <= p)
    requires Closed(Moved(t, a, b)) && CanRename(Moved(t, a, b), b, a)
    ensures SameEntry(t, Moved(Moved(t, a, b), b, a), p)
  {
    MovedAt(Moved(t, a, b), b, a, p);
    if b <= p {
      assert p !in t by {
        NothingBelow(t, b);
      }
    } else {
      MovedAt(t, a, b, p);
    }
  }

  lemma OriginAndBack(a: Path, b: Path, p: Path)
    requires a <= p
    ensures b <= Origin(b, a, p) && Origin(a, b, Origin(b, a, p)) == p
  {
    assert p == a + p[|a|..];
    assert (b + p[|a|..])[|b|..] == p[|a|..];
  }

  /** What lies below a moved path was below its origin. */
  lemma OriginOfBelow(a: Path, b: Path, p: Path, r: Path)
    requires b <= p
    ensures b <= p + r && Origin(a, b, p + r) == Origin(a, b, p) + r
  {
    assert (p + r)[|b|..] == p[|b|..] + r;
  }

  // ---- btrfs subvolume snapshot ----

  /** Does `p` belong to the subvolume rooted at `root`?  A nested subvolume belongs to it only as a name. */
  predicate Visible(t: Tree, root: Path, p: Path) {
    && root < p && p in t
    && forall k | |root| < k < |p| :: p[..k] in t ==> !t[p[..k]].Subvol?
  }

  /** A nested subvolume shows up in a snapshot as an empty directory. */
  function Stub(n: Node): Node {
    if n.Subvol? then Dir else n
  }

  /** The contents of the subvolume at `root` by relative path: what a snapshot of it holds. */
  function View(t: Tree, root: Path): map<Path, Node> {
    var rels := set p | p in t && Visible(t, root, p) :: p[|root|..];
    map r | r in rels && root + r in t :: Stub(t[root + r])
  }

  lemma ViewAt(t: Tree, root: Path, r: Path)
    ensures r in View(t, root) <==> Visible(t, root, root + r)
    ensures r in View(t, root) ==> root + r in t && View(t, root)[r] == Stub(t[root + r])
  {
    if Visible(t, root, root + r) {
      assert (root + r)[|root|..] == r;
    }
    if r in View(t, root) {
      var p :| p in t && Visible(t, root, p) && r == p[|root|..];
      assert root + r == p;
    }
  }

  /** Contents depend on nothing but what is at or below the root. */
  lemma ViewOfSameSubtree(t: Tree, p: Path, u: Tree, q: Path)
    requires SubtreeAt(t, p) == SubtreeAt(u, q)
    ensures View(t, p) == View(u, q)
  {
    forall r: Path
      ensures r in View(t, p) <==> r in View(u, q)
      ensures r in View(t, p) ==> View(t, p)[r] == View(u, q)[r]
    {
      ViewAt(t, p, r);
      ViewAt(u, q, r);
      SubtreeAtLookup(t, p);
      SubtreeAtLookup(u, q);
      if Visible(t, p, p + r) {
        VisibleTransfers(t, p, u, q, r);
        assert r in SubtreeAt(t, p);
      }
      if Visible(u, q, q + r) {
        VisibleTransfers(u, q, t, p, r);
      }
    }
  }

  lemma VisibleTransfers(t: Tree, p: Path, u: Tree, q: Path, r: Path)
    requires SubtreeAt(t, p) == SubtreeAt(u, q)
    requires Visible(t, p, p + r)
    ensures Visible(u, q, q + r)
  {
    SubtreeAtLookup(t, p);
    SubtreeAtLookup(u, q);
    assert r in SubtreeAt(t, p);
    forall k | |q| < k < |q + r| && (q + r)[..k] in u
      ensures !u[(q + r)[..k]].Subvol?
    {
      var m := k - |q|;
      assert (q + r)[..k] == q + r[..m];
      assert r[..m] in SubtreeAt(u, q);
      assert (p + r)[..|p| + m] == p + r[..m];
    }
  }

  /** What changes behind another subvolume is not seen from further up. */
  lemma BlindView(t: Tree, u: Tree, a: Path, b: Path, root: Path, m: nat)
    requires Elsewhere(t, u, a, b)
    requires |root| < m < |a| == |b| && a[..m] == b[..m] && a[..m] in t && t[a[..m]].Subvol?
    ensures View(u, root) == View(t, root)
  {
    assert Elsewhere(u, t, a, b) by {
      forall p: Path | !(a <= p) && !(b <= p)
        ensures SameEntry(u, t, p)
      {
        assert SameEntry(t, u, p);
      }
    }
    assert SameEntry(t, u, a[..m]);
    forall r: Path
      ensures r in View(u, root) <==> r in View(t, root)
      ensures r in View(t, root) ==> View(u, root)[r] == View(t, root)[r]
    {
      BlindViewAt(t, u, a, b, root, m, r);
      BlindViewAt(u, t, a, b, root, m, r);
    }
  }

  lemma BlindViewAt(t: Tree, u: Tree, a: Path, b: Path, root: Path, m: nat, r: Path)
    requires Elsewhere(t, u, a, b)
    requires |root| < m < |a| == |b| && a[..m] == b[..m] && a[..m] in t && t[a[..m]].Subvol?
    ensures r in View(t, root) ==> r in View(u, root) && View(u, root)[r] == View(t, root)[r]
  {
    ViewAt(t, root, r);
    ViewAt(u, root, r);
    if Visible(t, root, root + r) {
      NotBehind(t, a, root, m, root + r);
      NotBehind(t, b, root, m, root + r);
      StillVisible(t, u, a, b, root, root + r);
    }
  }

  lemma TakeOfPrefix(a: Path, p: Path, m: nat)
    ensures a <= p && m <= |a| ==> p[..m] == a[..m]
  {
  }

  lemma NotBehind(t: Tree, a: Path, root: Path, m: nat, p: Path)
    requires |root| < m < |a| && a[..m] in t && t[a[..m]].Subvol? && Visible(t, root, p)
    ensures !(a <= p)
  {
    TakeOfPrefix(a, p, m);
  }

  lemma StillVisible(t: Tree, u: Tree, a: Path, b: Path, root: Path, p: Path)
    requires Elsewhere(t, u, a, b) && !(a <= p) && !(b <= p) && Visible(t, root, p)
    ensures Visible(u, root, p) && SameEntry(t, u, p)
  {
    assert SameEntry(t, u, p);
    forall k | |root| < k < |p| && p[..k] in u
      ensures !u[p[..k]].Subvol?
    {
      assert p[..k] <= p;
      assert SameEntry(t, u, p[..k]);
    }
  }

  /** What a subvolume made from `view` looks like at and below its root. */
  function Image(view: map<Path, Node>, readOnly: bool): map<Path, Node> {
    view[[] := Subvol(readOnly)]
  }

  function Grafted(t: Tree, image: map<Path, Node>, dst: Path): Tree {
    var keys := set r | r in image :: dst + r;
    t + map p | p in keys && dst <= p && p[|dst|..] in image :: image[p[|dst|..]]
  }

  /** `btrfs subvolume snapshot src dst` puts the snapshot inside `dst` when `dst` already exists. */
  function SnapshotTarget(t: Tree, src: Path, dst: Path): Path {
    if dst in t && src != [] then dst + [src[|src| - 1]] else dst
  }

  predicate CanSnapshot(t: Tree, src: Path, dst: Path) {
    && src in t && t[src].Subvol?
    && CanAdd(t, SnapshotTarget(t, src, dst))
  }

  function Snapshot(t: Tree, src: Path, dst: Path, readOnly: bool, fault: bool): Outcome {
    if !fault && CanSnapshot(t, src, dst)
    then Outcome(true, Grafted(t, Image(View(t, src), readOnly), SnapshotTarget(t, src, dst)))
    else Outcome(false, t)
  }

  lemma GraftedAt(t: Tree, image: map<Path, Node>, dst: Path, r: Path)
    requires Closed(t) && dst !in t
    ensures dst + r in Grafted(t, image, dst) <==> r in image
    ensures r in image ==> Grafted(t, image, dst)[dst + r] == image[r]
  {
    NothingBelow(t, dst);
    assert dst <= dst + r && (dst + r)[|dst|..] == r;
  }

  lemma GraftedElsewhere(t: Tree, image: map<Path, Node>, dst: Path, p: Path)
    requires !(dst <= p)
    ensures SameEntry(t, Grafted(t, image, dst), p)
  {
  }

  lemma GraftedEffect(t: Tree, image: map<Path, Node>, dst: Path)
    requires Closed(t) && dst !in t
    ensures forall p: Path | !(dst <= p) :: SameEntry(t, Grafted(t, image, dst), p)
    ensures SubtreeAt(Grafted(t, image, dst), dst) == image
  {
    forall p: Path | !(dst <= p)
      ensures SameEntry(t, Grafted(t, image, dst), p)
    {
      GraftedElsewhere(t, image, dst, p);
    }
    GraftedSubtree(t, image, dst);
  }

  lemma GraftedSubtree(t: Tree, image: map<Path, Node>, dst: Path)
    requires Closed(t) && dst !in t
    ensures SubtreeAt(Grafted(t, image, dst), dst) == image
  {
    forall r: Path
      ensures r in SubtreeAt(Grafted(t, image, dst), dst) <==> r in image
      ensures r in image ==> SubtreeAt(Grafted(t, image, dst), dst)[r] == image[r]
    {
      SubtreeEntry(Grafted(t, image, dst), dst, r);
      GraftedAt(t, image, dst, r);
    }
  }

  /** A view is closed under taking parents, so a snapshot hangs together. */
  lemma ViewParents(t: Tree, root: Path, r: Path)
    requires Closed(t) && r in View(t, root)
    ensures r != []
    ensures Parent(r) == [] || (Parent(r) in View(t, root) && View(t, root)[Parent(r)] == Dir)
  {
    ViewAt(t, root, r);
    if Parent(r) != [] {
      ParentVisible(t, root, root + r);
      assert Parent(root + r) == root + Parent(r);
      ViewAt(t, root, Parent(r));
    }
  }

  lemma ParentVisible(t: Tree, root: Path, p: Path)
    requires Closed(t) && Visible(t, root, p) && |p| > |root| + 1
    ensures Visible(t, root, Parent(p)) && Stub(t[Parent(p)]) == Dir
  {
    var m := Parent(p);
    assert Hangs(t, p);
    assert root < m && m == p[..|m|];
    forall k | |root| < k < |m| && m[..k] in t
      ensures !t[m[..k]].Subvol?
    {
      assert m[..k] == p[..k];
    }
  }

  lemma SnapshotClosed(t: Tree, src: Path, dst: Path, readOnly: bool)
    requires Closed(t) && CanSnapshot(t, src, dst)
    ensures Closed(Snapshot(t, src, dst, readOnly, false).tree)
  {
    var image := Image(View(t, src), readOnly);
    var target := SnapshotTarget(t, src, dst);
    forall r | r in image && r != []
      ensures Parent(r) in image && !image[Parent(r)].File?
    {
      ViewParents(t, src, r);
    }
    GraftedClosed(t, image, target);
  }

  lemma GraftedClosed(t: Tree, image: map<Path, Node>, dst: Path)
    requires Closed(t) && CanAdd(t, dst) && [] in image && !image[[]].File?
    requires forall r | r in image && r != [] :: Parent(r) in image && !image[Parent(r)].File?
    ensures Closed(Grafted(t, image, dst))
  {
    forall p | p in Grafted(t, image, dst)
      ensures Hangs(Grafted(t, image, dst), p)
    {
      if p != [] {
        GraftedParent(t, image, dst, p);
      }
    }
    GraftedEffect(t, image, dst);
    assert !(dst <= []) && SameEntry(t, Grafted(t, image, dst), []);
  }

  lemma GraftedParent(t: Tree, image: map<Path, Node>, dst: Path, p: Path)
    requires Closed(t) && CanAdd(t, dst) && [] in image && !image[[]].File?
    requires forall r | r in image && r != [] :: Parent(r) in image && !image[Parent(r)].File?
    requires p in Grafted(t, image, dst) && p != []
    ensures Hangs(Grafted(t, image, dst), p)
  {
    if dst < p {
      var r := p[|dst|..];
      assert p == dst + r && Parent(p) == dst + Parent(r);
      GraftedAt(t, image, dst, r);
      GraftedAt(t, image, dst, Parent(r));
    } else {
      assert !(dst <= Parent(p));
      GraftedElsewhere(t, image, dst, Parent(p));
      if p != dst {
        GraftedElsewhere(t, image, dst, p);
        assert Hangs(t, p);
      }
    }
  }

  // ---- what a snapshot holds, entry by entry ----

  /** The entry at `root + r` belongs to the subvolume at `root`: no other subvolume lies in between. */
  ghost predicate Owns(t: Tree, root: Path, r: Path) {
    && r != [] && root + r in t
    && forall k | 0 < k < |r| && root + r[..k] in t :: !t[root + r[..k]].Subvol?
  }

  /** `dst + r` is there exactly if `src + r` belonged to the source; a file has the same data, a directory is a
      directory, and a nested subvolume has become one. */
  ghost predicate CopiedAt(t: Tree, src: Path, u: Tree, dst: Path, r: Path) {
    && (dst + r in u <==> Owns(t, src, r))
    && (dst + r in u && Owns(t, src, r) ==> u[dst + r] == if t[src + r].Subvol? then Dir else t[src + r])
  }

  /** Below `dst`, `u` holds what the subvolume at `src` held in `t`, and nothing else. */
  ghost predicate IsCopy(t: Tree, src: Path, u: Tree, dst: Path) {
    forall r: Path | r != [] :: CopiedAt(t, src, u, dst, r)
  }

  lemma OwnsIsVisible(t: Tree, root: Path, r: Path)
    ensures Owns(t, root, r) <==> Visible(t, root, root + r)
  {
    var p := root + r;
    if Owns(t, root, r) {
      forall k | |root| < k < |p| && p[..k] in t
        ensures !t[p[..k]].Subvol?
      {
        assert p[..k] == root + r[..k - |root|];
      }
    }
    if Visible(t, root, p) {
      forall k | 0 < k < |r| && root + r[..k] in t
        ensures !t[root + r[..k]].Subvol?
      {
        assert p[..k + |root|] == root + r[..k];
      }
    }
  }

  lemma ImageIsCopy(t: Tree, src: Path, u: Tree, dst: Path, readOnly: bool)
    requires SubtreeAt(u, dst) == Image(View(t, src), readOnly)
    ensures IsCopy(t, src, u, dst)
    ensures dst in u && u[dst] == Subvol(readOnly)
  {
    forall r: Path | r != []
      ensures CopiedAt(t, src, u, dst, r)
    {
      SubtreeEntry(u, dst, r);
      ViewAt(t, src, r);
      OwnsIsVisible(t, src, r);
    }
    SubtreeEntry(u, dst, []);
    assert dst + [] == dst;
  }

  /** A snapshot is a copy of its source, and touches nothing else. */
  lemma SnapshotCopies(t: Tree, src: Path, dst: Path, readOnly: bool)
    requires Closed(t) && CanSnapshot(t, src, dst)
    ensures var u, at := Snapshot(t, src, dst, readOnly, false).tree, SnapshotTarget(t, src, dst);
      && IsCopy(t, src, u, at) && at in u && u[at] == Subvol(readOnly)
      && forall p: Path | !(at <= p) :: SameEntry(t, u, p)
  {
    var image, at := Image(View(t, src), readOnly), SnapshotTarget(t, src, dst);
    GraftedEffect(t, image, at);
    ImageIsCopy(t, src, Grafted(t, image, at), at, readOnly);
  }

  /** The nearest subvolume at or above `p` is the one at `p[..k]`, and it is read-only. */
  ghost predicate ReadOnlyOwner(t: Tree, p: Path, k: nat) {
    && k <= |p| && p[..k] in t && t[p[..k]] == Subvol(true)
    && forall l | k < l <= |p| && p[..l] in t :: !t[p[..l]].Subvol?
  }

  lemma {:induction false} ReadOnlyMeans(t: Tree, p: Path)
    ensures ReadOnlyAt(t, p) <==> exists k: nat :: ReadOnlyOwner(t, p, k)
    decreases |p|
  {
    assert p[..|p|] == p;
    if p in t && t[p].Subvol? {
      assert ReadOnlyAt(t, p) <==> ReadOnlyOwner(t, p, |p|);
    } else if p == [] {
    } else {
      ReadOnlyMeans(t, Parent(p));
      forall k: nat
        ensures ReadOnlyOwner(t, p, k) <==> ReadOnlyOwner(t, Parent(p), k)
      {
        assert forall l | 0 <= l < |p| :: Parent(p)[..l] == p[..l];
      }
    }
  }

  /** Nothing can be added to, moved in or out of, or deleted from a read-only subvolume. */
  lemma ReadOnlyStays(t: Tree, p: Path, q: Path, k: nat)
    requires p != [] && ReadOnlyOwner(t, Parent(p), k)
    ensures !CanAdd(t, p) && !CanDelete(t, p) && !CanRename(t, p, q) && !CanRename(t, q, p)
  {
    ReadOnlyMeans(t, Parent(p));
  }

  // ---- btrfs subvolume delete ----

  predicate HasNested(t: Tree, p: Path) {
    exists q :: q in t && p < q && t[q].Subvol?
  }

  /** `btrfs subvolume delete` refuses a plain directory and a subvolume that holds another one. */
  predicate CanDelete(t: Tree, p: Path) {
    && p != [] && p in t && t[p].Subvol?
    && !HasNested(t, p)
    && !ReadOnlyAt(t, Parent(p))
  }

  function Without(t: Tree, p: Path): Tree {
    map q | q in t && !(p <= q) :: t[q]
  }

  function Delete(t: Tree, p: Path, fault: bool): Outcome {
    if !fault && CanDelete(t, p) then Outcome(true, Without(t, p)) else Outcome(false, t)
  }

  lemma WithoutClosed(t: Tree, p: Path)
    requires Closed(t) && p != []
    ensures Closed(Without(t, p))
  {
    forall q | q in Without(t, p)
      ensures Hangs(Without(t, p), q)
    {
      assert Hangs(t, q);
      assert q != [] ==> !(p <= Parent(q));
    }
  }

  lemma WithoutEffect(t: Tree, p: Path)
    ensures SubtreeAt(Without(t, p), p) == map[]
    ensures forall q: Path | !(p <= q) :: SameEntry(t, Without(t, p), q)
  {
    SubtreeAtLookup(Without(t, p), p);
    forall r: Path
      ensures p + r !in Without(t, p)
    {
      assert p <= p + r;
    }
  }

  /** Whether a subtree holds a nested subvolume can be read off the subtree alone. */
  lemma NestedInSubtree(t: Tree, p: Path)
    ensures HasNested(t, p) <==> exists r: Path :: r != [] && r in SubtreeAt(t, p) && SubtreeAt(t, p)[r].Subvol?
  {
    SubtreeAtLookup(t, p);
    if HasNested(t, p) {
      var q :| q in t && p < q && t[q].Subvol?;
      var r := q[|p|..];
      assert q == p + r && r != [] && r in SubtreeAt(t, p);
    }
    if r: Path :| r != [] && r in SubtreeAt(t, p) && SubtreeAt(t, p)[r].Subvol? {
      assert p < p + r;
    }
  }

  /** A fresh snapshot holds no nested subvolume. */
  lemma ImageHasNoNested(t: Tree, p: Path, src: Path, s: Tree, readOnly: bool)
    requires SubtreeAt(t, p) == Image(View(s, src), readOnly)
    ensures !HasNested(t, p)
  {
    NestedInSubtree(t, p);
    forall r | r in View(s, src)
      ensures !View(s, src)[r].Subvol?
    {
      ViewAt(s, src, r);
    }
  }

  // ---- os.MkdirAll ----

  function MkdirAll(t: Tree, p: Path): Outcome
    decreases |p|
  {
    if p in t then Outcome(!t[p].File?, t)
    else if p == [] then Outcome(false, t)
    else
      var up := MkdirAll(t, Parent(p));
      if !up.ok || ReadOnlyAt(up.tree, Parent(p)) then Outcome(false, up.tree)
      else Outcome(true, up.tree[p := Dir])
  }

  /** `MkdirAll` only ever adds plain directories above and at `p`. */
  lemma {:induction false} MkdirAllEffect(t: Tree, p: Path)
    requires Closed(t)
    ensures var u := MkdirAll(t, p);
      && Closed(u.tree)
      && (u.ok ==> p in u.tree && !u.tree[p].File?)
      && (forall q | q in t :: q in u.tree && u.tree[q] == t[q])
      && (forall q | q in u.tree && q !in t :: q <= p && u.tree[q] == Dir)
    decreases |p|
  {
    if p in t || p == [] {
    } else {
      MkdirAllEffect(t, Parent(p));
      var up := MkdirAll(t, Parent(p));
      if up.ok && !ReadOnlyAt(up.tree, Parent(p)) {
        var u := up.tree[p := Dir];
        assert p !in up.tree;
        NothingBelow(up.tree, p);
        forall q | q in u
          ensures Hangs(u, q)
        {
          assert q != p ==> Hangs(up.tree, q);
        }
      }
    }
  }

  /** A plain file stands where a directory would have to be. */
  ghost predicate FileOnTheWay(t: Tree, p: Path) {
    exists k | 0 <= k <= |p| :: p[..k] in t && t[p[..k]].File?
  }

  lemma FileOnTheWayToEntry(t: Tree, dir: Path)
    requires Closed(t) && dir in t
    ensures FileOnTheWay(t, dir) <==> t[dir].File?
  {
    assert dir[..|dir|] == dir;
    if FileOnTheWay(t, dir) {
      var k :| 0 <= k <= |dir| && dir[..k] in t && t[dir[..k]].File?;
      AncestorIn(t, dir[..k], dir);
    }
  }

  lemma {:induction false} ReadOnlyDespiteDir(t: Tree, p: Path, q: Path)
    requires p !in t
    ensures ReadOnlyAt(t[p := Dir], q) == ReadOnlyAt(t, q)
    decreases |q|
  {
    if q == [] {
    } else {
      ReadOnlyDespiteDir(t, p, Parent(q));
    }
  }

  lemma FileAboveAbsent(t: Tree, p: Path)
    requires p !in t && p != []
    ensures FileOnTheWay(t, p) <==> FileOnTheWay(t, Parent(p))
  {
    var up := Parent(p);
    forall k | 0 <= k <= |up|
      ensures up[..k] == p[..k]
    {
    }
    assert p[..|p|] == p;
    if FileOnTheWay(t, p) {
      var k :| 0 <= k <= |p| && p[..k] in t && t[p[..k]].File?;
      assert up[..k] in t && t[up[..k]].File?;
    }
    if FileOnTheWay(t, up) {
      var k :| 0 <= k <= |up| && up[..k] in t && t[up[..k]].File?;
      assert p[..k] in t && t[p[..k]].File?;
    }
  }

  /** `MkdirAll` works exactly if no file is in the way and what is missing would lie in a writable subvolume. */
  lemma {:induction false} MkdirAllWorks(t: Tree, p: Path)
    requires Closed(t)
    ensures MkdirAll(t, p).ok <==> !FileOnTheWay(t, p) && (p in t || !ReadOnlyAt(t, p))
    ensures forall q: Path :: ReadOnlyAt(MkdirAll(t, p).tree, q) == ReadOnlyAt(t, q)
    decreases |p|
  {
    if p in t {
      FileOnTheWayToEntry(t, p);
    } else {
      var up := MkdirAll(t, Parent(p));
      MkdirAllWorks(t, Parent(p));
      FileAboveAbsent(t, p);
      MkdirAllEffect(t, Parent(p));
      assert ReadOnlyAt(up.tree, Parent(p)) == ReadOnlyAt(t, Parent(p)) == ReadOnlyAt(t, p);
      if up.ok && !ReadOnlyAt(up.tree, Parent(p)) {
        assert !(p <= Parent(p)) && p !in up.tree;
        forall q: Path
          ensures ReadOnlyAt(up.tree[p := Dir], q) == ReadOnlyAt(t, q)
        {
          ReadOnlyDespiteDir(up.tree, p, q);
        }
      }
    }
  }
}
