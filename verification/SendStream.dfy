/** What the events of a Btrfs send stream do to a tree, and to the tracker that watches it
    (StreamProcessor and the process functions of snapper/Btrfs.cc). */
module SendStream {
  import opened Names
  import opened Status
  import opened Trees
  import opened TreeNodes

  /** Create stands for mkfile, mkdir, symlink and link; Remove for unlink and rmdir;
      Touch for write, clone, truncate and update_extent, for chmod, and for chown. */
  datatype Event =
    | Create(path: Path, node: Node)
    | Remove(path: Path)
    | Rename(from: Path, to: Path)
    | Touch(path: Path, flags: Status, node: Node)

  const CHANGED: Status := CONTENT | PERMISSIONS | USER | GROUP

  /** No entry at or below a path. */
  ghost predicate Free(n: Nodes, p: Path) {
    forall q :: q in n ==> !(p <= q)
  }

  /** The directory that a path is an entry of exists. */
  predicate HasDir(n: Nodes, p: Path) {
    p != [] && Parent(p) in n && n[Parent(p)].Dir?
  }

  /** What the kernel guarantees of the next event on a tree. */
  ghost predicate Legal(n: Nodes, e: Event) {
    match e
    case Create(p, _) => p !in n && HasDir(n, p)
    case Remove(p) => p != [] && p in n && forall q :: q in n ==> !(p < q)
    case Rename(from, to) => from != [] && from in n && to !in n && HasDir(n, to) && !(from <= to)
    case Touch(p, flags, node) =>
      p != [] && p in n && node.SameKind(n[p]) && flags in {CONTENT, PERMISSIONS, USER | GROUP}
  }

  function Origin(from: Path, to: Path, q: Path): Path {
    if to <= q then from + q[|to|..] else q
  }

  function MovedKeys(n: Nodes, from: Path, to: Path): set<Path> {
    (set q | q in n && !(from <= q)) + (set q | q in n && from <= q :: to + q[|from|..])
  }

  lemma MovedKeysAre(n: Nodes, from: Path, to: Path, q: Path)
    requires Free(n, to) && from in n && !(from <= to)
    ensures q in MovedKeys(n, from, to) <==> Origin(from, to, q) in n && !(from <= q)
  {
    if to <= q {
      var r := q[|to|..];
      assert q == to + r && from <= from + r && (from + r)[|from|..] == r;
      assert !(from <= q) by {
        if from <= q { PrefixesComparable(from, to, q); }
      }
      if q in MovedKeys(n, from, to) {
        var p :| p in n && from <= p && q == to + p[|from|..];
        assert p[|from|..] == r && p == from + r;
      }
    }
  }

  lemma PrefixesComparable(p: Path, q: Path, r: Path)
    requires p <= r && q <= r
    ensures p <= q || q <= p
  {
  }

  ghost function Moved(n: Nodes, from: Path, to: Path): (n': Nodes)
    requires Free(n, to) && from in n && !(from <= to)
    ensures forall q :: q in n' <==> Origin(from, to, q) in n && !(from <= q)
    ensures forall q :: q in n' ==> n'[q] == n[Origin(from, to, q)]
  {
    assert forall q :: q in MovedKeys(n, from, to) <==> Origin(from, to, q) in n && !(from <= q) by {
      forall q ensures q in MovedKeys(n, from, to) <==> Origin(from, to, q) in n && !(from <= q) {
        MovedKeysAre(n, from, to, q);
      }
    }
    map q | q in MovedKeys(n, from, to) :: n[Origin(from, to, q)]
  }

  lemma NothingBelow(n: Nodes, p: Path)
    requires Closed(n) && p !in n
    ensures Free(n, p)
  {
    forall q | q in n && p <= q ensures false {
      if p != q { AncestorsAreDirs(n, p, q); }
    }
  }

  ghost function Apply(n: Nodes, e: Event): Nodes
    requires Closed(n) && Legal(n, e)
  {
    match e
    case Create(p, node) => n[p := node]
    case Remove(p) => n - {p}
    case Rename(from, to) => NothingBelow(n, to); Moved(n, from, to)
    case Touch(p, _, node) => n[p := node]
  }

  lemma MovedParent(n: Nodes, from: Path, to: Path, q: Path)
    requires Closed(n) && Legal(n, Rename(from, to)) && Free(n, to)
    requires q != [] && Origin(from, to, q) in n && !(from <= q)
    ensures Origin(from, to, Parent(q)) in n && !(from <= Parent(q)) && n[Origin(from, to, Parent(q))].Dir?
  {
    if q == to {
      PrefixOfParent(from, to);
      PrefixOfParent(to, to);
    } else if to <= q {
      var r := q[|to|..];
      assert q == to + r;
      ParentOfSum(to, r);
      ParentOfSum(from, r);
      if from <= Parent(q) { PrefixOfParent(from, q); }
    } else {
      PrefixOfParent(from, q);
      PrefixOfParent(to, q);
    }
  }

  lemma ParentOfSum(p: Path, r: Path)
    requires r != []
    ensures Parent(p + r) == p + Parent(r) && (p + Parent(r))[|p|..] == Parent(r)
  {
  }

  lemma PrefixOfParent(p: Path, q: Path)
    requires q != []
    ensures p <= Parent(q) ==> p <= q && p != q
  {
  }

  lemma MovedClosed(n: Nodes, from: Path, to: Path)
    requires Closed(n) && Legal(n, Rename(from, to)) && Free(n, to)
    ensures Closed(Moved(n, from, to))
  {
    var n' := Moved(n, from, to);
    assert Origin(from, to, []) == [];
    forall q | q in n' && q != [] ensures Parent(q) in n' && n'[Parent(q)].Dir? {
      MovedParent(n, from, to, q);
    }
  }

  lemma ApplyClosed(n: Nodes, e: Event)
    requires Closed(n) && Legal(n, e)
    ensures Closed(Apply(n, e))
  {
    if e.Rename? {
      NothingBelow(n, e.to);
      MovedClosed(n, e.from, e.to);
    }
  }

  /** A node that exists before and after is marked as changed in every respect. */
  function Reset(s: Status): (r: Status)
    ensures !Has(r, CREATED) && !Has(r, DELETED) && Has(r, CHANGED) && r != 0
    ensures s & 0x84 == 0 ==> r & 0x84 == 0
  {
    (s & !(CREATED | DELETED)) | CHANGED
  }

  function Mark(s: Status, flags: Status): (r: Status)
    requires flags in {CONTENT, PERMISSIONS, USER | GROUP}
    ensures Has(r, CREATED) == Has(s, CREATED) && Has(r, DELETED) == Has(s, DELETED) && Has(r, CHANGED) && r != 0
    ensures s & 0x84 == 0 ==> r & 0x84 == 0
  {
    s | flags
  }

  /** The status of a path tells how it has changed from old to now. */
  ghost predicate TracksAt(s: Status, old_: Nodes, now: Nodes, p: Path) {
    && (Has(s, CREATED) <==> p in now && p !in old_)
    && (Has(s, DELETED) <==> p in old_ && p !in now)
    && (s != 0 ==> p in old_ || p in now)
    && (p in old_ && p in now && old_[p] != now[p] ==> Has(s, CHANGED))
    && s & 0x84 == 0
  }

  ghost predicate Tracks(t: TreeNode, old_: Nodes, now: Nodes) {
    Live(t) && forall p :: p != [] ==> TracksAt(StatusOf(t, p), old_, now, p)
  }

  lemma NoneAtZero()
    ensures !Has(0, CREATED) && !Has(0, DELETED) && !Has(0, CHANGED)
    ensures Has(CREATED, CREATED) && !Has(CREATED, DELETED) && Has(DELETED, DELETED) && !Has(DELETED, CREATED)
  {
  }

  /** Nothing is tracked that exists neither before nor after. */
  lemma TrackedKnown(t: TreeNode, old_: Nodes, now: Nodes, p: Path)
    requires Tracks(t, old_, now) && Closed(old_) && Closed(now) && p != [] && Tracked(t, p)
    ensures p in old_ || p in now
  {
    var q := LiveReaches(t, p);
    assert TracksAt(StatusOf(t, q), old_, now, q);
    if p != q {
      if q in now { AncestorsAreDirs(now, p, q); } else { AncestorsAreDirs(old_, p, q); }
    }
  }

  /** Below an untracked path nothing has changed. */
  lemma UntrackedSame(t: TreeNode, old_: Nodes, now: Nodes, p: Path, q: Path)
    requires Tracks(t, old_, now) && p != [] && !Tracked(t, p) && p <= q
    ensures !Tracked(t, q) && StatusOf(t, q) == 0
    ensures (q in old_ <==> q in now) && (q in now ==> old_[q] == now[q])
  {
    if Tracked(t, q) { TrackedPrefix(t, p, q); }
    NoneAtZero();
    assert TracksAt(StatusOf(t, q), old_, now, q);
  }

  function CreatedIn(t: TreeNode, p: Path): TreeNode {
    if !Tracked(t, p) then Put(t, p, CREATED) else Put(t, p, Reset(StatusOf(t, p)))
  }

  function DeletedIn(t: TreeNode, p: Path): TreeNode
    requires p != []
  {
    if !Tracked(t, p) then Put(t, p, DELETED) else Erase(t, p)
  }

  function TouchedIn(t: TreeNode, p: Path, flags: Status): TreeNode
    requires flags in {CONTENT, PERMISSIONS, USER | GROUP}
  {
    Put(t, p, Mark(StatusOf(t, p), flags))
  }

  lemma CreateExact(t: TreeNode, old_: Nodes, now: Nodes, p: Path, node: Node)
    requires Tracks(t, old_, now) && Closed(old_) && Closed(now) && Legal(now, Create(p, node))
    ensures Tracks(CreatedIn(t, p), old_, now[p := node])
  {
    var s := if Tracked(t, p) then Reset(StatusOf(t, p)) else CREATED;
    PutKeepsLive(t, p, s);
    NoneAtZero();
    assert TracksAt(StatusOf(t, p), old_, now, p);
    if Tracked(t, p) { TrackedKnown(t, old_, now, p); }
    forall q | q != [] ensures TracksAt(StatusOf(CreatedIn(t, p), q), old_, now[p := node], q) {
      PutWrites(t, p, s, q);
      assert TracksAt(StatusOf(t, q), old_, now, q);
    }
  }

  lemma TouchExact(t: TreeNode, old_: Nodes, now: Nodes, p: Path, flags: Status, node: Node)
    requires Tracks(t, old_, now) && Legal(now, Touch(p, flags, node))
    ensures Tracks(TouchedIn(t, p, flags), old_, now[p := node])
  {
    var s := Mark(StatusOf(t, p), flags);
    PutKeepsLive(t, p, s);
    assert TracksAt(StatusOf(t, p), old_, now, p);
    forall q | q != [] ensures TracksAt(StatusOf(TouchedIn(t, p, flags), q), old_, now[p := node], q) {
      PutWrites(t, p, s, q);
      assert TracksAt(StatusOf(t, q), old_, now, q);
    }
  }

  /** Deleting keeps the books exactly when the node was untracked or created within the stream:
      any other tracked node loses its deletion. */
  lemma RemoveExactIff(t: TreeNode, old_: Nodes, now: Nodes, p: Path)
    requires Tracks(t, old_, now) && Closed(old_) && Closed(now) && Legal(now, Remove(p))
    ensures Tracks(DeletedIn(t, p), old_, now - {p}) <==> !Tracked(t, p) || Has(StatusOf(t, p), CREATED)
  {
    NoneAtZero();
    assert TracksAt(StatusOf(t, p), old_, now, p);
    var s: Status := if Tracked(t, p) then 0 else DELETED;
    forall q ensures StatusOf(DeletedIn(t, p), q) == if q == p then s else StatusOf(t, q) {
      if Tracked(t, p) { EraseRemoves(t, p, q); } else { PutWrites(t, p, DELETED, q); }
    }
    if !Tracked(t, p) || Has(StatusOf(t, p), CREATED) {
      if Tracked(t, p) { EraseKeepsLive(t, p); } else { PutKeepsLive(t, p, DELETED); }
      forall q | q != [] ensures TracksAt(StatusOf(DeletedIn(t, p), q), old_, now - {p}, q) {
        assert TracksAt(StatusOf(t, q), old_, now, q);
      }
    } else {
      assert !TracksAt(StatusOf(DeletedIn(t, p), p), old_, now - {p}, p);
    }
  }
}
