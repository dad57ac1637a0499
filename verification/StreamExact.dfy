/** When the tracker keeps the books of a send stream exactly. */
module StreamExact {
  import opened Names
  import opened Status
  import opened Trees
  import opened TreeNodes
  import opened SendStream
  import opened StreamTracker

  /** What must hold of the tracker before an event for its books to be right afterwards. */
  predicate Exact(t: TreeNode, e: Event) {
    match e
    case Create(_, _) => true
    case Touch(_, _, _) => true
    case Remove(p) => !Tracked(t, p) || Has(StatusOf(t, p), CREATED)
    case Rename(from, to) =>
      || !Tracked(t, from)
      || (Has(StatusOf(t, from), CREATED) && (!Tracked(t, to) || Shallow(NodeAt(t, from))))
  }

  /** A rename, seen from the trees: nothing is left at from, and what was there is at to. */
  lemma MovedAt(now: Nodes, from: Path, to: Path, q: Path)
    requires Closed(now) && Legal(now, Rename(from, to))
    ensures q in Apply(now, Rename(from, to)) <==> Origin(from, to, q) in now && !(from <= q)
    ensures q in Apply(now, Rename(from, to)) ==> Apply(now, Rename(from, to))[q] == now[Origin(from, to, q)]
    ensures to <= q ==> q !in now && !(from <= q) && from <= Origin(from, to, q)
  {
    NothingBelow(now, to);
    LegalApart(now, from, to);
    if to <= q && from <= q { PrefixesComparable(from, to, q); }
    assert from <= from + (if to <= q then q[|to|..] else []);
  }

  /** Below a path created within the stream everything has been created within the stream. */
  lemma CreatedBelow(t: TreeNode, old_: Nodes, now: Nodes, p: Path, q: Path)
    requires Tracks(t, old_, now) && Closed(old_) && Closed(now) && p != [] && p <= q
    requires Has(StatusOf(t, p), CREATED)
    ensures q !in old_ && (Tracked(t, q) <==> q in now)
    ensures q in now ==> Has(StatusOf(t, q), CREATED) && !Has(StatusOf(t, q), DELETED) && StatusOf(t, q) & 0x84 == 0
  {
    assert TracksAt(StatusOf(t, p), old_, now, p);
    NothingBelow(old_, p);
    assert TracksAt(StatusOf(t, q), old_, now, q);
    if Tracked(t, q) { TrackedKnown(t, old_, now, q); }
    NoneAtZero();
  }

  lemma UntrackedRenameExact(t: TreeNode, dir1: Tree, now: Nodes, from: Path, to: Path, t': TreeNode)
    requires Tracks(t, View(dir1), now) && ValidTree(dir1) && Closed(now) && Legal(now, Rename(from, to))
    requires !Tracked(t, from) && Renamed(t, dir1, from, to, t')
    ensures Tracks(t', View(dir1), Apply(now, Rename(from, to)))
  {
    var old_ := View(dir1);
    UntrackedSame(t, old_, now, from, from);
    NoneAtZero();
    forall q | q != [] ensures TracksAt(StatusOf(t', q), old_, Apply(now, Rename(from, to)), q) {
      assert StatusOf(t', q) == MovedStatus(t, dir1, from, to, q);
      MovedAt(now, from, to, q);
      assert TracksAt(StatusOf(t, q), old_, now, q);
      if from <= q {
        UntrackedSame(t, old_, now, from, q);
      } else if to <= q {
        UntrackedSame(t, old_, now, from, Origin(from, to, q));
        assert q == to ==> Origin(from, to, q) == from;
        if Tracked(t, q) { TrackedKnown(t, old_, now, q); }
      }
    }
  }

  lemma CreatedRenameExact(t: TreeNode, dir1: Tree, now: Nodes, from: Path, to: Path, t': TreeNode)
    requires Tracks(t, View(dir1), now) && ValidTree(dir1) && Closed(now) && Legal(now, Rename(from, to))
    requires Has(StatusOf(t, from), CREATED) && Tracked(t, from) && !Tracked(t, to) && Renamed(t, dir1, from, to, t')
    ensures Tracks(t', View(dir1), Apply(now, Rename(from, to)))
  {
    var old_ := View(dir1);
    NoneAtZero();
    forall q | q != [] ensures TracksAt(StatusOf(t', q), old_, Apply(now, Rename(from, to)), q) {
      assert StatusOf(t', q) == Shifted(t, from, to, q);
      MovedAt(now, from, to, q);
      assert TracksAt(StatusOf(t, q), old_, now, q);
      if from <= q {
        CreatedBelow(t, old_, now, from, q);
      } else if to <= q {
        UntrackedSame(t, old_, now, to, q);
        CreatedBelow(t, old_, now, from, Origin(from, to, q));
      }
    }
  }

  /** In a shallow subtree only the path itself and its children can be tracked. */
  lemma ShallowTracks(t: TreeNode, p: Path, r: Path)
    requires Tracked(t, p)
    ensures |r| == 1 ==> (Tracked(t, p + r) <==> r[0] in NodeAt(t, p).childs)
    ensures |r| == 1 && Tracked(t, p + r) ==> StatusOf(t, p + r) == NodeAt(t, p).childs[r[0]].status
    ensures |r| > 1 && Shallow(NodeAt(t, p)) ==> !Tracked(t, p + r)
  {
    FindBelow(t, p, r);
    if |r| == 1 {
      assert r[1..] == [];
    } else if |r| > 1 && r[0] in NodeAt(t, p).childs {
      assert r[1..][0] == r[1];
    }
  }

  lemma JoinedRenameAt(t: TreeNode, dir1: Tree, now: Nodes, from: Path, to: Path, q: Path)
    requires Tracks(t, View(dir1), now) && ValidTree(dir1) && Closed(now) && Legal(now, Rename(from, to))
    requires Has(StatusOf(t, from), CREATED) && Tracked(t, from) && Tracked(t, to) && Shallow(NodeAt(t, from))
    requires q != []
    ensures TracksAt(JoinedStatus(t, from, to, q), View(dir1), Apply(now, Rename(from, to)), q)
  {
    var old_ := View(dir1);
    NoneAtZero();
    MovedAt(now, from, to, q);
    assert TracksAt(StatusOf(t, q), old_, now, q);
    if from <= q {
      CreatedBelow(t, old_, now, from, q);
    } else if to <= q {
      var r := q[|to|..];
      CreatedBelow(t, old_, now, from, from + r);
      ShallowTracks(t, from, r);
      assert q == to + r && (r == [] <==> q == to);
      assert |r| == 1 ==> r[0] == q[|to|];
      if Tracked(t, q) { TrackedKnown(t, old_, now, q); }
      assert from + [] == from;
    }
  }

  lemma JoinedRenameExact(t: TreeNode, dir1: Tree, now: Nodes, from: Path, to: Path, t': TreeNode)
    requires Tracks(t, View(dir1), now) && ValidTree(dir1) && Closed(now) && Legal(now, Rename(from, to))
    requires Has(StatusOf(t, from), CREATED) && Tracked(t, from) && Tracked(t, to) && Shallow(NodeAt(t, from))
    requires Renamed(t, dir1, from, to, t')
    ensures Tracks(t', View(dir1), Apply(now, Rename(from, to)))
  {
    forall n | n in NodeAt(t, from).childs ensures NodeAt(t, from).childs[n].status != 0 {
      ShallowTracks(t, from, [n]);
      CreatedBelow(t, View(dir1), now, from, from + [n]);
      NoneAtZero();
    }
    forall q | q != [] ensures TracksAt(StatusOf(t', q), View(dir1), Apply(now, Rename(from, to)), q) {
      assert StatusOf(t', q) == JoinedStatus(t, from, to, q);
      JoinedRenameAt(t, dir1, now, from, to, q);
    }
  }

  /** A node that existed before and is renamed loses its deletion. */
  lemma OldRenameInexact(t: TreeNode, dir1: Tree, now: Nodes, from: Path, to: Path, t': TreeNode)
    requires Tracks(t, View(dir1), now) && ValidTree(dir1) && Closed(now) && Legal(now, Rename(from, to))
    requires Tracked(t, from) && !Has(StatusOf(t, from), CREATED) && Renamed(t, dir1, from, to, t')
    ensures !Tracks(t', View(dir1), Apply(now, Rename(from, to)))
  {
    NoneAtZero();
    assert TracksAt(StatusOf(t, from), View(dir1), now, from);
    LegalApart(now, from, to);
    MovedAt(now, from, to, from);
    assert StatusOf(t', from) == 0;
    assert !TracksAt(StatusOf(t', from), View(dir1), Apply(now, Rename(from, to)), from);
  }

  lemma Grandchild(t: TreeNode, n: Name, m: Name)
    requires n in t.childs && m in t.childs[n].childs
    ensures Tracked(t, [n, m])
  {
    assert [n, m][1..] == [m] && [m][1..] == [];
    assert Tracked(t.childs[n], [m]);
  }

  /** A deeper subtree is merged into the wrong places: its grandchildren are not recorded where they have gone. */
  lemma DeepMergeInexact(t: TreeNode, dir1: Tree, now: Nodes, from: Path, to: Path, t': TreeNode)
    requires Tracks(t, View(dir1), now) && ValidTree(dir1) && Closed(now) && Legal(now, Rename(from, to))
    requires Tracked(t, from) && Has(StatusOf(t, from), CREATED) && Tracked(t, to) && !Shallow(NodeAt(t, from))
    requires Renamed(t, dir1, from, to, t')
    ensures !Tracks(t', View(dir1), Apply(now, Rename(from, to)))
  {
    var old_ := View(dir1);
    NoneAtZero();
    var n: Name :| n in NodeAt(t, from).childs && NodeAt(t, from).childs[n].childs != map[];
    var m: Name :| m in NodeAt(t, from).childs[n].childs;
    var r := [n, m];
    FindBelow(t, from, r);
    Grandchild(NodeAt(t, from), n, m);
    CreatedBelow(t, old_, now, from, from + r);
    var q := to + r;
    MovedAt(now, from, to, q);
    assert q[|to|..] == r;
    assert TracksAt(StatusOf(t, q), old_, now, q);
    assert StatusOf(t', q) == ClearedStatus(t, from, q) == StatusOf(t, q);
    assert !TracksAt(StatusOf(t', q), old_, Apply(now, Rename(from, to)), q);
  }

  /** One event keeps the books right if and only if Exact held before it. */
  lemma StepExactIff(t: TreeNode, dir1: Tree, now: Nodes, e: Event, t': TreeNode)
    requires Tracks(t, View(dir1), now) && ValidTree(dir1) && Closed(now) && Legal(now, e) && Stepped(t, dir1, e, t')
    ensures Tracks(t', View(dir1), Apply(now, e)) <==> Exact(t, e)
  {
    match e
    case Create(p, node) => CreateExact(t, View(dir1), now, p, node);
    case Touch(p, flags, node) => TouchExact(t, View(dir1), now, p, flags, node);
    case Remove(p) => RemoveExactIff(t, View(dir1), now, p);
    case Rename(from, to) =>
      if !Tracked(t, from) {
        UntrackedRenameExact(t, dir1, now, from, to, t');
      } else if !Has(StatusOf(t, from), CREATED) {
        OldRenameInexact(t, dir1, now, from, to, t');
      } else if !Tracked(t, to) {
        CreatedRenameExact(t, dir1, now, from, to, t');
      } else if Shallow(NodeAt(t, from)) {
        JoinedRenameExact(t, dir1, now, from, to, t');
      } else {
        DeepMergeInexact(t, dir1, now, from, to, t');
      }
  }

  /** Deleting a directory after its only file: the file's deletion is recorded, the directory's is not. */
  lemma NestedRemoveCounterexample()
    ensures var dir, file := Dir(0, 0, 0), Reg(0, 0, 0, "");
      var t0: Nodes := map[[] := dir, ["d"] := dir, ["d", "f"] := file];
      && Closed(t0) && Legal(t0, Remove(["d", "f"])) && Legal(t0 - {["d", "f"]}, Remove(["d"]))
      && StatusOf(DeletedIn(DeletedIn(EMPTY, ["d", "f"]), ["d"]), ["d"]) == 0
      && StatusOf(DeletedIn(DeletedIn(EMPTY, ["d", "f"]), ["d"]), ["d", "f"]) == DELETED
  {
    var d: Path, f: Path := ["d"], ["d", "f"];
    assert Parent(d) == [] && Parent(f) == d && d <= f && f != d;
    EmptyTracksNothing(f);
    EmptyTracksNothing(d);
    PutWrites(EMPTY, f, DELETED, d);
    PutWrites(EMPTY, f, DELETED, f);
    EraseRemoves(DeletedIn(EMPTY, f), d, d);
    EraseRemoves(DeletedIn(EMPTY, f), d, f);
  }
}
