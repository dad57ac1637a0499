/** The tree of path components in which the Btrfs comparison collects changes (tree_node of snapper/Btrfs.cc). */
module TreeNodes {
  import opened Names
  import opened Status

  datatype TreeNode = TreeNode(status: Status, childs: map<Name, TreeNode>)

  const EMPTY := TreeNode(0, map[])

  datatype Found = NotFound | At(node: TreeNode)

  /** The node for a path below t; [] is t itself. */
  function Find(t: TreeNode, p: Path): Found {
    if p == [] then At(t)
    else if p[0] in t.childs then Find(t.childs[p[0]], p[1..])
    else NotFound
  }

  predicate Tracked(t: TreeNode, p: Path) {
    Find(t, p).At?
  }

  function NodeAt(t: TreeNode, p: Path): TreeNode {
    match Find(t, p)
    case At(node) => node
    case NotFound => EMPTY
  }

  /** What the tree stands for: the status of every path, 0 for one that is not tracked. */
  function StatusOf(t: TreeNode, p: Path): Status {
    NodeAt(t, p).status
  }

  function Child(t: TreeNode, n: Name): TreeNode {
    if n in t.childs then t.childs[n] else EMPTY
  }

  /** Make the nodes for a path and all its prefixes. */
  function Insert(t: TreeNode, p: Path): TreeNode
    decreases |p|
  {
    if p == [] then t else t.(childs := t.childs[p[0] := Insert(Child(t, p[0]), p[1..])])
  }

  /** A write through the pointer to a node. */
  function Replace(t: TreeNode, p: Path, node: TreeNode): TreeNode
    requires Tracked(t, p)
  {
    if p == [] then node else t.(childs := t.childs[p[0] := Replace(t.childs[p[0]], p[1..], node)])
  }

  /** Drop a leaf and what it leaves empty above; an inner node only loses its status. */
  function Erase(t: TreeNode, p: Path): TreeNode
    requires p != []
  {
    if p[0] !in t.childs then t
    else
      var child := t.childs[p[0]];
      if |p| == 1 then
        if child.childs == map[] then t.(childs := t.childs - {p[0]})
        else t.(childs := t.childs[p[0] := child.(status := 0)])
      else
        var child' := Erase(child, p[1..]);
        if child'.status == 0 && child'.childs == map[] then t.(childs := t.childs - {p[0]})
        else t.(childs := t.childs[p[0] := child'])
  }

  /** Move a subtree to an untracked path. */
  function Rename(t: TreeNode, o: Path, n: Path): TreeNode
    requires o != [] && n != [] && !(o <= n)
  {
    if !Tracked(t, o) || Tracked(t, n) then t
    else
      var t1 := Insert(t, n);
      InsertTracks(t, n, o);
      InsertTracks(t, n, n);
      var oo, nn := NodeAt(t1, o), NodeAt(t1, n);
      var t2 := Replace(t1, n, TreeNode(oo.status, oo.childs));
      assert !(n <= o) by { if n <= o { TrackedPrefix(t, n, o); } }
      ReplaceElsewhere(t1, n, TreeNode(oo.status, oo.childs), o);
      Erase(Replace(t2, o, TreeNode(oo.status, nn.childs)), o)
  }

  /** Every inserted node is either marked itself or leads to one that is. */
  ghost predicate Live(t: TreeNode) {
    forall n :: n in t.childs ==> Marked(t.childs[n]) && Live(t.childs[n])
  }

  predicate Marked(t: TreeNode) {
    t.status != 0 || t.childs != map[]
  }

  lemma {:induction false} TrackedPrefix(t: TreeNode, p: Path, q: Path)
    requires Tracked(t, q) && p <= q
    ensures Tracked(t, p)
  {
    if p != [] {
      assert p[0] == q[0] && p[1..] <= q[1..];
      TrackedPrefix(t.childs[p[0]], p[1..], q[1..]);
    }
  }

  lemma {:induction false} FindBelow(t: TreeNode, p: Path, q: Path)
    requires Tracked(t, p)
    ensures Find(t, p + q) == Find(NodeAt(t, p), q)
  {
    if p == [] {
      assert p + q == q;
    } else {
      assert (p + q)[0] == p[0] && (p + q)[1..] == p[1..] + q;
      FindBelow(t.childs[p[0]], p[1..], q);
    }
  }

  /** insert keeps every status and tracks exactly the path and its prefixes in addition. */
  lemma {:induction false} InsertTracks(t: TreeNode, p: Path, q: Path)
    ensures StatusOf(Insert(t, p), q) == StatusOf(t, q)
    ensures Tracked(Insert(t, p), q) <==> Tracked(t, q) || q <= p
    ensures Tracked(t, p) ==> Insert(t, p) == t
    ensures !Tracked(t, p) ==> NodeAt(Insert(t, p), p) == EMPTY
    decreases |p|
  {
    if p != [] {
      if q != [] && q[0] == p[0] {
        InsertTracks(Child(t, p[0]), p[1..], q[1..]);
        assert q <= p <==> q[1..] <= p[1..];
        if p[0] !in t.childs { EmptyTracksNothing(q[1..]); }
      } else {
        InsertTracks(Child(t, p[0]), p[1..], []);
      }
    }
  }

  lemma EmptyTracksNothing(q: Path)
    ensures Tracked(EMPTY, q) <==> q == []
    ensures StatusOf(EMPTY, q) == 0
  {
  }

  lemma {:induction false} ReplaceElsewhere(t: TreeNode, p: Path, node: TreeNode, q: Path)
    requires Tracked(t, p) && !(p <= q)
    ensures Tracked(Replace(t, p, node), q) == Tracked(t, q)
    ensures StatusOf(Replace(t, p, node), q) == StatusOf(t, q)
    ensures !(q <= p) ==> Find(Replace(t, p, node), q) == Find(t, q)
  {
    if q != [] && q[0] == p[0] {
      assert p <= q <==> p[1..] <= q[1..];
      assert q <= p <==> q[1..] <= p[1..];
      ReplaceElsewhere(t.childs[p[0]], p[1..], node, q[1..]);
    }
  }

  lemma {:induction false} ReplaceBelow(t: TreeNode, p: Path, node: TreeNode, q: Path)
    requires Tracked(t, p)
    ensures Find(Replace(t, p, node), p + q) == Find(node, q)
  {
    if p == [] {
      assert p + q == q;
    } else {
      assert (p + q)[0] == p[0] && (p + q)[1..] == p[1..] + q;
      ReplaceBelow(t.childs[p[0]], p[1..], node, q);
    }
  }

  lemma EraseChild(t: TreeNode, n: Name, q: Path)
    requires n in t.childs
    ensures StatusOf(Erase(t, [n]), q) == if q == [n] then 0 else StatusOf(t, q)
  {
    var child := t.childs[n];
    if q != [] && q[0] == n {
      assert q == [n] + q[1..];
      if child.childs == map[] {
        assert Find(Erase(t, [n]), q).NotFound?;
        assert q[1..] != [] ==> Find(child, q[1..]).NotFound?;
      } else if q[1..] != [] {
        assert Find(child.(status := 0), q[1..]) == Find(child, q[1..]);
      } else {
        assert Find(Erase(t, [n]), q) == At(child.(status := 0));
      }
    }
  }

  lemma EraseInner(t: TreeNode, p: Path, q: Path)
    requires |p| > 1 && p[0] in t.childs && q != [] && q[0] == p[0]
    requires StatusOf(Erase(t.childs[p[0]], p[1..]), q[1..]) ==
      if q[1..] == p[1..] then 0 else StatusOf(t.childs[p[0]], q[1..])
    ensures StatusOf(Erase(t, p), q) == if q == p then 0 else StatusOf(t, q)
  {
  }

  /** erase removes exactly the status of the named path. */
  lemma {:induction false} EraseRemoves(t: TreeNode, p: Path, q: Path)
    requires p != []
    ensures StatusOf(Erase(t, p), q) == if q == p then 0 else StatusOf(t, q)
  {
    if p[0] in t.childs {
      if |p| == 1 {
        assert p == [p[0]];
        EraseChild(t, p[0], q);
      } else if q != [] && q[0] == p[0] {
        EraseRemoves(t.childs[p[0]], p[1..], q[1..]);
        EraseInner(t, p, q);
      }
    }
  }

  lemma {:induction false} EraseKeepsLive(t: TreeNode, p: Path)
    requires p != [] && Live(t)
    ensures Live(Erase(t, p))
  {
    var t' := Erase(t, p);
    if p[0] in t.childs && |p| > 1 {
      EraseKeepsLive(t.childs[p[0]], p[1..]);
    }
    forall n | n in t'.childs ensures Marked(t'.childs[n]) && Live(t'.childs[n]) {
      if n == p[0] && |p| == 1 {
        StatusIsOwn(t.childs[n]);
      }
    }
  }

  lemma StatusIsOwn(t: TreeNode)
    requires Live(t)
    ensures Live(t.(status := 0))
  {
  }

  lemma {:induction false} EraseElsewhere(t: TreeNode, p: Path, q: Path)
    requires p != [] && !(q <= p) && !(p <= q)
    ensures Find(Erase(t, p), q) == Find(t, q)
  {
    if p[0] in t.childs && q[0] == p[0] {
      assert q <= p <==> q[1..] <= p[1..];
      assert p <= q <==> p[1..] <= q[1..];
      EraseElsewhere(t.childs[p[0]], p[1..], q[1..]);
    }
  }

  /** What the tree says after rename: the whole subtree has moved, and no other status has changed. */
  function Shifted(t: TreeNode, o: Path, n: Path, q: Path): Status {
    if n <= q then StatusOf(t, o + q[|n|..]) else if o <= q then 0 else StatusOf(t, q)
  }

  lemma RenameMoves(t: TreeNode, o: Path, n: Path, q: Path)
    requires o != [] && n != [] && !(o <= n) && Tracked(t, o) && !Tracked(t, n)
    ensures StatusOf(Rename(t, o, n), q) == Shifted(t, o, n, q)
  {
    if n <= o { TrackedPrefix(t, n, o); }
    var t1 := Insert(t, n);
    InsertTracks(t, n, o);
    InsertTracks(t, n, n);
    InsertTracks(t, n, q);
    var oo := NodeAt(t1, o);
    var moved := TreeNode(oo.status, oo.childs);
    var t2 := Replace(t1, n, moved);
    ReplaceElsewhere(t1, n, moved, o);
    var emptied := TreeNode(oo.status, map[]);
    var t3 := Replace(t2, o, emptied);
    EraseRemoves(t3, o, q);
    if n <= q {
      var r := q[|n|..];
      assert q == n + r && !(o <= q);
      ReplaceElsewhere(t2, o, emptied, q);
      ReplaceBelow(t1, n, moved, r);
      FindBelow(t1, o, r);
      InsertTracks(t, n, o + r);
    } else if o <= q {
      var r := q[|o|..];
      assert q == o + r;
      ReplaceBelow(t2, o, emptied, r);
      assert r != [] ==> !Tracked(emptied, r);
    } else {
      ReplaceElsewhere(t2, o, emptied, q);
      ReplaceElsewhere(t1, n, moved, q);
    }
  }

  /** Insert a path and write its status. */
  function Put(t: TreeNode, p: Path, s: Status): TreeNode {
    InsertTracks(t, p, p);
    Replace(Insert(t, p), p, NodeAt(Insert(t, p), p).(status := s))
  }

  lemma PutWrites(t: TreeNode, p: Path, s: Status, q: Path)
    ensures StatusOf(Put(t, p, s), q) == if q == p then s else StatusOf(t, q)
    ensures Tracked(Put(t, p, s), q) <==> Tracked(t, q) || q <= p
  {
    InsertTracks(t, p, p);
    InsertTracks(t, p, q);
    var t1 := Insert(t, p);
    var node := NodeAt(t1, p).(status := s);
    if p <= q {
      var r := q[|p|..];
      assert q == p + r;
      ReplaceBelow(t1, p, node, r);
      FindBelow(t1, p, r);
      assert r == [] <==> q == p;
    } else {
      ReplaceElsewhere(t1, p, node, q);
    }
  }

  lemma {:induction false} GraftKeepsLive(t: TreeNode, p: Path, node: TreeNode)
    requires Live(t) && p != [] && Live(node) && Marked(node) && Tracked(Insert(t, p), p)
    ensures Live(Replace(Insert(t, p), p, node))
    decreases |p|
  {
    var child := Child(t, p[0]);
    if |p| > 1 {
      assert Live(child);
      assert Tracked(Insert(child, p[1..]), p[1..]);
      GraftKeepsLive(child, p[1..], node);
      assert Marked(Replace(Insert(child, p[1..]), p[1..], node));
    }
    var t' := Replace(Insert(t, p), p, node);
    if |p| == 1 {
      assert p[1..] == [];
      var child' := Insert(child, p[1..]);
      assert Insert(t, p).childs[p[0]] == child';
      assert Replace(child', p[1..], node) == node;
    }
    assert t'.childs.Keys == t.childs.Keys + {p[0]};
    forall n | n in t'.childs ensures Marked(t'.childs[n]) && Live(t'.childs[n]) {
      if n != p[0] { assert t'.childs[n] == t.childs[n]; }
    }
  }

  lemma {:induction false} LiveBelow(t: TreeNode, p: Path)
    requires Live(t) && Tracked(t, p)
    ensures Live(NodeAt(t, p)) && (p != [] ==> Marked(NodeAt(t, p)))
  {
    if p != [] {
      LiveBelow(t.childs[p[0]], p[1..]);
    }
  }

  lemma PutKeepsLive(t: TreeNode, p: Path, s: Status)
    requires Live(t) && p != [] && s != 0
    ensures Live(Put(t, p, s))
  {
    InsertTracks(t, p, p);
    if Tracked(t, p) { LiveBelow(t, p); }
    GraftKeepsLive(t, p, NodeAt(Insert(t, p), p).(status := s));
  }

  /** A subtree that loses its children and is erased leaves no dead node behind. */
  lemma {:induction false} CutKeepsLive(t: TreeNode, p: Path, s: Status)
    requires Live(t) && p != [] && Tracked(t, p)
    ensures Live(Erase(Replace(t, p, TreeNode(s, map[])), p))
  {
    var child := t.childs[p[0]];
    var t1 := Replace(t, p, TreeNode(s, map[]));
    var t' := Erase(t1, p);
    if |p| > 1 {
      CutKeepsLive(child, p[1..], s);
      assert t1.childs[p[0]] == Replace(child, p[1..], TreeNode(s, map[]));
    } else {
      assert t1.childs[p[0]] == TreeNode(s, map[]);
    }
    forall n | n in t'.childs ensures Marked(t'.childs[n]) && Live(t'.childs[n]) {
      if n != p[0] { assert t'.childs[n] == t.childs[n]; }
    }
  }

  lemma RenameKeepsLive(t: TreeNode, o: Path, n: Path)
    requires Live(t) && o != [] && n != [] && !(o <= n)
    ensures Live(Rename(t, o, n))
  {
    if Tracked(t, o) && !Tracked(t, n) {
      if n <= o { TrackedPrefix(t, n, o); }
      var t1 := Insert(t, n);
      InsertTracks(t, n, o);
      InsertTracks(t, n, n);
      InsertElsewhere(t, n, o);
      LiveBelow(t, o);
      var oo := NodeAt(t1, o);
      GraftKeepsLive(t, n, TreeNode(oo.status, oo.childs));
      ReplaceElsewhere(t1, n, TreeNode(oo.status, oo.childs), o);
      CutKeepsLive(Replace(t1, n, TreeNode(oo.status, oo.childs)), o, oo.status);
    }
  }

  lemma {:induction false} InsertElsewhere(t: TreeNode, p: Path, q: Path)
    requires !(q <= p)
    ensures Tracked(t, q) ==> Find(Insert(t, p), q) == Find(t, q)
    decreases |p|
  {
    if p != [] && q[0] == p[0] {
      assert q <= p <==> q[1..] <= p[1..];
      InsertElsewhere(Child(t, p[0]), p[1..], q[1..]);
    }
  }

  lemma {:induction false} MarkedReaches(t: TreeNode) returns (q: Path)
    requires Live(t) && Marked(t)
    ensures StatusOf(t, q) != 0
  {
    q := [];
    if t.status == 0 {
      var n :| n in t.childs;
      var r := MarkedReaches(t.childs[n]);
      q := [n] + r;
    }
  }

  /** No dead leaves: at or below every tracked path there is a nonzero status. */
  lemma LiveReaches(t: TreeNode, p: Path) returns (q: Path)
    requires Live(t) && p != [] && Tracked(t, p)
    ensures p <= q && StatusOf(t, q) != 0
  {
    LiveBelow(t, p);
    var r := MarkedReaches(NodeAt(t, p));
    FindBelow(t, p, r);
    q := p + r;
  }
}
