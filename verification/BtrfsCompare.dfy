/** The Btrfs comparison: it reads a send stream instead of two trees, and must report what the tree walk would
    (StreamProcessor::process and Btrfs::cmpDirs of snapper/Btrfs.cc). */
module BtrfsCompare {
  import opened Names
  import opened Status
  import opened Trees
  import opened Compare
  import CmpDirs
  import opened FileLists
  import opened TreeNodes
  import opened SendStream
  import opened StreamTracker
  import opened StreamExact

  ghost predicate LegalRun(now: Nodes, events: seq<Event>)
    requires Closed(now)
    decreases |events|
  {
    events == []
    || (Legal(now, events[0]) && (ApplyClosed(now, events[0]); LegalRun(Apply(now, events[0]), events[1..])))
  }

  /** The tree after the first i events of a stream. */
  ghost function TreeAt(now: Nodes, events: seq<Event>, i: nat): Nodes
    requires Closed(now) && LegalRun(now, events) && i <= |events|
    decreases i
  {
    if i == 0 then now else
      ApplyClosed(now, events[0]);
      TreeAt(Apply(now, events[0]), events[1..], i - 1)
  }

  lemma {:induction false} TreeAtStep(now: Nodes, events: seq<Event>, i: nat)
    requires Closed(now) && LegalRun(now, events) && i <= |events|
    ensures Closed(TreeAt(now, events, i))
    ensures i < |events| ==>
      Legal(TreeAt(now, events, i), events[i]) && TreeAt(now, events, i + 1) == Apply(TreeAt(now, events, i), events[i])
    decreases i
  {
    if i > 0 {
      ApplyClosed(now, events[0]);
      TreeAtStep(Apply(now, events[0]), events[1..], i - 1);
    } else if events != [] {
      ApplyClosed(now, events[0]);
      assert TreeAt(Apply(now, events[0]), events[1..], 0) == Apply(now, events[0]);
    }
  }

  /** A state of the tracker tells how the tree after i events differs from the old one. */
  ghost predicate RightAt(t: TreeNode, old_: Nodes, events: seq<Event>, i: nat)
    requires Closed(old_) && LegalRun(old_, events) && i <= |events|
  {
    Tracks(t, old_, TreeAt(old_, events, i))
  }

  /** So does every one of these states. */
  ghost predicate BooksRight(states: seq<TreeNode>, old_: Nodes, events: seq<Event>)
    requires Closed(old_) && LegalRun(old_, events) && |states| <= |events| + 1
  {
    var n := |states| - 1;
    n < 0 || (BooksRight(states[..n], old_, events) && RightAt(states[n], old_, events, n))
  }

  lemma BooksOneMore(states: seq<TreeNode>, t: TreeNode, old_: Nodes, events: seq<Event>)
    requires Closed(old_) && LegalRun(old_, events) && |states| <= |events|
    ensures BooksRight(states + [t], old_, events) <==>
      BooksRight(states, old_, events) && RightAt(t, old_, events, |states|)
  {
    assert (states + [t])[..|states|] == states;
  }

  /** Every event that was read met a tracker that could account for it. */
  ghost predicate AllExact(states: seq<TreeNode>, events: seq<Event>) {
    |states| <= |events| && forall i :: 0 <= i < |states| ==> Exact(states[i], events[i])
  }

  /** Reading the stream up to a failure; states are those of the tracker before each event. The books are right at
      every point, and the stream is read to its end, if and only if every event met a tracker that could account for
      it. */
  method Dump(processor: StreamProcessor, events: seq<Event>) returns (ok: bool, ghost states: seq<TreeNode>)
    requires processor.files == EMPTY && ValidTree(processor.dir1) && LegalRun(View(processor.dir1), events)
    modifies processor
    ensures |states| <= |events| && (ok ==> |states| == |events|)
    ensures AllExact(states, events) <==> ok && BooksRight(states + [processor.files], View(processor.dir1), events)
  {
    ghost var t0 := View(processor.dir1);
    states := [];
    NothingTracked(t0);
    BooksOneMore([], EMPTY, t0, events);
    for i := 0 to |events|
      invariant |states| == i
      invariant AllExact(states, events) <==> BooksRight(states + [processor.files], t0, events)
    {
      ghost var t, now := processor.files, TreeAt(t0, events, i);
      TreeAtStep(t0, events, i);
      ok := processor.Process(events[i], now);
      ExactOneMore(states, t, events);
      BooksOneMore(states, t, t0, events);
      if AllExact(states + [t], events) { FoundInOldTree(t, t0, now, events[i]); }
      states := states + [t];
      if !ok { return; }
      BooksOneMore(states, processor.files, t0, events);
      if Tracks(t, t0, now) { StepExactIff(t, processor.dir1, now, events[i], processor.files); }
    }
    ok := true;
  }

  /** While the books are right, an untracked path that is renamed is one of the old tree. */
  lemma FoundInOldTree(t: TreeNode, old_: Nodes, now: Nodes, e: Event)
    requires Tracks(t, old_, now) && Closed(old_) && Closed(now) && Legal(now, e)
    ensures e.Rename? && !Tracked(t, e.from) ==> HasDir(old_, e.from)
  {
    if e.Rename? && !Tracked(t, e.from) { UntrackedSame(t, old_, now, e.from, e.from); }
  }

  lemma NothingTracked(n: Nodes)
    ensures Tracks(EMPTY, n, n)
  {
  }

  lemma ExactOneMore(states: seq<TreeNode>, t: TreeNode, events: seq<Event>)
    requires |states| < |events|
    ensures AllExact(states + [t], events) <==> AllExact(states, events) && Exact(t, events[|states|])
  {
    var all := states + [t];
    assert all[|states|] == t && forall j :: 0 <= j < |states| ==> all[j] == states[j];
  }

  /** Looking a changed path up fails where one of the trees lacks its directory, or both lack the path. */
  predicate Checkable(t1: Tree, t2: Tree, p: Path, s: Status) {
    || Has(s, CREATED) || Has(s, DELETED) || !Has(s, CHANGED)
    || (HasDir(View(t1), p) && HasDir(View(t2), p) && (p in t1 || p in t2))
  }

  /** cmpFiles for a path by name. */
  function CmpFilesAt(t1: Tree, t2: Tree, p: Path): Status
    requires p in t1 || p in t2
  {
    if p !in t1 then CREATED else if p !in t2 then DELETED else CmpFiles(t1[p], t2[p])
  }

  /** tree_node::check for one path: creation and deletion stand alone, changes are replaced by what cmpFiles finds. */
  function Checked(t1: Tree, t2: Tree, p: Path, s: Status): Status
    requires Checkable(t1, t2, p, s)
  {
    if Has(s, CREATED) then CREATED
    else if Has(s, DELETED) then DELETED
    else if Has(s, CHANGED) then (s & !CHANGED) | CmpFilesAt(t1, t2, p)
    else s
  }

  /** The path p below prefix has been checked. */
  ghost predicate CheckedAt(t: TreeNode, t': TreeNode, prefix: Path, t1: Tree, t2: Tree, p: Path) {
    Checkable(t1, t2, prefix + p, StatusOf(t, p)) && StatusOf(t', p) == Checked(t1, t2, prefix + p, StatusOf(t, p))
  }

  ghost predicate CheckedBelow(t: TreeNode, t': TreeNode, prefix: Path, t1: Tree, t2: Tree, names: set<Name>) {
    forall p: Path :: p != [] && p[0] in names ==> CheckedAt(t, t', prefix, t1, t2, p)
  }

  /** tree_node::check for a whole tree; it fails at the first path that cannot be looked up. */
  method Check(t: TreeNode, prefix: Path, t1: Tree, t2: Tree) returns (ok: bool, t': TreeNode)
    ensures ok <==> forall p: Path :: p != [] ==> Checkable(t1, t2, prefix + p, StatusOf(t, p))
    ensures ok ==> forall p: Path :: p != [] ==> CheckedAt(t, t', prefix, t1, t2, p)
    ensures ok ==> t'.childs.Keys == t.childs.Keys && t'.status == t.status
    decreases t, 0
  {
    t' := t;
    var left := t.childs.Keys;
    while left != {}
      invariant left <= t.childs.Keys
      invariant t'.childs.Keys == t.childs.Keys && t'.status == t.status
      invariant CheckedBelow(t, t', prefix, t1, t2, t.childs.Keys - left)
      decreases |left|
    {
      var n: Name :| n in left;
      ghost var done := t.childs.Keys - left;
      var checked, child' := CheckChild(t.childs[n], prefix + [n], t1, t2);
      if !checked {
        Uncheckable(t, n, prefix, t1, t2);
        return false, t';
      }
      CheckedOneMore(t, t', n, child', prefix, t1, t2, done);
      t' := t'.(childs := t'.childs[n := child']);
      left := left - {n};
      assert t.childs.Keys - left == done + {n};
    }
    ok := true;
    assert t.childs.Keys - left == t.childs.Keys;
    AllChecked(t, t', prefix, t1, t2);
  }

  method CheckChild(t: TreeNode, prefix: Path, t1: Tree, t2: Tree) returns (ok: bool, t': TreeNode)
    ensures ok <==> forall p: Path :: Checkable(t1, t2, prefix + p, StatusOf(t, p))
    ensures ok ==> forall p: Path :: CheckedAt(t, t', prefix, t1, t2, p)
    decreases t, 1
  {
    assert prefix + [] == prefix && StatusOf(t, []) == t.status;
    if !Checkable(t1, t2, prefix, t.status) { return false, t; }
    ok, t' := Check(t, prefix, t1, t2);
    ghost var before := t';
    t' := t'.(status := Checked(t1, t2, prefix, t.status));
    if ok {
      forall p: Path ensures CheckedAt(t, t', prefix, t1, t2, p) {
        if p != [] {
          assert CheckedAt(t, before, prefix, t1, t2, p);
          assert Find(t', p) == Find(before, p);
        }
      }
    }
  }

  lemma AllChecked(t: TreeNode, t': TreeNode, prefix: Path, t1: Tree, t2: Tree)
    requires CheckedBelow(t, t', prefix, t1, t2, t.childs.Keys) && t'.childs.Keys == t.childs.Keys
    ensures forall p: Path :: p != [] ==> CheckedAt(t, t', prefix, t1, t2, p)
  {
  }

  lemma ChildStatus(t: TreeNode, p: Path)
    requires p != [] && p[0] in t.childs
    ensures StatusOf(t, p) == StatusOf(t.childs[p[0]], p[1..])
    ensures |p| == 1 ==> StatusOf(t, p) == t.childs[p[0]].status
  {
  }

  lemma Uncheckable(t: TreeNode, n: Name, prefix: Path, t1: Tree, t2: Tree)
    requires n in t.childs
    requires exists p: Path :: !Checkable(t1, t2, prefix + [n] + p, StatusOf(t.childs[n], p))
    ensures exists p: Path :: p != [] && !Checkable(t1, t2, prefix + p, StatusOf(t, p))
  {
    var p: Path :| !Checkable(t1, t2, prefix + [n] + p, StatusOf(t.childs[n], p));
    var q := [n] + p;
    assert q[1..] == p && prefix + q == prefix + [n] + p;
    ChildStatus(t, q);
    assert !Checkable(t1, t2, prefix + q, StatusOf(t, q));
  }

  lemma CheckedOneMore(t: TreeNode, before: TreeNode, n: Name, child': TreeNode, prefix: Path, t1: Tree, t2: Tree,
                       done: set<Name>)
    requires n in t.childs && n !in done && before.childs.Keys == t.childs.Keys
    requires CheckedBelow(t, before, prefix, t1, t2, done)
    requires forall p: Path :: CheckedAt(t.childs[n], child', prefix + [n], t1, t2, p)
    ensures CheckedBelow(t, before.(childs := before.childs[n := child']), prefix, t1, t2, done + {n})
  {
    var t' := before.(childs := before.childs[n := child']);
    forall p: Path | p != [] && p[0] in done + {n} ensures CheckedAt(t, t', prefix, t1, t2, p) {
      if p[0] == n {
        var r := p[1..];
        assert p == [n] + r && prefix + p == prefix + [n] + r;
        ChildStatus(t, p);
        ChildStatus(t', p);
        assert CheckedAt(t.childs[n], child', prefix + [n], t1, t2, r);
      } else {
        assert CheckedAt(t, before, prefix, t1, t2, p);
        assert Find(t', p) == Find(before, p);
      }
    }
  }

  /** The tracked paths. */
  function Paths(t: TreeNode): set<Path> {
    {[]} + set n: Name, p: Path | n in t.childs && p in Paths(t.childs[n]) :: [n] + p
  }

  lemma {:induction false} PathsAreTracked(t: TreeNode, q: Path)
    ensures q in Paths(t) <==> Tracked(t, q)
    decreases |q|
  {
    if q != [] {
      if q[0] in t.childs {
        PathsAreTracked(t.childs[q[0]], q[1..]);
        assert q == [q[0]] + q[1..];
      }
      if q in Paths(t) {
        var n: Name, p: Path :| n in t.childs && p in Paths(t.childs[n]) && q == [n] + p;
        assert q[0] == n && q[1..] == p;
      }
    }
  }

  function Report(t: TreeNode, prefix: Path, p: Path): File {
    File(Render(prefix + p), StatusOf(t, p), false)
  }

  /** What result has to report below some of the children. */
  function Reports(t: TreeNode, prefix: Path, names: set<Name>): set<File> {
    set p: Path | p in Paths(t) && p != [] && p[0] in names && StatusOf(t, p) != 0 :: Report(t, prefix, p)
  }

  /** tree_node::result: every path with a status, once. */
  method Result(t: TreeNode, prefix: Path, files: Files)
    modifies files
    ensures multiset(files.entries) == old(multiset(files.entries)) + multiset(Reports(t, prefix, t.childs.Keys))
    decreases t, 0
  {
    ghost var base := multiset(files.entries);
    ghost var sum: multiset<File> := multiset{};
    var left := t.childs.Keys;
    NothingReported(t, prefix, left);
    while left != {}
      invariant left <= t.childs.Keys
      invariant multiset(files.entries) == base + sum && Reported(t, prefix, left, sum)
      decreases |left|
    {
      var n: Name :| n in left;
      ghost var added := ResultChild(t.childs[n], prefix + [n], files);
      ReportedNext(t, prefix, left, n, sum, added);
      Regroup(base, sum, added);
      sum := sum + added;
      left := left - {n};
    }
    AllReported(t, prefix, sum);
  }

  method ResultChild(t: TreeNode, prefix: Path, files: Files) returns (ghost added: multiset<File>)
    modifies files
    ensures multiset(files.entries) == old(multiset(files.entries)) + added
    ensures added == multiset(Own(t, prefix)) + multiset(Reports(t, prefix, t.childs.Keys))
    decreases t, 1
  {
    added := multiset(Own(t, prefix)) + multiset(Reports(t, prefix, t.childs.Keys));
    ghost var base := multiset(files.entries);
    if t.status != 0 {
      files.PushBack(File(Render(prefix), t.status, false));
    }
    Result(t, prefix, files);
    Regroup(base, multiset(Own(t, prefix)), multiset(Reports(t, prefix, t.childs.Keys)));
  }

  lemma Regroup(a: multiset<File>, b: multiset<File>, c: multiset<File>)
    ensures a + b + c == a + (b + c)
  {
  }

  /** sum is what there is to report below the children that are not left. */
  ghost predicate Reported(t: TreeNode, prefix: Path, left: set<Name>, sum: multiset<File>) {
    sum == multiset(Reports(t, prefix, t.childs.Keys - left))
  }

  lemma NothingReported(t: TreeNode, prefix: Path, left: set<Name>)
    requires left == t.childs.Keys
    ensures Reported(t, prefix, left, multiset{})
  {
  }

  lemma ReportedNext(t: TreeNode, prefix: Path, left: set<Name>, n: Name, sum: multiset<File>, added: multiset<File>)
    requires n in left && left <= t.childs.Keys && Reported(t, prefix, left, sum)
    requires var child := t.childs[n];
      added == multiset(Own(child, prefix + [n])) + multiset(Reports(child, prefix + [n], child.childs.Keys))
    ensures Reported(t, prefix, left - {n}, sum + added)
  {
    ReportsOneMore(t, prefix, t.childs.Keys - left, n);
    assert t.childs.Keys - left + {n} == t.childs.Keys - (left - {n});
  }

  lemma AllReported(t: TreeNode, prefix: Path, sum: multiset<File>)
    requires Reported(t, prefix, {}, sum)
    ensures sum == multiset(Reports(t, prefix, t.childs.Keys))
  {
  }

  function Own(t: TreeNode, prefix: Path): set<File> {
    if t.status != 0 then {File(Render(prefix), t.status, false)} else {}
  }

  lemma ReportsOneMore(t: TreeNode, prefix: Path, done: set<Name>, n: Name)
    requires n in t.childs && n !in done
    ensures var child := t.childs[n];
      multiset(Reports(t, prefix, done + {n}))
        == multiset(Reports(t, prefix, done))
           + (multiset(Own(child, prefix + [n])) + multiset(Reports(child, prefix + [n], child.childs.Keys)))
  {
    var child := t.childs[n];
    var a, b, c := Reports(t, prefix, done), Own(child, prefix + [n]), Reports(child, prefix + [n], child.childs.Keys);
    forall f ensures f in Reports(t, prefix, {n}) <==> f in b + c {
      if f in Reports(t, prefix, {n}) { ReportOfChild(t, prefix, n, f); }
      OwnIsReport(t, prefix, n, f);
      ChildReportIsReport(t, prefix, n, f);
    }
    assert Reports(t, prefix, {n}) == b + c;
    assert Reports(t, prefix, done + {n}) == a + Reports(t, prefix, {n}) by {
      forall f ensures f in Reports(t, prefix, done + {n}) <==> f in a || f in Reports(t, prefix, {n}) {
      }
    }
    ReportsApart(t, prefix, done, n);
    OwnApart(child, prefix + [n]);
    DisjointUnion(b, c);
    DisjointUnion(a, b + c);
  }

  lemma DisjointUnion(a: set<File>, b: set<File>)
    requires a !! b
    ensures multiset(a + b) == multiset(a) + multiset(b)
  {
  }

  lemma ReportsApart(t: TreeNode, prefix: Path, done: set<Name>, n: Name)
    requires n !in done
    ensures Reports(t, prefix, done) !! Reports(t, prefix, {n})
  {
    forall f | f in Reports(t, prefix, done) && f in Reports(t, prefix, {n}) ensures false {
      var p: Path :| p in Paths(t) && p != [] && p[0] in done && f == Report(t, prefix, p);
      var q: Path :| q in Paths(t) && q != [] && q[0] in {n} && f == Report(t, prefix, q);
      assert Report(t, prefix, p).name == Render(prefix + p);
      assert Report(t, prefix, q).name == Render(prefix + q);
      assert (prefix + p)[|prefix|] == p[0] && (prefix + q)[|prefix|] == q[0];
      RenderInjective(prefix + p, prefix + q);
    }
  }

  lemma OwnApart(t: TreeNode, prefix: Path)
    ensures Own(t, prefix) !! Reports(t, prefix, t.childs.Keys)
  {
    forall f | f in Own(t, prefix) && f in Reports(t, prefix, t.childs.Keys) ensures false {
      var q: Path :| q in Paths(t) && q != [] && f == Report(t, prefix, q);
      assert Report(t, prefix, q).name == Render(prefix + q);
      assert |prefix + q| > |prefix|;
      RenderInjective(prefix, prefix + q);
    }
  }

  lemma ReportOfChild(t: TreeNode, prefix: Path, n: Name, f: File)
    requires n in t.childs && f in Reports(t, prefix, {n})
    ensures f in Own(t.childs[n], prefix + [n]) + Reports(t.childs[n], prefix + [n], t.childs[n].childs.Keys)
  {
    var child := t.childs[n];
    var p: Path :| p in Paths(t) && p != [] && p[0] in {n} && StatusOf(t, p) != 0 && f == Report(t, prefix, p);
    var r := p[1..];
    assert p == [n] + r && prefix + p == prefix + [n] + r;
    ChildStatus(t, p);
    PathsAreTracked(t, p);
    PathsAreTracked(child, r);
    if r != [] {
      assert r[0] in child.childs;
      assert f == Report(child, prefix + [n], r);
    } else {
      assert prefix + [n] + r == prefix + [n];
    }
  }

  lemma OwnIsReport(t: TreeNode, prefix: Path, n: Name, f: File)
    requires n in t.childs
    ensures f in Own(t.childs[n], prefix + [n]) ==> f in Reports(t, prefix, {n})
  {
    ChildStatus(t, [n]);
    PathsAreTracked(t, [n]);
    assert Report(t, prefix, [n]) == File(Render(prefix + [n]), t.childs[n].status, false);
  }

  lemma ChildReportIsReport(t: TreeNode, prefix: Path, n: Name, f: File)
    requires n in t.childs
    ensures f in Reports(t.childs[n], prefix + [n], t.childs[n].childs.Keys) ==> f in Reports(t, prefix, {n})
  {
    var child := t.childs[n];
    if f in Reports(child, prefix + [n], child.childs.Keys) {
      var r: Path :| r in Paths(child) && r != [] && StatusOf(child, r) != 0 && f == Report(child, prefix + [n], r);
      var p := [n] + r;
      assert prefix + p == prefix + [n] + r && p[1..] == r;
      ChildStatus(t, p);
      PathsAreTracked(t, p);
      PathsAreTracked(child, r);
      assert f == Report(t, prefix, p);
    }
  }

  /** Every file can be read and every link has a target. */
  ghost predicate Readable(t: Tree) {
    forall p: Path :: p in t ==> t[p].readable && (t[p].node.Lnk? ==> t[p].node.target != "")
  }

  /** What lies in /.snapshots is the same on both sides: the tree walk does not look there, the stream does. */
  ghost predicate SnapshotsSame(t1: Tree, t2: Tree) {
    forall p: Path :: !Outside(p) ==> (p in t1 <==> p in t2) && (p in t1 ==> t1[p].node == t2[p].node)
  }

  /** Right books lead to the status that the tree walk assigns. */
  lemma CheckedIsStatus(t1: Tree, t2: Tree, p: Path, s: Status)
    requires TracksAt(s, View(t1), View(t2), p) && p != [] && ValidTree(t1) && ValidTree(t2)
    ensures Checkable(t1, t2, p, s)
    ensures Readable(t1) && Readable(t2) && SnapshotsSame(t1, t2) ==> Checked(t1, t2, p, s) == StatusAt(t1, t2, p)
  {
  }

  lemma ReportIsFile(t: TreeNode, t1: Tree, t2: Tree, p: Path)
    requires StatusOf(t, p) == StatusAt(t1, t2, p) && p != []
    ensures Report(t, [], p) == CmpDirs.FileAt(t1, t2, p)
    ensures p in Diff(t1, t2) <==> StatusOf(t, p) != 0
    ensures StatusOf(t, p) != 0 ==> p in Paths(t) && p[0] in t.childs.Keys
  {
    assert [] + p == p;
    PathsAreTracked(t, p);
  }

  lemma ReportsAreDiff(t: TreeNode, t1: Tree, t2: Tree)
    requires forall p: Path :: p != [] ==> StatusOf(t, p) == StatusAt(t1, t2, p)
    ensures Reports(t, [], t.childs.Keys) == CmpDirs.DiffFiles(t1, t2)
  {
    forall f ensures f in Reports(t, [], t.childs.Keys) <==> f in CmpDirs.DiffFiles(t1, t2) {
      if f in Reports(t, [], t.childs.Keys) {
        var p: Path :| p in Paths(t) && p != [] && StatusOf(t, p) != 0 && f == Report(t, [], p);
        ReportIsFile(t, t1, t2, p);
      }
      if f in CmpDirs.DiffFiles(t1, t2) {
        var p: Path :| p in Diff(t1, t2) && f == CmpDirs.FileAt(t1, t2, p);
        ReportIsFile(t, t1, t2, p);
      }
    }
  }

  lemma CheckedIsDiff(t: TreeNode, checked: TreeNode, t1: Tree, t2: Tree)
    requires ValidTree(t1) && ValidTree(t2)
    requires Tracks(t, View(t1), View(t2)) && Readable(t1) && Readable(t2) && SnapshotsSame(t1, t2)
    requires forall p: Path :: p != [] ==> CheckedAt(t, checked, [], t1, t2, p)
    ensures Reports(checked, [], checked.childs.Keys) == CmpDirs.DiffFiles(t1, t2)
  {
    forall p: Path | p != [] ensures StatusOf(checked, p) == StatusAt(t1, t2, p) {
      assert [] + p == p;
      assert CheckedAt(t, checked, [], t1, t2, p);
      assert TracksAt(StatusOf(t, p), View(t1), View(t2), p);
      CheckedIsStatus(t1, t2, p, StatusOf(t, p));
    }
    ReportsAreDiff(checked, t1, t2);
  }

  /** The comparison of two read-only snapshots. When sending fails, or a path cannot be looked up, the trees
      are walked after all. Otherwise the report is that of the walk provided every event met a tracker that
      could account for it. */
  method BtrfsCmpDirs(t1: Tree, t2: Tree, events: seq<Event>, sent: bool, files: Files)
    returns (ghost states: seq<TreeNode>, fallback: bool)
    requires ValidTree(t1) && ValidTree(t2) && LegalRun(View(t1), events)
    requires sent ==> TreeAt(View(t1), events, |events|) == View(t2)
    modifies files
    ensures |states| <= |events| && (!sent ==> fallback)
    ensures sent && AllExact(states, events) ==> !fallback
    ensures fallback || (AllExact(states, events) && Readable(t1) && Readable(t2) && SnapshotsSame(t1, t2)) ==>
      multiset(files.entries) == old(multiset(files.entries)) + multiset(CmpDirs.DiffFiles(t1, t2))
  {
    var processor := new StreamProcessor(t1);
    var read;
    read, states := Dump(processor, events);
    if sent && read {
      var ok, checked := Check(processor.files, [], t1, t2);
      ghost var t := processor.files;
      if AllExact(states, events) {
        BooksOneMore(states, t, View(t1), events);
        ExactIsCheckable(t, t1, t2);
      }
      if ok {
        Result(checked, [], files);
        if AllExact(states, events) && Readable(t1) && Readable(t2) && SnapshotsSame(t1, t2) {
          CheckedIsDiff(t, checked, t1, t2);
        }
        return states, false;
      }
    }
    CmpDirs.CmpDirs(t1, t2, files);
    return states, true;
  }

  lemma ExactIsCheckable(t: TreeNode, t1: Tree, t2: Tree)
    requires ValidTree(t1) && ValidTree(t2) && Tracks(t, View(t1), View(t2))
    ensures forall p: Path :: p != [] ==> Checkable(t1, t2, [] + p, StatusOf(t, p))
  {
    forall p: Path | p != [] ensures Checkable(t1, t2, [] + p, StatusOf(t, p)) {
      assert [] + p == p;
      assert TracksAt(StatusOf(t, p), View(t1), View(t2), p);
      CheckedIsStatus(t1, t2, p, StatusOf(t, p));
    }
  }
}
