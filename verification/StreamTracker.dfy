/** The stream processor of the Btrfs comparison: renames, and whole streams (class StreamProcessor of
    snapper/Btrfs.cc). */
module StreamTracker {
  import opened Names
  import opened Status
  import opened Trees
  import opened TreeNodes
  import opened SendStream

  /** No entry of a list is at or above an earlier one. */
  ghost predicate TopDown(es: seq<Path>) {
    forall i, j :: 0 <= i < j < |es| ==> !(es[j] <= es[i])
  }

  /** The paths below a directory, relative to it. */
  ghost predicate IsBelow(es: seq<Path>, t: Tree, dir: Path) {
    forall e :: e in es <==> e != [] && dir + e in t
  }

  function Prefixed(n: Name, es: seq<Path>): (r: seq<Path>)
    ensures |r| == |es| && forall i :: 0 <= i < |es| ==> r[i] == [n] + es[i]
  {
    seq(|es|, i requires 0 <= i < |es| => [n] + es[i])
  }

  lemma SamePrefix(n: Name, a: Path, b: Path)
    ensures [n] + a <= [n] + b <==> a <= b
  {
    assert ([n] + a)[1..] == a && ([n] + b)[1..] == b;
  }

  lemma PrefixedTopDown(n: Name, es: seq<Path>)
    requires TopDown(es) && [] !in es
    ensures TopDown([[n]] + Prefixed(n, es))
  {
    var r := [[n]] + Prefixed(n, es);
    forall i, j | 0 <= i < j < |r| ensures !(r[j] <= r[i]) {
      assert r[j] == [n] + es[j - 1] && es[j - 1] in es && es[j - 1] != [];
      if i > 0 {
        assert r[i] == [n] + es[i - 1];
        SamePrefix(n, es[j - 1], es[i - 1]);
      } else {
        assert |r[j]| > 1 == |r[i]|;
      }
    }
  }

  lemma TopDownAppend(es: seq<Path>, fs: seq<Path>, n: Name)
    requires TopDown(es) && TopDown(fs)
    requires forall e :: e in es ==> e != [] && e[0] != n
    requires forall f :: f in fs ==> f != [] && f[0] == n
    ensures TopDown(es + fs)
  {
    forall i, j | 0 <= i < j < |es + fs| ensures !((es + fs)[j] <= (es + fs)[i]) {
      if i < |es| <= j {
        assert es[i] in es && fs[j - |es|] in fs;
      }
    }
  }

  ghost function Deeper(t: Tree, dir: Path): set<Path> {
    set p | p in t && dir < p
  }

  lemma DeeperShrinks(t: Tree, dir: Path, n: Name)
    requires dir + [n] in t
    ensures |Deeper(t, dir + [n])| < |Deeper(t, dir)|
  {
    assert Deeper(t, dir + [n]) <= Deeper(t, dir) - {dir + [n]};
    Smaller(Deeper(t, dir + [n]), Deeper(t, dir) - {dir + [n]});
  }

  lemma {:induction false} Smaller(a: set<Path>, b: set<Path>)
    requires a <= b
    ensures |a| <= |b|
  {
    if a != {} {
      var x :| x in a;
      Smaller(a - {x}, b - {x});
    }
  }

  /** What has been listed after the first k names of a directory. */
  ghost predicate ListedSoFar(es: seq<Path>, t: Tree, dir: Path, done: set<Name>) {
    forall e :: e in es <==> e != [] && dir + e in t && e[0] in done
  }

  lemma ListedNext(es: seq<Path>, fs: seq<Path>, t: Tree, dir: Path, done: set<Name>, n: Name)
    requires ValidTree(t) && dir + [n] in t && n !in done && ListedSoFar(es, t, dir, done)
    requires if t[dir + [n]].node.Dir? then IsBelow(fs, t, dir + [n]) else fs == []
    ensures ListedSoFar(es + ([[n]] + Prefixed(n, fs)), t, dir, done + {n})
  {
    var gs := [[n]] + Prefixed(n, fs);
    forall e ensures e in es + gs <==> e != [] && dir + e in t && e[0] in done + {n} {
      if e != [] && e[0] == n {
        assert e == [n] + e[1..] && dir + e == dir + [n] + e[1..];
        if e in gs && e != [n] {
          var i :| 0 <= i < |gs| && gs[i] == e;
          assert e[1..] == fs[i - 1] && fs[i - 1] in fs;
        }
        if dir + e in t && e != [n] {
          assert View(t)[dir + [n]].Dir? by { AncestorsAreDirs(View(t), dir + [n], dir + e); }
          var i :| 0 <= i < |fs| && fs[i] == e[1..];
          assert gs[i + 1] == e;
        }
        assert gs[0] == [n];
      }
    }
  }

  /** SDir::entries_recursive: everything below a directory, each directory before what it contains. */
  method EntriesRecursive(t: Tree, dir: Path) returns (es: seq<Path>)
    requires ValidTree(t)
    ensures TopDown(es) && IsBelow(es, t, dir)
    decreases |Deeper(t, dir)|
  {
    es := [];
    var names := Trees.Entries(t, dir);
    ghost var done: set<Name> := {};
    assert multiset(names[..0]) == multiset(done);
    for i := 0 to |names|
      invariant multiset(names[..i]) == multiset(done)
      invariant TopDown(es) && ListedSoFar(es, t, dir, done)
    {
      var n := names[i];
      NextIsNew(names, i, Children(t, dir), done);
      ChildrenAre(t, dir, n);
      DeeperShrinks(t, dir, n);
      var fs := [];
      if t[dir + [n]].node.Dir? {
        fs := EntriesRecursive(t, dir + [n]);
      }
      PrefixedTopDown(n, fs);
      TopDownAppend(es, [[n]] + Prefixed(n, fs), n);
      ListedNext(es, fs, t, dir, done, n);
      es := es + ([[n]] + Prefixed(n, fs));
      done := done + {n};
    }
    assert names[..|names|] == names;
    forall e | e != [] && dir + e in t ensures e[0] in done {
      assert dir + [e[0]] <= dir + e;
      if e != [e[0]] { AncestorsAreDirs(View(t), dir + [e[0]], dir + e); }
      ChildrenAre(t, dir, e[0]);
      assert e[0] in multiset(done);
    }
  }

  lemma NextIsNew(names: seq<Name>, i: nat, all: set<Name>, done: set<Name>)
    requires multiset(names) == multiset(all) && i < |names| && multiset(names[..i]) == multiset(done)
    ensures names[i] in all && names[i] !in done
    ensures multiset(names[..i + 1]) == multiset(done + {names[i]})
  {
    assert names == names[..i] + [names[i]] + names[i + 1..];
    assert names[..i + 1] == names[..i] + [names[i]];
    assert multiset(names)[names[i]] <= 1;
    assert names[i] in multiset(names);
  }

  predicate Apart(p: Path, q: Path) {
    !(p <= q) && !(q <= p)
  }

  /** What created makes of a path. */
  function NewStatus(t: TreeNode, p: Path): Status {
    if Tracked(t, p) then Reset(StatusOf(t, p)) else CREATED
  }

  /** What deleted makes of a path. */
  function GoneStatus(t: TreeNode, p: Path): Status {
    if Tracked(t, p) then 0 else DELETED
  }

  lemma DeletedWrites(t: TreeNode, p: Path, q: Path)
    requires p != []
    ensures StatusOf(DeletedIn(t, p), q) == if q == p then GoneStatus(t, p) else StatusOf(t, q)
    ensures Apart(p, q) ==> (Tracked(DeletedIn(t, p), q) <==> Tracked(t, q))
  {
    if Tracked(t, p) {
      EraseRemoves(t, p, q);
      if Apart(p, q) { EraseElsewhere(t, p, q); }
    } else {
      PutWrites(t, p, DELETED, q);
    }
  }

  lemma DeletedKeepsLive(t: TreeNode, p: Path)
    requires p != [] && Live(t)
    ensures Live(DeletedIn(t, p))
  {
    if Tracked(t, p) { EraseKeepsLive(t, p); } else { PutKeepsLive(t, p, DELETED); }
  }

  lemma CreatedWrites(t: TreeNode, p: Path, q: Path)
    ensures StatusOf(CreatedIn(t, p), q) == if q == p then NewStatus(t, p) else StatusOf(t, q)
    ensures Tracked(CreatedIn(t, p), q) <==> Tracked(t, q) || q <= p
  {
    PutWrites(t, p, NewStatus(t, p), q);
  }

  /** The statuses when the entries es of an untracked subtree have been moved: deleted here, created there. */
  ghost function MovedSoFar(t: TreeNode, from: Path, to: Path, es: seq<Path>, q: Path): Status {
    if from <= q && q[|from|..] in es then DELETED
    else if to <= q && q[|to|..] in es then NewStatus(t, q)
    else StatusOf(t, q)
  }

  ghost predicate Moving(t: TreeNode, cur: TreeNode, from: Path, to: Path, es: seq<Path>, i: nat)
    requires i <= |es|
  {
    && (Live(t) ==> Live(cur))
    && (forall q :: StatusOf(cur, q) == MovedSoFar(t, from, to, es[..i], q))
    && (forall j :: i <= j < |es| ==> Untouched(t, cur, from, to, es[j]))
  }

  predicate Untouched(t: TreeNode, cur: TreeNode, from: Path, to: Path, e: Path) {
    !Tracked(cur, from + e) && (Tracked(cur, to + e) <==> Tracked(t, to + e))
  }

  lemma UnderApart(p: Path, q: Path, e: Path, f: Path)
    requires Apart(p, q)
    ensures Apart(p + e, q + f)
  {
    if p + e <= q + f {
      PrefixesComparable(p, q, q + f);
    }
    if q + f <= p + e {
      PrefixesComparable(p, q, p + e);
    }
  }

  lemma SameFront(p: Path, e: Path, f: Path)
    ensures p + e <= p + f <==> e <= f
    ensures (p + e)[|p|..] == e && p <= p + e
  {
  }

  /** What moving one entry does to the nodes still to be moved. */
  lemma MoveKeepsRest(t: TreeNode, cur: TreeNode, from: Path, to: Path, e: Path, f: Path)
    requires from != [] && to != [] && Apart(from, to) && Untouched(t, cur, from, to, e)
    requires Untouched(t, cur, from, to, f)
    requires !(f <= e)
    ensures Untouched(t, CreatedIn(DeletedIn(cur, from + e), to + e), from, to, f)
  {
    var cur1 := DeletedIn(cur, from + e);
    PutWrites(cur, from + e, DELETED, from + f);
    PutWrites(cur, from + e, DELETED, to + f);
    SameFront(from, f, e);
    SameFront(to, f, e);
    UnderApart(from, to, e, f);
    UnderApart(from, to, f, e);
    CreatedWrites(cur1, to + e, from + f);
    CreatedWrites(cur1, to + e, to + f);
  }

  /** Moving one entry writes two statuses. */
  lemma MoveWrites(t: TreeNode, cur: TreeNode, from: Path, to: Path, e: Path, q: Path)
    requires from != [] && to != [] && Apart(from, to) && Untouched(t, cur, from, to, e)
    requires StatusOf(cur, to + e) == StatusOf(t, to + e)
    ensures StatusOf(CreatedIn(DeletedIn(cur, from + e), to + e), q)
         == if q == to + e then NewStatus(t, q) else if q == from + e then DELETED else StatusOf(cur, q)
  {
    var cur1 := DeletedIn(cur, from + e);
    UnderApart(from, to, e, e);
    PutWrites(cur, from + e, DELETED, q);
    PutWrites(cur, from + e, DELETED, to + e);
    CreatedWrites(cur1, to + e, q);
  }

  lemma MoveOneStatus(t: TreeNode, cur: TreeNode, from: Path, to: Path, es: seq<Path>, i: nat, q: Path)
    requires from != [] && to != [] && Apart(from, to) && i < |es| && Moving(t, cur, from, to, es, i)
    requires es[i] !in es[..i]
    ensures StatusOf(CreatedIn(DeletedIn(cur, from + es[i]), to + es[i]), q) == MovedSoFar(t, from, to, es[..i + 1], q)
  {
    var e := es[i];
    assert Untouched(t, cur, from, to, e);
    SameFront(from, e, e);
    SameFront(to, e, e);
    UnderApart(from, to, [], e);
    assert from + [] == from;
    assert StatusOf(cur, to + e) == MovedSoFar(t, from, to, es[..i], to + e);
    MoveWrites(t, cur, from, to, e, q);
    assert StatusOf(cur, q) == MovedSoFar(t, from, to, es[..i], q);
    OneMore(t, from, to, es, i, q);
  }

  lemma OneMore(t: TreeNode, from: Path, to: Path, es: seq<Path>, i: nat, q: Path)
    requires i < |es| && Apart(from, to)
    ensures MovedSoFar(t, from, to, es[..i + 1], q)
         == if q == to + es[i] then NewStatus(t, q) else if q == from + es[i] then DELETED
           else MovedSoFar(t, from, to, es[..i], q)
  {
  }

  lemma MoveOne(t: TreeNode, cur: TreeNode, from: Path, to: Path, es: seq<Path>, i: nat)
    requires from != [] && to != [] && Apart(from, to) && i < |es| && Moving(t, cur, from, to, es, i) && TopDown(es)
    ensures Moving(t, CreatedIn(DeletedIn(cur, from + es[i]), to + es[i]), from, to, es, i + 1)
  {
    var e := es[i];
    var cur1 := DeletedIn(cur, from + e);
    var cur2 := CreatedIn(cur1, to + e);
    assert Untouched(t, cur, from, to, e);
    if Live(t) {
      PutKeepsLive(cur, from + e, DELETED);
      PutKeepsLive(cur1, to + e, NewStatus(cur1, to + e));
    }
    forall q ensures StatusOf(cur2, q) == MovedSoFar(t, from, to, es[..i + 1], q) {
      MoveOneStatus(t, cur, from, to, es, i, q);
    }
    forall j | i + 1 <= j < |es| ensures Untouched(t, cur2, from, to, es[j]) {
      MoveKeepsRest(t, cur, from, to, e, es[j]);
    }
  }

  /** What renaming an untracked path makes of every status: a deletion and a creation for all that dir1 has there. */
  ghost function MovedStatus(t: TreeNode, dir1: Tree, from: Path, to: Path, q: Path): Status {
    if from <= q && (q == from || q in dir1) then DELETED
    else if to <= q && (q == to || from + q[|to|..] in dir1) then NewStatus(t, q)
    else StatusOf(t, q)
  }

  lemma MovedAll(t: TreeNode, cur: TreeNode, dir1: Tree, from: Path, to: Path, es: seq<Path>)
    requires Moving(t, cur, from, to, [[]] + es, |es| + 1) && IsBelow(es, dir1, from)
    ensures (Live(t) ==> Live(cur)) && forall q :: StatusOf(cur, q) == MovedStatus(t, dir1, from, to, q)
  {
    var all := [[]] + es;
    assert all[..|es| + 1] == all;
    forall q ensures StatusOf(cur, q) == MovedStatus(t, dir1, from, to, q) {
      assert StatusOf(cur, q) == MovedSoFar(t, from, to, all, q);
      if from <= q {
        assert q == from + q[|from|..];
      }
      if to <= q {
        assert q == to + q[|to|..];
      }
    }
  }

  /** The subtree of a node has no grandchildren. */
  predicate Shallow(t: TreeNode) {
    forall n :: n in t.childs ==> t.childs[n].childs == map[]
  }

  predicate AllMarked(t: TreeNode) {
    forall n :: n in t.childs ==> t.childs[n].status != 0
  }

  /** What merging the children of tmp at base makes of a status, as far as the first level goes. */
  function MergedAt(t: TreeNode, tmp: TreeNode, base: Path, names: set<Name>, q: Path): Status {
    if base < q && |q| == |base| + 1 && q[|base|] in names && q[|base|] in tmp.childs then
      MergedStatus(t, q, tmp.childs[q[|base|]].status)
    else StatusOf(t, q)
  }

  /** The only paths a merge writes: it repeats the target in front of every level but the first. */
  predicate MayTouch(to: Path, prefix: Path, q: Path) {
    to <= q && (|q| == |to| + |prefix| + 1 || |q| >= 2 * |to| + |prefix| + 2)
  }

  function MergedStatus(t: TreeNode, x: Path, status: Status): Status {
    if Tracked(t, x) then Reset(StatusOf(t, x)) else status
  }

  class StreamProcessor {
    var files: TreeNode
    const dir1: Tree

    constructor (dir1: Tree)
      ensures files == EMPTY && this.dir1 == dir1
    {
      this.files := EMPTY;
      this.dir1 := dir1;
    }

    /** An untracked path becomes CREATED, a tracked one changed in every respect; all else keeps its status. */
    method Created(p: Path)
      requires p != []
      modifies this
      ensures forall q :: q != p ==> StatusOf(files, q) == StatusOf(old(files), q)
      ensures StatusOf(files, p) ==
        if Tracked(old(files), p)
        then (StatusOf(old(files), p) & !(CREATED | DELETED)) | CONTENT | PERMISSIONS | USER | GROUP
        else CREATED
      ensures forall q :: Tracked(files, q) <==> Tracked(old(files), q) || q <= p
      ensures Live(old(files)) ==> Live(files)
      ensures files == CreatedIn(old(files), p)
    {
      forall q { CreatedWrites(files, p, q); }
      if Live(files) { PutKeepsLive(files, p, NewStatus(files, p)); }
      if !Tracked(files, p) {
        files := Put(files, p, CREATED);
      } else {
        files := Put(files, p, Reset(StatusOf(files, p)));
      }
    }

    /** An untracked path becomes DELETED, a tracked one loses its status; all else keeps its own. */
    method Deleted(p: Path)
      requires p != []
      modifies this
      ensures forall q :: q != p ==> StatusOf(files, q) == StatusOf(old(files), q)
      ensures StatusOf(files, p) == if Tracked(old(files), p) then 0 else DELETED
      ensures forall q :: Apart(p, q) ==> (Tracked(files, q) <==> Tracked(old(files), q))
      ensures Live(old(files)) ==> Live(files)
      ensures files == DeletedIn(old(files), p)
    {
      forall q { DeletedWrites(files, p, q); }
      if Live(files) { DeletedKeepsLive(files, p); }
      if !Tracked(files, p) {
        files := Put(files, p, DELETED);
      } else {
        files := Erase(files, p);
      }
    }

    /** Fails if dir1 has no directory to look the old path up in. */
    method RenameUntracked(from: Path, to: Path) returns (ok: bool)
      requires ValidTree(dir1) && from != [] && to != [] && Apart(from, to) && !Tracked(files, from)
      modifies this
      ensures ok <==> HasDir(View(dir1), from)
      ensures ok ==>
        && (Live(old(files)) ==> Live(files))
        && (forall q :: StatusOf(files, q) == MovedStatus(old(files), dir1, from, to, q))
    {
      ghost var t := files;
      var entries := [];
      Deleted(from);
      Created(to);
      if !HasDir(View(dir1), from) { return false; }
      ok := true;
      if from in dir1 && dir1[from].node.Dir? {
        entries := EntriesRecursive(dir1, from);
      } else {
        NothingInside(dir1, from);
      }
      FirstMove(t, from, to, entries);
      MoveEntries(t, from, to, entries);
      MovedAll(t, files, dir1, from, to, entries);
    }

    /** The loop over the entries of a renamed directory. */
    method MoveEntries(ghost t: TreeNode, from: Path, to: Path, entries: seq<Path>)
      requires from != [] && to != [] && Apart(from, to) && TopDown([[]] + entries)
      requires Moving(t, files, from, to, [[]] + entries, 1)
      modifies this
      ensures Moving(t, files, from, to, [[]] + entries, |entries| + 1)
    {
      for i := 0 to |entries|
        invariant Moving(t, files, from, to, [[]] + entries, i + 1)
      {
        assert ([[]] + entries)[i + 1] == entries[i];
        MoveOne(t, files, from, to, [[]] + entries, i + 1);
        Deleted(from + entries[i]);
        Created(to + entries[i]);
      }
    }

    /** Write one node of a merged subtree. */
    method MergeNode(x: Path, status: Status)
      requires x != []
      modifies this
      ensures files == Put(old(files), x, MergedStatus(old(files), x, status))
    {
      if !Tracked(files, x) {
        files := Put(files, x, status);
      } else {
        files := Put(files, x, Reset(StatusOf(files, x)));
      }
    }

    method Merge(tmp: TreeNode, to: Path, prefix: Path)
      requires to != []
      modifies this
      ensures forall q :: SameOutside(old(files), files, to, prefix, q)
      ensures Shallow(tmp) ==> MergeSoFar(old(files), files, tmp, to + prefix, tmp.childs.Keys)
      ensures Shallow(tmp) && AllMarked(tmp) && Live(old(files)) ==> Live(files)
      ensures tmp.childs == map[] ==> files == old(files)
      decreases tmp
    {
      ghost var t := files;
      var left := tmp.childs.Keys;
      while left != {}
        invariant left <= tmp.childs.Keys
        invariant forall q :: SameOutside(t, files, to, prefix, q)
        invariant Shallow(tmp) ==> MergeSoFar(t, files, tmp, to + prefix, tmp.childs.Keys - left)
        invariant Shallow(tmp) && AllMarked(tmp) && Live(t) ==> Live(files)
        invariant tmp.childs == map[] ==> files == t
        decreases |left|
      {
        var n :| n in left;
        var x := to + prefix + [n];
        var child := tmp.childs[n];
        ghost var before := files;
        MergeNode(x, child.status);
        ghost var mid := files;
        Merge(child, to, x);
        if Shallow(tmp) {
          MergeStep(t, before, tmp, to + prefix, tmp.childs.Keys - left, n);
          assert files == mid;
          if AllMarked(tmp) && Live(t) { PutKeepsLive(before, x, MergedStatus(before, x, child.status)); }
        }
        forall q ensures SameOutside(t, files, to, prefix, q) {
          StillOutside(t, before, to, prefix, n, child.status, files, q);
        }
        assert tmp.childs.Keys - (left - {n}) == tmp.childs.Keys - left + {n};
        left := left - {n};
      }
      assert tmp.childs.Keys - left == tmp.childs.Keys;
    }

    method ProcessRename(from: Path, to: Path) returns (ok: bool)
      requires ValidTree(dir1) && from != [] && to != [] && Apart(from, to)
      modifies this
      ensures ok <==> Tracked(old(files), from) || HasDir(View(dir1), from)
      ensures ok ==> Renamed(old(files), dir1, from, to, files)
    {
      ghost var t := files;
      ok := true;
      if !Tracked(files, from) {
        ok := RenameUntracked(from, to);
      } else if !Tracked(files, to) {
        if Live(files) { RenameKeepsLive(files, from, to); }
        forall q { RenameMoves(files, from, to, q); }
        files := TreeNodes.Rename(files, from, to);
      } else {
        var tmp := NodeAt(files, from);
        if Live(files) { CutKeepsLive(files, from, tmp.status); }
        forall q { CutClears(files, from, q); }
        files := Replace(files, from, TreeNode(tmp.status, map[]));
        ReplaceBelow(t, from, TreeNode(tmp.status, map[]), []);
        assert from + [] == from;
        Deleted(from);
        ghost var cut := files;
        Created(to);
        if Live(cut) { PutKeepsLive(cut, to, NewStatus(cut, to)); }
        forall q { CreatedWrites(cut, to, q); }
        ghost var base := files;
        Merge(tmp, to, []);
        MergeFramed(t, cut, base, files, from, to);
        if Shallow(tmp) { MergeResult(t, cut, base, files, from, to); }
      }
    }

    /** One event of the stream; nothing but these has an effect on the tracker. */
    method Process(e: Event, ghost now: Nodes) returns (ok: bool)
      requires ValidTree(dir1) && Closed(now) && Legal(now, e)
      modifies this
      ensures ok <==> (e.Rename? ==> Tracked(old(files), e.from) || HasDir(View(dir1), e.from))
      ensures ok ==> Stepped(old(files), dir1, e, files)
      ensures e.Touch? ==> forall q :: q != e.path ==> StatusOf(files, q) == StatusOf(old(files), q)
      ensures e.Touch? ==> StatusOf(files, e.path) == StatusOf(old(files), e.path) | e.flags
    {
      ok := true;
      match e
      case Create(p, _) => Created(p);
      case Remove(p) => Deleted(p);
      case Rename(from, to) => LegalApart(now, from, to); ok := ProcessRename(from, to);
      case Touch(p, flags, _) =>
        forall q { PutWrites(files, p, Mark(StatusOf(files, p), flags), q); }
        files := TouchedIn(files, p, flags);
    }
  }

  /** What a rename makes of the tracker. */
  ghost predicate Renamed(t: TreeNode, dir1: Tree, from: Path, to: Path, t': TreeNode) {
    if !Tracked(t, from) then
      (Live(t) ==> Live(t')) && forall q :: StatusOf(t', q) == MovedStatus(t, dir1, from, to, q)
    else if !Tracked(t, to) then
      (Live(t) ==> Live(t')) && forall q :: StatusOf(t', q) == Shifted(t, from, to, q)
    else
      && (forall q :: q != to && !MayTouch(to, [], q) ==> StatusOf(t', q) == ClearedStatus(t, from, q))
      && (Shallow(NodeAt(t, from)) ==> forall q :: StatusOf(t', q) == JoinedStatus(t, from, to, q))
      && (Shallow(NodeAt(t, from)) && AllMarked(NodeAt(t, from)) && Live(t) ==> Live(t'))
  }

  ghost predicate Stepped(t: TreeNode, dir1: Tree, e: Event, t': TreeNode) {
    match e
    case Create(p, _) => t' == CreatedIn(t, p)
    case Remove(p) => p != [] && t' == DeletedIn(t, p)
    case Rename(from, to) => Renamed(t, dir1, from, to, t')
    case Touch(p, flags, _) => flags in {CONTENT, PERMISSIONS, USER | GROUP} && t' == TouchedIn(t, p, flags)
  }

  lemma LegalApart(now: Nodes, from: Path, to: Path)
    requires Closed(now) && Legal(now, Rename(from, to))
    ensures Apart(from, to)
  {
    NothingBelow(now, to);
  }

  function ClearedStatus(t: TreeNode, from: Path, q: Path): Status {
    if from <= q then 0 else StatusOf(t, q)
  }

  /** A shallow subtree merged into a tracked target. */
  function JoinedStatus(t: TreeNode, from: Path, to: Path, q: Path): Status {
    if from <= q then 0
    else if q == to then NewStatus(t, to)
    else MergedAt(t, NodeAt(t, from), to, NodeAt(t, from).childs.Keys, q)
  }

  lemma CutClears(t: TreeNode, p: Path, q: Path)
    requires p != [] && Tracked(t, p)
    ensures var t' := Erase(Replace(t, p, TreeNode(NodeAt(t, p).status, map[])), p);
      StatusOf(t', q) == ClearedStatus(t, p, q) && (Apart(p, q) ==> (Tracked(t', q) <==> Tracked(t, q)))
  {
    var emptied := TreeNode(NodeAt(t, p).status, map[]);
    var t1 := Replace(t, p, emptied);
    EraseRemoves(t1, p, q);
    if p <= q {
      assert q == p + q[|p|..];
      ReplaceBelow(t, p, emptied, q[|p|..]);
    } else {
      ReplaceElsewhere(t, p, emptied, q);
      if Apart(p, q) { EraseElsewhere(t1, p, q); }
    }
  }

  lemma MergeFramed(t: TreeNode, cut: TreeNode, base: TreeNode, t': TreeNode, from: Path, to: Path)
    requires forall q :: StatusOf(cut, q) == ClearedStatus(t, from, q)
    requires forall q :: StatusOf(base, q) == if q == to then NewStatus(cut, to) else StatusOf(cut, q)
    requires forall q :: SameOutside(base, t', to, [], q)
    ensures forall q :: q != to && !MayTouch(to, [], q) ==> StatusOf(t', q) == ClearedStatus(t, from, q)
  {
    forall q | q != to && !MayTouch(to, [], q) ensures StatusOf(t', q) == ClearedStatus(t, from, q) {
      assert SameOutside(base, t', to, [], q);
    }
  }

  lemma MergeResult(t: TreeNode, cut: TreeNode, base: TreeNode, t': TreeNode, from: Path, to: Path)
    requires Apart(from, to)
    requires forall q :: StatusOf(cut, q) == ClearedStatus(t, from, q)
    requires forall q :: Apart(from, q) ==> (Tracked(cut, q) <==> Tracked(t, q))
    requires forall q :: StatusOf(base, q) == if q == to then NewStatus(cut, to) else StatusOf(cut, q)
    requires forall q :: Tracked(base, q) <==> Tracked(cut, q) || q <= to
    requires MergeSoFar(base, t', NodeAt(t, from), to + [], NodeAt(t, from).childs.Keys)
    ensures forall q :: StatusOf(t', q) == JoinedStatus(t, from, to, q)
  {
  }

  predicate SameOutside(t: TreeNode, t': TreeNode, to: Path, prefix: Path, q: Path) {
    !MayTouch(to, prefix, q) ==> StatusOf(t', q) == StatusOf(t, q)
  }

  lemma StillOutside(t: TreeNode, before: TreeNode, to: Path, prefix: Path, n: Name, s: Status, after: TreeNode,
                     q: Path)
    requires SameOutside(t, before, to, prefix, q)
    requires var x := to + prefix + [n]; SameOutside(Put(before, x, MergedStatus(before, x, s)), after, to, x, q)
    ensures SameOutside(t, after, to, prefix, q)
  {
    var x := to + prefix + [n];
    PutWrites(before, x, MergedStatus(before, x, s), q);
  }

  lemma MergeStep(t: TreeNode, cur: TreeNode, tmp: TreeNode, base: Path, done: set<Name>, n: Name)
    requires MergeSoFar(t, cur, tmp, base, done) && n !in done && n in tmp.childs
    ensures var cur' := Put(cur, base + [n], MergedStatus(cur, base + [n], tmp.childs[n].status));
      MergeSoFar(t, cur', tmp, base, done + {n})
  {
    var x := base + [n];
    var s := MergedStatus(cur, x, tmp.childs[n].status);
    var cur' := Put(cur, x, s);
    assert StatusOf(cur, x) == MergedAt(t, tmp, base, done, x) == StatusOf(t, x);
    forall q ensures StatusOf(cur', q) == MergedAt(t, tmp, base, done + {n}, q) {
      PutWrites(cur, x, s, q);
      if base < q && |q| == |base| + 1 {
        assert q == base + [q[|base|]];
      }
    }
    forall m | m !in done + {n} ensures Tracked(cur', base + [m]) <==> Tracked(t, base + [m]) {
      PutWrites(cur, x, s, base + [m]);
      assert (base + [m])[|base|] == m && x[|base|] == n;
    }
  }

  /** The names done are merged, all else is as it was, and the names to come are as tracked as they were. */
  ghost predicate MergeSoFar(t: TreeNode, cur: TreeNode, tmp: TreeNode, base: Path, done: set<Name>) {
    && (forall q :: StatusOf(cur, q) == MergedAt(t, tmp, base, done, q))
    && (forall n :: n !in done ==> (Tracked(cur, base + [n]) <==> Tracked(t, base + [n])))
  }

  lemma NothingInside(t: Tree, p: Path)
    requires ValidTree(t) && !(p in t && t[p].node.Dir?)
    ensures IsBelow([], t, p)
  {
    forall e | e != [] && p + e in t ensures false {
      AncestorsAreDirs(View(t), p, p + e);
    }
  }

  lemma FirstMove(t: TreeNode, from: Path, to: Path, es: seq<Path>)
    requires from != [] && to != [] && Apart(from, to) && !Tracked(t, from) && TopDown(es) && [] !in es
    ensures TopDown([[]] + es)
    ensures Moving(t, CreatedIn(DeletedIn(t, from), to), from, to, [[]] + es, 1)
  {
    StartMove(t, from, to, es);
    MoveOne(t, t, from, to, [[]] + es, 0);
    assert from + [] == from && to + [] == to;
  }

  lemma StartMove(t: TreeNode, from: Path, to: Path, es: seq<Path>)
    requires !Tracked(t, from) && TopDown(es) && [] !in es
    ensures Moving(t, t, from, to, [[]] + es, 0) && TopDown([[]] + es)
  {
    var all := [[]] + es;
    forall j | 0 <= j < |all| ensures Untouched(t, t, from, to, all[j]) {
      if Tracked(t, from + all[j]) { TrackedPrefix(t, from, from + all[j]); }
    }
    forall i, j | 0 <= i < j < |all| ensures !(all[j] <= all[i]) {
      assert all[j] == es[j - 1] && es[j - 1] in es;
    }
  }
}
