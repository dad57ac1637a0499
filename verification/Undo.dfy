/** snapper/File.cc: undoing the difference between two snapshots, one system call at a time. */
module Undo {
  import opened Names
  import opened Status
  import opened Trees
  import opened Compare
  import opened FileLists
  import opened Kernel

  /** A node of the pre tree as it is written back: a link holds what readlink delivers. */
  function Restored(e: Entry): Node {
    if e.node.Lnk? then e.node.(target := ReadLink(e)) else e.node
  }

  /** Whether its content can be read at all. */
  predicate Copyable(e: Entry) {
    match e.node
    case Dir(_, _, _) => true
    case Reg(_, _, _, _) => e.readable
    case Lnk(_, _, _) => ReadLink(e) != ""
  }

  lemma RestoredLink(e: Entry)
    requires e.node.Lnk?
    ensures Copyable(e) <==> e.readable && e.node.target != ""
    ensures Copyable(e) ==>
      Restored(e) == if |e.node.target| <= 1024 then e.node else e.node.(target := e.node.target[..1024])
  {
  }

  /** What an undo leaves at path p of the pre tree: content the comparison took for equal is not rewritten. */
  function GoalNode(pre: Tree, post: Tree, p: Path): Node
    requires p in pre
  {
    var n := pre[p].node;
    if p in post && n.SameKind(post[p].node) && SameContent(pre[p], post[p])
    then n.WithContent(post[p].node.Content())
    else Restored(pre[p])
  }

  function Goal(pre: Tree, post: Tree): Nodes {
    map p | p in pre :: GoalNode(pre, post, p)
  }

  /** The system after the paths in done were undone. */
  function Mix(goal: Nodes, start: Nodes, done: set<Path>): Nodes {
    map p | p in goal.Keys + start.Keys && (if p in done then p in goal else p in start)
      :: if p in done then goal[p] else start[p]
  }

  /** Only p itself changed, or directories missing on the way to it were made. */
  ghost predicate OnlyAtOrMissingAbove(t: Nodes, t': Nodes, p: Path) {
    && (forall q :: q in t && q != p ==> q in t' && t'[q] == t[q])
    && (forall q :: q in t' && q != p && q !in t ==> q < p && t'[q].Dir?)
  }

  lemma OnlyAtTransitive(t: Nodes, t1: Nodes, t2: Nodes, p: Path)
    requires OnlyAt(t, t1, p) && OnlyAt(t1, t2, p)
    ensures OnlyAt(t, t2, p)
  {
  }

  ghost predicate Framed(t: Nodes, t': Nodes, pre: Tree, p: Path) {
    && (LinkFree(t) && LinkFree(View(pre)) ==> LinkFree(t') && OnlyAtOrMissingAbove(t, t', p))
    && (Closed(t) ==> Closed(t'))
  }

  lemma FramedTransitive(t: Nodes, t1: Nodes, t2: Nodes, pre: Tree, p: Path)
    requires Framed(t, t1, pre, p) && Framed(t1, t2, pre, p)
    ensures Framed(t, t2, pre, p)
  {
  }

  /** The node modifyAllTypes makes of n. */
  function Modified(e: Entry, n: Node, status: Status): Node {
    var n1 := if Has(status, CONTENT) && !e.node.Dir? then Restored(e) else n;
    WithAttributes(e, n1, status)
  }

  function WithAttributes(e: Entry, n: Node, status: Status): Node {
    var n1 := if Has(status, PERMISSIONS) then SetMode(n, e.node.Mode()) else n;
    if Has(status, USER | GROUP) then SetOwner(n1, e.node.uid, e.node.gid) else n1
  }

  /** Paths whose parent the code cannot name: entries of "/" itself, whose leading path is the empty string. */
  predicate NoParentName(slash: bool, p: Path) {
    slash && |p| == 1
  }

  predicate CreateFine(slash: bool, e: Entry, p: Path) {
    !NoParentName(slash, p) && Copyable(e)
  }

  ghost predicate KindMatches(t: Nodes, p: Path, e: Entry) {
    Closed(t) && Solid(t, p) && p in t && t[p].SameKind(e.node)
  }

  ghost predicate Modifiable(t: Nodes, pre: Tree, p: Path) {
    p in pre && KindMatches(t, p, pre[p])
  }

  /** A chmod that would go through a symbolic link to whatever it points at. */
  predicate ChmodsLink(e: Entry, status: Status) {
    Has(status, PERMISSIONS) && e.node.Lnk?
  }

  predicate ContentFine(e: Entry, status: Status) {
    Has(status, CONTENT) ==> Copyable(e)
  }

  predicate ModifyFine(slash: bool, e: Entry, p: Path, status: Status) {
    && !NoParentName(slash, p)
    && ContentFine(e, status)
    && !ChmodsLink(e, status)
  }

  /** The state in which a file's undo is due: its status fits the node that is there. */
  ghost predicate Undoable(t: Nodes, pre: Tree, f: File) {
    var p := Parse(f.name);
    && Closed(t) && Solid(t, p)
    && (if f.status == CREATED then EmptyBelow(t, p)
        else if f.status == DELETED then p in pre && p !in t
        else !Has(f.status, CREATED | DELETED) && p in pre && UndoableCommon(t, p, pre[p], f.status))
  }

  ghost predicate UndoableCommon(t: Nodes, p: Path, e: Entry, status: Status) {
    if Has(status, TYPE) then !Has(status, CONTENT) && EmptyBelow(t, p)
    else Has(status, CONTENT | PERMISSIONS | USER | GROUP) && p in t && t[p].SameKind(e.node)
  }

  ghost predicate EmptyBelow(t: Nodes, p: Path) {
    !(exists q :: q in t && p < q)
  }

  /** Links are chmodded only where they lead nowhere. */
  ghost predicate UndoDefined(env: Env, pre: Tree, f: File) {
    env.Dangling() || (Parse(f.name) in pre ==> !ChmodsLink(pre[Parse(f.name)], f.status))
  }

  /** Whether the undo of f can succeed: decided by the comparison and the mount point alone. */
  predicate UndoFine(slash: bool, pre: Tree, f: File) {
    var p := Parse(f.name);
    f.status == CREATED
    || (p in pre && !NoParentName(slash, p)
        && (Has(f.status, DELETED | TYPE | CONTENT) ==> Copyable(pre[p]))
        && !ChmodsLink(pre[p], f.status))
  }

  /** The tree after a successful undo of f. */
  ghost predicate Undone(t: Nodes, t': Nodes, pre: Tree, f: File) {
    var p := Parse(f.name);
    if f.status == CREATED then t' == t - {p}
    else if Has(f.status, DELETED | TYPE) then p in pre && t' == t[p := Restored(pre[p])]
    else p in pre && p in t && t' == t[p := Modified(pre[p], t[p], f.status)]
  }

  /** Which parts of doUndo run. */
  lemma UndoParts(s: Status)
    ensures s == CREATED ==>
      Has(s, CREATED) && !Has(s, DELETED) && !Has(s, TYPE) && !Has(s, CONTENT | PERMISSIONS | USER | GROUP)
    ensures s == DELETED ==>
      !Has(s, CREATED) && Has(s, DELETED) && !Has(s, TYPE) && !Has(s, CONTENT | PERMISSIONS | USER | GROUP)
    ensures s == DELETED ==> !Has(s, PERMISSIONS)
    ensures !Has(s, CREATED | DELETED) ==> !Has(s, CREATED) && !Has(s, DELETED)
    ensures Has(s, DELETED | TYPE) <==> Has(s, DELETED) || Has(s, TYPE)
    ensures Has(s, DELETED | TYPE | CONTENT) <==> Has(s, DELETED) || Has(s, TYPE) || Has(s, CONTENT)
    ensures Has(s, CONTENT | PERMISSIONS | USER | GROUP) <==>
      Has(s, CONTENT) || Has(s, PERMISSIONS) || Has(s, USER | GROUP)
  {
  }

  /** What one attempt to create p may have done. */
  ghost predicate Created(env: Env, t: Nodes, t': Nodes, pre: Tree, p: Path, ok: bool) {
    && (ok ==> p in pre)
    && (Solid(t, p) && p !in t && ok ==> CreateFine(env.slash, pre[p], p) && t' == t[p := Restored(pre[p])])
    && (Solid(t, p) && p !in t && env.Benign() && p in pre && CreateFine(env.slash, pre[p], p) ==> ok)
  }

  ghost predicate Modifies(env: Env, t: Nodes, t': Nodes, pre: Tree, p: Path, status: Status, ok: bool) {
    && (ok ==> p in pre)
    && (Modifiable(t, pre, p) && (env.Dangling() || !ChmodsLink(pre[p], status)) && ok ==>
          ModifyFine(env.slash, pre[p], p, status) && t' == t[p := Modified(pre[p], t[p], status)])
    && (Modifiable(t, pre, p) && env.Benign() && ModifyFine(env.slash, pre[p], p, status) ==> ok)
  }

  ghost predicate Deleted(env: Env, t: Nodes, t': Nodes, f: File, ok: bool) {
    && (ok ==> t' == if Has(f.status, CREATED) || Has(f.status, TYPE) then t - {Parse(f.name)} else t)
    && (env.Benign() ==> ok)
  }

  /** The three parts of doUndo between t and t3. */
  ghost predicate Parts(env: Env, t: Nodes, t1: Nodes, t2: Nodes, t3: Nodes, pre: Tree, f: File, ok1: bool, ok2: bool,
                        ok3: bool) {
    var p := Parse(f.name);
    && Deleted(env, t, t1, f, ok1) && Closed(t1) && Closed(t2)
    && (if Has(f.status, DELETED) || Has(f.status, TYPE) then Created(env, t1, t2, pre, p, ok2) else ok2 && t2 == t1)
    && (if Has(f.status, CONTENT | PERMISSIONS | USER | GROUP)
        then Modifies(env, t2, t3, pre, p, f.status, ok3)
        else ok3 && t3 == t2)
  }

  ghost predicate Exact(env: Env, t: Nodes, t': Nodes, pre: Tree, f: File, ok: bool) {
    && (UndoDefined(env, pre, f) && ok ==> UndoFine(env.slash, pre, f) && Undone(t, t', pre, f))
    && (env.Benign() && UndoFine(env.slash, pre, f) ==> ok)
  }

  lemma UndoneByParts(env: Env, t: Nodes, t1: Nodes, t2: Nodes, t3: Nodes, pre: Tree, f: File, ok1: bool, ok2: bool,
                      ok3: bool)
    requires Undoable(t, pre, f) && Parts(env, t, t1, t2, t3, pre, f, ok1, ok2, ok3)
    ensures Exact(env, t, t3, pre, f, ok1 && ok2 && ok3)
  {
    UndoParts(f.status);
    if Has(f.status, TYPE) {
      UndoneTypeChange(env, t, t1, t2, t3, pre, f, ok1, ok2, ok3);
    }
  }

  /** A node of another kind is removed, created anew, and then given attributes it already has. */
  lemma UndoneTypeChange(env: Env, t: Nodes, t1: Nodes, t2: Nodes, t3: Nodes, pre: Tree, f: File, ok1: bool, ok2: bool,
                         ok3: bool)
    requires Undoable(t, pre, f) && Has(f.status, TYPE) && Parts(env, t, t1, t2, t3, pre, f, ok1, ok2, ok3)
    ensures Exact(env, t, t3, pre, f, ok1 && ok2 && ok3)
  {
    var p := Parse(f.name);
    UndoParts(f.status);
    SolidRemove(t, p);
    if ok1 && ok2 {
      assert t2 == t[p := Restored(pre[p])];
      SolidUpdate(t, p, Restored(pre[p]));
      UndoneAttributes(env, t2, t3, pre, f, ok3);
    }
  }

  /** The last part finds nothing left to change. */
  lemma UndoneAttributes(env: Env, t2: Nodes, t3: Nodes, pre: Tree, f: File, ok3: bool)
    requires var p := Parse(f.name); p in pre && p in t2 && t2[p] == Restored(pre[p]) && Solid(t2, p) && Closed(t2)
    requires !Has(f.status, CONTENT)
    requires if Has(f.status, CONTENT | PERMISSIONS | USER | GROUP)
             then Modifies(env, t2, t3, pre, Parse(f.name), f.status, ok3) else ok3 && t3 == t2
    ensures UndoDefined(env, pre, f) && ok3 ==> t3 == t2 && !ChmodsLink(pre[Parse(f.name)], f.status)
    ensures env.Benign() && !NoParentName(env.slash, Parse(f.name)) && !ChmodsLink(pre[Parse(f.name)], f.status) ==> ok3
  {
  }

  /** Mode and owner have been set as far as the status asks for it. */
  ghost predicate Attributed(env: Env, t: Nodes, t': Nodes, p: Path, e: Entry, status: Status, ok: bool)
    requires p in t
  {
    && ((env.Dangling() || !ChmodsLink(e, status)) && ok ==>
          !ChmodsLink(e, status) && t' == t[p := WithAttributes(e, t[p], status)])
    && (env.Benign() && !ChmodsLink(e, status) ==> ok)
  }

  lemma OwnerAfterMode(t: Nodes, t1: Nodes, t2: Nodes, p: Path, e: Entry, status: Status)
    requires KindMatches(t, p, e)
    ensures Has(status, PERMISSIONS) && t1 == t[p := SetMode(t[p], e.node.Mode())] ==>
      && (!Has(status, USER | GROUP) && t2 == t1 ==> t2 == t[p := WithAttributes(e, t[p], status)])
      && (Has(status, USER | GROUP) && t2 == t1[p := SetOwner(t1[p], e.node.uid, e.node.gid)] ==>
            t2 == t[p := WithAttributes(e, t[p], status)])
    ensures !Has(status, PERMISSIONS) && t1 == t ==>
      && (!Has(status, USER | GROUP) && t2 == t1 ==> t2 == t[p := WithAttributes(e, t[p], status)])
      && (Has(status, USER | GROUP) && t2 == t1[p := SetOwner(t1[p], e.node.uid, e.node.gid)] ==>
            t2 == t[p := WithAttributes(e, t[p], status)])
  {
  }

  lemma ContentThenAttributes(env: Env, t: Nodes, t1: Nodes, t2: Nodes, p: Path, e: Entry, status: Status, ok: bool)
    requires KindMatches(t, p, e) && Copyable(e) && t1 == t[p := Restored(e)] && Has(status, CONTENT) && !e.node.Dir?
    requires Closed(t1)
    requires KindMatches(t1, p, e) ==> Attributed(env, t1, t2, p, e, status, ok)
    ensures (env.Dangling() || !ChmodsLink(e, status)) && ok ==>
      ContentFine(e, status) && !ChmodsLink(e, status) && t2 == t[p := Modified(e, t[p], status)]
    ensures env.Benign() && !ChmodsLink(e, status) ==> ok
  {
    SolidUpdate(t, p, Restored(e));
    assert t1[p := WithAttributes(e, t1[p], status)] == t[p := WithAttributes(e, t1[p], status)];
  }

  /** The paths above p. */
  function Above(p: Path): set<Path> {
    set k | 0 <= k < |p| :: p[..k]
  }

  lemma AboveIs(p: Path, a: Path)
    ensures a in Above(p) <==> a < p
  {
    if a < p { assert a == p[..|a|]; }
  }

  /** The tree with every directory missing above p made. */
  function MadeAbove(env: Env, t: Nodes, p: Path): Nodes {
    t + map a | a in Above(p) && a !in t :: Dir(env.newMode, env.uid, env.gid)
  }

  /** Nothing but directories is in the way to p. */
  ghost predicate Clear(t: Nodes, p: Path) {
    forall a: Path :: a < p && a in t ==> DirAt(t, a)
  }

  /** The directories above p exist or can be made: below "/" the first of them has to exist, for it cannot be named. */
  ghost predicate Makeable(slash: bool, t: Nodes, p: Path) {
    p != [] && Clear(t, p) && (slash ==> |p| > 1 && p[..1] in t)
  }

  lemma MadeAboveAt(env: Env, t: Nodes, p: Path, q: Path)
    ensures q in MadeAbove(env, t, p) <==> q in t || q < p
    ensures q in t ==> MadeAbove(env, t, p)[q] == t[q]
    ensures q !in t && q < p ==> MadeAbove(env, t, p)[q] == Dir(env.newMode, env.uid, env.gid)
  {
    AboveIs(p, q);
  }

  lemma MadeAboveSolid(env: Env, t: Nodes, p: Path)
    requires p != [] && Clear(t, p)
    ensures Solid(MadeAbove(env, t, p), p)
    ensures p in MadeAbove(env, t, p) <==> p in t
    ensures LinkFree(t) ==> LinkFree(MadeAbove(env, t, p))
  {
    var t' := MadeAbove(env, t, p);
    forall a: Path {:trigger DirAt(t', a)} | a < p ensures DirAt(t', a) {
      MadeAboveAt(env, t, p, a);
      if a in t { assert DirAt(t, a); }
    }
    MadeAboveAt(env, t, p, p);
    forall q | q in t' && LinkFree(t) ensures !t'[q].Lnk? {
      MadeAboveAt(env, t, p, q);
    }
  }

  lemma NothingMissing(env: Env, t: Nodes, p: Path)
    requires Solid(t, p)
    ensures MadeAbove(env, t, p) == t
  {
    forall q ensures q in MadeAbove(env, t, p) ==> q in t {
      MadeAboveAt(env, t, p, q);
      if q < p { assert DirAt(t, q); }
    }
    assert MadeAbove(env, t, p).Keys == t.Keys;
  }

  /** Making what is missing above a missing directory, and then the directory. */
  lemma MadeOneMore(env: Env, t: Nodes, p: Path)
    requires p != [] && Parent(p) !in t
    ensures MadeAbove(env, t, Parent(p))[Parent(p) := Dir(env.newMode, env.uid, env.gid)] == MadeAbove(env, t, p)
  {
    var d := Parent(p);
    var made := MadeAbove(env, t, d)[d := Dir(env.newMode, env.uid, env.gid)];
    forall q ensures q in made <==> q in MadeAbove(env, t, p) {
      MadeAboveAt(env, t, d, q);
      MadeAboveAt(env, t, p, q);
      assert q < p <==> q < d || q == d;
    }
    forall q | q in made ensures made[q] == MadeAbove(env, t, p)[q] {
      MadeAboveAt(env, t, d, q);
      MadeAboveAt(env, t, p, q);
    }
  }

  /** One turn of createParentDirectories upwards. */
  lemma MakeableAbove(slash: bool, t: Nodes, p: Path)
    requires p != [] && [] in t && Parent(p) !in t
    ensures Makeable(slash, t, p) <==> Makeable(slash, t, Parent(p))
  {
    var d := Parent(p);
    assert p[..|d|] == d && (|d| > 0 ==> d[..1] == p[..1]);
    if |d| == 1 { assert d[..1] == d; }
    if Clear(t, d) {
      forall a: Path | a < p && a in t ensures DirAt(t, a) {
        assert a == p[..|a|] && a != d;
      }
    }
    if Clear(t, p) {
      forall a: Path | a < d && a in t ensures DirAt(t, a) {
        assert a < p;
      }
    }
  }

  lemma MakeableBelow(slash: bool, t: Nodes, p: Path)
    requires p != [] && (forall a: Path :: a <= Parent(p) ==> DirAt(t, a)) && !(slash && Parent(p) == [])
    ensures Solid(t, p) && Makeable(slash, t, p)
  {
    forall a: Path | a < p ensures DirAt(t, a) {
      assert a <= Parent(p);
    }
    if |p| > 1 { assert p[..1] <= Parent(p) && DirAt(t, p[..1]); }
  }

  /** Only missing directories above p were made. */
  ghost predicate OnlyMissingAbove(t: Nodes, t': Nodes, p: Path) {
    && LinkFree(t') && OnlyAtOrMissingAbove(t, t', p) && (p in t' <==> p in t)
    && (p in t && p in t' ==> t'[p] == t[p])
  }

  /** First those above the parent, then the parent. */
  lemma ParentMissing(t: Nodes, t1: Nodes, t2: Nodes, p: Path, n: Node)
    requires p != [] && OnlyMissingAbove(t, t1, Parent(p)) && n.Dir?
    requires t2 == t1 || (Parent(p) !in t1 && t2 == t1[Parent(p) := n])
    ensures OnlyMissingAbove(t, t2, p)
  {
    assert p == Parent(p) + [Base(p)];
  }

  lemma SolidParent(t: Nodes, p: Path)
    requires Solid(t, p)
    ensures DirAt(t, Parent(p)) && (Parent(p) != [] ==> Solid(t, Parent(p)))
  {
    assert p == Parent(p) + [Base(p)];
  }

  /** The parent can be made, and has to be. */
  ghost predicate MustMake(slash: bool, t: Nodes, p: Path) {
    LinkFree(t) && Closed(t) && Makeable(slash, t, p) && Parent(p) !in t && Parent(p) != []
  }

  /** If stat was not refused and yet found nothing, the parent cannot be named, or is missing, or something is in the
      way. */
  lemma MissingParent(env: Env, t: Nodes, p: Path, refused: bool)
    requires LinkFree(t) && Closed(t) && p != []
    requires var w := Resolve(env, t, Parent(p)); refused || (env.slash && Parent(p) == []) || !(w.At? && w.path in t)
    ensures !refused && Makeable(env.slash, t, p) ==> Parent(p) !in t && Parent(p) != []
  {
    var d := Parent(p);
    if d in t && d != [] {
      forall a: Path | a < d ensures DirAt(t, a) {
        AncestorsAreDirs(t, a, d);
      }
      SolidLocates(env, t, d);
    }
  }

  /** Neither the system nor the snapshot has a link. */
  ghost predicate Plain(t: Nodes, pre: Tree) {
    Closed(t) && LinkFree(t) && LinkFree(View(pre))
  }

  /** What an attempt to create p does in a tree without links: it makes what is missing above, then the node. */
  ghost predicate Remade(env: Env, t: Nodes, t': Nodes, pre: Tree, p: Path, ok: bool) {
    && (ok ==>
          && p in pre && Copyable(pre[p]) && Makeable(env.slash, t, p)
          && t' == MadeAbove(env, t, p)[p := Restored(pre[p])])
    && (env.Benign() && p in pre && Copyable(pre[p]) && Makeable(env.slash, t, p) ==> ok)
  }

  /** A deleted path that is to come back in a tree without links, whatever is missing above it. */
  ghost predicate Absent(t: Nodes, pre: Tree, f: File) {
    var p := Parse(f.name);
    f.status == DELETED && p != [] && p !in t && Plain(t, pre)
  }

  /** A node that has to go while there is something below it. */
  ghost predicate Blocked(t: Nodes, f: File) {
    var p := Parse(f.name);
    (Has(f.status, CREATED) || Has(f.status, TYPE)) && Closed(t) && Solid(t, p) && p in t && !EmptyBelow(t, p)
  }

  /** The live subvolume that File's methods work on. */
  class Subvolume {
    var tree: Nodes
    var clock: nat
    const env: Env

    constructor (tree: Nodes, env: Env)
      ensures this.tree == tree && this.env == env
    {
      this.tree := tree;
      this.clock := 0;
      this.env := env;
    }

    /** Counts one system call; a refused one fails without effect. */
    method Call() returns (refused: bool)
      modifies this`clock
      ensures env.Benign() ==> !refused
    {
      refused := env.refuse(clock);
      clock := clock + 1;
    }

    method DeleteAllTypes(p: Path) returns (ok: bool)
      modifies this
      ensures LinkFree(old(tree)) ==> LinkFree(tree) && OnlyAt(old(tree), tree, p)
      ensures Closed(old(tree)) ==> Closed(tree)
      ensures Solid(old(tree), p) && ok ==> tree == old(tree) - {p}
      ensures Solid(old(tree), p) && env.Benign() && EmptyBelow(old(tree), p) ==> ok
      ensures Solid(old(tree), p) && Closed(old(tree)) && p in old(tree) && !EmptyBelow(old(tree), p) ==> !ok
    {
      if LinkFree(tree) { LinkFreeLocates(env, tree, p); }
      if Solid(tree, p) { SolidLocates(env, tree, p); }
      var refused := Call();
      var where_ := Locate(env, tree, p);
      if refused || where_.Enotdir? { return false; }
      if Closed(tree) && p in tree && !EmptyBelow(tree, p) {
        ghost var q :| q in tree && p < q;
        AncestorsAreDirs(tree, p, q);
      }
      if where_.Enoent? || where_.path !in tree { return true; }
      var dir := tree[where_.path].Dir?;
      refused := Call();
      if refused { return false; }
      if Closed(tree) {
        RmdirKeepsClosed(env, tree, p);
        UnlinkKeepsClosed(env, tree, p);
      }
      var done := if dir then Rmdir(env, tree, p) else Unlink(env, tree, p);
      tree, ok := done.0, done.1;
    }

    method MkdirCall(p: Path, mode: nat) returns (err: Errno)
      modifies this
      ensures LinkFree(old(tree)) ==>
        && LinkFree(tree)
        && (tree == old(tree) || (p !in old(tree) && tree == old(tree)[p := Dir(mode, env.uid, env.gid)]))
      ensures Closed(old(tree)) ==> Closed(tree)
      ensures (p in old(tree) && Solid(old(tree), p)) || (p == [] && [] in old(tree)) ==> err != Ok && tree == old(tree)
      ensures p !in old(tree) && Solid(old(tree), p) ==>
        && Solid(tree, p)
        && ((err == Ok && tree == old(tree)[p := Dir(mode, env.uid, env.gid)]) || (err == Other && tree == old(tree)))
      ensures p !in old(tree) && Solid(old(tree), p) && env.Benign() ==> err == Ok
    {
      if LinkFree(tree) { LinkFreeLocates(env, tree, p); }
      if Solid(tree, p) {
        SolidLocates(env, tree, p);
        SolidUpdate(tree, p, Dir(mode, env.uid, env.gid));
      }
      var refused := Call();
      if refused { return Other; }
      var done := Mkdir(env, tree, p, mode);
      tree, err := done.0, done.1;
    }

    /** stat of the leading path; if that fails, the directories above it and then the directory itself are made. */
    method CreateParentDirectories(p: Path) returns (ok: bool)
      modifies this
      ensures LinkFree(old(tree)) ==> OnlyMissingAbove(old(tree), tree, p)
      ensures Closed(old(tree)) ==> Closed(tree)
      ensures p == [] ==> ok && tree == old(tree)
      ensures Solid(old(tree), p) ==> tree == old(tree) && (NoParentName(env.slash, p) ==> !ok)
      ensures Solid(old(tree), p) && env.Benign() ==> ok == !NoParentName(env.slash, p)
      ensures LinkFree(old(tree)) && Closed(old(tree)) && p != [] && ok ==>
        Makeable(env.slash, old(tree), p) && tree == MadeAbove(env, old(tree), p)
      ensures LinkFree(old(tree)) && Closed(old(tree)) && Makeable(env.slash, old(tree), p) && env.Benign() ==> ok
      decreases |p|, 1
    {
      if p == [] { return true; }
      var dir := Parent(p);
      if LinkFree(tree) { LinkFreeLocates(env, tree, dir); }
      if Solid(tree, p) {
        SolidParent(tree, p);
        if dir != [] { SolidLocates(env, tree, dir); }
      }
      var nameless := env.slash && dir == [];
      var refused := Call();
      var where_ := Resolve(env, tree, dir);
      if !refused && !nameless && where_.At? && where_.path in tree {
        if LinkFree(tree) && tree[where_.path].Dir? {
          FoundBelowDirs(env, tree, dir);
          MakeableBelow(env.slash, tree, p);
          NothingMissing(env, tree, p);
        }
        return tree[where_.path].Dir?;
      }
      if LinkFree(tree) && Closed(tree) { MissingParent(env, tree, p, refused); }
      ok := MakeParent(p);
    }

    /** The part of createParentDirectories after a failed stat. */
    method MakeParent(p: Path) returns (ok: bool)
      requires p != []
      modifies this
      ensures LinkFree(old(tree)) ==> OnlyMissingAbove(old(tree), tree, p)
      ensures Closed(old(tree)) ==> Closed(tree)
      ensures Solid(old(tree), p) ==> !ok && tree == old(tree)
      ensures LinkFree(old(tree)) && Closed(old(tree)) && ok ==>
        Makeable(env.slash, old(tree), p) && tree == MadeAbove(env, old(tree), p)
      ensures env.Benign() && MustMake(env.slash, old(tree), p) ==> ok
      decreases |p|, 0
    {
      ghost var t := tree;
      var dir := Parent(p);
      if Solid(tree, p) { SolidParent(tree, p); }
      if Closed(t) && dir !in t { MakeableAbove(env.slash, t, p); }
      ok := CreateParentDirectories(dir);
      ghost var t1 := tree;
      if LinkFree(t) { ParentMissing(t, t1, t1, p, Dir(0, 0, 0)); }
      if !ok || (env.slash && dir == []) { return false; }
      if LinkFree(t) && Closed(t) && dir != [] { MadeAboveSolid(env, t, dir); }
      var err := MkdirCall(dir, env.newMode);
      if LinkFree(t) { ParentMissing(t, t1, tree, p, Dir(env.newMode, env.uid, env.gid)); }
      if LinkFree(t) && Closed(t) && err == Ok { MadeOneMore(env, t, p); }
      return err == Ok;
    }

    method CreateDirectory(p: Path, mode: nat, uid: nat, gid: nat) returns (ok: bool)
      modifies this
      ensures LinkFree(old(tree)) ==> LinkFree(tree) && OnlyAt(old(tree), tree, p)
      ensures Closed(old(tree)) ==> Closed(tree)
      ensures Solid(old(tree), p) && p !in old(tree) && ok ==> tree == old(tree)[p := Dir(mode, uid, gid)]
      ensures Solid(old(tree), p) && p !in old(tree) && env.Benign() ==> ok
    {
      if LinkFree(tree) { LinkFreeLocates(env, tree, p); }
      var err := MkdirCall(p, 0);
      if err == Eexist {
        var refused := Call();
        var where_ := Resolve(env, tree, p);
        if refused || !(where_.At? && where_.path in tree && tree[where_.path].Dir?) { return false; }
      }
      if Solid(tree, p) && p in tree { SolidUpdate(tree, p, SetMode(tree[p], mode)); }
      ok := ChmodCall(p, mode);
      if !ok { return; }
      ok := ChownCall(p, uid, gid);
    }

    method ChmodCall(p: Path, mode: nat) returns (ok: bool)
      modifies this
      ensures LinkFree(old(tree)) ==> LinkFree(tree) && OnlyAt(old(tree), tree, p)
      ensures Closed(old(tree)) ==> Closed(tree)
      ensures Solid(old(tree), p) && p in old(tree) && !old(tree)[p].Lnk? && ok ==>
        tree == old(tree)[p := SetMode(old(tree)[p], mode)]
      ensures Solid(old(tree), p) && p in old(tree) && !old(tree)[p].Lnk? && env.Benign() ==> ok
      ensures Solid(old(tree), p) && (p in old(tree) ==> old(tree)[p].Lnk? && env.Dangling()) ==>
        !ok && tree == old(tree)
    {
      if LinkFree(tree) { LinkFreeLocates(env, tree, p); }
      if Solid(tree, p) { SolidLocates(env, tree, p); }
      var refused := Call();
      if refused { return false; }
      var done := Chmod(env, tree, p, mode);
      tree, ok := done.0, done.1;
    }

    method ChownCall(p: Path, uid: nat, gid: nat) returns (ok: bool)
      modifies this
      ensures LinkFree(old(tree)) ==> LinkFree(tree) && OnlyAt(old(tree), tree, p)
      ensures Closed(old(tree)) ==> Closed(tree)
      ensures Solid(old(tree), p) && p in old(tree) && !old(tree)[p].Lnk? && ok ==>
        tree == old(tree)[p := SetOwner(old(tree)[p], uid, gid)]
      ensures Solid(old(tree), p) && p in old(tree) && !old(tree)[p].Lnk? && env.Benign() ==> ok
    {
      if LinkFree(tree) { LinkFreeLocates(env, tree, p); }
      if Solid(tree, p) { SolidLocates(env, tree, p); }
      var refused := Call();
      if refused { return false; }
      var done := Chown(env, tree, p, uid, gid);
      tree, ok := done.0, done.1;
    }

    method LchownCall(p: Path, uid: nat, gid: nat) returns (ok: bool)
      modifies this
      ensures LinkFree(old(tree)) ==> LinkFree(tree) && OnlyAt(old(tree), tree, p)
      ensures Closed(old(tree)) ==> Closed(tree)
      ensures Solid(old(tree), p) && p in old(tree) && ok ==> tree == old(tree)[p := SetOwner(old(tree)[p], uid, gid)]
      ensures Solid(old(tree), p) && p in old(tree) && env.Benign() ==> ok
    {
      if LinkFree(tree) { LinkFreeLocates(env, tree, p); }
      if Solid(tree, p) { SolidLocates(env, tree, p); }
      var refused := Call();
      if refused { return false; }
      var done := Lchown(env, tree, p, uid, gid);
      tree, ok := done.0, done.1;
    }

    /** Opens, sets mode and owner through the descriptor, then clones or else copies the data. */
    method CreateFile(p: Path, e: Entry) returns (ok: bool)
      requires e.node.Reg?
      modifies this
      ensures LinkFree(old(tree)) ==> LinkFree(tree) && OnlyAt(old(tree), tree, p)
      ensures Closed(old(tree)) ==> Closed(tree)
      ensures ok ==> e.readable
      ensures Solid(old(tree), p) && p !in old(tree) && ok ==> tree == old(tree)[p := e.node]
      ensures Solid(old(tree), p) && p !in old(tree) && env.Benign() && e.readable ==> ok
    {
      if LinkFree(tree) { LinkFreeLocates(env, tree, p); }
      if Solid(tree, p) { SolidLocates(env, tree, p); }
      var refused := Call();
      if refused || !e.readable { return false; }
      refused := Call();
      if refused { return false; }
      var fd := OpenTrunc(env, tree, p, e.node.mode);
      if fd.1.None? { return false; }
      OpenTruncOpens(env, tree, p, e.node.mode);
      tree := fd.0;
      ghost var emptied := tree;
      ok := WriteFile(fd.1.value, e);
      if Closed(emptied) { RewriteKeepsClosed(emptied, fd.1.value, tree[fd.1.value]); }
    }

    method WriteFile(q: Path, e: Entry) returns (ok: bool)
      requires e.node.Reg? && q in tree && tree[q].Reg?
      modifies this
      ensures q in tree && tree[q].Reg? && tree == old(tree)[q := tree[q]]
      ensures ok ==> tree[q] == e.node
      ensures env.Benign() ==> ok
    {
      var refused := Call();
      if refused { return false; }
      tree := tree[q := SetMode(tree[q], e.node.mode)];
      refused := Call();
      if refused { return false; }
      tree := tree[q := SetOwner(tree[q], e.node.uid, e.node.gid)];
      refused := Call();
      if refused {
        refused := Call();
        if refused { return false; }
      }
      tree := tree[q := tree[q].(data := e.node.data)];
      return true;
    }

    /** Writes the target that readlink delivers. */
    method WriteLink(p: Path, e: Entry) returns (ok: bool)
      requires e.node.Lnk?
      modifies this
      ensures Closed(old(tree)) ==> Closed(tree)
      ensures Solid(old(tree), p) && p !in old(tree) && ok ==> Copyable(e) && tree == old(tree)[p := Restored(e)]
      ensures Solid(old(tree), p) && p !in old(tree) && env.Benign() && Copyable(e) ==> ok
    {
      if Solid(tree, p) { SolidLocates(env, tree, p); }
      var refused := Call();
      var target := if refused then "" else ReadLink(e);
      refused := Call();
      if refused { return false; }
      if Solid(tree, p) { SolidUpdate(tree, p, Lnk(env.uid, env.gid, target)); }
      if Closed(tree) { SymlinkKeepsClosed(env, tree, p, target); }
      var done := Symlink(env, tree, p, target);
      tree, ok := done.0, done.1;
      if !ok { return; }
      ok := LchownCall(p, e.node.uid, e.node.gid);
    }

    /** readlink, symlink and lchown. */
    method CreateLink(p: Path, e: Entry) returns (ok: bool)
      requires e.node.Lnk?
      modifies this
      ensures Closed(old(tree)) ==> Closed(tree)
      ensures Solid(old(tree), p) && p !in old(tree) && ok ==> tree == old(tree)[p := Restored(e)]
      ensures Solid(old(tree), p) && p !in old(tree) && ok ==>
        tree == old(tree)[p := if |e.node.target| <= 1024 then e.node else e.node.(target := e.node.target[..1024])]
      ensures Solid(old(tree), p) && p !in old(tree) && ok ==> e.readable && e.node.target != ""
      ensures Solid(old(tree), p) && p !in old(tree) && env.Benign() && e.readable && e.node.target != "" ==> ok
    {
      RestoredLink(e);
      ok := WriteLink(p, e);
    }

    method CreateAllTypes(pre: Tree, p: Path) returns (ok: bool)
      modifies this
      ensures LinkFree(old(tree)) && LinkFree(View(pre)) ==> LinkFree(tree) && OnlyAtOrMissingAbove(old(tree), tree, p)
      ensures Closed(old(tree)) ==> Closed(tree)
      ensures ok ==> p in pre
      ensures Solid(old(tree), p) && p !in old(tree) && ok ==>
        CreateFine(env.slash, pre[p], p) && tree == old(tree)[p := Restored(pre[p])]
      ensures Solid(old(tree), p) && env.Benign() && p in pre && p !in old(tree) ==>
        CreateFine(env.slash, pre[p], p) ==> ok
      ensures p != [] && p !in old(tree) && Plain(old(tree), pre) ==> Remade(env, old(tree), tree, pre, p, ok)
    {
      var refused := Call();
      if refused || p !in pre { return false; }
      ghost var t := tree;
      ok := CreateParentDirectories(p);
      if !ok { return; }
      if p != [] && Plain(t, pre) { MadeAboveSolid(env, t, p); }
      var e := pre[p];
      assert LinkFree(View(pre)) ==> !View(pre)[p].Lnk?;
      match e.node
      case Dir(mode, uid, gid) => ok := CreateDirectory(p, mode, uid, gid);
      case Reg(_, _, _, _) => ok := CreateFile(p, e);
      case Lnk(_, _, _) => ok := CreateLink(p, e);
    }

    /** Deletes a file or link and writes it anew; a directory has no content. */
    method RewriteContent(p: Path, e: Entry) returns (ok: bool)
      requires !e.node.Dir?
      modifies this
      ensures LinkFree(old(tree)) && !e.node.Lnk? ==> LinkFree(tree) && OnlyAt(old(tree), tree, p)
      ensures Closed(old(tree)) ==> Closed(tree)
      ensures Solid(old(tree), p) && ok ==> Copyable(e) && tree == old(tree)[p := Restored(e)]
      ensures Solid(old(tree), p) && Closed(old(tree)) && p in old(tree) && !old(tree)[p].Dir? ==>
        env.Benign() && Copyable(e) ==> ok
    {
      if Solid(tree, p) { SolidRemove(tree, p); }
      if Closed(tree) && p in tree && !tree[p].Dir? {
        forall q | q in tree && p < q ensures false { NothingBelowLeaf(tree, p, q); }
      }
      ghost var before := tree;
      ok := DeleteAllTypes(p);
      if !ok { return; }
      if e.node.Reg? {
        ok := CreateFile(p, e);
      } else {
        ok := CreateLink(p, e);
      }
      assert Solid(before, p) ==> (before - {p})[p := Restored(e)] == before[p := Restored(e)];
    }

    method ModifyAllTypes(pre: Tree, p: Path, status: Status) returns (ok: bool)
      modifies this
      ensures LinkFree(old(tree)) && LinkFree(View(pre)) ==> LinkFree(tree) && OnlyAtOrMissingAbove(old(tree), tree, p)
      ensures Closed(old(tree)) ==> Closed(tree)
      ensures ok ==> p in pre
      ensures Modifiable(old(tree), pre, p) && (env.Dangling() || !ChmodsLink(pre[p], status)) && ok ==>
        ModifyFine(env.slash, pre[p], p, status) && tree == old(tree)[p := Modified(pre[p], old(tree)[p], status)]
      ensures Modifiable(old(tree), pre, p) && env.Benign() && ModifyFine(env.slash, pre[p], p, status) ==> ok
    {
      var refused := Call();
      if refused || p !in pre { return false; }
      ok := CreateParentDirectories(p);
      if !ok { return; }
      var e := pre[p];
      assert LinkFree(View(pre)) ==> !View(pre)[p].Lnk?;
      ok := ApplyStatus(p, e, status);
    }

    method ApplyStatus(p: Path, e: Entry, status: Status) returns (ok: bool)
      modifies this
      ensures LinkFree(old(tree)) && !e.node.Lnk? ==> LinkFree(tree) && OnlyAt(old(tree), tree, p)
      ensures Closed(old(tree)) ==> Closed(tree)
      ensures KindMatches(old(tree), p, e) && (env.Dangling() || !ChmodsLink(e, status)) && ok ==>
        ContentFine(e, status) && !ChmodsLink(e, status) && tree == old(tree)[p := Modified(e, old(tree)[p], status)]
      ensures KindMatches(old(tree), p, e) && env.Benign() && ContentFine(e, status) && !ChmodsLink(e, status) ==> ok
    {
      ghost var before := tree;
      if Has(status, CONTENT) && !e.node.Dir? {
        ok := RewriteContent(p, e);
        if !ok { return; }
        ghost var rewritten := tree;
        ok := ApplyAttributes(p, e, status);
        if LinkFree(before) && !e.node.Lnk? { OnlyAtTransitive(before, rewritten, tree, p); }
        if KindMatches(before, p, e) { ContentThenAttributes(env, before, rewritten, tree, p, e, status, ok); }
      } else {
        ok := ApplyAttributes(p, e, status);
      }
    }

    method ApplyAttributes(p: Path, e: Entry, status: Status) returns (ok: bool)
      modifies this
      ensures LinkFree(old(tree)) ==> LinkFree(tree) && OnlyAt(old(tree), tree, p)
      ensures Closed(old(tree)) ==> Closed(tree)
      ensures KindMatches(old(tree), p, e) ==> Attributed(env, old(tree), tree, p, e, status, ok)
    {
      ok := true;
      ghost var before := tree;
      if Has(status, PERMISSIONS) {
        ok := ChmodCall(p, e.node.Mode());
        if !ok { return; }
      }
      ghost var chmodded := tree;
      if KindMatches(before, p, e) { SolidUpdate(before, p, SetMode(before[p], e.node.Mode())); }
      if Has(status, USER | GROUP) {
        ok := LchownCall(p, e.node.uid, e.node.gid);
      }
      if KindMatches(before, p, e) && !ChmodsLink(e, status) { OwnerAfterMode(before, chmodded, tree, p, e, status); }
    }

    /** First part of doUndo. */
    method UndoDelete(pre: Tree, f: File) returns (ok: bool)
      modifies this
      ensures Framed(old(tree), tree, pre, Parse(f.name))
      ensures Undoable(old(tree), pre, f) ==> Deleted(env, old(tree), tree, f, ok)
      ensures Has(f.status, CREATED) || Has(f.status, TYPE) || (ok && tree == old(tree))
      ensures Blocked(old(tree), f) ==> !ok
    {
      UndoParts(f.status);
      ok := true;
      if Has(f.status, CREATED) || Has(f.status, TYPE) {
        ok := DeleteAllTypes(Parse(f.name));
      }
    }

    /** Second part. */
    method UndoCreate(pre: Tree, f: File) returns (ok: bool)
      modifies this
      ensures Framed(old(tree), tree, pre, Parse(f.name))
      ensures !(Has(f.status, DELETED) || Has(f.status, TYPE)) ==> ok && tree == old(tree)
      ensures Has(f.status, DELETED) || Has(f.status, TYPE) ==> Created(env, old(tree), tree, pre, Parse(f.name), ok)
      ensures Absent(old(tree), pre, f) ==> Remade(env, old(tree), tree, pre, Parse(f.name), ok)
    {
      ok := true;
      if Has(f.status, DELETED) || Has(f.status, TYPE) {
        ok := CreateAllTypes(pre, Parse(f.name));
      }
    }

    /** Third part. */
    method UndoModify(pre: Tree, f: File) returns (ok: bool)
      modifies this
      ensures Framed(old(tree), tree, pre, Parse(f.name))
      ensures !Has(f.status, CONTENT | PERMISSIONS | USER | GROUP) ==> ok && tree == old(tree)
      ensures Has(f.status, CONTENT | PERMISSIONS | USER | GROUP) ==>
        Modifies(env, old(tree), tree, pre, Parse(f.name), f.status, ok)
    {
      ok := true;
      if Has(f.status, CONTENT | PERMISSIONS | USER | GROUP) {
        ok := ModifyAllTypes(pre, Parse(f.name), f.status);
      }
    }

    /** The three parts of an undo; a failing part does not keep the next from running. */
    method DoUndo(pre: Tree, f: File) returns (ok: bool)
      modifies this
      ensures Framed(old(tree), tree, pre, Parse(f.name))
      ensures Undoable(old(tree), pre, f) ==> Exact(env, old(tree), tree, pre, f, ok)
      ensures Absent(old(tree), pre, f) ==> Remade(env, old(tree), tree, pre, Parse(f.name), ok)
      ensures Blocked(old(tree), f) ==> !ok
    {
      UndoParts(f.status);
      ghost var p, t := Parse(f.name), tree;
      var ok1 := UndoDelete(pre, f);
      ghost var t1 := tree;
      var ok2 := UndoCreate(pre, f);
      ghost var t2 := tree;
      var ok3 := UndoModify(pre, f);
      FramedTransitive(t, t1, t2, pre, p);
      FramedTransitive(t, t2, tree, pre, p);
      if Undoable(t, pre, f) {
        UndoneByParts(env, t, t1, t2, tree, pre, f, ok1, ok2, ok3);
      }
      return ok1 && ok2 && ok3;
    }
  }
}
