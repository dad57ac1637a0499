/** The system calls an undo makes, as total functions on trees; any single call may be refused. */
module Kernel {
  import opened Names
  import opened Trees

  datatype Option<T> = None | Some(value: T)

  /** The outside world: refused calls (by number), where links lead, and what new directories look like.
      slash: the subvolume is mounted at "/", so the kernel sees the paths without a prefix. */
  datatype Env = Env(refuse: nat -> bool, follow: (Nodes, Path) -> Option<Path>, slash: bool,
                     newMode: nat, uid: nat, gid: nat)
  {
    ghost predicate Benign() {
      forall n :: !refuse(n)
    }

    ghost predicate Dangling() {
      forall t, p :: follow(t, p) == None
    }
  }

  datatype Where = At(path: Path) | Enoent | Enotdir

  /** Path resolution up to the last component. */
  function Locate(env: Env, t: Nodes, p: Path): Where
    decreases |p|, 0
  {
    if p == [] then At([])
    else match Resolve(env, t, Parent(p))
      case At(d) => if d !in t then Enoent else if t[d].Dir? then At(d + [Base(p)]) else Enotdir
      case Enoent => Enoent
      case Enotdir => Enotdir
  }

  /** Path resolution that follows a link in the last component too. */
  function Resolve(env: Env, t: Nodes, p: Path): Where
    decreases |p|, 1
  {
    match Locate(env, t, p)
    case At(q) =>
      if q in t && t[q].Lnk? then
        (match env.follow(t, q)
         case Some(r) => if r in t && !t[r].Lnk? then At(r) else Enoent
         case None => Enoent)
      else At(q)
    case Enoent => Enoent
    case Enotdir => Enotdir
  }

  /** Every directory on the way to p exists. */
  ghost predicate Solid(t: Nodes, p: Path) {
    p != [] && forall a: Path :: a < p ==> DirAt(t, a)
  }

  predicate DirAt(t: Nodes, p: Path) {
    p in t && t[p].Dir?
  }

  lemma {:induction false} SolidLocates(env: Env, t: Nodes, p: Path)
    requires Solid(t, p)
    ensures Locate(env, t, p) == At(p)
    ensures !(p in t && t[p].Lnk?) ==> Resolve(env, t, p) == At(p)
    decreases |p|
  {
    var d := Parent(p);
    assert d < p && p == d + [Base(p)];
    assert DirAt(t, d);
    if d != [] {
      assert Solid(t, d);
      SolidLocates(env, t, d);
    }
    assert Locate(env, t, d) == At(d);
    assert Resolve(env, t, d) == At(d);
  }

  lemma SolidUpdate(t: Nodes, p: Path, n: Node)
    requires Solid(t, p)
    ensures Solid(t[p := n], p)
  {
    forall a: Path {:trigger DirAt(t[p := n], a)} | a < p ensures DirAt(t[p := n], a) {
      assert DirAt(t, a);
    }
  }

  lemma SolidRemove(t: Nodes, p: Path)
    requires Solid(t, p)
    ensures Solid(t - {p}, p)
  {
    forall a: Path {:trigger DirAt(t - {p}, a)} | a < p ensures DirAt(t - {p}, a) {
      assert DirAt(t, a);
    }
  }

  /** There is nothing below a file or a link. */
  lemma NothingBelowLeaf(t: Nodes, p: Path, q: Path)
    requires Closed(t) && p < q && (p in t ==> !t[p].Dir?)
    ensures q !in t
  {
    if q in t { AncestorsAreDirs(t, p, q); }
  }

  ghost predicate LinkFree(t: Nodes) {
    forall p :: p in t ==> !t[p].Lnk?
  }

  /** Without links no call reaches any path but the one it names. */
  lemma {:induction false} LinkFreeLocates(env: Env, t: Nodes, p: Path)
    requires LinkFree(t)
    ensures Locate(env, t, p).At? ==> Locate(env, t, p).path == p
    ensures Resolve(env, t, p) == Locate(env, t, p)
    decreases |p|
  {
    if p != [] {
      LinkFreeLocates(env, t, Parent(p));
      assert p == Parent(p) + [Base(p)];
    }
  }

  /** Without links a directory that is found has directories above it all the way. */
  lemma {:induction false} FoundBelowDirs(env: Env, t: Nodes, d: Path)
    requires LinkFree(t) && Resolve(env, t, d).At? && DirAt(t, Resolve(env, t, d).path)
    ensures forall a: Path :: a <= d ==> DirAt(t, a)
  {
    LinkFreeLocates(env, t, d);
    if d != [] {
      LinkFreeLocates(env, t, Parent(d));
      FoundBelowDirs(env, t, Parent(d));
      assert d == Parent(d) + [Base(d)];
      forall a: Path | a <= d ensures DirAt(t, a) {
        if a != d { assert a <= Parent(d); }
      }
    }
  }

  ghost predicate OnlyAt(t: Nodes, t': Nodes, p: Path) {
    forall q :: q != p ==> (q in t <==> q in t') && (q in t ==> t[q] == t'[q])
  }

  datatype Errno = Ok | Eexist | Other

  /** A refused call leaves the tree alone; the names of the calls are those of the C library. */
  function Rmdir(env: Env, t: Nodes, p: Path): (Nodes, bool) {
    match Locate(env, t, p)
    case At(q) =>
      if q in t && t[q].Dir? && q != [] && !(exists r :: r in t && q < r) then (t - {q}, true) else (t, false)
    case _ => (t, false)
  }

  function Unlink(env: Env, t: Nodes, p: Path): (Nodes, bool) {
    match Locate(env, t, p)
    case At(q) => if q in t && !t[q].Dir? then (t - {q}, true) else (t, false)
    case _ => (t, false)
  }

  function Mkdir(env: Env, t: Nodes, p: Path, mode: nat): (Nodes, Errno) {
    match Locate(env, t, p)
    case At(q) => if q in t then (t, Eexist) else (t[q := Dir(mode, env.uid, env.gid)], Ok)
    case _ => (t, Other)
  }

  function Symlink(env: Env, t: Nodes, p: Path, target: string): (Nodes, bool) {
    match Locate(env, t, p)
    case At(q) => if q in t || target == "" then (t, false) else (t[q := Lnk(env.uid, env.gid, target)], true)
    case _ => (t, false)
  }

  lemma SymlinkKeepsClosed(env: Env, t: Nodes, p: Path, target: string)
    requires Closed(t)
    ensures Closed(Symlink(env, t, p, target).0)
  {
  }

  lemma RmdirKeepsClosed(env: Env, t: Nodes, p: Path)
    requires Closed(t)
    ensures Closed(Rmdir(env, t, p).0)
  {
  }

  lemma UnlinkKeepsClosed(env: Env, t: Nodes, p: Path)
    requires Closed(t)
    ensures Closed(Unlink(env, t, p).0)
  {
  }

  lemma RewriteKeepsClosed(t: Nodes, q: Path, n: Node)
    requires Closed(t) && q in t && t[q].Dir? == n.Dir?
    ensures Closed(t[q := n])
  {
  }

  /** open with O_CREAT | O_TRUNC: the path of the opened file. */
  function OpenTrunc(env: Env, t: Nodes, p: Path, mode: nat): (Nodes, Option<Path>) {
    match Resolve(env, t, p)
    case At(q) =>
      if q !in t then (t[q := Reg(mode, env.uid, env.gid, "")], Some(q))
      else if t[q].Reg? then (t[q := t[q].(data := "")], Some(q))
      else (t, None)
    case _ => (t, None)
  }

  function SetMode(n: Node, mode: nat): Node {
    match n
    case Dir(_, u, g) => Dir(mode, u, g)
    case Reg(_, u, g, data) => Reg(mode, u, g, data)
    case Lnk(_, _, _) => n
  }

  function SetOwner(n: Node, uid: nat, gid: nat): Node {
    match n
    case Dir(mode, _, _) => Dir(mode, uid, gid)
    case Reg(mode, _, _, data) => Reg(mode, uid, gid, data)
    case Lnk(_, _, target) => Lnk(uid, gid, target)
  }

  function Chmod(env: Env, t: Nodes, p: Path, mode: nat): (Nodes, bool) {
    match Resolve(env, t, p)
    case At(q) => if q in t then (t[q := SetMode(t[q], mode)], true) else (t, false)
    case _ => (t, false)
  }

  function Chown(env: Env, t: Nodes, p: Path, uid: nat, gid: nat): (Nodes, bool) {
    match Resolve(env, t, p)
    case At(q) => if q in t then (t[q := SetOwner(t[q], uid, gid)], true) else (t, false)
    case _ => (t, false)
  }

  function Lchown(env: Env, t: Nodes, p: Path, uid: nat, gid: nat): (Nodes, bool) {
    match Locate(env, t, p)
    case At(q) => if q in t then (t[q := SetOwner(t[q], uid, gid)], true) else (t, false)
    case _ => (t, false)
  }

  lemma OpenTruncOpens(env: Env, t: Nodes, p: Path, mode: nat)
    requires OpenTrunc(env, t, p, mode).1.Some?
    ensures var q := OpenTrunc(env, t, p, mode).1.value; var t' := OpenTrunc(env, t, p, mode).0;
            && q in t' && t'[q].Reg? && t' == t[q := t'[q]]
            && (LinkFree(t) ==> q == p)
            && (Solid(t, p) && p !in t ==> q == p)
            && (Closed(t) ==> Closed(t'))
  {
    LocateIfClosed(env, t, p);
    if LinkFree(t) { LinkFreeLocates(env, t, p); }
    if Solid(t, p) { SolidLocates(env, t, p); }
  }

  lemma LocateIfClosed(env: Env, t: Nodes, p: Path)
    ensures Closed(t) && Resolve(env, t, p).At? ==>
      var q := Resolve(env, t, p).path; q in t || (q != [] && DirAt(t, Parent(q)))
  {
  }
}
