/** Directory trees as finite, prefix-closed maps from paths to nodes. */
module Trees {
  import opened Names

  /** What an undo has to restore: kind, content, mode and owner. */
  datatype Node =
    | Dir(mode: nat, uid: nat, gid: nat)
    | Reg(mode: nat, uid: nat, gid: nat, data: string)
    | Lnk(uid: nat, gid: nat, target: string)
  {
    /** The permission bits of st_mode; those of a symbolic link are fixed. */
    function Mode(): nat {
      if Lnk? then LINK_MODE else mode
    }

    predicate SameKind(other: Node) {
      Dir? == other.Dir? && Reg? == other.Reg?
    }

    /** File data or link target; a directory has none of its own. */
    function Content(): string {
      match this
      case Dir(_, _, _) => ""
      case Reg(_, _, _, data) => data
      case Lnk(_, _, target) => target
    }

    function WithContent(content: string): Node {
      match this
      case Dir(_, _, _) => this
      case Reg(_, _, _, _) => this.(data := content)
      case Lnk(_, _, _) => this.(target := content)
    }
  }

  const LINK_MODE: nat := 0x1FF

  /** A node of a snapshot with the stamps a comparison looks at: inode stands for device and inode number together.
      An unreadable file refuses open or readlink. */
  datatype Entry = Entry(node: Node, mtime: int, inode: int, readable: bool)

  type Tree = map<Path, Entry>

  type Nodes = map<Path, Node>

  function View(t: Tree): Nodes {
    map p | p in t :: t[p].node
  }

  /** Every node but the root is an entry of a directory. */
  predicate Closed(t: Nodes) {
    && [] in t && t[[]].Dir?
    && forall p :: p in t && p != [] ==> Parent(p) in t && t[Parent(p)].Dir?
  }

  predicate ValidTree(t: Tree) {
    Closed(View(t))
  }

  lemma {:induction false} AncestorsAreDirs(t: Nodes, a: Path, p: Path)
    requires Closed(t) && p in t && a < p
    ensures a in t && t[a].Dir?
  {
    if a != Parent(p) {
      assert a < Parent(p);
      AncestorsAreDirs(t, a, Parent(p));
    }
  }

  /** Where every snapshot lives; excluded from comparisons together with all below it. */
  const SNAPSHOTS_DIR: Path := [".snapshots"]

  predicate Outside(p: Path) {
    !(SNAPSHOTS_DIR <= p)
  }

  /** The entries of a directory. */
  function Children(t: Tree, dir: Path): set<Name> {
    set p | p in t && p != [] && Parent(p) == dir :: Base(p)
  }

  lemma ChildrenAre(t: Tree, dir: Path, n: Name)
    ensures n in Children(t, dir) <==> dir + [n] in t
  {
    ParentAndBase(dir, n);
    if n in Children(t, dir) {
      var p :| p in t && p != [] && Parent(p) == dir && Base(p) == n;
      assert p == dir + [n];
    }
  }

  /** readdir: every entry once, in no particular order. */
  method Entries(t: Tree, dir: Path) returns (names: seq<Name>)
    ensures multiset(names) == multiset(Children(t, dir))
  {
    var left := Children(t, dir);
    names := [];
    while left != {}
      invariant left <= Children(t, dir)
      invariant multiset(names) + multiset(left) == multiset(Children(t, dir))
      decreases |left|
    {
      var n :| n in left;
      names, left := names + [n], left - {n};
    }
  }
}
