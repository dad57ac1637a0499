/** snapper/Compare.cc: the status of one path, and the merge walk over two trees. */
module Compare {
  import opened Names
  import opened Status
  import opened Trees

  const BLOCK_SIZE: nat := 4096

  const READLINK_MAX: nat := 1024

  /** Whether two regular files pass for equal: a time stamp or an inode settles it before any data is read. */
  predicate SameContentReg(e1: Entry, e2: Entry)
    requires e1.node.Reg? && e2.node.Reg?
  {
    || e1.mtime == e2.mtime
    || (|e1.node.data| == |e2.node.data|
        && (|e1.node.data| == 0 || e1.inode == e2.inode
            || (e1.readable && e2.readable && e1.node.data == e2.node.data)))
  }

  /** readlink fills a buffer of READLINK_MAX bytes; a failed call leaves the empty string. */
  function ReadLink(e: Entry): string
    requires e.node.Lnk?
  {
    if !e.readable then ""
    else if |e.node.target| > READLINK_MAX then e.node.target[..READLINK_MAX]
    else e.node.target
  }

  /** Only a link of length 0 counts as a failed read here: the -1 of a failing readlink converts to true. */
  predicate SameContentLnk(e1: Entry, e2: Entry)
    requires e1.node.Lnk? && e2.node.Lnk?
  {
    || e1.mtime == e2.mtime
    || (!(e1.readable && e1.node.target == "") && !(e2.readable && e2.node.target == "")
        && ReadLink(e1) == ReadLink(e2))
  }

  predicate SameContent(e1: Entry, e2: Entry)
    requires e1.node.SameKind(e2.node)
  {
    match e1.node
    case Dir(_, _, _) => true
    case Reg(_, _, _, _) => SameContentReg(e1, e2)
    case Lnk(_, _, _) => SameContentLnk(e1, e2)
  }

  function CmpFiles(e1: Entry, e2: Entry): (s: Status)
    ensures !Has(s, CREATED | DELETED)
  {
    var n1, n2 := e1.node, e2.node;
    Bits(!n1.SameKind(n2), n1.SameKind(n2) && !SameContent(e1, e2),
         n1.Mode() != n2.Mode(), n1.uid != n2.uid, n1.gid != n2.gid)
  }

  lemma CmpFilesSymmetric(e1: Entry, e2: Entry)
    ensures CmpFiles(e1, e2) == CmpFiles(e2, e1)
  {
  }

  /** What the flag for content says of two entries. An equal time stamp settles everything; after that two files are
      equal in their data, unless they differ in size, or are one file, or cannot be read; and two links in what the
      buffer holds of their targets, unless one of them cannot be read. */
  ghost predicate ContentTold(content: bool, e1: Entry, e2: Entry) {
    var n1, n2 := e1.node, e2.node;
    && (e1.mtime == e2.mtime || n1.Dir? || n2.Dir? || n1.Reg? != n2.Reg? ==> !content)
    && (n1.Reg? && n2.Reg? && e1.mtime != e2.mtime ==>
          && (|n1.data| != |n2.data| ==> content)
          && (n1.data == n2.data == "" ==> !content)
          && (|n1.data| == |n2.data| && e1.inode == e2.inode ==> !content)
          && (e1.readable && e2.readable && e1.inode != e2.inode ==> (content <==> n1.data != n2.data))
          && (!(e1.readable && e2.readable) && e1.inode != e2.inode && n1.data != "" ==> content))
    && (n1.Lnk? && n2.Lnk? && e1.mtime != e2.mtime && n1.target != "" && n2.target != "" ==>
          && (e1.readable && e2.readable && |n1.target| <= 1024 && |n2.target| <= 1024 ==>
                (content <==> n1.target != n2.target))
          && (e1.readable && e2.readable && |n1.target| > 1024 && |n2.target| > 1024 ==>
                (content <==> n1.target[..1024] != n2.target[..1024]))
          && (e1.readable != e2.readable ==> content)
          && (!e1.readable && !e2.readable ==> !content))
  }

  /** Each flag of two entries, from their fields. */
  lemma CmpFilesTells(e1: Entry, e2: Entry)
    ensures Has(CmpFiles(e1, e2), TYPE) <==> e1.node.Dir? != e2.node.Dir? || e1.node.Reg? != e2.node.Reg?
    ensures !e1.node.Lnk? && !e2.node.Lnk? ==> (Has(CmpFiles(e1, e2), PERMISSIONS) <==> e1.node.mode != e2.node.mode)
    ensures e1.node.Lnk? && !e2.node.Lnk? ==> (Has(CmpFiles(e1, e2), PERMISSIONS) <==> e2.node.mode != 0x1FF)
    ensures !e1.node.Lnk? && e2.node.Lnk? ==> (Has(CmpFiles(e1, e2), PERMISSIONS) <==> e1.node.mode != 0x1FF)
    ensures e1.node.Lnk? && e2.node.Lnk? ==> !Has(CmpFiles(e1, e2), PERMISSIONS)
    ensures Has(CmpFiles(e1, e2), USER) <==> e1.node.uid != e2.node.uid
    ensures Has(CmpFiles(e1, e2), GROUP) <==> e1.node.gid != e2.node.gid
    ensures ContentTold(Has(CmpFiles(e1, e2), CONTENT), e1, e2)
  {
  }

  /** The block-wise comparison reads no more than it needs and decides SameContentReg. */
  method CmpFilesContentReg(e1: Entry, e2: Entry) returns (equal: bool)
    requires e1.node.Reg? && e2.node.Reg?
    ensures equal == SameContentReg(e1, e2)
    ensures ContentTold(!equal, e1, e2)
  {
    if e1.mtime == e2.mtime { return true; }
    var data1, data2 := e1.node.data, e2.node.data;
    if |data1| != |data2| { return false; }
    if |data1| == 0 && |data2| == 0 { return true; }
    if e1.inode == e2.inode { return true; }
    if !e1.readable { return false; }
    if !e2.readable { return false; }
    var length := |data1|;
    while length > 0
      invariant 0 <= length <= |data1|
      invariant data1[..|data1| - length] == data2[..|data1| - length]
    {
      var t := if BLOCK_SIZE < length then BLOCK_SIZE else length;
      var offset := |data1| - length;
      var block1, block2 := data1[offset..offset + t], data2[offset..offset + t];
      if block1 != block2 { return false; }
      assert data1[..offset + t] == data1[..offset] + block1;
      assert data2[..offset + t] == data2[..offset] + block2;
      length := length - t;
    }
    assert data1[..|data1|] == data1 && data2[..|data1|] == data2;
    return true;
  }

  /** The body of cmpFiles, flag by flag. */
  method CmpFilesStep(e1: Entry, e2: Entry) returns (status: Status)
    ensures status == CmpFiles(e1, e2)
  {
    status := 0;
    if !e1.node.SameKind(e2.node) {
      status := status | TYPE;
    } else {
      var equal := true;
      if e1.node.Reg? {
        equal := CmpFilesContentReg(e1, e2);
      } else if e1.node.Lnk? {
        equal := SameContentLnk(e1, e2);
      }
      if !equal { status := status | CONTENT; }
    }
    if e1.node.Mode() != e2.node.Mode() { status := status | PERMISSIONS; }
    if e1.node.uid != e2.node.uid { status := status | USER; }
    if e1.node.gid != e2.node.gid { status := status | GROUP; }
  }

  /** What a comparison owes every path: 0 for a path that is the same, hidden, or the root itself. */
  function StatusAt(t1: Tree, t2: Tree, p: Path): Status {
    if p == [] || !Outside(p) then 0
    else if p in t1 && p in t2 then CmpFiles(t1[p], t2[p])
    else if p in t1 then DELETED
    else if p in t2 then CREATED
    else 0
  }

  /** The difference of two trees: every path with a nonzero status. */
  function Diff(t1: Tree, t2: Tree): map<Path, Status> {
    map p | p in t1.Keys + t2.Keys && StatusAt(t1, t2, p) != 0 :: StatusAt(t1, t2, p)
  }

  /** Comparing in the other direction inverts every status and changes nothing else. */
  lemma DiffAntisymmetric(t1: Tree, t2: Tree)
    ensures Diff(t2, t1) == map p | p in Diff(t1, t2) :: InvertStatus(Diff(t1, t2)[p])
  {
    forall p ensures StatusAt(t2, t1, p) == InvertStatus(StatusAt(t1, t2, p)) {
      if p in t1 && p in t2 {
        CmpFilesSymmetric(t1[p], t2[p]);
        NoBitsNoInvert(CmpFiles(t1[p], t2[p]));
      }
    }
    var d1, d2 := Diff(t1, t2), Diff(t2, t1);
    assert d2.Keys == d1.Keys;
  }

  lemma NoBitsNoInvert(s: Status)
    requires !Has(s, CREATED | DELETED)
    ensures InvertStatus(s) == s
  {
  }
}
