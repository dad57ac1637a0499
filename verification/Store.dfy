/** The snapshots of a subvolume and the cache of comparisons kept beside them
    (snapper/Snapshot.cc, snapper/Comparison.cc). */
module Store {
  import opened Names
  import opened Status
  import opened Trees
  import opened Compare
  import opened CmpDirs
  import opened FileLists
  import opened FileText

  datatype SnapshotType = SINGLE | PRE | POST

  datatype Snapshot = Snapshot(kind: SnapshotType, num: nat, preNum: nat)

  /** A numbered directory below /.snapshots: its file lists, and whether an unknown file keeps it from being
      removed. */
  datatype InfoDir = InfoDir(filelists: map<nat, string>, stray: bool)

  /** Index of the snapshot with a number; |entries| when there is none. */
  function Find(entries: seq<Snapshot>, num: nat): (i: nat)
    ensures i <= |entries| && (i < |entries| ==> entries[i].num == num)
    ensures forall k :: 0 <= k < i ==> entries[k].num != num
  {
    if entries == [] || entries[0].num == num then 0 else 1 + Find(entries[1..], num)
  }

  /** Index of the POST of a PRE; |entries| when there is none. */
  function FindPost(entries: seq<Snapshot>, preNum: nat): (i: nat)
    ensures i <= |entries| && (i < |entries| ==> entries[i].kind == POST && entries[i].preNum == preNum)
    ensures forall k :: 0 <= k < i ==> !(entries[k].kind == POST && entries[k].preNum == preNum)
  {
    if entries == [] || (entries[0].kind == POST && entries[0].preNum == preNum) then 0
    else 1 + FindPost(entries[1..], preNum)
  }

  /** The list starts with the live system and its numbers grow strictly. */
  ghost predicate Numbered(entries: seq<Snapshot>) {
    && entries != [] && entries[0] == Snapshot(SINGLE, 0, 0)
    && forall i, j :: 0 <= i < j < |entries| ==> entries[i].num < entries[j].num
  }

  /** Every POST names an older PRE, or a number nobody has any more; no two name the same. */
  ghost predicate Paired(entries: seq<Snapshot>) {
    && (forall e :: e in entries && e.kind == POST ==> 0 < e.preNum < e.num)
    && (forall e, g :: e in entries && g in entries && e.kind == POST && g.num == e.preNum ==> g.kind == PRE)
    && (forall e, g :: e in entries && g in entries && e.kind == POST && g.kind == POST && e.preNum == g.preNum ==>
          e == g)
  }

  /** A text that save wrote for the comparison of t1 with t2. */
  ghost predicate FilelistOf(text: string, t1: Tree, t2: Tree) {
    exists fs :: IsListing(fs, DiffFiles(t1, t2)) && text == Encode(fs)
  }

  /** The numbers in the list; 0 is the live system. */
  function Nums(entries: seq<Snapshot>): set<nat> {
    set e | e in entries :: e.num
  }

  /** Directory b holds a file list named after a. */
  predicate Cached(infos: map<nat, InfoDir>, a: nat, b: nat) {
    b in infos && a in infos[b].filelists
  }

  /** A cached file list belongs to two existing snapshots and is what comparing them now would be written as. */
  ghost predicate CellTrue(entries: seq<Snapshot>, infos: map<nat, InfoDir>, trees: map<nat, Tree>, a: nat, b: nat) {
    Cached(infos, a, b) ==>
      0 < a < b && {a, b} <= Nums(entries) && {a, b} <= trees.Keys
      && FilelistOf(infos[b].filelists[a], trees[a], trees[b])
  }

  ghost predicate CacheTrue(entries: seq<Snapshot>, infos: map<nat, InfoDir>, trees: map<nat, Tree>) {
    forall a: nat, b: nat :: CellTrue(entries, infos, trees, a, b)
  }

  /** No reported path contains a line break. */
  ghost predicate NoLineBreaks(t1: Tree, t2: Tree) {
    forall p :: p in Diff(t1, t2) ==> '\n' !in Render(p)
  }

  lemma StatusPrintable(t1: Tree, t2: Tree, p: Path)
    ensures Printable(StatusAt(t1, t2, p))
  {
  }

  /** A comparison can be written down faithfully if and only if no reported path contains a line break. */
  lemma ListingWritable(fs: seq<File>, t1: Tree, t2: Tree)
    requires IsListing(fs, DiffFiles(t1, t2))
    ensures (forall f :: f in fs ==> Writable(f)) <==> NoLineBreaks(t1, t2)
  {
    forall f | f in fs && NoLineBreaks(t1, t2) ensures Writable(f) {
      InListing(fs, DiffFiles(t1, t2), f);
      var p :| p in Diff(t1, t2) && f == FileAt(t1, t2, p);
      StatusPrintable(t1, t2, p);
    }
    if forall f :: f in fs ==> Writable(f) {
      forall p | p in Diff(t1, t2) ensures '\n' !in Render(p) {
        InListing(fs, DiffFiles(t1, t2), FileAt(t1, t2, p));
        assert FileAt(t1, t2, p) in DiffFiles(t1, t2);
      }
    }
  }

  lemma InvertFileAt(t1: Tree, t2: Tree, p: Path)
    requires p in Diff(t1, t2)
    ensures p in Diff(t2, t1) && Invert(FileAt(t1, t2, p)) == FileAt(t2, t1, p)
  {
  }

  lemma InvertedMembers(fs: seq<File>, t1: Tree, t2: Tree, g: File)
    requires IsListing(fs, DiffFiles(t1, t2))
    ensures g in InvertAll(fs) ==> g in DiffFiles(t2, t1)
    ensures g in DiffFiles(t2, t1) ==> g in InvertAll(fs)
  {
    var gs := InvertAll(fs);
    if g in gs {
      var i :| 0 <= i < |gs| && gs[i] == g;
      InListing(fs, DiffFiles(t1, t2), fs[i]);
      var p :| p in Diff(t1, t2) && fs[i] == FileAt(t1, t2, p);
      InvertFileAt(t1, t2, p);
    }
    if g in DiffFiles(t2, t1) {
      var p :| p in Diff(t2, t1) && g == FileAt(t2, t1, p);
      InvertFileAt(t2, t1, p);
      InvertFileAt(t1, t2, p);
      InListing(fs, DiffFiles(t1, t2), FileAt(t1, t2, p));
      var i :| 0 <= i < |fs| && fs[i] == FileAt(t1, t2, p);
      assert gs[i] == g;
    }
  }

  /** Inverting a list for one argument order gives the list for the other. */
  lemma InvertedListing(fs: seq<File>, t1: Tree, t2: Tree)
    requires IsListing(fs, DiffFiles(t1, t2))
    ensures IsListing(InvertAll(fs), DiffFiles(t2, t1))
  {
    forall g ensures g in InvertAll(fs) <==> g in DiffFiles(t2, t1) {
      InvertedMembers(fs, t1, t2, g);
    }
    AscendingListing(InvertAll(fs), DiffFiles(t2, t1));
  }

  /** What a cached text gives back, in either order, after the sort. */
  lemma LoadedIsFresh(text: string, t1: Tree, t2: Tree, invert: bool, fs: seq<File>)
    requires FilelistOf(text, t1, t2)
    requires SortedBy(fs, NameOf) && multiset(fs) == multiset(Oriented(Decode(text), invert))
    ensures IsListing(fs, if invert then DiffFiles(t2, t1) else DiffFiles(t1, t2)) <==> NoLineBreaks(t1, t2)
  {
    var ls :| IsListing(ls, DiffFiles(t1, t2)) && text == Encode(ls);
    ListingWritable(ls, t1, t2);
    if NoLineBreaks(t1, t2) {
      DecodeEncode(ls);
      InvertedListing(ls, t1, t2);
      DiffFilesUnique(t1, t2);
      DiffFilesUnique(t2, t1);
      SortedIsListing(fs, if invert then DiffFiles(t2, t1) else DiffFiles(t1, t2));
    } else {
      var p :| p in Diff(t1, t2) && '\n' in Render(p);
      InvertFileAt(t1, t2, p);
      var g := if invert then FileAt(t2, t1, p) else FileAt(t1, t2, p);
      NoBreaksRead(text, invert, g);
      assert g in multiset(fs) <==> g in Oriented(Decode(text), invert);
      if IsListing(fs, if invert then DiffFiles(t2, t1) else DiffFiles(t1, t2)) {
        InListing(fs, if invert then DiffFiles(t2, t1) else DiffFiles(t1, t2), g);
      }
    }
  }

  /** A name with a line break never comes out of a file list. */
  lemma NoBreaksRead(text: string, invert: bool, g: File)
    requires '\n' in g.name
    ensures g !in Oriented(Decode(text), invert)
  {
  }
}
