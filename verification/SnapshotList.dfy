/** The list of snapshots with its operations, and comparisons served from the cache
    (class Snapshots of snapper/Snapshot.cc, class Comparison of snapper/Comparison.cc). */
module SnapshotList {
  import opened Names
  import opened Status
  import opened Trees
  import opened CmpDirs
  import opened FileLists
  import opened FileText
  import opened Sequences
  import opened Store

  /** Outcome of a request; the source throws one exception for each of the others. */
  datatype Outcome<T> = Done(value: T) | IllegalSnapshot | CreateFailed | IOError | DeleteFailed

  /** Where making a snapshot may stop; a half-written info.xml keeps its directory from being removed. */
  datatype Fate = Works | NoDirectory | NoSnapshot | NoInfo(stray: bool)

  function Last(entries: seq<Snapshot>): nat
    requires entries != []
  {
    entries[|entries| - 1].num
  }

  /** Every snapshot has its tree and its directory. */
  ghost predicate Populated(entries: seq<Snapshot>, infos: map<nat, InfoDir>, trees: map<nat, Tree>) {
    && (forall n :: n in trees ==> ValidTree(trees[n]))
    && (forall n :: n in Nums(entries) && n != 0 ==> n in infos && n in trees)
  }

  ghost predicate Sound(entries: seq<Snapshot>, infos: map<nat, InfoDir>, trees: map<nat, Tree>) {
    Numbered(entries) && Paired(entries) && Populated(entries, infos, trees) && CacheTrue(entries, infos, trees)
  }

  /** A new POST names a PRE that has none yet. */
  ghost predicate Fits(entries: seq<Snapshot>, s: Snapshot) {
    && entries != [] && s.num > Last(entries)
    && (s.kind == POST ==>
      && (exists e :: e in entries && e.kind == PRE && e.num == s.preNum && e.num != 0)
      && (forall e :: e in entries && e.kind == POST ==> e.preNum != s.preNum))
  }

  lemma AppendNumbered(entries: seq<Snapshot>, s: Snapshot)
    requires Numbered(entries) && s.num > Last(entries)
    ensures Numbered(entries + [s])
  {
  }

  lemma AtMostLast(entries: seq<Snapshot>, e: Snapshot)
    requires Numbered(entries) && e in entries
    ensures e.num <= Last(entries)
  {
  }

  /** A number that is used again never turns into the PRE of an old POST. */
  lemma AppendPaired(entries: seq<Snapshot>, s: Snapshot)
    requires Numbered(entries) && Paired(entries) && Fits(entries, s)
    ensures Paired(entries + [s])
  {
    forall e | e in entries ensures e.num <= Last(entries) {
      AtMostLast(entries, e);
    }
    forall e, g | e in entries + [s] && g in entries + [s] && e.kind == POST && g.num == e.preNum
      ensures g.kind == PRE
    {
      if e == s && g in entries {
        var pre :| pre in entries && pre.kind == PRE && pre.num == s.preNum && pre.num != 0;
        SameNum(entries, g, pre);
      }
    }
  }

  /** The number of a deleted PRE that a POST still names is never given out again while that POST exists. */
  lemma DanglingStaysDangling(entries: seq<Snapshot>, e: Snapshot, taken: set<nat>, num: nat)
    requires Numbered(entries) && Paired(entries) && e in entries && e.kind == POST
    requires FirstFree(taken, Last(entries), num)
    ensures num > e.num > e.preNum
  {
  }

  lemma SameNum(entries: seq<Snapshot>, e: Snapshot, g: Snapshot)
    requires Numbered(entries) && e in entries && g in entries && e.num == g.num
    ensures e == g
  {
  }

  lemma RemoveKeepsPairs(entries: seq<Snapshot>, i: nat)
    requires Numbered(entries) && Paired(entries) && 0 < i < |entries|
    ensures Numbered(Without(entries, i)) && Paired(Without(entries, i))
    ensures Nums(Without(entries, i)) == Nums(entries) - {entries[i].num}
  {
    var rest := Without(entries, i);
    forall e ensures e in rest <==> e in entries && e != entries[i] {
      MemberWithout(entries, i, e);
    }
    forall e | e in entries && e.num == entries[i].num ensures e == entries[i] {
      SameNum(entries, e, entries[i]);
    }
  }

  lemma MemberWithout(entries: seq<Snapshot>, i: nat, e: Snapshot)
    requires Numbered(entries) && i < |entries|
    ensures e in Without(entries, i) <==> e in entries && e != entries[i]
  {
  }

  /** The file list for a and b is an old one, and so are its two snapshots. */
  ghost predicate Kept(entries: seq<Snapshot>, infos: map<nat, InfoDir>, trees: map<nat, Tree>,
                       entries': seq<Snapshot>, infos': map<nat, InfoDir>, trees': map<nat, Tree>, a: nat, b: nat) {
    Cached(infos', a, b) ==>
      && Cached(infos, a, b) && infos'[b].filelists[a] == infos[b].filelists[a]
      && ({a, b} <= Nums(entries) ==> {a, b} <= Nums(entries'))
      && ({a, b} <= trees.Keys ==> {a, b} <= trees'.Keys && trees'[a] == trees[a] && trees'[b] == trees[b])
  }

  /** The cache stays true when file lists only disappear and the snapshots behind the others stay. */
  lemma CacheKept(entries: seq<Snapshot>, infos: map<nat, InfoDir>, trees: map<nat, Tree>,
                  entries': seq<Snapshot>, infos': map<nat, InfoDir>, trees': map<nat, Tree>)
    requires CacheTrue(entries, infos, trees)
    requires forall a: nat, b: nat :: Kept(entries, infos, trees, entries', infos', trees', a, b)
    ensures CacheTrue(entries', infos', trees')
  {
    forall a: nat, b: nat ensures CellTrue(entries', infos', trees', a, b) {
      assert CellTrue(entries, infos, trees, a, b);
      assert Kept(entries, infos, trees, entries', infos', trees', a, b);
    }
  }

  lemma BeyondLast(entries: seq<Snapshot>, num: nat)
    requires Numbered(entries) && num > Last(entries)
    ensures num !in Nums(entries)
  {
  }

  ghost predicate FirstFree(taken: set<nat>, last: nat, num: nat) {
    num > last && num !in taken && forall k :: last < k < num ==> k in taken
  }

  ghost function Above(ns: set<nat>, n: nat): nat {
    |set k | k in ns && k >= n|
  }

  lemma AboveShrinks(ns: set<nat>, n: nat)
    requires n in ns
    ensures Above(ns, n + 1) < Above(ns, n)
  {
    assert (set k | k in ns && k >= n) == (set k | k in ns && k >= n + 1) + {n};
  }

  const EMPTY_INFO := InfoDir(map[], false)

  lemma InfoAdded(entries: seq<Snapshot>, infos: map<nat, InfoDir>, trees: map<nat, Tree>, num: nat, stray: bool)
    requires Sound(entries, infos, trees) && num !in Nums(entries)
    ensures Sound(entries, infos[num := InfoDir(map[], stray)], trees)
  {
    var infos' := infos[num := InfoDir(map[], stray)];
    forall a: nat, b: nat ensures Kept(entries, infos, trees, entries, infos', trees, a, b) {
    }
    CacheKept(entries, infos, trees, entries, infos', trees);
  }

  lemma InfoRemoved(entries: seq<Snapshot>, infos: map<nat, InfoDir>, trees: map<nat, Tree>, num: nat)
    requires Sound(entries, infos, trees) && num !in Nums(entries)
    ensures Sound(entries, infos - {num}, trees)
  {
    forall a: nat, b: nat ensures Kept(entries, infos, trees, entries, infos - {num}, trees, a, b) {
      assert CellTrue(entries, infos, trees, a, b);
    }
    CacheKept(entries, infos, trees, entries, infos - {num}, trees);
  }

  lemma SnapshotAdded(entries: seq<Snapshot>, infos: map<nat, InfoDir>, trees: map<nat, Tree>, s: Snapshot, t: Tree)
    requires Sound(entries, infos, trees) && Fits(entries, s) && s.num in infos && ValidTree(t) && s.num !in trees
    ensures Sound(entries + [s], infos, trees[s.num := t])
  {
    var entries', trees' := entries + [s], trees[s.num := t];
    AppendNumbered(entries, s);
    AppendPaired(entries, s);
    AppendNums(entries, s);
    MorePopulated(entries, infos, trees, s, t);
    forall a: nat, b: nat ensures Kept(entries, infos, trees, entries', infos, trees', a, b) {
    }
    CacheKept(entries, infos, trees, entries', infos, trees');
  }

  lemma MorePopulated(entries: seq<Snapshot>, infos: map<nat, InfoDir>, trees: map<nat, Tree>, s: Snapshot, t: Tree)
    requires Populated(entries, infos, trees) && s.num in infos && ValidTree(t)
    ensures Populated(entries + [s], infos, trees[s.num := t])
  {
    AppendNums(entries, s);
  }

  lemma AppendNums(entries: seq<Snapshot>, s: Snapshot)
    ensures Nums(entries + [s]) == Nums(entries) + {s.num}
  {
  }

  lemma StrayLeft(entries: seq<Snapshot>, infos: map<nat, InfoDir>, trees: map<nat, Tree>, n: nat)
    requires Sound(entries, infos, trees) && n in infos
    ensures Sound(entries, infos[n := infos[n].(stray := true)], trees)
  {
    var infos' := infos[n := infos[n].(stray := true)];
    forall a: nat, b: nat ensures Kept(entries, infos, trees, entries, infos', trees, a, b) {
    }
    CacheKept(entries, infos, trees, entries, infos', trees);
  }

  lemma PutAndTake(trees: map<nat, Tree>, num: nat, t: Tree)
    requires num !in trees
    ensures trees[num := t] - {num} == trees
  {
  }

  function Purged(infos: map<nat, InfoDir>, nums: set<nat>, num: nat): map<nat, InfoDir> {
    map n | n in infos :: if n in nums then infos[n].(filelists := infos[n].filelists - {num}) else infos[n]
  }

  /** What the two unlinking loops of deleteSnapshot leave of the file lists. */
  function Unlinked(entries: seq<Snapshot>, infos: map<nat, InfoDir>, num: nat): map<nat, InfoDir>
    requires num in infos
  {
    Purged(infos[num := infos[num].(filelists := map[])], Nums(entries) - {0}, num)
  }

  /** The directory itself goes too, unless a stray file keeps it. */
  function AfterDelete(entries: seq<Snapshot>, infos: map<nat, InfoDir>, num: nat): map<nat, InfoDir>
    requires num in infos
  {
    if infos[num].stray then Unlinked(entries, infos, num) else Unlinked(entries, infos, num) - {num}
  }

  /** No file list speaks of the deleted number any more; all others are untouched. */
  lemma UnlinkedCells(entries: seq<Snapshot>, infos: map<nat, InfoDir>, num: nat, a: nat, b: nat)
    requires Cached(infos, a, b) ==> b in Nums(entries) && b != 0
    requires num in infos
    ensures Cached(Unlinked(entries, infos, num), a, b) <==> Cached(infos, a, b) && num != a && num != b
    ensures Cached(Unlinked(entries, infos, num), a, b) ==>
      Unlinked(entries, infos, num)[b].filelists[a] == infos[b].filelists[a]
  {
  }

  lemma SnapshotRemoved(entries: seq<Snapshot>, infos: map<nat, InfoDir>, trees: map<nat, Tree>, i: nat,
                        infos': map<nat, InfoDir>)
    requires Sound(entries, infos, trees) && 0 < i < |entries| && entries[i].num in infos
    requires infos' == AfterDelete(entries, infos, entries[i].num)
    ensures Sound(Without(entries, i), infos', trees - {entries[i].num})
  {
    var num := entries[i].num;
    var entries', trees' := Without(entries, i), trees - {num};
    RemoveKeepsPairs(entries, i);
    assert Populated(entries', infos', trees');
    forall a: nat, b: nat ensures Kept(entries, infos, trees, entries', infos', trees', a, b) {
      assert CellTrue(entries, infos, trees, a, b);
      UnlinkedCells(entries, infos, num, a, b);
    }
    CacheKept(entries, infos, trees, entries', infos', trees');
  }

  /** The comparison of two snapshots is cached. */
  predicate CachedPair(infos: map<nat, InfoDir>, num1: nat, num2: nat) {
    if num1 > num2 then Cached(infos, num2, num1) else Cached(infos, num1, num2)
  }

  function TextOf(infos: map<nat, InfoDir>, num1: nat, num2: nat): string
    requires CachedPair(infos, num1, num2)
  {
    if num1 > num2 then infos[num1].filelists[num2] else infos[num2].filelists[num1]
  }

  /** If the comparison is cached, these files are what its text holds, as seen from num1. */
  ghost predicate FromCache(infos: map<nat, InfoDir>, num1: nat, num2: nat, fs: seq<File>) {
    CachedPair(infos, num1, num2) ==> multiset(fs) == multiset(Oriented(Decode(TextOf(infos, num1, num2)), num1 > num2))
  }

  lemma {:induction false} InvertAllPermutes(fs: seq<File>, gs: seq<File>)
    requires multiset(fs) == multiset(gs)
    ensures multiset(InvertAll(fs)) == multiset(InvertAll(gs))
  {
    if fs == [] {
      assert |multiset(gs)| == 0;
    } else {
      var f := fs[0];
      assert f in multiset(gs);
      var j :| 0 <= j < |gs| && gs[j] == f;
      TakenOut(fs, 0);
      TakenOut(gs, j);
      InvertAllPermutes(Without(fs, 0), Without(gs, j));
    }
  }

  lemma TakenOut(fs: seq<File>, j: nat)
    requires j < |fs|
    ensures multiset(Without(fs, j)) == multiset(fs) - multiset{fs[j]}
    ensures multiset(InvertAll(fs)) == multiset(InvertAll(Without(fs, j))) + multiset{Invert(fs[j])}
  {
    var gs := InvertAll(fs);
    assert fs == fs[..j] + [fs[j]] + fs[j + 1..];
    assert gs == gs[..j] + [gs[j]] + gs[j + 1..];
    assert InvertAll(Without(fs, j)) == gs[..j] + gs[j + 1..];
  }

  lemma InvertAllTwice(text: string)
    ensures InvertAll(InvertAll(Decode(text))) == Decode(text)
  {
    DecodedWritable(text);
    var fs := Decode(text);
    forall i | 0 <= i < |fs| ensures InvertAll(InvertAll(fs))[i] == fs[i] {
      assert Writable(fs[i]);
      InvertStatusInvolution(fs[i].status);
    }
  }

  /** One text serves both argument orders. */
  lemma BothFromCache(infos: map<nat, InfoDir>, num1: nat, num2: nat, fs: seq<File>, gs: seq<File>)
    requires CachedPair(infos, num1, num2) && num1 != num2 && FromCache(infos, num1, num2, fs)
    requires FromCache(infos, num2, num1, gs)
    ensures multiset(gs) == multiset(InvertAll(fs))
  {
    var text := TextOf(infos, num1, num2);
    InvertAllTwice(text);
    InvertAllPermutes(fs, Oriented(Decode(text), num1 > num2));
  }

  /** The sorted files of the other order, if they are the inverted ones, are the other listing. */
  lemma InvertedBack(fs: seq<File>, gs: seq<File>, t1: Tree, t2: Tree)
    requires IsListing(fs, DiffFiles(t1, t2)) && SortedBy(gs, NameOf) && multiset(gs) == multiset(InvertAll(fs))
    ensures IsListing(gs, DiffFiles(t2, t1))
  {
    InvertedListing(fs, t1, t2);
    DiffFilesUnique(t2, t1);
    SortedIsListing(gs, DiffFiles(t2, t1));
  }

  /** When two answers, one for each order, are inverse to each other. */
  lemma BothAnswers(fs: seq<File>, gs: seq<File>, t1: Tree, t2: Tree, cached: bool, live: bool)
    requires ExactUnlessBroken(fs, t1, t2, cached) && ExactUnlessBroken(gs, t2, t1, !live) && SortedBy(gs, NameOf)
    requires !(cached && live) && (cached ==> multiset(gs) == multiset(InvertAll(fs)))
    ensures multiset(gs) == multiset(InvertAll(fs)) <==> live || NoLineBreaks(t1, t2) || cached
    ensures live || NoLineBreaks(t1, t2) ==> IsListing(fs, DiffFiles(t1, t2)) && gs == InvertAll(fs)
  {
    NoLineBreaksEitherWay(t1, t2);
    if live || NoLineBreaks(t1, t2) {
      InvertedListing(fs, t1, t2);
      ListingUnique(gs, InvertAll(fs));
    } else if !cached && multiset(gs) == multiset(InvertAll(fs)) {
      InvertedBack(fs, gs, t1, t2);
    }
  }

  function WithFilelist(infos: map<nat, InfoDir>, a: nat, b: nat, text: string): map<nat, InfoDir>
    requires b in infos
  {
    infos[b := infos[b].(filelists := infos[b].filelists[a := text])]
  }

  /** At most the file list of the one comparison has been written, in the directory of the newer snapshot. */
  ghost predicate OnlyPair(infos: map<nat, InfoDir>, infos': map<nat, InfoDir>, num1: nat, num2: nat) {
    && infos'.Keys == infos.Keys
    && forall n :: n in infos ==>
         && infos'[n].stray == infos[n].stray
         && (n == num1 > num2 || n == num2 > num1 ==>
               infos'[n].filelists - {num1 + num2 - n} == infos[n].filelists - {num1 + num2 - n})
         && (!(n == num1 > num2 || n == num2 > num1) ==> infos'[n] == infos[n])
  }

  lemma WrittenIsOnlyPair(infos: map<nat, InfoDir>, num1: nat, num2: nat, text: string)
    requires num1 != num2
    ensures OnlyPair(infos, PairWritten(infos, num1, num2, text), num1, num2)
  {
  }

  function PairWritten(infos: map<nat, InfoDir>, num1: nat, num2: nat, text: string): map<nat, InfoDir> {
    var a, b := if num1 > num2 then num2 else num1, if num1 > num2 then num1 else num2;
    if b in infos then WithFilelist(infos, a, b, text) else infos
  }

  /** A listing is exact, except one that went through the cache with a line break in a path. */
  ghost predicate ExactUnlessBroken(listing: seq<File>, t1: Tree, t2: Tree, cached: bool) {
    IsListing(listing, DiffFiles(t1, t2)) <==> NoLineBreaks(t1, t2) || !cached
  }

  lemma SavedListing(text: string, fs: seq<File>, t1: Tree, t2: Tree, invert: bool)
    requires IsListing(fs, DiffFiles(t1, t2)) && text == Encode(Oriented(fs, invert))
    ensures if invert then FilelistOf(text, t2, t1) else FilelistOf(text, t1, t2)
  {
    InvertedListing(fs, t1, t2);
  }

  lemma NeverCurrent(entries: seq<Snapshot>, infos: map<nat, InfoDir>, trees: map<nat, Tree>, num1: nat, num2: nat)
    requires CacheTrue(entries, infos, trees) && (num1 == 0 || num2 == 0)
    ensures !CachedPair(infos, num1, num2)
  {
    assert CellTrue(entries, infos, trees, num1, num2);
    assert CellTrue(entries, infos, trees, num2, num1);
  }

  lemma NoLineBreaksEitherWay(t1: Tree, t2: Tree)
    ensures NoLineBreaks(t1, t2) <==> NoLineBreaks(t2, t1)
  {
  }

  lemma FilelistAdded(entries: seq<Snapshot>, infos: map<nat, InfoDir>, trees: map<nat, Tree>, a: nat, b: nat,
                      text: string)
    requires Sound(entries, infos, trees) && 0 < a < b && a in Nums(entries) && b in Nums(entries)
    requires a in trees && b in trees && b in infos && FilelistOf(text, trees[a], trees[b])
    ensures Sound(entries, WithFilelist(infos, a, b, text), trees)
  {
    forall c: nat, d: nat ensures CellTrue(entries, WithFilelist(infos, a, b, text), trees, c, d) {
      assert CellTrue(entries, infos, trees, c, d);
    }
  }

  lemma ListingSaved(entries: seq<Snapshot>, infos: map<nat, InfoDir>, trees: map<nat, Tree>, num1: nat, num2: nat,
                     fs: seq<File>, text: string)
    requires Sound(entries, infos, trees) && num1 in Nums(entries) - {0} && num2 in Nums(entries) - {0} && num1 != num2
    requires num1 in trees && num2 in trees && num1 in infos && num2 in infos
    requires IsListing(fs, DiffFiles(trees[num1], trees[num2])) && text == Encode(Oriented(fs, num1 > num2))
    ensures Sound(entries, PairWritten(infos, num1, num2, text), trees)
    ensures CachedPair(PairWritten(infos, num1, num2, text), num1, num2)
  {
    SavedListing(text, fs, trees[num1], trees[num2], num1 > num2);
    if num1 > num2 {
      FilelistAdded(entries, infos, trees, num2, num1, text);
    } else {
      FilelistAdded(entries, infos, trees, num1, num2, text);
    }
  }

  datatype Request =
    | Change(tree: Tree)
    | NewSingle(fate: Fate)
    | NewPre(fate: Fate)
    | NewPost(preNum: nat, fate: Fate)
    | Drop(num: nat, deletable: bool)
    | Ask(num1: nat, num2: nat, ignored: string -> bool)
    | Stray(num: nat)

  datatype Answer =
    | Nothing
    | Number(number: Outcome<nat>)
    | Removed(removed: Outcome<()>)
    | Listed(files: Outcome<seq<File>>)

  datatype State =
    State(entries: seq<Snapshot>, infos: map<nat, InfoDir>, trees: map<nat, Tree>, system: Tree)

  ghost predicate PreWithoutPost(entries: seq<Snapshot>, preNum: nat) {
    && preNum != 0
    && (exists e :: e in entries && e.kind == PRE && e.num == preNum)
    && (forall e :: e in entries && e.kind == POST ==> e.preNum != preNum)
  }

  lemma NotPreWithoutPost(entries: seq<Snapshot>, preNum: nat)
    requires Numbered(entries)
    requires var i := Find(entries, preNum);
      i == |entries| || preNum == 0 || entries[i].kind != PRE || FindPost(entries, preNum) != |entries|
    ensures !PreWithoutPost(entries, preNum)
  {
  }

  lemma IsPreWithoutPost(entries: seq<Snapshot>, preNum: nat)
    requires Find(entries, preNum) < |entries| && preNum != 0 && entries[Find(entries, preNum)].kind == PRE
    requires FindPost(entries, preNum) == |entries|
    ensures PreWithoutPost(entries, preNum)
  {
  }

  lemma NumFound(entries: seq<Snapshot>, num: nat)
    ensures Find(entries, num) < |entries| <==> num in Nums(entries)
  {
  }

  lemma PurgedStep(infos: map<nat, InfoDir>, nums: set<nat>, num: nat, n: nat)
    requires n in infos
    ensures var was := Purged(infos, nums, num);
      Purged(infos, nums + {n}, num) == was[n := was[n].(filelists := was[n].filelists - {num})]
  {
    assert infos[n].filelists - {num} - {num} == infos[n].filelists - {num};
  }

  /** What making a snapshot leaves behind, for each fate. */
  ghost predicate Made(kind: SnapshotType, preNum: nat, fate: Fate, r: Outcome<nat>,
                       entries: seq<Snapshot>, infos: map<nat, InfoDir>, trees: map<nat, Tree>, system: Tree,
                       entries': seq<Snapshot>, infos': map<nat, InfoDir>, trees': map<nat, Tree>)
    requires entries != []
  {
    match fate
    case Works =>
      && r.Done? && FirstFree(infos.Keys + trees.Keys, Last(entries), r.value)
      && entries' == entries + [Snapshot(kind, r.value, preNum)]
      && trees' == trees[r.value := system] && infos' == infos[r.value := InfoDir(map[], false)]
    case NoDirectory =>
      r == IOError && entries' == entries && infos' == infos && trees' == trees
    case NoSnapshot =>
      r == CreateFailed && entries' == entries && infos' == infos && trees' == trees
    case NoInfo(stray) =>
      && r == IOError && entries' == entries && trees' == trees
      && (!stray ==> infos' == infos)
      && (stray ==> exists num ::
            FirstFree(infos.Keys + trees.Keys, Last(entries), num) && infos' == infos[num := InfoDir(map[], true)])
  }

  /** One snapshot less, and no file list left that speaks of it; every other file list is untouched. */
  ghost predicate Deleted(num: nat, entries: seq<Snapshot>, infos: map<nat, InfoDir>, trees: map<nat, Tree>,
                          entries': seq<Snapshot>, infos': map<nat, InfoDir>, trees': map<nat, Tree>) {
    && (exists i :: 0 <= i < |entries| && entries[i].num == num && entries' == entries[..i] + entries[i + 1..])
    && trees' == trees - {num}
    && num in infos && infos'.Keys == (if infos[num].stray then infos.Keys else infos.Keys - {num})
    && (forall n :: n in infos' ==> infos'[n].stray == infos[n].stray)
    && (forall a: nat, b: nat :: CellDeleted(num, infos, infos', a, b))
  }

  ghost predicate CellDeleted(num: nat, infos: map<nat, InfoDir>, infos': map<nat, InfoDir>, a: nat, b: nat) {
    && (Cached(infos', a, b) <==> Cached(infos, a, b) && num != a && num != b)
    && (Cached(infos', a, b) ==> infos'[b].filelists[a] == infos[b].filelists[a])
  }

  /** A stray file keeps the directory. */
  function AfterRmdir(infos: map<nat, InfoDir>, num: nat, stray: bool): map<nat, InfoDir> {
    if stray then infos[num := InfoDir(map[], true)] else infos - {num}
  }

  lemma WasMade(kind: SnapshotType, preNum: nat, fate: Fate, num: nat,
                entries: seq<Snapshot>, infos: map<nat, InfoDir>, trees: map<nat, Tree>, system: Tree)
    requires entries != [] && FirstFree(infos.Keys + trees.Keys, Last(entries), num)
    ensures Made(kind, preNum, Works, Done(num), entries, infos, trees, system,
                 entries + [Snapshot(kind, num, preNum)], infos[num := EMPTY_INFO], trees[num := system])
    ensures Made(kind, preNum, NoDirectory, IOError, entries, infos, trees, system, entries, infos, trees)
    ensures Made(kind, preNum, NoSnapshot, CreateFailed, entries, infos, trees, system,
                 entries, infos[num := EMPTY_INFO] - {num}, trees)
    ensures fate.NoInfo? ==>
      Made(kind, preNum, fate, IOError, entries, infos, trees, system,
           entries, AfterRmdir(infos[num := EMPTY_INFO], num, fate.stray), trees)
  {
  }

  /** A new snapshot is made of the live system, which it leaves alone. */
  ghost predicate MadeFrom(kind: SnapshotType, preNum: nat, fate: Fate, a: Answer, s: State, s': State) {
    && a.Number? && s.entries != [] && s'.system == s.system
    && Made(kind, preNum, fate, a.number, s.entries, s.infos, s.trees, s.system, s'.entries, s'.infos, s'.trees)
  }

  /** A comparison answers with the difference without the ignored names, unless a path with a line break came out of
      the cache; it writes at most its own file list, and does so for two snapshots that were not cached. */
  ghost predicate Compared(num1: nat, num2: nat, ignored: string -> bool, files: seq<File>, s: State, s': State)
    requires num1 == 0 || num1 in s.trees
    requires num2 == 0 || num2 in s.trees
  {
    var t1, t2 := if num1 == 0 then s.system else s.trees[num1], if num2 == 0 then s.system else s.trees[num2];
    && s' == s.(infos := s'.infos) && OnlyPair(s.infos, s'.infos, num1, num2)
    && (CachedPair(s'.infos, num1, num2) <==> num1 != 0 && num2 != 0)
    && exists listing :: files == Filtered(listing, ignored)
         && ExactUnlessBroken(listing, t1, t2, CachedPair(s.infos, num1, num2))
  }

  ghost predicate HasNumber(entries: seq<Snapshot>, num: nat) {
    exists e :: e in entries && e.num == num
  }

  /** The answer to a request and what it leaves behind. */
  ghost predicate Happens(request: Request, a: Answer, s: State, s': State) {
    match request
    case Change(t) => a == Nothing && s' == if ValidTree(t) then s.(system := t) else s
    case NewSingle(fate) => MadeFrom(SINGLE, 0, fate, a, s, s')
    case NewPre(fate) => MadeFrom(PRE, 0, fate, a, s, s')
    case NewPost(preNum, fate) =>
      if PreWithoutPost(s.entries, preNum) then MadeFrom(POST, preNum, fate, a, s, s')
      else a == Number(IllegalSnapshot) && s' == s
    case Drop(num, deletable) =>
      if num == 0 || !HasNumber(s.entries, num) then a == Removed(IllegalSnapshot) && s' == s
      else if !deletable then a == Removed(DeleteFailed) && s' == s
      else
        && a == Removed(Done(())) && s'.system == s.system
        && Deleted(num, s.entries, s.infos, s.trees, s'.entries, s'.infos, s'.trees)
    case Ask(num1, num2, ignored) =>
      if num1 == num2 || !HasNumber(s.entries, num1) || !HasNumber(s.entries, num2)
      then a == Listed(IllegalSnapshot) && s' == s
      else
        && (num1 == 0 || num1 in s.trees) && (num2 == 0 || num2 in s.trees)
        && a.Listed? && a.files.Done? && Compared(num1, num2, ignored, a.files.value, s, s')
    case Stray(num) =>
      && a == Nothing
      && s' == if num in s.infos then s.(infos := s.infos[num := s.infos[num].(stray := true)]) else s
  }

  ghost predicate SoundState(s: State) {
    Sound(s.entries, s.infos, s.trees) && ValidTree(s.system)
  }

  /** The first n requests: each state follows from the one before, and all are sound. */
  ghost predicate RunOf(requests: seq<Request>, answers: seq<Answer>, states: seq<State>, n: nat) {
    && n == |answers| <= |requests| && |states| == n + 1
    && (forall k :: 0 <= k < n ==> Happens(requests[k], answers[k], states[k], states[k + 1]))
    && (forall k :: 0 <= k <= n ==> SoundState(states[k]))
  }

  lemma RunGoesOn(requests: seq<Request>, answers: seq<Answer>, states: seq<State>, n: nat, a: Answer, s: State)
    requires n < |requests| && RunOf(requests, answers, states, n)
    requires Happens(requests[n], a, states[n], s) && SoundState(s)
    ensures RunOf(requests, answers + [a], states + [s], n + 1)
  {
  }

  lemma HasCompared(num1: nat, num2: nat, ignored: string -> bool, listing: seq<File>, t1: Tree, t2: Tree, s: State,
                    s': State)
    requires SoundState(s) && num1 in Nums(s.entries) && num2 in Nums(s.entries) && num1 != num2
    requires num1 != 0 ==> num1 in s.trees && t1 == s.trees[num1]
    requires num2 != 0 ==> num2 in s.trees && t2 == s.trees[num2]
    requires (num1 == 0 ==> t1 == s.system) && (num2 == 0 ==> t2 == s.system)
    requires s' == s.(infos := s'.infos) && OnlyPair(s.infos, s'.infos, num1, num2)
    requires CachedPair(s'.infos, num1, num2) <==> num1 != 0 && num2 != 0
    requires ExactUnlessBroken(listing, t1, t2, CachedPair(s.infos, num1, num2))
    ensures Happens(Ask(num1, num2, ignored), Listed(Done(Filtered(listing, ignored))), s, s')
  {
    assert Compared(num1, num2, ignored, Filtered(listing, ignored), s, s');
    IsNumber(s.entries, num1);
    IsNumber(s.entries, num2);
  }

  lemma NotCompared(num1: nat, num2: nat, ignored: string -> bool, s: State)
    requires num1 !in Nums(s.entries) || num2 !in Nums(s.entries) || num1 == num2
    ensures Happens(Ask(num1, num2, ignored), Listed(IllegalSnapshot), s, s)
  {
    IsNumber(s.entries, num1);
    IsNumber(s.entries, num2);
  }

  lemma HasDropped(num: nat, deletable: bool, s: State, s': State)
    requires num in Nums(s.entries) && num != 0 && deletable && s'.system == s.system
    requires Deleted(num, s.entries, s.infos, s.trees, s'.entries, s'.infos, s'.trees)
    ensures Happens(Drop(num, deletable), Removed(Done(())), s, s')
  {
    IsNumber(s.entries, num);
  }

  lemma NotDropped(num: nat, deletable: bool, s: State)
    ensures num == 0 || num !in Nums(s.entries) ==> Happens(Drop(num, deletable), Removed(IllegalSnapshot), s, s)
    ensures num != 0 && num in Nums(s.entries) && !deletable ==>
      Happens(Drop(num, deletable), Removed(DeleteFailed), s, s)
  {
    IsNumber(s.entries, num);
  }

  lemma IsNumber(entries: seq<Snapshot>, num: nat)
    ensures num in Nums(entries) <==> HasNumber(entries, num)
  {
  }

  lemma UnlinkedKeys(entries: seq<Snapshot>, infos: map<nat, InfoDir>, num: nat)
    requires num in infos
    ensures Unlinked(entries, infos, num).Keys == infos.Keys
    ensures Unlinked(entries, infos, num)[num].stray == infos[num].stray
  {
  }

  lemma DeletedKeys(entries: seq<Snapshot>, infos: map<nat, InfoDir>, num: nat)
    requires num in infos
    ensures AfterDelete(entries, infos, num).Keys == if infos[num].stray then infos.Keys else infos.Keys - {num}
    ensures forall n :: n in AfterDelete(entries, infos, num) ==>
      AfterDelete(entries, infos, num)[n].stray == infos[n].stray
  {
  }

  lemma DeletedCell(entries: seq<Snapshot>, infos: map<nat, InfoDir>, num: nat, a: nat, b: nat)
    requires Cached(infos, a, b) ==> b in Nums(entries) && b != 0
    requires num in infos
    ensures CellDeleted(num, infos, AfterDelete(entries, infos, num), a, b)
  {
  }

  lemma WasDeleted(entries: seq<Snapshot>, infos: map<nat, InfoDir>, trees: map<nat, Tree>, num: nat,
                   infos': map<nat, InfoDir>)
    requires CacheTrue(entries, infos, trees) && num in infos && Find(entries, num) < |entries|
    requires infos' == AfterDelete(entries, infos, num)
    ensures Deleted(num, entries, infos, trees, Without(entries, Find(entries, num)), infos', trees - {num})
  {
    var i := Find(entries, num);
    assert entries[i].num == num && Without(entries, i) == entries[..i] + entries[i + 1..];
    DeletedKeys(entries, infos, num);
    forall a: nat, b: nat ensures CellDeleted(num, infos, infos', a, b) {
      assert CellTrue(entries, infos, trees, a, b);
      DeletedCell(entries, infos, num, a, b);
    }
  }

  class Snapshots {
    var entries: seq<Snapshot>
    var infos: map<nat, InfoDir>
    var trees: map<nat, Tree>
    var system: Tree

    ghost predicate Valid()
      reads this
    {
      Sound(entries, infos, trees) && ValidTree(system)
    }

    ghost function Now(): State
      reads this
    {
      State(entries, infos, trees, system)
    }

    constructor (system: Tree)
      requires ValidTree(system)
      ensures Valid() && Now() == State([Snapshot(SINGLE, 0, 0)], map[], map[], system)
    {
      this.entries := [Snapshot(SINGLE, 0, 0)];
      this.infos := map[];
      this.trees := map[];
      this.system := system;
    }

    /** Anything may happen to the live system; snapshots are read-only. */
    method ChangeSystem(t: Tree)
      requires Valid() && ValidTree(t)
      modifies this`system
      ensures Valid() && system == t
    {
      system := t;
    }

    /** A temporary file left behind by an interrupted save. */
    method LeaveStray(n: nat)
      requires Valid() && n in infos
      modifies this`infos
      ensures Valid() && infos == old(infos)[n := old(infos)[n].(stray := true)]
    {
      StrayLeft(entries, infos, trees, n);
      infos := infos[n := infos[n].(stray := true)];
    }

    method FreeNumber() returns (num: nat)
      requires entries != []
      ensures FirstFree(infos.Keys + trees.Keys, Last(entries), num)
    {
      num := Last(entries) + 1;
      ghost var taken := infos.Keys + trees.Keys;
      while num in trees || num in infos
        invariant unchanged(this) && num > Last(entries)
        invariant forall k :: Last(entries) < k < num ==> k in taken
        decreases Above(taken, num)
      {
        AboveShrinks(taken, num);
        num := num + 1;
      }
    }

    /** The first number above the last one that neither a snapshot nor a directory occupies; its directory is made,
        unless mkdir fails for another reason. */
    method NextNumber(works: bool) returns (r: Outcome<nat>)
      requires Valid()
      modifies this`infos
      ensures works ==> r.Done? && FirstFree(old(infos).Keys + trees.Keys, Last(entries), r.value)
      ensures works ==> infos == old(infos)[r.value := EMPTY_INFO]
      ensures !works ==> r == IOError && unchanged(this)
      ensures Valid()
    {
      var num := FreeNumber();
      if !works { return IOError; }
      BeyondLast(entries, num);
      InfoAdded(entries, infos, trees, num, false);
      infos := infos[num := EMPTY_INFO];
      return Done(num);
    }

    method CreateHelper(s: Snapshot, fate: Fate) returns (r: Outcome<nat>)
      requires Valid() && Fits(entries, s) && s.num !in trees && s.num in infos && infos[s.num] == EMPTY_INFO
      requires !fate.NoDirectory?
      modifies `entries, `infos, `trees
      ensures Valid()
      ensures fate.Works? ==>
        r == Done(s.num) && entries == old(entries) + [s] && trees == old(trees)[s.num := system] && infos == old(infos)
      ensures !fate.Works? ==> entries == old(entries) && trees == old(trees)
      ensures fate.NoSnapshot? ==> r == CreateFailed
      ensures fate.NoInfo? ==> r == IOError
      ensures !fate.Works? ==>
        infos == if fate == NoInfo(true) then old(infos)[s.num := InfoDir(map[], true)] else old(infos) - {s.num}
    {
      BeyondLast(entries, s.num);
      if fate.NoSnapshot? {
        RemoveInfoDir(s.num, false);
        return CreateFailed;
      }
      trees := trees[s.num := system];
      if fate.NoInfo? {
        PutAndTake(old(trees), s.num, system);
        trees := trees - {s.num};
        RemoveInfoDir(s.num, fate.stray);
        return IOError;
      }
      SnapshotAdded(entries, infos, old(trees), s, system);
      entries := entries + [s];
      return Done(s.num);
    }

    /** Undo the mkdir of NextNumber; a stray file keeps the directory. */
    method RemoveInfoDir(num: nat, stray: bool)
      requires Valid() && num !in Nums(entries)
      modifies `infos
      ensures Valid()
      ensures infos == if stray then old(infos)[num := InfoDir(map[], true)] else old(infos) - {num}
    {
      if stray {
        InfoAdded(entries, infos, trees, num, true);
        infos := infos[num := InfoDir(map[], true)];
      } else {
        InfoRemoved(entries, infos, trees, num);
        infos := infos - {num};
      }
    }

    method CreateSnapshot(kind: SnapshotType, preNum: nat, fate: Fate) returns (r: Outcome<nat>)
      requires Valid()
      requires kind == POST ==> PreWithoutPost(entries, preNum)
      modifies `entries, `infos, `trees
      ensures Valid()
      ensures Made(kind, preNum, fate, r, old(entries), old(infos), old(trees), system, entries, infos, trees)
    {
      r := NextNumber(!fate.NoDirectory?);
      if r != IOError {
        var num := r.value;
        r := CreateHelper(Snapshot(kind, num, preNum), fate);
        WasMade(kind, preNum, fate, num, old(entries), old(infos), old(trees), system);
      }
    }

    method CreateSingle(fate: Fate) returns (r: Outcome<nat>)
      requires Valid()
      modifies `entries, `infos, `trees
      ensures Valid()
      ensures Made(SINGLE, 0, fate, r, old(entries), old(infos), old(trees), system, entries, infos, trees)
    {
      r := CreateSnapshot(SINGLE, 0, fate);
    }

    method CreatePre(fate: Fate) returns (r: Outcome<nat>)
      requires Valid()
      modifies `entries, `infos, `trees
      ensures Valid()
      ensures Made(PRE, 0, fate, r, old(entries), old(infos), old(trees), system, entries, infos, trees)
    {
      r := CreateSnapshot(PRE, 0, fate);
    }

    method CreatePost(preNum: nat, fate: Fate) returns (r: Outcome<nat>)
      requires Valid()
      modifies `entries, `infos, `trees
      ensures Valid()
      ensures r == IllegalSnapshot <==> !PreWithoutPost(old(entries), preNum)
      ensures r == IllegalSnapshot ==> unchanged(this)
      ensures r != IllegalSnapshot ==>
        Made(POST, preNum, fate, r, old(entries), old(infos), old(trees), system, entries, infos, trees)
    {
      var i := Find(entries, preNum);
      if i == |entries| || entries[i].num == 0 || entries[i].kind != PRE || FindPost(entries, preNum) != |entries| {
        NotPreWithoutPost(entries, preNum);
        return IllegalSnapshot;
      }
      IsPreWithoutPost(entries, preNum);
      r := CreateSnapshot(POST, preNum, fate);
    }

    method DeleteSnapshot(num: nat, deletable: bool) returns (r: Outcome<()>)
      requires Valid()
      modifies `entries, `infos, `trees
      ensures Valid()
      ensures r == IllegalSnapshot <==> num == 0 || num !in Nums(old(entries))
      ensures r == DeleteFailed <==> r != IllegalSnapshot && !deletable
      ensures r == IllegalSnapshot || r == DeleteFailed ==> unchanged(this)
      ensures r == IllegalSnapshot || r == DeleteFailed || r == Done(())
      ensures r == Done(()) ==>
        Deleted(num, old(entries), old(infos), old(trees), entries, infos, trees)
    {
      var i := Find(entries, num);
      NumFound(entries, num);
      if i == |entries| || entries[i].num == 0 { return IllegalSnapshot; }
      if !deletable { return DeleteFailed; }
      Remove(i);
      return Done(());
    }

    /** The snapshot's files go, then its number from everywhere else, then its directory and its entry. */
    method Remove(i: nat)
      requires Valid() && 0 < i < |entries| && i == Find(entries, entries[i].num)
      modifies `entries, `infos, `trees
      ensures Valid()
      ensures Deleted(old(entries[i].num), old(entries), old(infos), old(trees), entries, infos, trees)
    {
      var num := entries[i].num;
      assert num in Nums(entries);
      UnlinkFilelists(num);
      UnlinkOthers(num);
      trees := trees - {num};
      UnlinkedKeys(entries, old(infos), num);
      if !infos[num].stray {
        infos := infos - {num};
      }
      SnapshotRemoved(old(entries), old(infos), old(trees), i, infos);
      WasDeleted(old(entries), old(infos), old(trees), num, infos);
      entries := Without(entries, i);
    }

    /** Unlink every file list in the directory of a snapshot. */
    method UnlinkFilelists(num: nat)
      requires num in infos
      modifies `infos
      ensures infos == old(infos)[num := old(infos)[num].(filelists := map[])]
    {
      var names := infos[num].filelists.Keys;
      while names != {}
        invariant num in infos && infos == old(infos)[num := old(infos)[num].(filelists := infos[num].filelists)]
        invariant infos[num].filelists.Keys == names
        decreases |names|
      {
        var n :| n in names;
        infos := infos[num := infos[num].(filelists := infos[num].filelists - {n})];
        names := names - {n};
      }
    }

    /** Unlink the file list for a snapshot in the directories of all others. */
    method UnlinkOthers(num: nat)
      requires forall n :: n in Nums(entries) && n != 0 ==> n in infos
      modifies `infos
      ensures infos == Purged(old(infos), Nums(entries) - {0}, num)
    {
      assert infos == Purged(infos, Nums(entries[..0]) - {0}, num);
      for i := 0 to |entries|
        invariant infos == Purged(old(infos), Nums(entries[..i]) - {0}, num)
      {
        var n := entries[i].num;
        assert entries[..i + 1] == entries[..i] + [entries[i]];
        AppendNums(entries[..i], entries[i]);
        if n != 0 {
          assert n in Nums(entries);
          PurgedStep(old(infos), Nums(entries[..i]) - {0}, num, n);
          infos := infos[n := infos[n].(filelists := infos[n].filelists - {num})];
        }
        assert Nums(entries[..i + 1]) - {0} == (Nums(entries[..i]) - {0}) + (if n != 0 then {n} else {});
      }
      assert entries[..|entries|] == entries;
    }

    /** The tree of a snapshot; number 0 is the live system. */
    function TreeOf(num: nat): Tree
      requires num == 0 || num in trees
      reads `system, `trees
    {
      if num == 0 then system else trees[num]
    }

    /** Compare anew. */
    method Create(num1: nat, num2: nat) returns (files: Files)
      requires Valid() && num1 in Nums(entries) && num2 in Nums(entries)
      ensures fresh(files) && IsListing(files.entries, DiffFiles(TreeOf(num1), TreeOf(num2)))
      ensures SortedBy(files.entries, NameOf)
    {
      files := new Files();
      CmpDirs.CmpDirs(TreeOf(num1), TreeOf(num2), files);
      files.Sort();
      DiffFilesUnique(TreeOf(num1), TreeOf(num2));
      SortedIsListing(files.entries, DiffFiles(TreeOf(num1), TreeOf(num2)));
    }

    /** Read the cached comparison, if there is one; it serves both argument orders. */
    method Load(num1: nat, num2: nat) returns (ok: bool, files: Files)
      requires Valid() && num1 in Nums(entries) - {0} && num2 in Nums(entries) - {0}
      ensures SortedBy(files.entries, NameOf)
      ensures fresh(files) && ok == CachedPair(infos, num1, num2) && FromCache(infos, num1, num2, files.entries)
      ensures ok ==>
        (IsListing(files.entries, DiffFiles(TreeOf(num1), TreeOf(num2))) <==> NoLineBreaks(TreeOf(num1), TreeOf(num2)))
    {
      files := new Files();
      var invert := num1 > num2;
      var a, b := if invert then num2 else num1, if invert then num1 else num2;
      if a !in infos[b].filelists { return false, files; }
      var text := infos[b].filelists[a];
      files.entries := ReadList(text, invert);
      files.Sort();
      assert CellTrue(entries, infos, trees, a, b);
      LoadedIsFresh(text, trees[a], trees[b], invert, files.entries);
      NoLineBreaksEitherWay(trees[a], trees[b]);
      return true, files;
    }

    /** Keep the comparison in the directory of the newer snapshot, as seen from the older one. */
    method Save(num1: nat, num2: nat, files: Files)
      requires Valid() && num1 in Nums(entries) - {0} && num2 in Nums(entries) - {0} && num1 != num2
      requires IsListing(files.entries, DiffFiles(TreeOf(num1), TreeOf(num2)))
      modifies `infos
      ensures Valid() && OnlyPair(old(infos), infos, num1, num2) && CachedPair(infos, num1, num2)
    {
      var text := WriteList(files.entries, num1 > num2);
      ListingSaved(entries, infos, trees, num1, num2, files.entries, text);
      WrittenIsOnlyPair(infos, num1, num2, text);
      infos := PairWritten(infos, num1, num2, text);
    }

    /** From the cache if it can be, otherwise anew; the live system is never cached. */
    method Initialize(num1: nat, num2: nat) returns (files: Files)
      requires Valid() && num1 in Nums(entries) && num2 in Nums(entries) && num1 != num2
      modifies `infos
      ensures Valid() && fresh(files) && OnlyPair(old(infos), infos, num1, num2)
      ensures CachedPair(infos, num1, num2) <==> num1 != 0 && num2 != 0
      ensures SortedBy(files.entries, NameOf) && FromCache(old(infos), num1, num2, files.entries)
      ensures CachedPair(old(infos), num1, num2) ==> infos == old(infos)
      ensures ExactUnlessBroken(files.entries, TreeOf(num1), TreeOf(num2), CachedPair(old(infos), num1, num2))
    {
      if num1 == 0 || num2 == 0 {
        NeverCurrent(entries, infos, trees, num1, num2);
        files := Create(num1, num2);
        return;
      }
      var ok;
      ok, files := Load(num1, num2);
      if !ok {
        files := Create(num1, num2);
        Save(num1, num2, files);
      }
    }

    /** The comparison of two snapshots, without the ignored names; listing is the list before they are dropped.
        It is exact unless it comes from the cache and a path has a line break. */
    method Compare(num1: nat, num2: nat, ignored: string -> bool)
      returns (r: Outcome<seq<File>>, ghost listing: seq<File>)
      requires Valid()
      modifies `infos
      ensures Valid()
      ensures r == IllegalSnapshot <==> num1 !in Nums(entries) || num2 !in Nums(entries) || num1 == num2
      ensures r == IllegalSnapshot ==> unchanged(this)
      ensures r != IllegalSnapshot ==>
        && r == Done(Filtered(listing, ignored))
        && (CachedPair(infos, num1, num2) <==> num1 != 0 && num2 != 0)
        && ExactUnlessBroken(listing, TreeOf(num1), TreeOf(num2), CachedPair(old(infos), num1, num2))
      ensures OnlyPair(old(infos), infos, num1, num2)
    {
      listing := [];
      NumFound(entries, num1);
      NumFound(entries, num2);
      var i, j := Find(entries, num1), Find(entries, num2);
      if i == |entries| || j == |entries| || i == j {
        return IllegalSnapshot, listing;
      }
      var files := Initialize(num1, num2);
      listing := files.entries;
      files.Filter(ignored);
      r := Done(files.entries);
    }

    /** Asking for the same comparison in the other order inverts every status, except in one case: two snapshots that
        have not been compared yet, with a line break in a path; there the first answer is right and the second is not.
        What comes twice from such a spoilt cache has the same files, but names may repeat, so their order is open. */
    method CompareBothWays(num1: nat, num2: nat) returns (files: seq<File>, back: seq<File>)
      requires Valid() && num1 in Nums(entries) && num2 in Nums(entries) && num1 != num2
      modifies `infos
      ensures Valid() && SortedBy(files, NameOf) && SortedBy(back, NameOf)
      ensures multiset(back) == multiset(InvertAll(files)) <==>
        num1 == 0 || num2 == 0 || NoLineBreaks(TreeOf(num1), TreeOf(num2)) || CachedPair(old(infos), num1, num2)
      ensures num1 == 0 || num2 == 0 || NoLineBreaks(TreeOf(num1), TreeOf(num2)) ==>
        IsListing(files, DiffFiles(TreeOf(num1), TreeOf(num2))) && back == InvertAll(files)
    {
      ghost var live, cached := num1 == 0 || num2 == 0, CachedPair(infos, num1, num2);
      if live { NeverCurrent(entries, infos, trees, num1, num2); }
      var there := Initialize(num1, num2);
      files := there.entries;
      ghost var between := infos;
      if live { NeverCurrent(entries, infos, trees, num2, num1); }
      var here := Initialize(num2, num1);
      back := here.entries;
      if cached { BothFromCache(between, num1, num2, files, back); }
      BothAnswers(files, back, TreeOf(num1), TreeOf(num2), cached, live);
    }

    method AnswerAsk(num1: nat, num2: nat, ignored: string -> bool) returns (a: Answer)
      requires Valid()
      modifies `infos
      ensures Valid() && Happens(Ask(num1, num2, ignored), a, old(Now()), Now())
    {
      ghost var s := Now();
      var r, listing := Compare(num1, num2, ignored);
      a := Listed(r);
      if r == IllegalSnapshot {
        NotCompared(num1, num2, ignored, s);
      } else {
        HasCompared(num1, num2, ignored, listing, TreeOf(num1), TreeOf(num2), s, Now());
      }
    }

    method AnswerDrop(num: nat, deletable: bool) returns (a: Answer)
      requires Valid()
      modifies `entries, `infos, `trees
      ensures Valid() && Happens(Drop(num, deletable), a, old(Now()), Now())
    {
      ghost var s := Now();
      NotDropped(num, deletable, s);
      var r := DeleteSnapshot(num, deletable);
      if r == Done(()) { HasDropped(num, deletable, s, Now()); }
      a := Removed(r);
    }

    method Step(request: Request) returns (a: Answer)
      requires Valid()
      modifies this
      ensures Valid() && Happens(request, a, old(Now()), Now())
    {
      a := Nothing;
      match request
      case Change(t) => if ValidTree(t) { ChangeSystem(t); }
      case NewSingle(fate) => var r := CreateSingle(fate); a := Number(r);
      case NewPre(fate) => var r := CreatePre(fate); a := Number(r);
      case NewPost(preNum, fate) => var r := CreatePost(preNum, fate); a := Number(r);
      case Drop(num, deletable) => a := AnswerDrop(num, deletable);
      case Ask(num1, num2, ignored) => a := AnswerAsk(num1, num2, ignored);
      case Stray(num) => if num in infos { LeaveStray(num); }
    }

    /** Any run from an empty store: each state follows from the one before by its request, and in all of them every
        cached file list is what comparing its snapshots now would be written as. */
    static method Run(system: Tree, requests: seq<Request>)
      returns (snapshots: Snapshots, ghost states: seq<State>, answers: seq<Answer>)
      requires ValidTree(system)
      ensures fresh(snapshots) && RunOf(requests, answers, states, |requests|)
      ensures states[0] == State([Snapshot(SINGLE, 0, 0)], map[], map[], system)
      ensures states[|requests|] == snapshots.Now()
    {
      snapshots := new Snapshots(system);
      states, answers := [snapshots.Now()], [];
      for n := 0 to |requests|
        invariant fresh(snapshots) && snapshots.Valid()
        invariant RunOf(requests, answers, states, n) && states[n] == snapshots.Now()
        invariant states[0] == State([Snapshot(SINGLE, 0, 0)], map[], map[], system)
      {
        var a := snapshots.Step(requests[n]);
        RunGoesOn(requests, answers, states, n, a, snapshots.Now());
        states, answers := states + [snapshots.Now()], answers + [a];
      }
    }
  }
}
