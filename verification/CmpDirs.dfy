/** snapper/Compare.cc: the recursive merge of two directory listings. */
module CmpDirs {
  import opened Names
  import opened Status
  import opened Trees
  import opened FileLists
  import opened Compare

  function FileAt(t1: Tree, t2: Tree, p: Path): File {
    File(Render(p), StatusAt(t1, t2, p), false)
  }

  /** The files a comparison owes for a set of paths. */
  function Due(t1: Tree, t2: Tree, paths: set<Path>): set<File> {
    set p | p in paths && StatusAt(t1, t2, p) != 0 :: FileAt(t1, t2, p)
  }

  lemma DueSum(t1: Tree, t2: Tree, a: set<Path>, b: set<Path>)
    requires a !! b
    ensures multiset(Due(t1, t2, a + b)) == multiset(Due(t1, t2, a)) + multiset(Due(t1, t2, b))
  {
    forall f | f in Due(t1, t2, a) && f in Due(t1, t2, b) ensures false {
      var p: Path :| p in a && f == FileAt(t1, t2, p);
      var q: Path :| q in b && f == FileAt(t1, t2, q);
      assert FileAt(t1, t2, p).name == FileAt(t1, t2, q).name;
      RenderInjective(p, q);
    }
    assert Due(t1, t2, a + b) == Due(t1, t2, a) + Due(t1, t2, b);
  }

  function Keys(t1: Tree, t2: Tree): set<Path> {
    t1.Keys + t2.Keys
  }

  /** All paths below dir that go through one of the given entries. */
  function Through(t1: Tree, t2: Tree, dir: Path, names: set<Name>): set<Path> {
    set p | p in Keys(t1, t2) && dir < p && p[|dir|] in names
  }

  function AllBelow(t1: Tree, t2: Tree, dir: Path): set<Path> {
    set p | p in Keys(t1, t2) && dir < p
  }

  lemma ThroughStep(t1: Tree, t2: Tree, dir: Path, done: set<Name>, n: Name)
    requires dir + [n] in Keys(t1, t2)
    ensures Through(t1, t2, dir, done + {n})
         == Through(t1, t2, dir, done) + {dir + [n]} + AllBelow(t1, t2, dir + [n])
  {
    var p := dir + [n];
    forall q: Path ensures dir < q && q[|dir|] == n <==> q == p || p < q {
      if dir < q && q[|dir|] == n {
        assert q[..|p|] == q[..|dir|] + [q[|dir|]];
        if |q| == |p| { assert q[..|p|] == q; }
      }
    }
  }

  /** Entry n of dir owes itself and everything below it. */
  lemma DueStep(t1: Tree, t2: Tree, dir: Path, done: set<Name>, n: Name)
    requires n !in done && dir + [n] in Keys(t1, t2)
    ensures multiset(Due(t1, t2, Through(t1, t2, dir, done + {n})))
         == multiset(Due(t1, t2, Through(t1, t2, dir, done))) + multiset(Due(t1, t2, {dir + [n]}))
          + multiset(Due(t1, t2, AllBelow(t1, t2, dir + [n])))
  {
    var p := dir + [n];
    var rest, below := Through(t1, t2, dir, done), AllBelow(t1, t2, p);
    ThroughStep(t1, t2, dir, done, n);
    DueSum(t1, t2, rest, {p});
    DueSum(t1, t2, rest + {p}, below);
  }

  lemma DueOne(t1: Tree, t2: Tree, p: Path)
    ensures Due(t1, t2, {p}) == if StatusAt(t1, t2, p) == 0 then {} else {FileAt(t1, t2, p)}
  {
  }

  /** Only the directory of snapshots is skipped, and only at the top. */
  predicate Filter(name: string) {
    name == "/.snapshots"
  }

  lemma FilterIs(p: Path)
    ensures Filter(Render(p)) <==> p == SNAPSHOTS_DIR
  {
    assert Render(SNAPSHOTS_DIR) == "/.snapshots" by {
      assert Parent(SNAPSHOTS_DIR) == [];
    }
    if Filter(Render(p)) {
      RenderInjective(p, SNAPSHOTS_DIR);
    }
  }

  /** The one name the walk skips. */
  predicate Hidden(dir: Path, n: Name) {
    dir + [n] == SNAPSHOTS_DIR
  }

  method IsHidden(dir: Path, n: Name) returns (hidden: bool)
    ensures hidden == Hidden(dir, n)
  {
    FilterIs(dir + [n]);
    hidden := Filter(Render(dir + [n]));
  }

  /** All of t's paths below dir carry one status because the other tree has none of them. */
  ghost predicate OneSided(t1: Tree, t2: Tree, t: Tree, dir: Path, status: Status) {
    && status != 0
    && forall p :: dir < p ==> (p in t <==> p in Keys(t1, t2)) && (p in t ==> StatusAt(t1, t2, p) == status)
  }

  ghost predicate Bounded(t: Tree, height: nat) {
    forall p :: p in t ==> |p| <= height
  }

  ghost predicate IsDir(t: Tree, dir: Path) {
    dir in t && t[dir].node.Dir?
  }

  /** Below something that is not a directory there is nothing. */
  lemma NothingBelow(t1: Tree, t2: Tree, p: Path)
    requires ValidTree(t1) && ValidTree(t2) && !IsDir(t1, p) && !IsDir(t2, p)
    ensures AllBelow(t1, t2, p) == {}
  {
    forall q | q in Keys(t1, t2) && p < q ensures false {
      if q in t1 { AncestorsAreDirs(View(t1), p, q); } else { AncestorsAreDirs(View(t2), p, q); }
    }
  }

  lemma ThroughAll(t1: Tree, t2: Tree, dir: Path, names: set<Name>)
    requires ValidTree(t1) && ValidTree(t2)
    requires Children(t1, dir) + Children(t2, dir) <= names
    ensures Through(t1, t2, dir, names) == AllBelow(t1, t2, dir)
  {
    forall p | p in AllBelow(t1, t2, dir) ensures p[|dir|] in names {
      var child := p[..|dir| + 1];
      assert child == dir + [p[|dir|]];
      if p in t1 { Prefixes(t1, child, p); } else { Prefixes(t2, child, p); }
      ChildrenAre(t1, dir, p[|dir|]);
      ChildrenAre(t2, dir, p[|dir|]);
    }
  }

  lemma Prefixes(t: Tree, q: Path, p: Path)
    requires ValidTree(t) && p in t && q <= p
    ensures q in t
  {
    if q != p { AncestorsAreDirs(View(t), q, p); }
  }

  /** The entries seen so far. */
  ghost function Seen(entries: seq<Name>, i: nat): set<Name>
    requires i <= |entries|
  {
    set n | n in entries[..i]
  }

  lemma SeenStep(entries: seq<Name>, names: set<Name>, i: nat)
    requires multiset(entries) == multiset(names) && i < |entries|
    ensures entries[i] in names && entries[i] !in Seen(entries, i)
    ensures Seen(entries, i + 1) == Seen(entries, i) + {entries[i]}
  {
    assert entries == entries[..i] + [entries[i]] + entries[i + 1..];
    assert multiset(entries)[entries[i]] <= 1;
    assert entries[..i + 1] == entries[..i] + [entries[i]];
  }

  lemma SeenAll(entries: seq<Name>, names: set<Name>)
    requires multiset(entries) == multiset(names)
    ensures Seen(entries, |entries|) == names
  {
    assert entries[..|entries|] == entries;
    forall n ensures n in entries <==> n in names {
      assert n in multiset(entries) <==> n in multiset(names);
    }
  }

  method ListSubdirs(t: Tree, dir: Path, status: Status, files: Files, ghost t1: Tree, ghost t2: Tree,
                     ghost height: nat)
    requires ValidTree(t) && OneSided(t1, t2, t, dir, status) && Bounded(t, height) && IsDir(t, dir)
    modifies files
    ensures multiset(files.entries) == old(multiset(files.entries)) + multiset(Due(t1, t2, AllBelow(t1, t2, dir)))
    decreases height - |dir|, 1
  {
    var entries := Entries(t, dir);
    for i := 0 to |entries|
      invariant multiset(files.entries)
             == old(multiset(files.entries)) + multiset(Due(t1, t2, Through(t1, t2, dir, Seen(entries, i))))
    {
      SeenStep(entries, Children(t, dir), i);
      ChildrenAre(t, dir, entries[i]);
      DueStep(t1, t2, dir, Seen(entries, i), entries[i]);
      Lonesome(t, dir + [entries[i]], status, files, t1, t2, height);
    }
    SeenAll(entries, Children(t, dir));
    OneSidedThrough(t1, t2, t, dir, status);
  }

  /** lonesome, and one iteration of listSubdirs: the entry itself, then all below it. */
  method Lonesome(t: Tree, p: Path, status: Status, files: Files, ghost t1: Tree, ghost t2: Tree, ghost height: nat)
    requires ValidTree(t) && p in t && p in Keys(t1, t2) && StatusAt(t1, t2, p) == status
    requires OneSided(t1, t2, t, p, status) && Bounded(t, height)
    modifies files
    ensures multiset(files.entries) == old(multiset(files.entries)) + multiset(Due(t1, t2, {p}))
                                     + multiset(Due(t1, t2, AllBelow(t1, t2, p)))
    decreases height - |p|, 2
  {
    DueOne(t1, t2, p);
    files.PushBack(File(Render(p), status, false));
    if t[p].node.Dir? {
      ListSubdirs(t, p, status, files, t1, t2, height);
    } else {
      NothingBelowOneSided(t1, t2, t, p, status);
    }
  }

  lemma NothingBelowOneSided(t1: Tree, t2: Tree, t: Tree, p: Path, status: Status)
    requires ValidTree(t) && OneSided(t1, t2, t, p, status) && !IsDir(t, p)
    ensures AllBelow(t1, t2, p) == {}
  {
    forall q | q in Keys(t1, t2) && p < q ensures false {
      AncestorsAreDirs(View(t), p, q);
    }
  }

  lemma OneSidedThrough(t1: Tree, t2: Tree, t: Tree, dir: Path, status: Status)
    requires ValidTree(t) && OneSided(t1, t2, t, dir, status)
    ensures Through(t1, t2, dir, Children(t, dir)) == AllBelow(t1, t2, dir)
  {
    forall p | p in AllBelow(t1, t2, dir) ensures p[|dir|] in Children(t, dir) {
      assert p[..|dir| + 1] == dir + [p[|dir|]];
      Prefixes(t, p[..|dir| + 1], p);
      ChildrenAre(t, dir, p[|dir|]);
    }
  }

  /** Entries present on both sides; the status decides whether the walk goes on pairwise. */
  method Twosome(t1: Tree, t2: Tree, p: Path, files: Files, ghost height: nat)
    requires ValidTree(t1) && ValidTree(t2) && p in t1 && p in t2 && Outside(p) && p != []
    requires Bounded(t1, height) && Bounded(t2, height)
    modifies files
    ensures multiset(files.entries) == old(multiset(files.entries)) + multiset(Due(t1, t2, {p}))
                                     + multiset(Due(t1, t2, AllBelow(t1, t2, p)))
    decreases height - |p|, 4
  {
    var status := CmpFilesStep(t1[p], t2[p]);
    DueOne(t1, t2, p);
    if status != 0 {
      files.PushBack(File(Render(p), status, false));
    }
    assert multiset(files.entries) == old(multiset(files.entries)) + multiset(Due(t1, t2, {p}));
    if !Has(status, TYPE) {
      if t1[p].node.Dir? {
        CmpDirsWorker(t1, t2, p, files, height);
      } else {
        NothingBelow(t1, t2, p);
      }
    } else {
      if t1[p].node.Dir? {
        OneSidedBelow(t1, t2, p);
        ListSubdirs(t1, p, DELETED, files, t1, t2, height);
      }
      if t2[p].node.Dir? {
        OneSidedBelow(t1, t2, p);
        ListSubdirs(t2, p, CREATED, files, t1, t2, height);
      }
      if !t1[p].node.Dir? && !t2[p].node.Dir? {
        NothingBelow(t1, t2, p);
      }
    }
  }

  /** Of two nodes of different kinds at most one has anything below it. */
  lemma OneSidedBelow(t1: Tree, t2: Tree, p: Path)
    requires ValidTree(t1) && ValidTree(t2) && Outside(p) && p != []
    ensures !IsDir(t2, p) ==> OneSided(t1, t2, t1, p, DELETED)
    ensures !IsDir(t1, p) ==> OneSided(t1, t2, t2, p, CREATED)
  {
    forall q: Path | p < q
      ensures q in t1 ==> IsDir(t1, p)
      ensures q in t2 ==> IsDir(t2, p)
      ensures Outside(q)
    {
      if q in t1 { AncestorsAreDirs(View(t1), p, q); }
      if q in t2 { AncestorsAreDirs(View(t2), p, q); }
    }
  }

  /** The names of a sorted listing before position i that the other listing's position j has caught up with. */
  ghost predicate Passed(names1: seq<Name>, i: nat, names2: seq<Name>, j: nat, dir: Path) {
    && i <= |names1| && j <= |names2|
    && forall k :: 0 <= k < i && j < |names2| ==> Less(names1[k], names2[j]) || Hidden(dir, names1[k])
  }

  ghost predicate Listing(names: seq<Name>, t: Tree, dir: Path) {
    && multiset(names) == multiset(Children(t, dir))
    && Ascending(names)
  }

  method SortedEntries(t: Tree, dir: Path) returns (names: seq<Name>)
    ensures Listing(names, t, dir)
  {
    var unsorted := Entries(t, dir);
    names := Sort(unsorted, (n: Name) => n);
    forall i, j | 0 <= i < j < |names| ensures Less(names[i], names[j]) {
      SeenStep(names, Children(t, dir), j);
      assert names[i] in names[..j];
      LessTotal(names[i], names[j]);
    }
  }

  /** Where the other listing stands, an unfiltered name at the front of this one is missing from it. */
  lemma OnlyHere(names1: seq<Name>, i: nat, names2: seq<Name>, j: nat, t1: Tree, t2: Tree, dir: Path)
    requires Listing(names1, t1, dir) && Listing(names2, t2, dir)
    requires i < |names1| && Passed(names2, j, names1, i, dir)
    requires !Hidden(dir, names1[i])
    requires j < |names2| ==> Less(names1[i], names2[j])
    ensures dir + [names1[i]] in t1 && dir + [names1[i]] !in t2
  {
    var n := names1[i];
    assert n in multiset(names1);
    ChildrenAre(t1, dir, n);
    ChildrenAre(t2, dir, n);
    if n in Children(t2, dir) {
      assert n in multiset(names2);
      LessTotal(n, n);
      if j < |names2| { LessTotal(n, names2[j]); }
      assert false;
    }
  }

  /** Neither listing holds back a name the other has passed. */
  ghost predicate InStep(names1: seq<Name>, i: nat, names2: seq<Name>, j: nat, dir: Path) {
    Passed(names1, i, names2, j, dir) && Passed(names2, j, names1, i, dir)
  }

  ghost predicate Ascending(names: seq<Name>) {
    forall i, j :: 0 <= i < j < |names| ==> Less(names[i], names[j])
  }

  /** Letting the other listing advance keeps what was passed. */
  lemma PassedOther(names1: seq<Name>, i: nat, names2: seq<Name>, j: nat, dir: Path)
    requires Passed(names1, i, names2, j, dir) && j < |names2| && Ascending(names2)
    ensures Passed(names1, i, names2, j + 1, dir)
  {
    forall k | 0 <= k < i && j + 1 < |names2|
      ensures Less(names1[k], names2[j + 1]) || Hidden(dir, names1[k])
    {
      if Less(names1[k], names2[j]) {
        LessTransitive(names1[k], names2[j], names2[j + 1]);
      }
    }
  }

  lemma AdvanceOne(names1: seq<Name>, i: nat, names2: seq<Name>, j: nat, dir: Path)
    requires InStep(names1, i, names2, j, dir) && i < |names1| && Ascending(names1)
    requires Hidden(dir, names1[i]) || (j < |names2| ==> Less(names1[i], names2[j]))
    ensures InStep(names1, i + 1, names2, j, dir) && InStep(names2, j, names1, i + 1, dir)
  {
    PassedOther(names2, j, names1, i, dir);
  }

  lemma AdvanceBoth(names1: seq<Name>, i: nat, names2: seq<Name>, j: nat, dir: Path)
    requires InStep(names1, i, names2, j, dir) && i < |names1| && j < |names2| && names1[i] == names2[j]
    requires Ascending(names1) && Ascending(names2)
    ensures InStep(names1, i + 1, names2, j + 1, dir)
  {
    PassedOther(names1, i, names2, j, dir);
    PassedOther(names2, j, names1, i, dir);
  }

  lemma SeenUnion(names1: seq<Name>, i: nat, names2: seq<Name>, j: nat)
    requires i <= |names1| && j <= |names2|
    ensures i < |names1| ==> Seen(names1, i + 1) + Seen(names2, j) == Seen(names1, i) + Seen(names2, j) + {names1[i]}
    ensures j < |names2| ==> Seen(names1, i) + Seen(names2, j + 1) == Seen(names1, i) + Seen(names2, j) + {names2[j]}
    ensures i < |names1| && j < |names2| && names1[i] == names2[j]
        ==> Seen(names1, i + 1) + Seen(names2, j + 1) == Seen(names1, i) + Seen(names2, j) + {names1[i]}
  {
  }

  /** An unfiltered name has not been seen on either side before its turn. */
  lemma Unseen(names1: seq<Name>, i: nat, names2: seq<Name>, j: nat, dir: Path)
    requires i < |names1| && Passed(names2, j, names1, i, dir) && !Hidden(dir, names1[i])
    requires Ascending(names1)
    ensures names1[i] !in Seen(names1, i) + Seen(names2, j)
  {
    LessTotal(names1[i], names1[i]);
  }

  ghost function Total(t1: Tree, t2: Tree, dir: Path, done: set<Name>): multiset<File> {
    multiset(Due(t1, t2, Through(t1, t2, dir, done)))
  }

  lemma Outsiders(dir: Path, n: Name)
    requires Outside(dir) && !Hidden(dir, n)
    ensures Outside(dir + [n])
  {
  }

  /** A name at the front of one listing only: everything there has the one-sided status. */
  method StepLonesome(t: Tree, dir: Path, names: seq<Name>, i: nat, status: Status, files: Files,
                      ghost others: seq<Name>, ghost j: nat, ghost t1: Tree, ghost t2: Tree,
                      ghost done: set<Name>, ghost base: multiset<File>, ghost height: nat)
    requires ValidTree(t1) && ValidTree(t2) && Outside(dir) && Bounded(t1, height) && Bounded(t2, height)
    requires (t == t1 && status == DELETED && Listing(names, t1, dir) && Listing(others, t2, dir))
          || (t == t2 && status == CREATED && Listing(names, t2, dir) && Listing(others, t1, dir))
    requires i < |names| && Passed(others, j, names, i, dir) && !Hidden(dir, names[i])
    requires j < |others| ==> Less(names[i], others[j])
    requires done == Seen(names, i) + Seen(others, j)
    requires multiset(files.entries) == base + Total(t1, t2, dir, done)
    modifies files
    ensures multiset(files.entries) == base + Total(t1, t2, dir, done + {names[i]})
    decreases height - |dir|, 1
  {
    ghost var other := if status == DELETED then t2 else t1;
    var p := dir + [names[i]];
    OnlyHere(names, i, others, j, t, other, dir);
    Unseen(names, i, others, j, dir);
    Outsiders(dir, names[i]);
    OneSidedBelow(t1, t2, p);
    DueStep(t1, t2, dir, done, names[i]);
    Lonesome(t, p, status, files, t1, t2, height);
  }

  /** The same name at the front of both listings. */
  method StepTwosome(t1: Tree, t2: Tree, dir: Path, names1: seq<Name>, i: nat, files: Files, ghost names2: seq<Name>,
                     ghost j: nat,
                     ghost done: set<Name>, ghost base: multiset<File>, ghost height: nat)
    requires ValidTree(t1) && ValidTree(t2) && Outside(dir) && Bounded(t1, height) && Bounded(t2, height)
    requires Listing(names1, t1, dir) && Listing(names2, t2, dir)
    requires i < |names1| && j < |names2| && names1[i] == names2[j]
    requires Passed(names2, j, names1, i, dir) && !Hidden(dir, names1[i])
    requires done == Seen(names1, i) + Seen(names2, j)
    requires multiset(files.entries) == base + Total(t1, t2, dir, done)
    modifies files
    ensures multiset(files.entries) == base + Total(t1, t2, dir, done + {names1[i]})
    decreases height - |dir|, 1
  {
    var n := names1[i];
    assert n in multiset(names1) && n in multiset(names2);
    ChildrenAre(t1, dir, n);
    ChildrenAre(t2, dir, n);
    Unseen(names1, i, names2, j, dir);
    Outsiders(dir, n);
    DueStep(t1, t2, dir, done, n);
    Twosome(t1, t2, dir + [n], files, height);
  }

  /** One iteration of the merge: a filtered name, a lonely one, or one on both sides. */
  method MergeStep(t1: Tree, t2: Tree, dir: Path, names1: seq<Name>, i: nat, names2: seq<Name>, j: nat, files: Files,
                   ghost base: multiset<File>, ghost height: nat) returns (i': nat, j': nat)
    requires ValidTree(t1) && ValidTree(t2) && Outside(dir) && Bounded(t1, height) && Bounded(t2, height)
    requires Listing(names1, t1, dir) && Listing(names2, t2, dir) && InStep(names1, i, names2, j, dir)
    requires i < |names1| || j < |names2|
    requires multiset(files.entries) == base + Total(t1, t2, dir, Seen(names1, i) + Seen(names2, j))
    modifies files
    ensures InStep(names1, i', names2, j', dir) && i + j < i' + j'
    ensures multiset(files.entries) == base + Total(t1, t2, dir, Seen(names1, i') + Seen(names2, j'))
    decreases height - |dir|, 2
  {
    var hidden1, hidden2 := false, false;
    if i < |names1| { hidden1 := IsHidden(dir, names1[i]); }
    if j < |names2| { hidden2 := IsHidden(dir, names2[j]); }
    if hidden1 {
      FilteredTotal(t1, t2, dir, Seen(names1, i) + Seen(names2, j), names1[i]);
      WentLeft(t1, t2, dir, names1, i, names2, j, multiset(files.entries), base);
      return i + 1, j;
    } else if hidden2 {
      FilteredTotal(t1, t2, dir, Seen(names1, i) + Seen(names2, j), names2[j]);
      WentRight(t1, t2, dir, names1, i, names2, j, multiset(files.entries), base);
      return i, j + 1;
    } else if i == |names1| || (j < |names2| && Less(names2[j], names1[i])) {
      StepRight(t1, t2, dir, names1, i, names2, j, files, base, height);
      WentRight(t1, t2, dir, names1, i, names2, j, multiset(files.entries), base);
      return i, j + 1;
    } else if j == |names2| || Less(names1[i], names2[j]) {
      ghost var seen := Seen(names1, i) + Seen(names2, j);
      StepLonesome(t1, dir, names1, i, DELETED, files, names2, j, t1, t2, seen, base, height);
      WentLeft(t1, t2, dir, names1, i, names2, j, multiset(files.entries), base);
      return i + 1, j;
    } else {
      LessTotal(names1[i], names2[j]);
      StepTwosome(t1, t2, dir, names1, i, files, names2, j, Seen(names1, i) + Seen(names2, j), base, height);
      WentBoth(t1, t2, dir, names1, i, names2, j, multiset(files.entries), base);
      return i + 1, j + 1;
    }
  }

  method StepRight(t1: Tree, t2: Tree, dir: Path, ghost names1: seq<Name>, ghost i: nat, names2: seq<Name>, j: nat,
                   files: Files,
                   ghost base: multiset<File>, ghost height: nat)
    requires ValidTree(t1) && ValidTree(t2) && Outside(dir) && Bounded(t1, height) && Bounded(t2, height)
    requires Listing(names1, t1, dir) && Listing(names2, t2, dir) && InStep(names1, i, names2, j, dir)
    requires j < |names2| && !Hidden(dir, names2[j]) && (i < |names1| ==> Less(names2[j], names1[i]))
    requires multiset(files.entries) == base + Total(t1, t2, dir, Seen(names1, i) + Seen(names2, j))
    modifies files
    ensures multiset(files.entries) == base + Total(t1, t2, dir, Seen(names1, i) + Seen(names2, j) + {names2[j]})
    decreases height - |dir|, 2, 0
  {
    ghost var done := Seen(names2, j) + Seen(names1, i);
    assert done == Seen(names1, i) + Seen(names2, j);
    StepLonesome(t2, dir, names2, j, CREATED, files, names1, i, t1, t2, done, base, height);
  }

  lemma FilteredTotal(t1: Tree, t2: Tree, dir: Path, done: set<Name>, n: Name)
    requires Hidden(dir, n)
    ensures Total(t1, t2, dir, done + {n}) == Total(t1, t2, dir, done)
  {
  }

  lemma WentLeft(t1: Tree, t2: Tree, dir: Path, names1: seq<Name>, i: nat, names2: seq<Name>, j: nat,
                 now: multiset<File>, base: multiset<File>)
    requires InStep(names1, i, names2, j, dir) && i < |names1| && Ascending(names1)
    requires Hidden(dir, names1[i]) || (j < |names2| ==> Less(names1[i], names2[j]))
    requires now == base + Total(t1, t2, dir, Seen(names1, i) + Seen(names2, j) + {names1[i]})
    ensures InStep(names1, i + 1, names2, j, dir)
    ensures now == base + Total(t1, t2, dir, Seen(names1, i + 1) + Seen(names2, j))
  {
    SeenUnion(names1, i, names2, j);
    AdvanceOne(names1, i, names2, j, dir);
  }

  lemma WentRight(t1: Tree, t2: Tree, dir: Path, names1: seq<Name>, i: nat, names2: seq<Name>, j: nat,
                  now: multiset<File>, base: multiset<File>)
    requires InStep(names1, i, names2, j, dir) && j < |names2| && Ascending(names2)
    requires Hidden(dir, names2[j]) || (i < |names1| ==> Less(names2[j], names1[i]))
    requires now == base + Total(t1, t2, dir, Seen(names1, i) + Seen(names2, j) + {names2[j]})
    ensures InStep(names1, i, names2, j + 1, dir)
    ensures now == base + Total(t1, t2, dir, Seen(names1, i) + Seen(names2, j + 1))
  {
    SeenUnion(names1, i, names2, j);
    AdvanceOne(names2, j, names1, i, dir);
  }

  lemma WentBoth(t1: Tree, t2: Tree, dir: Path, names1: seq<Name>, i: nat, names2: seq<Name>, j: nat,
                 now: multiset<File>, base: multiset<File>)
    requires InStep(names1, i, names2, j, dir) && i < |names1| && j < |names2| && names1[i] == names2[j]
    requires Ascending(names1) && Ascending(names2)
    requires now == base + Total(t1, t2, dir, Seen(names1, i) + Seen(names2, j) + {names1[i]})
    ensures InStep(names1, i + 1, names2, j + 1, dir)
    ensures now == base + Total(t1, t2, dir, Seen(names1, i + 1) + Seen(names2, j + 1))
  {
    SeenUnion(names1, i, names2, j);
    AdvanceBoth(names1, i, names2, j, dir);
  }

  /** The merge of two sorted listings reports, below dir, exactly what is due. */
  method CmpDirsWorker(t1: Tree, t2: Tree, dir: Path, files: Files, ghost height: nat)
    requires ValidTree(t1) && ValidTree(t2) && IsDir(t1, dir) && IsDir(t2, dir) && Outside(dir)
    requires Bounded(t1, height) && Bounded(t2, height)
    modifies files
    ensures multiset(files.entries) == old(multiset(files.entries)) + multiset(Due(t1, t2, AllBelow(t1, t2, dir)))
    decreases height - |dir|, 3
  {
    ghost var base := multiset(files.entries);
    var names1 := SortedEntries(t1, dir);
    var names2 := SortedEntries(t2, dir);
    var i: nat, j: nat := 0, 0;
    while i < |names1| || j < |names2|
      invariant InStep(names1, i, names2, j, dir)
      invariant multiset(files.entries) == base + Total(t1, t2, dir, Seen(names1, i) + Seen(names2, j))
      decreases |names1| + |names2| - i - j
    {
      i, j := MergeStep(t1, t2, dir, names1, i, names2, j, files, base, height);
    }
    AllSeen(t1, t2, dir, names1, names2);
  }

  lemma AllSeen(t1: Tree, t2: Tree, dir: Path, names1: seq<Name>, names2: seq<Name>)
    requires ValidTree(t1) && ValidTree(t2) && Listing(names1, t1, dir) && Listing(names2, t2, dir)
    ensures Through(t1, t2, dir, Seen(names1, |names1|) + Seen(names2, |names2|)) == AllBelow(t1, t2, dir)
  {
    SeenAll(names1, Children(t1, dir));
    SeenAll(names2, Children(t2, dir));
    ThroughAll(t1, t2, dir, Children(t1, dir) + Children(t2, dir));
  }

  lemma HeightOf(t: Tree) returns (height: nat)
    ensures Bounded(t, height)
  {
    height := 0;
    var left := t.Keys;
    while left != {}
      invariant left <= t.Keys
      invariant forall p :: p in t && p !in left ==> |p| <= height
    {
      var p :| p in left;
      height, left := if |p| > height then |p| else height, left - {p};
    }
  }

  /** All files of the difference of two trees, none of them selected for undo yet. */
  function DiffFiles(t1: Tree, t2: Tree): set<File> {
    set p | p in Diff(t1, t2) :: FileAt(t1, t2, p)
  }

  /** The files report a flag for a path. */
  ghost predicate Flagged(fs: seq<File>, p: Path, flags: Status) {
    exists f :: f in fs && f.name == Render(p) && Has(f.status, flags)
  }

  /** What a report says of one path, from the entries of the two trees. */
  ghost predicate Told(fs: seq<File>, t1: Tree, t2: Tree, p: Path) {
    if p == [] || p[0] == ".snapshots" then forall f :: f in fs ==> f.name != Render(p)
    else
      && (Flagged(fs, p, CREATED) <==> p !in t1 && p in t2)
      && (Flagged(fs, p, DELETED) <==> p in t1 && p !in t2)
      && (p in t1 && p in t2 ==> ChangeTold(fs, p, t1[p], t2[p]))
      && (!(p in t1 && p in t2) ==> !Flagged(fs, p, TYPE | CONTENT | PERMISSIONS | USER | GROUP))
  }

  ghost predicate ChangeTold(fs: seq<File>, p: Path, e1: Entry, e2: Entry) {
    && (Flagged(fs, p, TYPE) <==> e1.node.Dir? != e2.node.Dir? || e1.node.Reg? != e2.node.Reg?)
    && ContentTold(Flagged(fs, p, CONTENT), e1, e2)
    && (!e1.node.Lnk? && !e2.node.Lnk? ==> (Flagged(fs, p, PERMISSIONS) <==> e1.node.mode != e2.node.mode))
    && (Flagged(fs, p, USER) <==> e1.node.uid != e2.node.uid)
    && (Flagged(fs, p, GROUP) <==> e1.node.gid != e2.node.gid)
  }

  lemma FlaggedIff(fs: seq<File>, t1: Tree, t2: Tree, p: Path, flags: Status)
    requires forall f :: f in fs <==> f in DiffFiles(t1, t2)
    ensures Flagged(fs, p, flags) <==> Has(StatusAt(t1, t2, p), flags)
  {
    if Flagged(fs, p, flags) {
      var f :| f in fs && f.name == Render(p) && Has(f.status, flags);
      var q :| q in Diff(t1, t2) && f == FileAt(t1, t2, q);
      RenderInjective(p, q);
    }
    if Has(StatusAt(t1, t2, p), flags) {
      assert p in Diff(t1, t2);
      assert FileAt(t1, t2, p) in fs;
    }
  }

  /** A report of the difference tells the truth about every path. */
  lemma DiffTells(fs: seq<File>, t1: Tree, t2: Tree, p: Path)
    requires forall f :: f in fs <==> f in DiffFiles(t1, t2)
    ensures Told(fs, t1, t2, p)
  {
    FlaggedIff(fs, t1, t2, p, CREATED);
    FlaggedIff(fs, t1, t2, p, DELETED);
    FlaggedIff(fs, t1, t2, p, TYPE);
    FlaggedIff(fs, t1, t2, p, CONTENT);
    FlaggedIff(fs, t1, t2, p, PERMISSIONS);
    FlaggedIff(fs, t1, t2, p, USER);
    FlaggedIff(fs, t1, t2, p, GROUP);
    FlaggedIff(fs, t1, t2, p, TYPE | CONTENT | PERMISSIONS | USER | GROUP);
    if p == [] || !Outside(p) {
      forall f | f in fs ensures f.name != Render(p) {
        var q :| q in Diff(t1, t2) && f == FileAt(t1, t2, q);
        if f.name == Render(p) { RenderInjective(p, q); }
      }
    } else if p in t1 && p in t2 {
      CmpFilesTells(t1[p], t2[p]);
    }
  }

  /** cmpDirs appends every path that differs exactly once, with the status it is due, and nothing else. */
  method CmpDirs(t1: Tree, t2: Tree, files: Files)
    requires ValidTree(t1) && ValidTree(t2)
    modifies files
    ensures multiset(files.entries) == old(multiset(files.entries)) + multiset(DiffFiles(t1, t2))
    ensures old(files.entries) == [] ==> forall p: Path :: Told(files.entries, t1, t2, p)
  {
    ghost var h1 := HeightOf(t1);
    ghost var h2 := HeightOf(t2);
    CmpDirsWorker(t1, t2, [], files, if h1 > h2 then h1 else h2);
    assert Due(t1, t2, AllBelow(t1, t2, [])) == DiffFiles(t1, t2);
    if old(files.entries) == [] {
      assert forall f :: f in files.entries <==> f in multiset(files.entries);
      forall p: Path ensures Told(files.entries, t1, t2, p) {
        DiffTells(files.entries, t1, t2, p);
      }
    }
  }

  lemma DiffFilesUnique(t1: Tree, t2: Tree)
    ensures UniqueNames(DiffFiles(t1, t2))
  {
    forall f, g | f in DiffFiles(t1, t2) && g in DiffFiles(t1, t2) && f.name == g.name ensures f == g {
      var p :| p in Diff(t1, t2) && f == FileAt(t1, t2, p);
      var q :| q in Diff(t1, t2) && g == FileAt(t1, t2, q);
      RenderInjective(p, q);
    }
  }
}
