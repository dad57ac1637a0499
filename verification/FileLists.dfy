/** The list of files of a comparison and the order of its undo steps (class Files of snapper/File.cc). */
module FileLists {
  import opened Names
  import opened Sequences
  import opened Status

  datatype File = File(name: string, status: Status, undo: bool)

  datatype Action = CREATE | MODIFY | DELETE

  datatype UndoStep = UndoStep(name: string, action: Action)

  function NameOf(f: File): string {
    f.name
  }

  function GetAction(f: File): Action {
    if f.status == CREATED then DELETE else if f.status == DELETED then CREATE else MODIFY
  }

  function StepOf(f: File): UndoStep {
    UndoStep(f.name, GetAction(f))
  }

  /** Sorted, with no name twice. */
  ghost predicate Ascending(fs: seq<File>) {
    forall i, j :: 0 <= i < j < |fs| ==> Less(fs[i].name, fs[j].name)
  }

  /** The sorted list of a set of files. */
  ghost predicate IsListing(fs: seq<File>, files: set<File>) {
    multiset(fs) == multiset(files) && Ascending(fs)
  }

  ghost predicate UniqueNames(files: set<File>) {
    forall f, g :: f in files && g in files && f.name == g.name ==> f == g
  }

  lemma LastIsGreatest(fs: seq<File>, f: File)
    requires Ascending(fs) && f in multiset(fs)
    ensures f == fs[|fs| - 1] || Less(f.name, fs[|fs| - 1].name)
  {
  }

  lemma WithoutLast(fs: seq<File>)
    requires fs != []
    ensures fs == fs[..|fs| - 1] + [fs[|fs| - 1]]
    ensures multiset(fs[..|fs| - 1]) == multiset(fs) - multiset{fs[|fs| - 1]}
  {
  }

  lemma LastsAgree(fs: seq<File>, gs: seq<File>)
    requires multiset(fs) == multiset(gs) && Ascending(fs) && Ascending(gs) && fs != []
    ensures |fs| == |gs| && fs[|fs| - 1] == gs[|gs| - 1]
  {
    assert |multiset(fs)| == |fs| && |multiset(gs)| == |gs|;
    var f, g := fs[|fs| - 1], gs[|gs| - 1];
    assert f in multiset(fs) && g in multiset(gs);
    LastIsGreatest(fs, g);
    LastIsGreatest(gs, f);
    LessTotal(f.name, g.name);
  }

  /** There is only one such list: two comparisons of the same difference agree entry by entry. */
  lemma {:induction false} ListingUnique(fs: seq<File>, gs: seq<File>)
    requires multiset(fs) == multiset(gs) && Ascending(fs) && Ascending(gs)
    ensures fs == gs
  {
    if fs == [] {
      assert |multiset(gs)| == 0;
    } else {
      LastsAgree(fs, gs);
      WithoutLast(fs);
      WithoutLast(gs);
      ListingUnique(fs[..|fs| - 1], gs[..|gs| - 1]);
    }
  }

  lemma SortedIsListing(fs: seq<File>, files: set<File>)
    requires multiset(fs) == multiset(files) && SortedBy(fs, NameOf) && UniqueNames(files)
    ensures IsListing(fs, files)
  {
    forall i, j | 0 <= i < j < |fs| ensures Less(fs[i].name, fs[j].name) {
      assert !Less(NameOf(fs[j]), NameOf(fs[i]));
      LessTotal(fs[i].name, fs[j].name);
      assert fs[i] in multiset(fs) && fs[j] in multiset(fs);
      Once(fs, files, i, j);
    }
  }

  lemma Once(fs: seq<File>, files: set<File>, i: nat, j: nat)
    requires multiset(fs) == multiset(files) && i < j < |fs|
    ensures fs[i] != fs[j]
  {
    assert fs == fs[..j] + fs[j..];
    assert multiset(fs)[fs[i]] <= 1;
    assert fs[i] in fs[..j] && fs[j] in fs[j..];
  }

  lemma InListing(fs: seq<File>, files: set<File>, f: File)
    requires IsListing(fs, files)
    ensures f in fs <==> f in files
  {
    assert f in multiset(fs) <==> f in multiset(files);
  }

  /** A strictly ascending list with the right members is the listing. */
  lemma {:induction false} AscendingListing(gs: seq<File>, files: set<File>)
    requires Ascending(gs) && forall g :: g in gs <==> g in files
    ensures IsListing(gs, files)
  {
    if gs != [] {
      var n := |gs| - 1;
      assert gs == gs[..n] + [gs[n]];
      forall g ensures g in gs[..n] <==> g in files - {gs[n]} {
        if gs[n] in gs[..n] { LessTotal(gs[n].name, gs[n].name); }
      }
      AscendingListing(gs[..n], files - {gs[n]});
      assert gs[n] in files;
      assert multiset(files) == multiset(files - {gs[n]}) + multiset{gs[n]};
    } else {
      assert files == {};
    }
  }

  /** std::lower_bound: the number of leading entries with a smaller name. */
  function LowerBound(fs: seq<File>, name: string): (i: nat)
    ensures i <= |fs|
    ensures i < |fs| ==> !Less(fs[i].name, name)
    ensures forall k :: 0 <= k < i ==> Less(fs[k].name, name)
  {
    if fs != [] && Less(fs[0].name, name) then 1 + LowerBound(fs[1..], name) else 0
  }

  /** The entry with the given name; |fs| when there is none. */
  function FindIndex(fs: seq<File>, name: string): nat {
    var i := LowerBound(fs, name);
    if i < |fs| && fs[i].name == name then i else |fs|
  }

  /** In a sorted list the search finds exactly the names that are there. */
  lemma FindIndexFinds(fs: seq<File>, i: nat)
    requires Ascending(fs) && i < |fs|
    ensures FindIndex(fs, fs[i].name) == i
  {
    LessTotal(fs[i].name, fs[i].name);
    LowerBoundIs(fs, fs[i].name, i);
  }

  lemma LowerBoundIs(fs: seq<File>, name: string, i: nat)
    requires i <= |fs|
    requires forall k :: 0 <= k < i ==> Less(fs[k].name, name)
    requires i < |fs| ==> !Less(fs[i].name, name)
    ensures LowerBound(fs, name) == i
  {
  }

  lemma FindIndexMisses(fs: seq<File>, name: string)
    ensures FindIndex(fs, name) <= |fs|
    ensures FindIndex(fs, name) < |fs| ==> fs[FindIndex(fs, name)].name == name
  {
  }

  /** First pass of getUndoSteps: what the comparison saw created, from the end of the list. */
  function Deletes(fs: seq<File>): seq<UndoStep> {
    if fs == [] then [] else
      var f := fs[|fs| - 1];
      (if f.undo && f.status == CREATED then [StepOf(f)] else []) + Deletes(fs[..|fs| - 1])
  }

  /** Second pass: all else, from the start of the list. */
  function Others(fs: seq<File>): seq<UndoStep> {
    if fs == [] then [] else
      var f := fs[|fs| - 1];
      Others(fs[..|fs| - 1]) + (if f.undo && f.status != CREATED then [StepOf(f)] else [])
  }

  function UndoSteps(fs: seq<File>): seq<UndoStep> {
    Deletes(fs) + Others(fs)
  }

  /** Deletions come first and bottom-up; the rest follows top-down. */
  predicate Before(a: UndoStep, b: UndoStep) {
    if a.action == DELETE then b.action == DELETE ==> Less(b.name, a.name)
    else b.action != DELETE && Less(a.name, b.name)
  }

  ghost predicate Ordered(steps: seq<UndoStep>) {
    forall i, j :: 0 <= i < j < |steps| ==> Before(steps[i], steps[j])
  }

  ghost predicate StepsOf(steps: seq<UndoStep>, fs: seq<File>, created: bool) {
    && (forall s :: s in steps ==> exists f :: f in fs && f.undo && (f.status == CREATED) == created && s == StepOf(f))
    && (forall f :: f in fs && f.undo && (f.status == CREATED) == created ==> StepOf(f) in steps)
  }

  lemma {:induction false} DeletesOrdered(fs: seq<File>)
    requires Ascending(fs)
    ensures StepsOf(Deletes(fs), fs, true) && Ordered(Deletes(fs))
  {
    if fs != [] {
      var front, f := fs[..|fs| - 1], fs[|fs| - 1];
      DeletesOrdered(front);
      assert fs == front + [f];
      NamesBelowLast(fs, Deletes(front), true);
    }
  }

  lemma {:induction false} OthersOrdered(fs: seq<File>)
    requires Ascending(fs)
    ensures StepsOf(Others(fs), fs, false) && Ordered(Others(fs))
  {
    if fs != [] {
      var front, f := fs[..|fs| - 1], fs[|fs| - 1];
      OthersOrdered(front);
      assert fs == front + [f];
      NamesBelowLast(fs, Others(front), false);
    }
  }

  lemma NamesBelowLast(fs: seq<File>, steps: seq<UndoStep>, created: bool)
    requires fs != [] && Ascending(fs) && StepsOf(steps, fs[..|fs| - 1], created)
    ensures forall s :: s in steps ==> Less(s.name, fs[|fs| - 1].name)
  {
  }

  /** The steps are those of the selected files, each in its place. */
  lemma UndoStepsOrdered(fs: seq<File>)
    requires Ascending(fs)
    ensures Ordered(UndoSteps(fs))
    ensures forall s :: s in UndoSteps(fs) <==> exists f :: f in fs && f.undo && s == StepOf(f)
  {
    DeletesOrdered(fs);
    OthersOrdered(fs);
    assert forall s :: s in Deletes(fs) ==> s.action == DELETE;
    assert forall s :: s in Others(fs) ==> s.action != DELETE;
  }

  lemma NextStep(fs: seq<File>, k: nat)
    requires k < |fs|
    ensures Deletes(fs[..k + 1])
      == (if fs[k].undo && fs[k].status == CREATED then [StepOf(fs[k])] else []) + Deletes(fs[..k])
    ensures Others(fs[..k + 1])
      == Others(fs[..k]) + (if fs[k].undo && fs[k].status != CREATED then [StepOf(fs[k])] else [])
  {
    assert fs[..k + 1][..k] == fs[..k];
  }

  /** The entries whose names are not ignored, in their order. */
  function Filtered(fs: seq<File>, ignored: string -> bool): seq<File> {
    if fs == [] then [] else
      var f := fs[|fs| - 1];
      Filtered(fs[..|fs| - 1], ignored) + (if ignored(f.name) then [] else [f])
  }

  lemma {:induction false} FilteredMembers(fs: seq<File>, ignored: string -> bool, f: File)
    ensures f in Filtered(fs, ignored) <==> f in fs && !ignored(f.name)
  {
    if fs != [] {
      FilteredMembers(fs[..|fs| - 1], ignored, f);
      assert fs == fs[..|fs| - 1] + [fs[|fs| - 1]];
    }
  }

  lemma {:induction false} FilteredAscending(fs: seq<File>, ignored: string -> bool)
    requires Ascending(fs)
    ensures Ascending(Filtered(fs, ignored))
  {
    if fs != [] {
      var front, f := fs[..|fs| - 1], fs[|fs| - 1];
      FilteredAscending(front, ignored);
      forall g | g in Filtered(front, ignored) ensures Less(g.name, f.name) {
        FilteredMembers(front, ignored, g);
      }
    }
  }

  function AllSelected(fs: seq<File>): (gs: seq<File>)
    ensures |gs| == |fs| && forall i :: 0 <= i < |fs| ==> gs[i] == fs[i].(undo := true)
  {
    seq(|fs|, i requires 0 <= i < |fs| => fs[i].(undo := true))
  }

  class Files {
    var entries: seq<File>

    constructor ()
      ensures entries == []
    {
      entries := [];
    }

    method PushBack(file: File)
      modifies this
      ensures entries == old(entries) + [file]
    {
      entries := entries + [file];
    }

    method Sort()
      modifies this
      ensures SortedBy(entries, NameOf) && multiset(entries) == old(multiset(entries))
    {
      entries := Names.Sort(entries, NameOf);
    }

    /** Undo everything: the loop of the client when no file is named. */
    method SelectAll()
      modifies this
      ensures entries == AllSelected(old(entries))
    {
      for i := 0 to |entries|
        invariant |entries| == |old(entries)|
        invariant forall k :: 0 <= k < |entries| ==>
          entries[k] == if k < i then old(entries)[k].(undo := true) else old(entries)[k]
      {
        entries := entries[i := entries[i].(undo := true)];
      }
    }

    method Filter(ignored: string -> bool)
      modifies this
      ensures entries == Filtered(old(entries), ignored)
    {
      var kept := [];
      for i := 0 to |entries|
        invariant entries == old(entries) && kept == Filtered(entries[..i], ignored)
      {
        assert entries[..i + 1][..i] == entries[..i];
        if !ignored(entries[i].name) {
          kept := kept + [entries[i]];
        }
      }
      assert entries[..|entries|] == entries;
      entries := kept;
    }

    /** Binary search, as std::lower_bound does it. */
    method Find(name: string) returns (i: nat)
      requires Ascending(entries)
      ensures i == FindIndex(entries, name)
    {
      var lo, hi := 0, |entries|;
      while lo < hi
        invariant 0 <= lo <= hi <= |entries|
        invariant forall k :: 0 <= k < lo ==> Less(entries[k].name, name)
        invariant forall k :: hi <= k < |entries| ==> !Less(entries[k].name, name)
      {
        var mid := (lo + hi) / 2;
        if Less(entries[mid].name, name) {
          forall k | 0 <= k < mid ensures Less(entries[k].name, name) {
            LessTransitive(entries[k].name, entries[mid].name, name);
          }
          lo := mid + 1;
        } else {
          forall k | mid < k < |entries| ensures !Less(entries[k].name, name) {
            if Less(entries[k].name, name) {
              LessTransitive(entries[mid].name, entries[k].name, name);
            }
          }
          hi := mid;
        }
      }
      LowerBoundIs(entries, name, lo);
      i := if lo < |entries| && entries[lo].name == name then lo else |entries|;
    }

    method GetUndoSteps() returns (undoSteps: seq<UndoStep>)
      ensures undoSteps == UndoSteps(entries)
    {
      undoSteps := [];
      var k := |entries|;
      assert entries[..k] == entries;
      while k > 0
        invariant 0 <= k <= |entries|
        invariant undoSteps + Deletes(entries[..k]) == Deletes(entries)
      {
        k := k - 1;
        var f := entries[k];
        NextStep(entries, k);
        if f.undo && f.status == CREATED {
          Associative(undoSteps, [StepOf(f)], Deletes(entries[..k]));
          undoSteps := undoSteps + [StepOf(f)];
        }
      }
      assert undoSteps == Deletes(entries);
      for i := 0 to |entries|
        invariant undoSteps == Deletes(entries) + Others(entries[..i])
      {
        var f := entries[i];
        NextStep(entries, i);
        if f.undo && f.status != CREATED {
          Associative(Deletes(entries), Others(entries[..i]), [StepOf(f)]);
          undoSteps := undoSteps + [StepOf(f)];
        }
      }
      assert entries[..|entries|] == entries;
    }
  }
}
