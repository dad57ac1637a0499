/** Undoing a part of a comparison, in trees without links: what becomes of the selected paths, and when every step
    succeeds. */
module UndoSelection {
  import opened Names
  import opened Status
  import opened Trees
  import opened Compare
  import opened FileLists
  import opened Kernel
  import opened Undo
  import opened UndoRun

  /** An entry of the comparison, selected or not. */
  ghost predicate InDiff(pre: Tree, post: Tree, f: File) {
    Parse(f.name) in Diff(pre, post) && f == Chosen(pre, post, Parse(f.name)).(undo := f.undo)
  }

  /** A sorted list of entries of the comparison: any of them may be missing, any of the others may be selected. */
  ghost predicate SomeList(fs: seq<File>, pre: Tree, post: Tree) {
    Ascending(fs) && forall f :: f in fs ==> InDiff(pre, post, f)
  }

  /** A selection is undone on a system that still is the post snapshot; there are no links. */
  ghost predicate Selective(fs: seq<File>, pre: Tree, post: Tree, start: Nodes) {
    Setting(pre, post, start) && Plain(start, pre) && SomeList(fs, pre, post)
  }

  /** Something above which directories had to be made. */
  ghost predicate Gap(pre: Tree, done: set<Path>, q: Path) {
    exists r: Path :: r in done && r in pre && q < r
  }

  ghost predicate Present(pre: Tree, start: Nodes, done: set<Path>, q: Path) {
    if q in done then q in pre else q in start || Gap(pre, done, q)
  }

  /** The system after the paths in done were undone: they are as the goal wants them, what was missing above them are
      new directories, and nothing else has changed. */
  ghost function Patched(env: Env, pre: Tree, post: Tree, start: Nodes, done: set<Path>): Nodes {
    map q | q in pre.Keys + start.Keys && Present(pre, start, done, q) :: PatchedNode(env, pre, post, start, done, q)
  }

  ghost function PatchedNode(env: Env, pre: Tree, post: Tree, start: Nodes, done: set<Path>, q: Path): Node {
    if q in done && q in pre then GoalNode(pre, post, q)
    else if q in start then start[q]
    else Dir(env.newMode, env.uid, env.gid)
  }

  lemma PatchedAt(env: Env, pre: Tree, post: Tree, start: Nodes, done: set<Path>, q: Path)
    requires ValidTree(pre)
    ensures q in Patched(env, pre, post, start, done) <==> Present(pre, start, done, q)
    ensures Present(pre, start, done, q) ==>
      Patched(env, pre, post, start, done)[q] == PatchedNode(env, pre, post, start, done, q)
  {
    if Gap(pre, done, q) {
      var r :| r in done && r in pre && q < r;
      AncestorsAreDirs(View(pre), q, r);
    }
  }

  /** Whether the undo of p can succeed, given what else is selected: nothing unselected may be left below what has to
      go, and nothing unselected may be in the way of what has to come. */
  ghost predicate Feasible(slash: bool, pre: Tree, post: Tree, selected: set<Path>, p: Path) {
    var status := StatusAt(pre, post, p);
    if status == CREATED then BelowSelected(post, selected, p)
    else
      p in pre && (Has(status, DELETED | TYPE | CONTENT) ==> Copyable(pre[p]))
      && if status == DELETED then
           (forall a: Path :: a < p && a in post ==> post[a].node.Dir? || a in selected)
           && (slash ==> |p| > 1 && p[..1] in post)
         else
           !NoParentName(slash, p) && (Has(status, TYPE) ==> BelowSelected(post, selected, p))
  }

  ghost predicate BelowSelected(post: Tree, selected: set<Path>, p: Path) {
    forall q: Path :: q in post && p < q ==> q in selected
  }

  /** It is p's turn among the selected paths. */
  ghost predicate PartTurn(pre: Tree, post: Tree, selected: set<Path>, done: set<Path>, p: Path) {
    && p in selected && selected <= Diff(pre, post).Keys && done <= selected && p !in done
    && (forall q :: q in done ==> MayBeEarlier(pre, post, p, q))
    && (forall q :: q in selected && q != p && MustBeEarlier(pre, post, p, q) ==> q in done)
  }

  lemma StepsAreSelected(fs: seq<File>, pre: Tree, post: Tree)
    requires SomeList(fs, pre, post)
    ensures Selected(fs) <= Diff(pre, post).Keys && PathsOf(UndoSteps(fs)) == Selected(fs)
    ensures forall s :: s in UndoSteps(fs) ==> InScript(pre, post, s)
    ensures forall p :: p in Selected(fs) ==> Covered(UndoSteps(fs), pre, post, p)
  {
    UndoStepsOrdered(fs);
    forall s | s in UndoSteps(fs) ensures InScript(pre, post, s) && Parse(s.name) in Selected(fs) {
      var f :| f in fs && f.undo && s == StepOf(f);
      assert InDiff(pre, post, f);
    }
    forall p | p in Selected(fs)
      ensures p in Diff(pre, post) && Covered(UndoSteps(fs), pre, post, p) && p in PathsOf(UndoSteps(fs))
    {
      var f :| f in fs && f.undo && Parse(f.name) == p;
      assert InDiff(pre, post, f) && StepOf(f) in UndoSteps(fs);
    }
  }

  lemma PartTurnAt(fs: seq<File>, pre: Tree, post: Tree, i: nat)
    requires SomeList(fs, pre, post) && i < |UndoSteps(fs)|
    ensures PartTurn(pre, post, Selected(fs), PathsOf(UndoSteps(fs)[..i]), Parse(UndoSteps(fs)[i].name))
  {
    StepsAreSelected(fs, pre, post);
    UndoStepsOrdered(fs);
    var steps := UndoSteps(fs);
    var p, done := Parse(steps[i].name), PathsOf(steps[..i]);
    assert steps[i] in steps && p in PathsOf(steps);
    forall q | q in done ensures MayBeEarlier(pre, post, p, q) && q in Selected(fs) {
      var s :| s in steps[..i] && Parse(s.name) == q;
      var k :| 0 <= k < i && steps[k] == s;
      assert steps[k] in steps;
      EarlierStep(steps, k, i, pre, post);
    }
    forall q | q in Selected(fs) && q != p && MustBeEarlier(pre, post, p, q) ensures q in done {
      assert Covered(steps, pre, post, q);
      EarlierPath(steps, i, pre, post, q);
    }
  }

  /** The announced actions tell what happens: what only the post snapshot has is deleted, what only the pre snapshot
      has is created, and what both have is modified. */
  lemma ActionsTell(fs: seq<File>, pre: Tree, post: Tree, s: UndoStep)
    requires SomeList(fs, pre, post) && s in UndoSteps(fs)
    ensures var p := Parse(s.name);
      && (p in pre || p in post)
      && (s.action == DELETE <==> p !in pre) && (s.action == CREATE <==> p !in post)
      && (s.action == MODIFY <==> p in pre && p in post)
  {
    UndoStepsOrdered(fs);
    var f :| f in fs && f.undo && s == StepOf(f);
    assert InDiff(pre, post, f);
    StatusCreated(pre, post, Parse(f.name));
  }

  lemma SelectedIsFound(fs: seq<File>, pre: Tree, post: Tree, i: nat)
    requires SomeList(fs, pre, post) && i < |UndoSteps(fs)|
    ensures var k := FindIndex(fs, UndoSteps(fs)[i].name);
      k < |fs| && fs[k] == Chosen(pre, post, Parse(UndoSteps(fs)[i].name))
  {
    var step := UndoSteps(fs)[i];
    UndoStepsOrdered(fs);
    assert step in UndoSteps(fs);
    var f :| f in fs && f.undo && step == StepOf(f);
    var k :| 0 <= k < |fs| && fs[k] == f;
    FindIndexFinds(fs, k);
    assert InDiff(pre, post, f);
  }

  /** Undoing p leaves no new gaps unless p was deleted. */
  lemma PatchAdd(env: Env, pre: Tree, post: Tree, start: Nodes, done: set<Path>, p: Path)
    requires ValidTree(pre) && p !in done && (p in pre ==> forall a: Path :: a < p ==> a in start)
    ensures Patched(env, pre, post, start, done + {p})
         == if p in pre then Patched(env, pre, post, start, done)[p := GoalNode(pre, post, p)]
            else Patched(env, pre, post, start, done) - {p}
  {
    var t, t' := Patched(env, pre, post, start, done), Patched(env, pre, post, start, done + {p});
    var goal := if p in pre then t[p := GoalNode(pre, post, p)] else t - {p};
    forall q ensures (q in t' <==> q in goal) && (q in t' ==> t'[q] == goal[q]) {
      PatchedAt(env, pre, post, start, done, q);
      PatchedAt(env, pre, post, start, done + {p}, q);
      GapGrows(pre, done, p, q);
    }
  }

  lemma GapGrows(pre: Tree, done: set<Path>, p: Path, q: Path)
    ensures Gap(pre, done + {p}, q) <==> Gap(pre, done, q) || (p in pre && q < p)
  {
    if Gap(pre, done, q) {
      var r: Path :| r in done && r in pre && q < r;
      assert r in done + {p};
    }
    if p in pre && q < p { assert p in done + {p}; }
  }

  /** Bringing a deleted path back fills the gaps above it. */
  lemma PatchRemade(env: Env, pre: Tree, post: Tree, start: Nodes, done: set<Path>, p: Path)
    requires ValidTree(pre) && p in pre && p !in done
    requires forall a :: a in done && a < p ==> a in pre
    ensures Patched(env, pre, post, start, done + {p})
         == MadeAbove(env, Patched(env, pre, post, start, done), p)[p := GoalNode(pre, post, p)]
  {
    var t, t' := Patched(env, pre, post, start, done), Patched(env, pre, post, start, done + {p});
    var goal := MadeAbove(env, t, p)[p := GoalNode(pre, post, p)];
    forall q ensures (q in t' <==> q in goal) && (q in t' ==> t'[q] == goal[q]) {
      PatchedAt(env, pre, post, start, done, q);
      PatchedAt(env, pre, post, start, done + {p}, q);
      GapGrows(pre, done, p, q);
      MadeAboveAt(env, t, p, q);
    }
  }

  /** What is below p when its turn comes. */
  lemma LeftBelow(env: Env, pre: Tree, post: Tree, start: Nodes, selected: set<Path>, done: set<Path>, p: Path)
    requires Setting(pre, post, start) && PartTurn(pre, post, selected, done, p)
    requires p in pre ==> p in post && !pre[p].node.SameKind(post[p].node)
    ensures EmptyBelow(Patched(env, pre, post, start, done), p) <==> BelowSelected(post, selected, p)
  {
    var t := Patched(env, pre, post, start, done);
    StatusCreated(pre, post, p);
    forall q | p < q ensures q in t <==> q in post && q !in selected {
      PatchedAt(env, pre, post, start, done, q);
      StatusCreated(pre, post, q);
      BelowOutside(p, q);
      NoGapBelow(pre, post, selected, done, p, q);
      if q in post && q in pre {
        AncestorsAreDirs(View(post), p, q);
        AncestorsAreDirs(View(pre), p, q);
      }
      if q in done {
        assert MayBeEarlier(pre, post, p, q);
      }
      if q in post && q in selected {
        assert q !in pre;
        assert MustBeEarlier(pre, post, p, q);
      }
    }
  }

  lemma BelowOutside(p: Path, q: Path)
    requires p != [] && Outside(p) && p < q
    ensures Outside(q)
  {
    assert p[..1] == q[..1];
  }

  lemma NoGapBelow(pre: Tree, post: Tree, selected: set<Path>, done: set<Path>, p: Path, q: Path)
    requires PartTurn(pre, post, selected, done, p) && p <= q
    ensures !Gap(pre, done, q)
  {
    forall r: Path | r in done && r in pre && q < r ensures false {
      assert MayBeEarlier(pre, post, p, r);
      StatusCreated(pre, post, r);
    }
  }

  /** What doUndo promises of any tree. */
  ghost predicate Outcome(env: Env, t: Nodes, t': Nodes, pre: Tree, f: File, ok: bool) {
    && (Undoable(t, pre, f) ==> Exact(env, t, t', pre, f, ok))
    && (Absent(t, pre, f) ==> Remade(env, t, t', pre, Parse(f.name), ok))
    && (Blocked(t, f) ==> !ok)
  }

  /** The run so far has been right, and it is p's turn. */
  ghost predicate Ready(env: Env, pre: Tree, post: Tree, start: Nodes, selected: set<Path>, done: set<Path>, p: Path) {
    && Setting(pre, post, start) && PartTurn(pre, post, selected, done, p)
    && Plain(Patched(env, pre, post, start, done), pre)
    && (forall q :: q in done ==> Feasible(env.slash, pre, post, selected, q))
  }

  ghost predicate StepRight(env: Env, pre: Tree, post: Tree, start: Nodes, selected: set<Path>, done: set<Path>,
                            p: Path, t': Nodes, ok: bool) {
    && (ok ==> t' == Patched(env, pre, post, start, done + {p}) && Feasible(env.slash, pre, post, selected, p))
    && (env.Benign() && Feasible(env.slash, pre, post, selected, p) ==> ok)
  }

  lemma NoLinkAt(pre: Tree, f: File)
    requires LinkFree(View(pre))
    ensures Parse(f.name) in pre ==> !ChmodsLink(pre[Parse(f.name)], f.status)
  {
    if Parse(f.name) in pre { assert !View(pre)[Parse(f.name)].Lnk?; }
  }

  lemma SolidIfThere(t: Nodes, p: Path)
    requires Closed(t) && p in t && p != []
    ensures Solid(t, p)
  {
    forall a: Path | a < p ensures DirAt(t, a) {
      AncestorsAreDirs(t, a, p);
    }
  }

  lemma StepCreated(env: Env, pre: Tree, post: Tree, start: Nodes, selected: set<Path>, done: set<Path>, p: Path,
                    t': Nodes, ok: bool)
    requires Ready(env, pre, post, start, selected, done, p) && StatusAt(pre, post, p) == CREATED
    requires Outcome(env, Patched(env, pre, post, start, done), t', pre, Chosen(pre, post, p), ok)
    ensures StepRight(env, pre, post, start, selected, done, p, t', ok)
  {
    var t, f := Patched(env, pre, post, start, done), Chosen(pre, post, p);
    ParseRender(p);
    UndoParts(f.status);
    StatusCreated(pre, post, p);
    PatchedAt(env, pre, post, start, done, p);
    LeftBelow(env, pre, post, start, selected, done, p);
    PatchAdd(env, pre, post, start, done, p);
    SolidIfThere(t, p);
    NoLinkAt(pre, f);
    if BelowSelected(post, selected, p) {
      assert Undoable(t, pre, f);
    } else {
      assert Blocked(t, f);
    }
  }

  /** Where the post snapshot has a node too, it is still there. */
  lemma StillThere(env: Env, pre: Tree, post: Tree, start: Nodes, selected: set<Path>, done: set<Path>, p: Path)
    requires Ready(env, pre, post, start, selected, done, p) && p in pre && p in post
    ensures var t := Patched(env, pre, post, start, done); p in t && t[p] == post[p].node && Solid(t, p)
    ensures forall a: Path :: a < p ==> a in start
  {
    StatusCreated(pre, post, p);
    PatchedAt(env, pre, post, start, done, p);
    SolidIfThere(Patched(env, pre, post, start, done), p);
    forall a: Path | a < p ensures a in start {
      AncestorsAreDirs(View(post), a, p);
      assert Outside(a);
    }
  }

  lemma StepType(env: Env, pre: Tree, post: Tree, start: Nodes, selected: set<Path>, done: set<Path>, p: Path,
                 t': Nodes, ok: bool)
    requires Ready(env, pre, post, start, selected, done, p) && p in pre && p in post
    requires Has(StatusAt(pre, post, p), TYPE)
    requires Outcome(env, Patched(env, pre, post, start, done), t', pre, Chosen(pre, post, p), ok)
    ensures StepRight(env, pre, post, start, selected, done, p, t', ok)
  {
    var t, f := Patched(env, pre, post, start, done), Chosen(pre, post, p);
    ParseRender(p);
    UndoParts(f.status);
    StatusCreated(pre, post, p);
    StillThere(env, pre, post, start, selected, done, p);
    LeftBelow(env, pre, post, start, selected, done, p);
    PatchAdd(env, pre, post, start, done, p);
    NoLinkAt(pre, f);
    RestoredIsGoal(pre, post, p);
    if BelowSelected(post, selected, p) {
      assert Undoable(t, pre, f);
    } else {
      assert Blocked(t, f);
    }
  }

  lemma StepModified(env: Env, pre: Tree, post: Tree, start: Nodes, selected: set<Path>, done: set<Path>, p: Path,
                     t': Nodes, ok: bool)
    requires Ready(env, pre, post, start, selected, done, p) && p in pre && p in post
    requires !Has(StatusAt(pre, post, p), TYPE)
    requires Outcome(env, Patched(env, pre, post, start, done), t', pre, Chosen(pre, post, p), ok)
    ensures StepRight(env, pre, post, start, selected, done, p, t', ok)
  {
    var t, f := Patched(env, pre, post, start, done), Chosen(pre, post, p);
    ParseRender(p);
    UndoParts(f.status);
    StatusCreated(pre, post, p);
    StillThere(env, pre, post, start, selected, done, p);
    PatchAdd(env, pre, post, start, done, p);
    NoLinkAt(pre, f);
    ModifiedIsGoal(pre, post, p);
    assert Undoable(t, pre, f);
  }

  /** A deleted path is not there yet. */
  lemma NotThereYet(env: Env, pre: Tree, post: Tree, start: Nodes, selected: set<Path>, done: set<Path>, p: Path)
    requires Ready(env, pre, post, start, selected, done, p) && StatusAt(pre, post, p) == DELETED
    ensures p !in Patched(env, pre, post, start, done) && p in pre
    ensures forall a :: a in done && a < p ==> a in pre
  {
    StatusCreated(pre, post, p);
    PatchedAt(env, pre, post, start, done, p);
    NoGapBelow(pre, post, selected, done, p, p);
    forall a | a in done && a < p ensures a in pre {
      AncestorsAreDirs(View(pre), a, p);
    }
  }

  lemma ClearIff(env: Env, pre: Tree, post: Tree, start: Nodes, selected: set<Path>, done: set<Path>, p: Path)
    requires Ready(env, pre, post, start, selected, done, p) && StatusAt(pre, post, p) == DELETED
    ensures Clear(Patched(env, pre, post, start, done), p) <==>
      forall a: Path :: a < p && a in post ==> post[a].node.Dir? || a in selected
  {
    var t := Patched(env, pre, post, start, done);
    StatusCreated(pre, post, p);
    forall a: Path | a < p ensures a in t && !DirAt(t, a) <==> a in post && !post[a].node.Dir? && a !in selected {
      PatchedAt(env, pre, post, start, done, a);
      AncestorsAreDirs(View(pre), a, p);
      assert Outside(a);
      if a in selected {
        StatusCreated(pre, post, a);
        assert MustBeEarlier(pre, post, p, a);
      }
    }
  }

  /** Below "/" the first directory is never new: it cannot have been made, and could not have been brought back. */
  lemma FirstIsOld(env: Env, pre: Tree, post: Tree, start: Nodes, selected: set<Path>, done: set<Path>, p: Path)
    requires Ready(env, pre, post, start, selected, done, p) && StatusAt(pre, post, p) == DELETED && env.slash
    requires |p| > 1
    ensures p[..1] in Patched(env, pre, post, start, done) <==> p[..1] in post
  {
    var a := p[..1];
    StatusCreated(pre, post, p);
    PatchedAt(env, pre, post, start, done, a);
    AncestorsAreDirs(View(pre), a, p);
    assert Outside(a);
    if a in done { StatusCreated(pre, post, a); }
    if a !in post && Gap(pre, done, a) {
      var r: Path :| r in done && r in pre && a < r;
      assert Feasible(env.slash, pre, post, selected, r) && r[..1] == a;
      StatusCreated(pre, post, r);
      if r in post { AncestorsAreDirs(View(post), a, r); }
    }
  }

  lemma StepDeleted(env: Env, pre: Tree, post: Tree, start: Nodes, selected: set<Path>, done: set<Path>, p: Path,
                    t': Nodes, ok: bool)
    requires Ready(env, pre, post, start, selected, done, p) && StatusAt(pre, post, p) == DELETED
    requires Outcome(env, Patched(env, pre, post, start, done), t', pre, Chosen(pre, post, p), ok)
    ensures StepRight(env, pre, post, start, selected, done, p, t', ok)
  {
    var t, f := Patched(env, pre, post, start, done), Chosen(pre, post, p);
    ParseRender(p);
    UndoParts(f.status);
    StatusCreated(pre, post, p);
    NotThereYet(env, pre, post, start, selected, done, p);
    ClearIff(env, pre, post, start, selected, done, p);
    if env.slash && |p| > 1 { FirstIsOld(env, pre, post, start, selected, done, p); }
    RestoredIsGoal(pre, post, p);
    PatchRemade(env, pre, post, start, done, p);
    assert Absent(t, pre, f);
  }

  /** Each step undoes its path exactly, and succeeds exactly if it is feasible. */
  lemma SelectedStepRight(env: Env, pre: Tree, post: Tree, start: Nodes, selected: set<Path>, done: set<Path>, p: Path,
                          t': Nodes, ok: bool)
    requires Ready(env, pre, post, start, selected, done, p)
    requires Outcome(env, Patched(env, pre, post, start, done), t', pre, Chosen(pre, post, p), ok)
    ensures StepRight(env, pre, post, start, selected, done, p, t', ok)
  {
    StatusCreated(pre, post, p);
    var status := StatusAt(pre, post, p);
    if status == CREATED {
      StepCreated(env, pre, post, start, selected, done, p, t', ok);
    } else if status == DELETED {
      StepDeleted(env, pre, post, start, selected, done, p, t', ok);
    } else if Has(status, TYPE) {
      StepType(env, pre, post, start, selected, done, p, t', ok);
    } else {
      StepModified(env, pre, post, start, selected, done, p, t', ok);
    }
  }

  ghost predicate AllFeasible(slash: bool, pre: Tree, post: Tree, selected: set<Path>, paths: set<Path>) {
    forall p :: p in paths ==> Feasible(slash, pre, post, selected, p)
  }

  /** Where a run over a selection stands after its first i steps. */
  ghost predicate Partway(env: Env, fs: seq<File>, pre: Tree, post: Tree, start: Nodes, t: Nodes, i: nat, ok: bool)
    requires i <= |UndoSteps(fs)|
  {
    var done := PathsOf(UndoSteps(fs)[..i]);
    && (ok ==> t == Patched(env, pre, post, start, done) && AllFeasible(env.slash, pre, post, Selected(fs), done))
    && (env.Benign() && AllFeasible(env.slash, pre, post, Selected(fs), done) ==> ok)
  }

  lemma PartwayStarts(env: Env, fs: seq<File>, pre: Tree, post: Tree, start: Nodes)
    requires ValidTree(pre)
    ensures Partway(env, fs, pre, post, start, start, 0, true)
  {
    var t := Patched(env, pre, post, start, PathsOf(UndoSteps(fs)[..0]));
    forall q ensures (q in t <==> q in start) && (q in t ==> t[q] == start[q]) {
      PatchedAt(env, pre, post, start, {}, q);
    }
    assert t == start;
  }

  lemma PartwayOn(env: Env, fs: seq<File>, pre: Tree, post: Tree, start: Nodes, t: Nodes, t': Nodes, i: nat, ok: bool,
                  ok': bool)
    requires Selective(fs, pre, post, start) && i < |UndoSteps(fs)| && Plain(t, pre)
    requires Partway(env, fs, pre, post, start, t, i, ok)
    requires Outcome(env, t, t', pre, Chosen(pre, post, Parse(UndoSteps(fs)[i].name)), ok')
    ensures Partway(env, fs, pre, post, start, t', i + 1, ok && ok')
  {
    var steps := UndoSteps(fs);
    var p, done := Parse(steps[i].name), PathsOf(steps[..i]);
    PartTurnAt(fs, pre, post, i);
    PathsGrow(steps, i);
    if ok {
      SelectedStepRight(env, pre, post, start, Selected(fs), done, p, t', ok');
    }
  }

  lemma PartwayEnds(env: Env, fs: seq<File>, pre: Tree, post: Tree, start: Nodes, t: Nodes, ok: bool)
    requires SomeList(fs, pre, post) && Partway(env, fs, pre, post, start, t, |UndoSteps(fs)|, ok)
    ensures ok ==> t == Patched(env, pre, post, start, Selected(fs))
    ensures env.Benign() ==> (ok <==> AllFeasible(env.slash, pre, post, Selected(fs), Selected(fs)))
  {
    assert UndoSteps(fs)[..|UndoSteps(fs)|] == UndoSteps(fs);
    StepsAreSelected(fs, pre, post);
  }

  lemma FeasibleIsFine(slash: bool, pre: Tree, post: Tree, selected: set<Path>, p: Path)
    requires LinkFree(View(pre)) && p in Diff(pre, post) && Feasible(slash, pre, post, selected, p)
    ensures UndoFine(slash, pre, Chosen(pre, post, p))
  {
    ParseRender(p);
    NoParentOrDeeper(slash, p);
    NoLinkAt(pre, Chosen(pre, post, p));
  }

  lemma NoParentOrDeeper(slash: bool, p: Path)
    ensures p != [] ==> (NoParentName(slash, p) <==> !(slash ==> |p| > 1))
  {
  }

  lemma AllBelowDiffer(pre: Tree, post: Tree, p: Path)
    requires ValidTree(pre) && ValidTree(post) && p in Diff(pre, post)
    requires p in pre ==> p in post && !pre[p].node.SameKind(post[p].node)
    ensures BelowSelected(post, Diff(pre, post).Keys, p)
  {
    StatusCreated(pre, post, p);
    forall q: Path | q in post && p < q ensures q in Diff(pre, post) {
      BelowOutside(p, q);
      StatusCreated(pre, post, q);
      if q in pre {
        AncestorsAreDirs(View(pre), p, q);
        AncestorsAreDirs(View(post), p, q);
      }
    }
  }

  lemma AllAboveDiffer(slash: bool, pre: Tree, post: Tree, p: Path)
    requires ValidTree(pre) && ValidTree(post) && StatusAt(pre, post, p) == DELETED
    requires forall q :: q in Diff(pre, post) ==> UndoFine(slash, pre, Chosen(pre, post, q))
    requires slash ==> |p| > 1
    ensures forall a: Path :: a < p && a in post ==> post[a].node.Dir? || a in Diff(pre, post)
    ensures slash ==> p[..1] in post
  {
    StatusCreated(pre, post, p);
    forall a: Path | a < p && a in post ensures post[a].node.Dir? || a in Diff(pre, post) {
      AncestorsAreDirs(View(pre), a, p);
      assert Outside(a);
    }
    if slash && p[..1] !in post {
      var a := p[..1];
      AncestorsAreDirs(View(pre), a, p);
      StatusCreated(pre, post, a);
      assert Outside(a) && a in Diff(pre, post);
      ParseRender(a);
    }
  }

  lemma FineIsFeasible(slash: bool, pre: Tree, post: Tree, p: Path)
    requires ValidTree(pre) && ValidTree(post) && p in Diff(pre, post)
    requires forall q :: q in Diff(pre, post) ==> UndoFine(slash, pre, Chosen(pre, post, q))
    ensures Feasible(slash, pre, post, Diff(pre, post).Keys, p)
  {
    ParseRender(p);
    StatusCreated(pre, post, p);
    NoParentOrDeeper(slash, p);
    var status := StatusAt(pre, post, p);
    UndoParts(status);
    assert UndoFine(slash, pre, Chosen(pre, post, p));
    if status == CREATED {
      AllBelowDiffer(pre, post, p);
    } else if status == DELETED {
      AllAboveDiffer(slash, pre, post, p);
    } else if Has(status, TYPE) {
      AllBelowDiffer(pre, post, p);
    }
  }

  /** With the whole comparison selected every step is feasible exactly if every single undo can succeed: nothing is in
      the way. */
  lemma WholeFeasibleIff(slash: bool, pre: Tree, post: Tree)
    requires ValidTree(pre) && ValidTree(post) && LinkFree(View(pre))
    ensures AllFeasible(slash, pre, post, Diff(pre, post).Keys, Diff(pre, post).Keys) <==>
      forall p :: p in Diff(pre, post) ==> UndoFine(slash, pre, Chosen(pre, post, p))
  {
    var all := Diff(pre, post).Keys;
    if AllFeasible(slash, pre, post, all, all) {
      forall p | p in Diff(pre, post) ensures UndoFine(slash, pre, Chosen(pre, post, p)) {
        FeasibleIsFine(slash, pre, post, all, p);
      }
    } else if forall p :: p in Diff(pre, post) ==> UndoFine(slash, pre, Chosen(pre, post, p)) {
      forall p | p in all ensures Feasible(slash, pre, post, all, p) {
        FineIsFeasible(slash, pre, post, p);
      }
    }
  }

  /** The rest of the comparison does not keep p from being undone: what has to go has nothing unselected below it, what
      has to come has nothing unselected in its way, and at "/" the first directory can be named. */
  ghost predicate Permitted(slash: bool, pre: Tree, post: Tree, selected: set<Path>, p: Path) {
    && (p !in pre || (p in post && (pre[p].node.Dir? != post[p].node.Dir? || pre[p].node.Reg? != post[p].node.Reg?)) ==>
          forall q: Path :: q in post && p < q ==> q in selected)
    && (p !in post ==> forall a: Path :: a < p && a in post && !post[a].node.Dir? ==> a in selected)
    && (slash && p in pre ==> |p| > 1 && (p !in post ==> p[..1] in post))
  }

  lemma TellingFeasible(slash: bool, pre: Tree, post: Tree, selected: set<Path>, p: Path)
    requires Telling(pre, post) && p in Diff(pre, post)
    ensures Feasible(slash, pre, post, selected, p) <==> Permitted(slash, pre, post, selected, p)
  {
    StatusCreated(pre, post, p);
    UndoParts(StatusAt(pre, post, p));
    OutsideIs(p);
    NoParentOrDeeper(slash, p);
    if p in pre {
      TellingGoal(pre, post, p);
      if p in post { CmpFilesTells(pre[p], post[p]); }
    }
  }

  /** Selected paths are as in the snapshot; of the others nothing has changed, but missing directories above selected
      paths are there now. */
  ghost predicate PartRestored(env: Env, pre: Tree, start: Nodes, selected: set<Path>, t: Nodes) {
    && (forall q :: q in selected ==> (q in t <==> q in pre) && (q in pre && q in t ==> t[q] == pre[q].node))
    && (forall q :: q !in selected && q in start ==> q in t && t[q] == start[q])
    && (forall q :: q !in selected && q !in start ==> NewlyMade(env, pre, selected, t, q))
  }

  ghost predicate NewlyMade(env: Env, pre: Tree, selected: set<Path>, t: Nodes, q: Path) {
    && (q in t <==> exists r: Path :: r in selected && r in pre && q < r)
    && (q in t ==> t[q] == Dir(env.newMode, env.uid, env.gid))
  }

  lemma PatchedIsRestored(env: Env, pre: Tree, post: Tree, start: Nodes, selected: set<Path>)
    requires Telling(pre, post) && ValidTree(pre) && selected <= Diff(pre, post).Keys
    ensures PartRestored(env, pre, start, selected, Patched(env, pre, post, start, selected))
  {
    var t := Patched(env, pre, post, start, selected);
    forall q: Path ensures q in t <==> Present(pre, start, selected, q)
      ensures q in t ==> t[q] == PatchedNode(env, pre, post, start, selected, q)
    {
      PatchedAt(env, pre, post, start, selected, q);
    }
    forall q | q in selected && q in pre ensures GoalNode(pre, post, q) == pre[q].node {
      StatusCreated(pre, post, q);
      OutsideIs(q);
      TellingGoal(pre, post, q);
    }
  }

  /** Where no stamp lies: what a run over a selection leaves, and when it succeeds. */
  lemma PartOutcome(env: Env, fs: seq<File>, pre: Tree, post: Tree, start: Nodes, t: Nodes, ok: bool)
    requires Selective(fs, pre, post, start) && Telling(pre, post)
    requires ok ==> t == Patched(env, pre, post, start, Selected(fs))
    requires env.Benign() ==> (ok <==> AllFeasible(env.slash, pre, post, Selected(fs), Selected(fs)))
    ensures ok ==> PartRestored(env, pre, start, Selected(fs), t)
    ensures env.Benign() ==>
      (ok <==> forall p :: p in Selected(fs) ==> Permitted(env.slash, pre, post, Selected(fs), p))
  {
    StepsAreSelected(fs, pre, post);
    PatchedIsRestored(env, pre, post, start, Selected(fs));
    forall p | p in Selected(fs)
      ensures Feasible(env.slash, pre, post, Selected(fs), p) <==> Permitted(env.slash, pre, post, Selected(fs), p)
    {
      TellingFeasible(env.slash, pre, post, Selected(fs), p);
    }
  }
}
