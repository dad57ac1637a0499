/** Running all undo steps of a comparison in order: what they restore, and what they leave alone. */
module UndoRun {
  import opened Names
  import opened Status
  import opened Trees
  import opened Compare
  import opened FileLists
  import opened Kernel
  import opened Undo

  /** The live system agrees with a snapshot, the directory of snapshots aside. */
  ghost predicate SystemIs(t: Nodes, snapshot: Tree) {
    forall p :: Outside(p) ==> (p in t <==> p in snapshot) && (p in t ==> t[p] == snapshot[p].node)
  }

  /** No reported path of pre is unreadable or a link that readlink cuts off, and no time stamp or inode lies. */
  ghost predicate Telling(pre: Tree, post: Tree) {
    && (forall p: Path :: p in pre && p != [] && p[0] != ".snapshots" ==>
          pre[p].readable && (pre[p].node.Lnk? ==> 0 < |pre[p].node.target| <= 1024))
    && (forall p: Path :: p in pre && p in post && p != [] && p[0] != ".snapshots" ==> StampsTell(pre[p], post[p]))
  }

  predicate StampsTell(e1: Entry, e2: Entry) {
    && (e1.node.Reg? && e2.node.Reg? && (e1.mtime == e2.mtime || e1.inode == e2.inode) ==> e1.node.data == e2.node.data)
    && (e1.node.Lnk? && e2.node.Lnk? ==>
          |e2.node.target| <= 1024 && (e1.mtime == e2.mtime ==> e1.node.target == e2.node.target))
  }

  /** No mode has to be set where a link was replaced by something else. */
  ghost predicate NoModeOverLink(pre: Tree, post: Tree) {
    forall p: Path :: p in pre && p in post && p != [] && p[0] != ".snapshots" && pre[p].node.Lnk? ==>
      post[p].node.Lnk? || post[p].node.mode == 0x1FF
  }

  /** Everything directly below the root is as it was, so that nothing there has to be made or changed. */
  ghost predicate TopSame(pre: Tree, post: Tree) {
    forall n: Name :: n != ".snapshots" && [n] in pre ==> [n] in post && post[[n]].node == pre[[n]].node
  }

  /** The same of post, as far as comparing needs it. */
  ghost predicate ReadableTop(post: Tree) {
    forall n: Name :: [n] in post ==> post[[n]].readable && (post[[n]].node.Lnk? ==> post[[n]].node.target != "")
  }

  lemma OutsideIs(p: Path)
    ensures Outside(p) <==> p == [] || p[0] != ".snapshots"
  {
    if p != [] {
      assert p[..1] == [p[0]];
      assert SNAPSHOTS_DIR <= p <==> p[..1] == SNAPSHOTS_DIR;
    }
  }

  /** Where nothing lies the goal is the snapshot itself. */
  lemma TellingGoal(pre: Tree, post: Tree, p: Path)
    requires Telling(pre, post) && p in pre && p != [] && p[0] != ".snapshots"
    ensures GoalNode(pre, post, p) == pre[p].node && Copyable(pre[p]) && Restored(pre[p]) == pre[p].node
    ensures p in post && pre[p].node.SameKind(post[p].node) && SameContent(pre[p], post[p]) ==>
      pre[p].node.Content() == post[p].node.Content()
  {
    if p in post { assert StampsTell(pre[p], post[p]); }
  }

  /** The file of path p, selected for undo. */
  function Chosen(pre: Tree, post: Tree, p: Path): File {
    File(Render(p), StatusAt(pre, post, p), true)
  }

  function AllChosen(pre: Tree, post: Tree): set<File> {
    set p | p in Diff(pre, post) :: Chosen(pre, post, p)
  }

  function Mixed(pre: Tree, post: Tree, start: Nodes, done: set<Path>): Nodes {
    Mix(Goal(pre, post), start, done)
  }

  ghost predicate Setting(pre: Tree, post: Tree, start: Nodes) {
    ValidTree(pre) && ValidTree(post) && SystemIs(start, post)
  }

  /** It is p's turn: deletions bottom-up before all else, the rest top-down. */
  ghost predicate Turn(pre: Tree, post: Tree, done: set<Path>, p: Path) {
    && done <= Diff(pre, post).Keys && p in Diff(pre, post) && p !in done
    && if StatusAt(pre, post, p) == CREATED then
         (forall q :: q in done ==> !(q < p))
         && (forall q :: q in Diff(pre, post) && StatusAt(pre, post, q) == CREATED && p < q ==> q in done)
       else
         (forall q :: q in Diff(pre, post) && (StatusAt(pre, post, q) == CREATED || q < p) ==> q in done)
         && (forall q :: q in done && p < q ==> StatusAt(pre, post, q) == CREATED)
  }

  lemma StatusCreated(pre: Tree, post: Tree, p: Path)
    ensures StatusAt(pre, post, p) == CREATED <==> p != [] && Outside(p) && p !in pre && p in post
    ensures StatusAt(pre, post, p) == DELETED <==> p != [] && Outside(p) && p in pre && p !in post
    ensures p in Diff(pre, post) ==> p != [] && Outside(p)
  {
  }

  lemma MixSolid(pre: Tree, post: Tree, start: Nodes, done: set<Path>, p: Path)
    requires Setting(pre, post, start) && Turn(pre, post, done, p)
    ensures Solid(Mixed(pre, post, start, done), p)
  {
    var mix := Mixed(pre, post, start, done);
    StatusCreated(pre, post, p);
    forall a: Path {:trigger DirAt(mix, a)} | a < p ensures DirAt(mix, a) {
      StatusCreated(pre, post, a);
      assert Outside(a);
      if StatusAt(pre, post, p) == CREATED {
        AncestorsAreDirs(View(post), a, p);
      } else {
        AncestorsAreDirs(View(pre), a, p);
        if a !in done {
          assert a !in Diff(pre, post);
          assert StatusAt(pre, post, a) == 0;
        }
      }
    }
  }

  /** Whatever is still below a path that has to go was created too, and went before it. */
  lemma MixNothingBelow(pre: Tree, post: Tree, start: Nodes, done: set<Path>, p: Path)
    requires Setting(pre, post, start) && Turn(pre, post, done, p)
    requires p in pre ==> !pre[p].node.Dir?
    ensures EmptyBelow(Mixed(pre, post, start, done), p)
  {
    StatusCreated(pre, post, p);
    forall q | q in Mixed(pre, post, start, done) && p < q ensures false {
      assert Outside(q);
      StatusCreated(pre, post, q);
      if q in pre { AncestorsAreDirs(View(pre), p, q); }
    }
  }

  lemma MixUndoable(pre: Tree, post: Tree, start: Nodes, done: set<Path>, p: Path)
    requires Setting(pre, post, start) && Turn(pre, post, done, p)
    requires Closed(Mixed(pre, post, start, done))
    ensures Undoable(Mixed(pre, post, start, done), pre, Chosen(pre, post, p))
  {
    ParseRender(p);
    MixSolid(pre, post, start, done, p);
    StatusCreated(pre, post, p);
    var status := StatusAt(pre, post, p);
    UndoParts(status);
    if status == CREATED {
      MixNothingBelow(pre, post, start, done, p);
    } else if status != DELETED && Has(status, TYPE) {
      MixTypeChange(pre, post, start, done, p);
    }
  }

  /** Only one of two kinds is a directory. */
  lemma MixTypeChange(pre: Tree, post: Tree, start: Nodes, done: set<Path>, p: Path)
    requires Setting(pre, post, start) && Turn(pre, post, done, p)
    requires p in pre && p in post && !pre[p].node.SameKind(post[p].node)
    ensures EmptyBelow(Mixed(pre, post, start, done), p)
  {
    StatusCreated(pre, post, p);
    if pre[p].node.Dir? {
      forall q | q in Mixed(pre, post, start, done) && p < q ensures false {
        StatusCreated(pre, post, q);
        assert Outside(q);
        if q in post { AncestorsAreDirs(View(post), p, q); }
      }
    } else {
      MixNothingBelow(pre, post, start, done, p);
    }
  }

  /** An unreported common path, or one whose turn has not come, shows the post node. */
  lemma MixAt(pre: Tree, post: Tree, start: Nodes, done: set<Path>, p: Path)
    requires Setting(pre, post, start) && Turn(pre, post, done, p) && StatusAt(pre, post, p) != CREATED
    requires StatusAt(pre, post, p) != DELETED
    ensures p in pre && p in post && p in Mixed(pre, post, start, done)
    ensures Mixed(pre, post, start, done)[p] == post[p].node
  {
  }

  /** Undoing a changed node yields the goal node. */
  lemma ModifiedIsGoal(pre: Tree, post: Tree, p: Path)
    requires p in pre && p in post && p != [] && Outside(p)
    requires !Has(StatusAt(pre, post, p), TYPE)
    ensures Modified(pre[p], post[p].node, StatusAt(pre, post, p)) == GoalNode(pre, post, p)
  {
  }

  lemma MixAdd(pre: Tree, post: Tree, start: Nodes, done: set<Path>, p: Path)
    ensures Mixed(pre, post, start, done + {p})
         == if p in pre then Mixed(pre, post, start, done)[p := GoalNode(pre, post, p)]
           else Mixed(pre, post, start, done) - {p}
  {
  }

  /** What has to be created anew is created as the goal wants it. */
  lemma RestoredIsGoal(pre: Tree, post: Tree, p: Path)
    requires p in Diff(pre, post) && p in pre && Has(StatusAt(pre, post, p), DELETED | TYPE)
    ensures GoalNode(pre, post, p) == Restored(pre[p])
  {
  }

  /** A successful undo of the path whose turn it is moves the mix one path on. */
  lemma MixStep(pre: Tree, post: Tree, start: Nodes, done: set<Path>, p: Path, t: Nodes)
    requires Setting(pre, post, start) && Turn(pre, post, done, p)
    requires Undone(Mixed(pre, post, start, done), t, pre, Chosen(pre, post, p))
    ensures t == Mixed(pre, post, start, done + {p})
  {
    ParseRender(p);
    StatusCreated(pre, post, p);
    MixAdd(pre, post, start, done, p);
    var status := StatusAt(pre, post, p);
    if status == CREATED {
    } else if Has(status, DELETED | TYPE) {
      RestoredIsGoal(pre, post, p);
    } else {
      UndoParts(status);
      MixAt(pre, post, start, done, p);
      ModifiedIsGoal(pre, post, p);
    }
  }

  ghost function PathsOf(steps: seq<UndoStep>): set<Path> {
    set s | s in steps :: Parse(s.name)
  }

  /** All files of the comparison are selected. */
  ghost predicate WholeList(fs: seq<File>, pre: Tree, post: Tree) {
    IsListing(fs, AllChosen(pre, post))
  }

  /** A step of the comparison's script. */
  ghost predicate InScript(pre: Tree, post: Tree, s: UndoStep) {
    Parse(s.name) in Diff(pre, post) && s == StepOf(Chosen(pre, post, Parse(s.name)))
  }

  ghost predicate Covered(steps: seq<UndoStep>, pre: Tree, post: Tree, p: Path) {
    StepOf(Chosen(pre, post, p)) in steps
  }

  lemma StepsAreDiff(fs: seq<File>, pre: Tree, post: Tree)
    requires WholeList(fs, pre, post)
    ensures forall p :: p in Diff(pre, post) ==> Covered(UndoSteps(fs), pre, post, p)
    ensures forall s :: s in UndoSteps(fs) ==> InScript(pre, post, s)
  {
    UndoStepsOrdered(fs);
    forall f ensures f in fs <==> f in AllChosen(pre, post) {
      assert f in multiset(fs) <==> f in multiset(AllChosen(pre, post));
    }
    forall p | p in Diff(pre, post) ensures Covered(UndoSteps(fs), pre, post, p) {
      assert Chosen(pre, post, p) in AllChosen(pre, post);
    }
    forall s | s in UndoSteps(fs) ensures InScript(pre, post, s) {
      var f :| f in fs && f.undo && s == StepOf(f);
      var p :| p in Diff(pre, post) && f == Chosen(pre, post, p);
      ParseRender(p);
    }
  }

  /** In a complete, ordered script every step comes at its turn. */
  lemma ItsTurn(steps: seq<UndoStep>, i: nat, pre: Tree, post: Tree)
    requires i < |steps| && Ordered(steps)
    requires forall p :: p in Diff(pre, post) ==> Covered(steps, pre, post, p)
    requires forall s :: s in steps ==> InScript(pre, post, s)
    ensures Turn(pre, post, PathsOf(steps[..i]), Parse(steps[i].name))
  {
    var p, done := Parse(steps[i].name), PathsOf(steps[..i]);
    assert steps[i] in steps && InScript(pre, post, steps[i]);
    forall q | q in done ensures MayBeEarlier(pre, post, p, q) {
      var s :| s in steps[..i] && Parse(s.name) == q;
      var k :| 0 <= k < i && steps[k] == s;
      EarlierStep(steps, k, i, pre, post);
    }
    forall q | q in Diff(pre, post) && q != p && MustBeEarlier(pre, post, p, q) ensures q in done {
      assert Covered(steps, pre, post, q);
      EarlierPath(steps, i, pre, post, q);
    }
    TurnHasCome(pre, post, done, p);
  }

  /** What has to come before p. */
  ghost predicate MustBeEarlier(pre: Tree, post: Tree, p: Path, q: Path) {
    if StatusAt(pre, post, p) == CREATED then StatusAt(pre, post, q) == CREATED && p < q
    else StatusAt(pre, post, q) == CREATED || q < p
  }

  ghost predicate MayBeEarlier(pre: Tree, post: Tree, p: Path, q: Path) {
    && q in Diff(pre, post) && q != p
    && (StatusAt(pre, post, p) == CREATED ==> StatusAt(pre, post, q) == CREATED && !(q < p))
    && (p < q ==> StatusAt(pre, post, q) == CREATED)
  }

  lemma TurnHasCome(pre: Tree, post: Tree, done: set<Path>, p: Path)
    requires p in Diff(pre, post) && forall q :: q in done ==> MayBeEarlier(pre, post, p, q)
    requires forall q :: q in Diff(pre, post) && q != p && MustBeEarlier(pre, post, p, q) ==> q in done
    ensures Turn(pre, post, done, p)
  {
  }

  lemma EarlierStep(steps: seq<UndoStep>, k: nat, i: nat, pre: Tree, post: Tree)
    requires k < i < |steps| && Ordered(steps) && InScript(pre, post, steps[k]) && InScript(pre, post, steps[i])
    ensures MayBeEarlier(pre, post, Parse(steps[i].name), Parse(steps[k].name))
  {
    assert Before(steps[k], steps[i]);
    OrderOfPaths(pre, post, Parse(steps[k].name), Parse(steps[i].name));
  }

  lemma EarlierPath(steps: seq<UndoStep>, i: nat, pre: Tree, post: Tree, q: Path)
    requires i < |steps| && Ordered(steps) && Covered(steps, pre, post, q) && InScript(pre, post, steps[i])
    requires q != Parse(steps[i].name) && MustBeEarlier(pre, post, Parse(steps[i].name), q)
    ensures q in PathsOf(steps[..i])
  {
    var p := Parse(steps[i].name);
    var s := StepOf(Chosen(pre, post, q));
    ParseRender(q);
    var k :| 0 <= k < |steps| && steps[k] == s;
    if k > i {
      assert Before(steps[i], steps[k]);
      OrderOfPaths(pre, post, p, q);
    }
    assert steps[k] in steps[..i];
  }

  /** What the order of two steps says about their paths. */
  lemma OrderOfPaths(pre: Tree, post: Tree, q: Path, p: Path)
    requires Before(StepOf(Chosen(pre, post, q)), StepOf(Chosen(pre, post, p)))
    ensures q != p
    ensures StatusAt(pre, post, p) == CREATED ==> StatusAt(pre, post, q) == CREATED && !(q < p)
    ensures StatusAt(pre, post, q) != CREATED ==> !(p < q)
  {
    LessTotal(Render(p), Render(q));
    if q < p { AncestorsFirst(q, p); }
    if p < q { AncestorsFirst(p, q); }
  }

  /** The paths of the selected files. */
  ghost function Selected(fs: seq<File>): set<Path> {
    set f | f in fs && f.undo :: Parse(f.name)
  }

  /** Nothing but selected paths changed; what is new elsewhere are directories above selected paths. */
  ghost predicate OnlySelected(t: Nodes, t': Nodes, selected: set<Path>) {
    && (forall q :: q in t && q !in selected ==> q in t' && t'[q] == t[q])
    && (forall q :: q in t' && q !in t && q !in selected ==> t'[q].Dir? && exists p :: p in selected && q < p)
  }

  lemma SelectedStep(t: Nodes, t1: Nodes, t2: Nodes, selected: set<Path>, p: Path)
    requires OnlySelected(t, t1, selected) && OnlyAtOrMissingAbove(t1, t2, p) && p in selected
    ensures OnlySelected(t, t2, selected)
  {
  }

  ghost predicate AllDefined(env: Env, pre: Tree, fs: seq<File>) {
    forall f :: f in fs && f.undo ==> UndoDefined(env, pre, f)
  }

  /** Every selected undo can succeed. */
  ghost predicate AllFine(slash: bool, pre: Tree, fs: seq<File>) {
    forall f :: f in fs && f.undo ==> UndoFine(slash, pre, f)
  }

  lemma FineIsDefined(env: Env, pre: Tree, fs: seq<File>)
    requires AllFine(env.slash, pre, fs)
    ensures AllDefined(env, pre, fs)
  {
  }

  /** A complete comparison, fresh from the two snapshots, on a system that still is the post snapshot. */
  ghost predicate Complete(fs: seq<File>, pre: Tree, post: Tree, start: Nodes) {
    Setting(pre, post, start) && Closed(start) && WholeList(fs, pre, post)
  }

  ghost predicate FineSoFar(slash: bool, pre: Tree, post: Tree, steps: seq<UndoStep>) {
    forall s :: s in steps ==> UndoFine(slash, pre, Chosen(pre, post, Parse(s.name)))
  }

  /** Where a complete run stands after its first i steps. */
  ghost predicate Midway(env: Env, fs: seq<File>, pre: Tree, post: Tree, start: Nodes, t: Nodes, i: nat, ok: bool)
    requires i <= |UndoSteps(fs)|
  {
    && (AllDefined(env, pre, fs) && ok ==>
          t == Mixed(pre, post, start, PathsOf(UndoSteps(fs)[..i]))
          && FineSoFar(env.slash, pre, post, UndoSteps(fs)[..i]))
    && (env.Benign() && AllFine(env.slash, pre, fs) ==> ok)
  }

  lemma ChosenIsFound(fs: seq<File>, pre: Tree, post: Tree, i: nat)
    requires WholeList(fs, pre, post) && i < |UndoSteps(fs)|
    ensures var k := FindIndex(fs, UndoSteps(fs)[i].name);
            k < |fs| && fs[k] == Chosen(pre, post, Parse(UndoSteps(fs)[i].name))
  {
    var step := UndoSteps(fs)[i];
    UndoStepsOrdered(fs);
    StepsAreDiff(fs, pre, post);
    assert step in UndoSteps(fs);
    var f :| f in fs && f.undo && step == StepOf(f);
    var k :| 0 <= k < |fs| && fs[k] == f;
    FindIndexFinds(fs, k);
    assert f in multiset(fs);
    var p :| p in Diff(pre, post) && f == Chosen(pre, post, p);
    ParseRender(p);
  }

  lemma PathsGrow(steps: seq<UndoStep>, i: nat)
    requires i < |steps|
    ensures PathsOf(steps[..i + 1]) == PathsOf(steps[..i]) + {Parse(steps[i].name)}
  {
  }

  lemma TurnAt(fs: seq<File>, pre: Tree, post: Tree, i: nat)
    requires WholeList(fs, pre, post) && i < |UndoSteps(fs)|
    ensures Turn(pre, post, PathsOf(UndoSteps(fs)[..i]), Parse(UndoSteps(fs)[i].name))
  {
    StepsAreDiff(fs, pre, post);
    UndoStepsOrdered(fs);
    ItsTurn(UndoSteps(fs), i, pre, post);
  }

  lemma OneStepOn(env: Env, fs: seq<File>, pre: Tree, post: Tree, start: Nodes, t: Nodes, t': Nodes, i: nat, ok: bool,
                  ok': bool)
    requires Complete(fs, pre, post, start) && i < |UndoSteps(fs)| && Closed(t)
    requires Midway(env, fs, pre, post, start, t, i, ok)
    requires var f := Chosen(pre, post, Parse(UndoSteps(fs)[i].name));
      Undoable(t, pre, f) ==> Exact(env, t, t', pre, f, ok')
    ensures Midway(env, fs, pre, post, start, t', i + 1, ok && ok')
  {
    var steps := UndoSteps(fs);
    var p := Parse(steps[i].name);
    TurnAt(fs, pre, post, i);
    PathsGrow(steps, i);
    ChosenIsFound(fs, pre, post, i);
    if AllFine(env.slash, pre, fs) { FineIsDefined(env, pre, fs); }
    if AllDefined(env, pre, fs) && ok {
      MixUndoable(pre, post, start, PathsOf(steps[..i]), p);
      assert UndoDefined(env, pre, Chosen(pre, post, p));
      if ok' {
        MixStep(pre, post, start, PathsOf(steps[..i]), p, t');
        FineGrows(env.slash, pre, post, steps, i);
      }
    }
  }

  lemma FineGrows(slash: bool, pre: Tree, post: Tree, steps: seq<UndoStep>, i: nat)
    requires i < |steps| && FineSoFar(slash, pre, post, steps[..i])
    requires UndoFine(slash, pre, Chosen(pre, post, Parse(steps[i].name)))
    ensures FineSoFar(slash, pre, post, steps[..i + 1])
  {
  }

  lemma AllPaths(fs: seq<File>, pre: Tree, post: Tree)
    requires WholeList(fs, pre, post)
    ensures PathsOf(UndoSteps(fs)) == Diff(pre, post).Keys
  {
    StepsAreDiff(fs, pre, post);
    forall p | p in Diff(pre, post) ensures p in PathsOf(UndoSteps(fs)) {
      ParseRender(p);
      assert StepOf(Chosen(pre, post, p)) in UndoSteps(fs);
    }
  }

  lemma AllStepsFine(slash: bool, fs: seq<File>, pre: Tree, post: Tree)
    requires WholeList(fs, pre, post) && FineSoFar(slash, pre, post, UndoSteps(fs))
    ensures AllFine(slash, pre, fs)
  {
    UndoStepsOrdered(fs);
    forall f | f in fs && f.undo ensures UndoFine(slash, pre, f) {
      assert StepOf(f) in UndoSteps(fs) && f in multiset(fs);
      var p :| p in Diff(pre, post) && f == Chosen(pre, post, p);
      ParseRender(p);
    }
  }

  lemma AllTheWay(env: Env, fs: seq<File>, pre: Tree, post: Tree, start: Nodes, t: Nodes, ok: bool)
    requires Complete(fs, pre, post, start) && Midway(env, fs, pre, post, start, t, |UndoSteps(fs)|, ok)
    ensures AllDefined(env, pre, fs) && ok ==>
      AllFine(env.slash, pre, fs) && t == Mixed(pre, post, start, Diff(pre, post).Keys)
    ensures env.Benign() && AllFine(env.slash, pre, fs) ==> ok
  {
    assert UndoSteps(fs)[..|UndoSteps(fs)|] == UndoSteps(fs);
    AllPaths(fs, pre, post);
    if AllDefined(env, pre, fs) && ok { AllStepsFine(env.slash, fs, pre, post); }
  }
}
