/** Undoing a comparison turns the post snapshot back into the pre snapshot: when, and when not. */
module UndoTheorem {
  import opened Names
  import opened Status
  import opened Trees
  import opened Compare
  import opened CmpDirs
  import opened FileLists
  import opened Kernel
  import opened Undo
  import opened UndoRun
  import opened UndoLoop

  /** Content that the comparison takes for equal is equal: no stamp lies. */
  predicate HonestAt(pre: Tree, post: Tree, p: Path)
    requires p in pre
  {
    p in post && pre[p].node.SameKind(post[p].node) && SameContent(pre[p], post[p]) ==>
      pre[p].node.Content() == post[p].node.Content()
  }

  ghost predicate Honest(pre: Tree, post: Tree) {
    forall p :: p in pre && p != [] && Outside(p) ==> HonestAt(pre, post, p)
  }

  /** A link that has to be written anew fits into the buffer of readlink. */
  predicate FitsAt(pre: Tree, post: Tree, p: Path)
    requires p in pre
  {
    pre[p].node.Lnk? && Has(StatusAt(pre, post, p), DELETED | TYPE | CONTENT) ==> |pre[p].node.target| <= READLINK_MAX
  }

  ghost predicate LinksFit(pre: Tree, post: Tree) {
    forall p :: p in pre && p != [] && Outside(p) ==> FitsAt(pre, post, p)
  }

  /** Everything that decides beforehand whether the pre snapshot can be restored. */
  ghost predicate Restorable(slash: bool, pre: Tree, post: Tree) {
    && Honest(pre, post) && LinksFit(pre, post)
    && forall p :: p in Diff(pre, post) ==> UndoFine(slash, pre, Chosen(pre, post, p))
  }

  /** Kind, content, mode and owner are those of the snapshot, below the root and outside /.snapshots. */
  ghost predicate IsRestored(t: Nodes, pre: Tree) {
    forall p :: p != [] && Outside(p) ==> (p in t <==> p in pre) && (p in t ==> t[p] == pre[p].node)
  }

  ghost predicate HiddenUnchanged(t: Nodes, t': Nodes) {
    forall p :: p == [] || !Outside(p) ==> (p in t <==> p in t') && (p in t ==> t[p] == t'[p])
  }

  lemma FullyMixed(pre: Tree, post: Tree, start: Nodes)
    requires Setting(pre, post, start)
    ensures var t := Mixed(pre, post, start, Diff(pre, post).Keys);
      && HiddenUnchanged(start, t)
      && forall p :: p != [] && Outside(p) ==> (p in t <==> p in pre) && (p in t ==> t[p] == GoalNode(pre, post, p))
  {
  }

  /** One path of the goal is the pre node exactly when its stamp did not lie and its link fits. */
  lemma GoalIsPreNode(slash: bool, pre: Tree, post: Tree, p: Path)
    requires p in pre && p != [] && Outside(p)
    requires p in Diff(pre, post) ==> UndoFine(slash, pre, Chosen(pre, post, p))
    ensures GoalNode(pre, post, p) == pre[p].node <==> HonestAt(pre, post, p) && FitsAt(pre, post, p)
  {
    ParseRender(p);
    StatusCreated(pre, post, p);
    UndoParts(StatusAt(pre, post, p));
  }

  lemma GoalIsPre(slash: bool, pre: Tree, post: Tree, t: Nodes)
    requires forall p :: p != [] && Outside(p) ==> (p in t <==> p in pre) && (p in t ==> t[p] == GoalNode(pre, post, p))
    requires forall p :: p in Diff(pre, post) ==> UndoFine(slash, pre, Chosen(pre, post, p))
    ensures IsRestored(t, pre) <==> Honest(pre, post) && LinksFit(pre, post)
  {
    forall p | p in pre && p != [] && Outside(p)
      ensures t[p] == pre[p].node <==> HonestAt(pre, post, p) && FitsAt(pre, post, p)
    {
      GoalIsPreNode(slash, pre, post, p);
    }
  }

  lemma ChosenFine(slash: bool, fs: seq<File>, pre: Tree, post: Tree)
    requires WholeList(fs, pre, post)
    ensures AllFine(slash, pre, fs) <==> forall p :: p in Diff(pre, post) ==> UndoFine(slash, pre, Chosen(pre, post, p))
  {
    forall f ensures f in fs <==> f in AllChosen(pre, post) {
      assert f in multiset(fs) <==> f in multiset(AllChosen(pre, post));
    }
    forall p | p in Diff(pre, post) ensures Chosen(pre, post, p) in fs {
      assert Chosen(pre, post, p) in AllChosen(pre, post);
    }
  }

  /** The end-to-end claim. Restorable is enough and, unless a chmod goes through a link that leads somewhere,
      necessary. */
  method UndoComparison(files: Files, sub: Subvolume, pre: Tree, ghost post: Tree) returns (ok: bool)
    requires Complete(files.entries, pre, post, sub.tree)
    modifies sub
    ensures sub.env.Benign() && Restorable(sub.env.slash, pre, post) ==> ok && IsRestored(sub.tree, pre)
    ensures sub.env.Benign() && AllDefined(sub.env, pre, files.entries) ==>
      (ok && IsRestored(sub.tree, pre) <==> Restorable(sub.env.slash, pre, post))
    ensures AllDefined(sub.env, pre, files.entries) && ok ==> HiddenUnchanged(old(sub.tree), sub.tree)
    ensures AllDefined(sub.env, pre, files.entries) && ok ==>
      (IsRestored(sub.tree, pre) <==> Honest(pre, post) && LinksFit(pre, post))
  {
    ghost var start, slash := sub.tree, sub.env.slash;
    ChosenFine(slash, files.entries, pre, post);
    ok := UndoAll(files, sub, pre, post);
    FullyMixed(pre, post, start);
    if AllFine(slash, pre, files.entries) {
      FineIsDefined(sub.env, pre, files.entries);
      GoalIsPre(slash, pre, post, Mixed(pre, post, start, Diff(pre, post).Keys));
    }
  }

  lemma TellingIsHonest(pre: Tree, post: Tree)
    requires Telling(pre, post)
    ensures Honest(pre, post) && LinksFit(pre, post)
  {
    forall p | p in pre && p != [] && Outside(p) ensures HonestAt(pre, post, p) && FitsAt(pre, post, p) {
      OutsideIs(p);
      TellingGoal(pre, post, p);
    }
  }

  /** Only the mount point is left to decide whether a single undo can succeed. */
  lemma TellingFine(env: Env, pre: Tree, post: Tree, p: Path)
    requires Telling(pre, post) && NoModeOverLink(pre, post) && p in Diff(pre, post)
    ensures UndoFine(env.slash, pre, Chosen(pre, post, p)) <==> p !in pre || !env.slash || |p| > 1
    ensures UndoDefined(env, pre, Chosen(pre, post, p))
  {
    ParseRender(p);
    StatusCreated(pre, post, p);
    UndoParts(StatusAt(pre, post, p));
    OutsideIs(p);
    if p in pre {
      TellingGoal(pre, post, p);
      if p in post { CmpFilesTells(pre[p], post[p]); }
    }
  }

  /** Two readable nodes without false stamps get status 0 exactly when they are the same. */
  lemma NoStatusIffSame(pre: Tree, post: Tree, p: Path)
    requires Telling(pre, post) && p in pre && p in post && p != [] && p[0] != ".snapshots"
    requires post[p].readable && (post[p].node.Lnk? ==> post[p].node.target != "")
    ensures StatusAt(pre, post, p) == 0 <==> pre[p].node == post[p].node
  {
    OutsideIs(p);
    TellingGoal(pre, post, p);
    CmpFilesTells(pre[p], post[p]);
    assert StampsTell(pre[p], post[p]);
  }

  lemma TopSameIff(pre: Tree, post: Tree)
    requires Telling(pre, post) && ReadableTop(post)
    ensures TopSame(pre, post) <==> forall p :: p in Diff(pre, post) && |p| == 1 ==> p !in pre
  {
    forall n: Name | n != ".snapshots" && [n] in pre
      ensures [n] !in Diff(pre, post) <==> [n] in post && post[[n]].node == pre[[n]].node
    {
      OutsideIs([n]);
      StatusCreated(pre, post, [n]);
      if [n] in post { NoStatusIffSame(pre, post, [n]); }
    }
    forall p | p in Diff(pre, post) && |p| == 1 ensures p == [p[0]] && p[0] != ".snapshots" {
      StatusCreated(pre, post, p);
      OutsideIs(p);
    }
  }

  /** Where no stamp lies and all can be read, no more is asked than that no mode has to be set where a link was; and
      at "/" that nothing right below it has to be made or changed. */
  lemma TellingRestorable(env: Env, pre: Tree, post: Tree)
    requires Telling(pre, post) && NoModeOverLink(pre, post)
    ensures DiffDefined(env, pre, post)
    ensures !env.slash ==> Restorable(env.slash, pre, post)
    ensures env.slash && ReadableTop(post) ==> (Restorable(env.slash, pre, post) <==> TopSame(pre, post))
  {
    TellingIsHonest(pre, post);
    forall p | p in Diff(pre, post)
      ensures UndoFine(env.slash, pre, Chosen(pre, post, p)) <==> p !in pre || !env.slash || |p| > 1
      ensures UndoDefined(env, pre, Chosen(pre, post, p))
    {
      TellingFine(env, pre, post, p);
    }
    if env.slash && ReadableTop(post) {
      TopSameIff(pre, post);
      forall p | p in Diff(pre, post) ensures |p| >= 1 {
        StatusCreated(pre, post, p);
      }
    }
  }

  /** A regular file that is gone, or became something else, and cannot be read any more, is not restored. */
  lemma UnreadableIsLost(slash: bool, pre: Tree, post: Tree, p: Path)
    requires p in pre && pre[p].node.Reg? && !pre[p].readable && p != [] && p[0] != ".snapshots"
    requires p !in post || !post[p].node.Reg?
    ensures !Restorable(slash, pre, post)
  {
    ParseRender(p);
    OutsideIs(p);
    StatusCreated(pre, post, p);
    UndoParts(StatusAt(pre, post, p));
    if p in post { CmpFilesTells(pre[p], post[p]); }
    assert p in Diff(pre, post);
    assert !UndoFine(slash, pre, Chosen(pre, post, p));
  }

  /** Selecting every entry of the sorted difference gives the complete list. */
  lemma SelectedIsWhole(fs: seq<File>, pre: Tree, post: Tree)
    requires IsListing(fs, DiffFiles(pre, post))
    ensures WholeList(AllSelected(fs), pre, post)
  {
    var gs := AllSelected(fs);
    forall g ensures g in gs <==> g in AllChosen(pre, post) {
      if g in gs {
        var i :| 0 <= i < |gs| && gs[i] == g;
        InListing(fs, DiffFiles(pre, post), fs[i]);
        var p :| p in Diff(pre, post) && fs[i] == FileAt(pre, post, p);
        assert g == Chosen(pre, post, p);
      }
      if g in AllChosen(pre, post) {
        var p :| p in Diff(pre, post) && g == Chosen(pre, post, p);
        InListing(fs, DiffFiles(pre, post), FileAt(pre, post, p));
        var i :| 0 <= i < |fs| && fs[i] == FileAt(pre, post, p);
        assert gs[i] == g;
      }
    }
    AscendingListing(gs, AllChosen(pre, post));
  }

  /** No link of the difference is chmodded, or links lead nowhere. */
  ghost predicate DiffDefined(env: Env, pre: Tree, post: Tree) {
    forall p :: p in Diff(pre, post) ==> UndoDefined(env, pre, Chosen(pre, post, p))
  }

  lemma WholeDefined(env: Env, fs: seq<File>, pre: Tree, post: Tree)
    requires WholeList(fs, pre, post)
    ensures AllDefined(env, pre, fs) <==> DiffDefined(env, pre, post)
  {
    forall f ensures f in fs <==> f in AllChosen(pre, post) {
      InListing(fs, AllChosen(pre, post), f);
    }
    forall p | p in Diff(pre, post) ensures Chosen(pre, post, p) in fs {
      assert Chosen(pre, post, p) in AllChosen(pre, post);
    }
  }

  /** From the two snapshots alone: walk, sort, select everything, undo. */
  method CompareAndUndo(sub: Subvolume, pre: Tree, post: Tree) returns (ok: bool)
    requires Setting(pre, post, sub.tree) && Closed(sub.tree)
    modifies sub
    ensures sub.env.Benign() && Restorable(sub.env.slash, pre, post) ==> ok && IsRestored(sub.tree, pre)
    ensures sub.env.Benign() && DiffDefined(sub.env, pre, post) ==>
      (ok && IsRestored(sub.tree, pre) <==> Restorable(sub.env.slash, pre, post))
    ensures DiffDefined(sub.env, pre, post) && ok ==> HiddenUnchanged(old(sub.tree), sub.tree)
    ensures sub.env.Benign() && Telling(pre, post) && NoModeOverLink(pre, post) && !sub.env.slash ==>
      ok && forall p: Path :: p != [] && p[0] != ".snapshots" ==>
        (p in sub.tree <==> p in pre) && (p in pre ==> sub.tree[p] == pre[p].node)
    ensures sub.env.Benign() && Telling(pre, post) && NoModeOverLink(pre, post) && sub.env.slash ==>
      ReadableTop(post) ==> (ok && IsRestored(sub.tree, pre) <==> TopSame(pre, post))
  {
    if Telling(pre, post) && NoModeOverLink(pre, post) { TellingRestorable(sub.env, pre, post); }
    forall p: Path ensures Outside(p) <==> p == [] || p[0] != ".snapshots" { OutsideIs(p); }
    var files := new Files();
    CmpDirs.CmpDirs(pre, post, files);
    files.Sort();
    DiffFilesUnique(pre, post);
    SortedIsListing(files.entries, DiffFiles(pre, post));
    SelectedIsWhole(files.entries, pre, post);
    files.SelectAll();
    WholeDefined(sub.env, files.entries, pre, post);
    ok := UndoComparison(files, sub, pre, post);
  }

  /** A subvolume with a single entry. */
  function Single(name: Name, e: Entry): Tree {
    map[[] := Entry(Dir(0x1ED, 0, 0), 0, 1, true), [name] := e]
  }

  lemma SingleIs(name: Name, e1: Entry, e2: Entry)
    requires name != ".snapshots"
    ensures ValidTree(Single(name, e1))
    ensures [name] in Diff(Single(name, e1), Single(name, e2)) <==> CmpFiles(e1, e2) != 0
    ensures StatusAt(Single(name, e1), Single(name, e2), [name]) == CmpFiles(e1, e2)
    ensures forall p :: p in Diff(Single(name, e1), Single(name, e2)) ==> p == [name]
  {
    assert SNAPSHOTS_DIR[0] == ".snapshots" && [name][0] == name;
    forall p | p in Diff(Single(name, e1), Single(name, e2)) ensures p == [name] {
      StatusCreated(Single(name, e1), Single(name, e2), p);
    }
  }

  const OPEN_DIR := Entry(Dir(0x1ED, 0, 0), 0, 2, true)
  const SHUT_DIR := Entry(Dir(0x1C0, 0, 0), 0, 2, true)

  /** A changed mode right below "/" cannot be undone, though it could be elsewhere: the leading path of "/etc" is the
      empty string. */
  lemma RootEntryCounterexample()
    ensures var pre, post := Single("etc", OPEN_DIR), Single("etc", SHUT_DIR);
            Restorable(false, pre, post) && !Restorable(true, pre, post)
  {
    var pre, post := Single("etc", OPEN_DIR), Single("etc", SHUT_DIR);
    SingleIs("etc", OPEN_DIR, SHUT_DIR);
    ModeDiffers(OPEN_DIR, SHUT_DIR);
    ParseRender(["etc"]);
    DirectoryFine(pre, ["etc"]);
    NoLinks(pre, post);
  }

  lemma ModeDiffers(e1: Entry, e2: Entry)
    requires e1 == OPEN_DIR && e2 == SHUT_DIR
    ensures CmpFiles(e1, e2) == PERMISSIONS
  {
  }

  lemma NoLinks(pre: Tree, post: Tree)
    requires forall p :: p in pre ==> pre[p].node.Dir?
    ensures Honest(pre, post) && LinksFit(pre, post)
  {
  }

  lemma DirectoryFine(pre: Tree, p: Path)
    requires p in pre && pre[p].node.Dir?
    ensures UndoFine(false, pre, File(Render(p), PERMISSIONS, true))
    ensures |p| == 1 ==> !UndoFine(true, pre, File(Render(p), PERMISSIONS, true))
  {
    ParseRender(p);
  }

  lemma DirectoriesDefined(env: Env, pre: Tree, fs: seq<File>)
    requires pre == Single("etc", OPEN_DIR)
    ensures AllDefined(env, pre, fs)
  {
  }

  /** The run itself: it restores the mode of "etc" exactly where the subvolume is not mounted at "/". */
  method UndoRootEntry(files: Files, sub: Subvolume, pre: Tree, ghost post: Tree) returns (ok: bool)
    requires pre == Single("etc", OPEN_DIR) && post == Single("etc", SHUT_DIR)
    requires Complete(files.entries, pre, post, sub.tree) && sub.env.Benign()
    modifies sub
    ensures ok && IsRestored(sub.tree, pre) <==> !sub.env.slash
  {
    RootEntryCounterexample();
    DirectoriesDefined(sub.env, pre, files.entries);
    ok := UndoComparison(files, sub, pre, post);
  }

  const SOME_LINK := Entry(Lnk(0, 0, "b"), 0, 2, true)
  const SOME_FILE := Entry(Reg(0x1A4, 0, 0, ""), 1, 3, true)

  /** A link that was replaced by a file of another mode: the restored link is chmodded through. */
  lemma LinkCounterexample()
    ensures var pre, post := Single("a", SOME_LINK), Single("a", SOME_FILE);
            Honest(pre, post) && LinksFit(pre, post) && !Restorable(false, pre, post) && !Restorable(true, pre, post)
  {
    var pre, post := Single("a", SOME_LINK), Single("a", SOME_FILE);
    SingleIs("a", SOME_LINK, SOME_FILE);
    ParseRender(["a"]);
    assert CmpFiles(SOME_LINK, SOME_FILE) == TYPE | PERMISSIONS;
    assert !UndoFine(false, pre, Chosen(pre, post, ["a"]));
    assert !UndoFine(true, pre, Chosen(pre, post, ["a"]));
    forall p | p in pre ensures p == [] || p == ["a"] {}
  }

  /** The run itself, where the link leads nowhere: although no call is refused, it does not succeed. */
  method UndoLink(files: Files, sub: Subvolume, pre: Tree, ghost post: Tree) returns (ok: bool)
    requires pre == Single("a", SOME_LINK) && post == Single("a", SOME_FILE)
    requires Complete(files.entries, pre, post, sub.tree) && sub.env.Benign() && sub.env.Dangling()
    modifies sub
    ensures !(ok && IsRestored(sub.tree, pre))
  {
    LinkCounterexample();
    ok := UndoComparison(files, sub, pre, post);
  }
}
