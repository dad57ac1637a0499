/** The loop of the client's undo command (client/snapper.cc). */
module UndoLoop {
  import opened Names
  import opened Trees
  import opened Compare
  import opened FileLists
  import opened Kernel
  import opened Undo
  import opened UndoRun
  import opened UndoSelection

  method DoUndoStep(files: Files, sub: Subvolume, pre: Tree, undoStep: UndoStep) returns (ok: bool)
    requires FileLists.Ascending(files.entries)
    modifies sub
    ensures Framed(old(sub.tree), sub.tree, pre, Parse(undoStep.name))
    ensures var i := FindIndex(files.entries, undoStep.name);
      if i == |files.entries| then !ok && sub.tree == old(sub.tree)
      else Outcome(sub.env, old(sub.tree), sub.tree, pre, files.entries[i], ok)
  {
    var i := files.Find(undoStep.name);
    FindIndexMisses(files.entries, undoStep.name);
    if i == |files.entries| { return false; }
    ok := sub.DoUndo(pre, files.entries[i]);
  }

  /** Undoes all selected files in order; a failing step is reported and the rest still run. */
  method UndoAll(files: Files, sub: Subvolume, pre: Tree, ghost post: Tree) returns (ok: bool)
    requires FileLists.Ascending(files.entries)
    modifies sub
    ensures LinkFree(old(sub.tree)) && LinkFree(View(pre)) ==>
      LinkFree(sub.tree) && OnlySelected(old(sub.tree), sub.tree, Selected(files.entries))
    ensures Closed(old(sub.tree)) ==> Closed(sub.tree)
    ensures Complete(files.entries, pre, post, old(sub.tree)) && AllDefined(sub.env, pre, files.entries) && ok ==>
      AllFine(sub.env.slash, pre, files.entries) && sub.tree == Mixed(pre, post, old(sub.tree), Diff(pre, post).Keys)
    ensures Complete(files.entries, pre, post, old(sub.tree)) && sub.env.Benign() ==>
      AllFine(sub.env.slash, pre, files.entries) ==> ok
    ensures Selective(files.entries, pre, post, old(sub.tree)) && ok ==>
      sub.tree == Patched(sub.env, pre, post, old(sub.tree), Selected(files.entries))
    ensures Selective(files.entries, pre, post, old(sub.tree)) && sub.env.Benign() ==>
      (ok <==> AllFeasible(sub.env.slash, pre, post, Selected(files.entries), Selected(files.entries)))
    ensures Selective(files.entries, pre, post, old(sub.tree)) && Telling(pre, post) && ok ==>
      PartRestored(sub.env, pre, old(sub.tree), Selected(files.entries), sub.tree)
    ensures Selective(files.entries, pre, post, old(sub.tree)) && Telling(pre, post) && sub.env.Benign() ==>
      (ok <==> forall p :: p in Selected(files.entries) ==>
                 Permitted(sub.env.slash, pre, post, Selected(files.entries), p))
  {
    ghost var fs, start, env := files.entries, sub.tree, sub.env;
    var steps := files.GetUndoSteps();
    ok := true;
    if Complete(fs, pre, post, start) { assert Midway(env, fs, pre, post, start, sub.tree, 0, ok); }
    if Selective(fs, pre, post, start) { PartwayStarts(env, fs, pre, post, start); }
    for i := 0 to |steps|
      invariant files.entries == fs
      invariant LinkFree(start) && LinkFree(View(pre)) ==>
        LinkFree(sub.tree) && OnlySelected(start, sub.tree, Selected(fs))
      invariant Closed(start) ==> Closed(sub.tree)
      invariant Complete(fs, pre, post, start) ==> Midway(env, fs, pre, post, start, sub.tree, i, ok)
      invariant Selective(fs, pre, post, start) ==> Partway(env, fs, pre, post, start, sub.tree, i, ok)
    {
      ghost var t := sub.tree;
      var ok' := DoUndoStep(files, sub, pre, steps[i]);
      if LinkFree(start) && LinkFree(View(pre)) {
        UndoStepsOrdered(fs);
        assert steps[i] in steps;
        SelectedStep(start, t, sub.tree, Selected(fs), Parse(steps[i].name));
      }
      if Complete(fs, pre, post, start) {
        ChosenIsFound(fs, pre, post, i);
        OneStepOn(env, fs, pre, post, start, t, sub.tree, i, ok, ok');
      }
      if Selective(fs, pre, post, start) {
        SelectedIsFound(fs, pre, post, i);
        PartwayOn(env, fs, pre, post, start, t, sub.tree, i, ok, ok');
      }
      ok := ok && ok';
    }
    if Complete(fs, pre, post, start) { AllTheWay(env, fs, pre, post, start, sub.tree, ok); }
    if Selective(fs, pre, post, start) {
      PartwayEnds(env, fs, pre, post, start, sub.tree, ok);
      if Telling(pre, post) { PartOutcome(env, fs, pre, post, start, sub.tree, ok); }
    }
  }
}
